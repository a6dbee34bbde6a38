# Jet-pump station solvers

A Dafny model of the station solvers of a downhole jet pump
(`flow/jetflow.py`). The solvers walk the fluid through the pump's hydraulic
stations:

- **throat entry**: a downward stepped pressure search that records an energy
  trace until the flow goes sonic (`tee_last`), a slope mask and a
  zero-energy lookup on that trace (`tee_positive_slope`, `tee_zero`), and a
  bounded secant search for the suction pressure at which the entry energy
  at Mach 1 vanishes (`psu_secant`, `tee_minimize`);
- **nozzle**: Bernoulli's relation for the power-fluid velocity
  (`nozzle_velocity`);
- **throat mixture**: the outlet momentum with its half-weighted friction
  term (`throat_outlet_momentum`), a bounded fixed-point iteration for the
  throat discharge pressure (`throat_discharge`) and the mixed watercut
  (`throat_wc`);
- **diffuser**: an upward stepped pressure search and interpolation of the
  discharge pressure where the diffuser energy crosses zero
  (`diffuser_ke`, `diffuser_discharge`).

Everything is stated over Dafny `real`. The fluid-property model (mixture
density, sonic velocity, in-situ volumetric flow), the reservoir inflow curve
and the single-phase helper formulas (velocity, momentum, mass flow, momentum
to psi) are uninterpreted functions carried in datatypes
(`Collaborators.MixtureModel`, `InFlow`, `SinglePhase`). The only thing
assumed of them is that density and sonic velocity are positive
(`Collaborators.Mixture`).

Layout:

- `status.dfy`: error kinds and the `Result` type.
- `collaborators.dfy`: the uninterpreted collaborators.
- `numerics.dfy`: numpy's `interp`, `flip` and boolean indexing, and the
  tolerance predicates the loops use.
- `station.dfy`: the closed-form station formulas.
- `energy_trace.dfy`: the energy trace both stepped searches build. The i-th
  sample is the station conditioned at the i-th trial pressure, with the
  expansion energy accumulated panel by panel.
- `throat_entry.dfy`, `suction.dfy`, `throat_mixture.dfy`, `diffuser.dfy`:
  the four solvers.

Each `while` loop is a recursive function that counts its passes. The entry
search terminates because the pressure falls by 50 psi per pass and the
guard fails at the 50 psi floor. The other three loops have explicit caps
(10, 10 and 15).

## Model

| member | source | states |
|---|---|---|
| Station.EnteranceKE | flow/jetflow.py:18-32 | The entrance kinetic term is non-negative whenever the loss factor is at least -1. It is zero exactly when the velocity is zero or the factor is -1. |
| Station.EnteranceKEMonotone | flow/jetflow.py:31 | The entrance kinetic term does not decrease as the entry loss factor grows. |
| Station.IncrementalEE | flow/jetflow.py:35-51 | No contract of its own. Its properties are stated by `IncrementalEEPair`, `IncrementalEESnoc` and `IncrementalEESign`. |
| Station.IncrementalEEPair | flow/jetflow.py:35-51 | On two samples the expansion energy is 144·32.174·(p2−p1)·(1/ρ1+1/ρ2)/2. With positive densities it is negative for a step down and positive for a step up. |
| Station.IncrementalEESign | flow/jetflow.py:35-51 | With positive densities, a path of two or more pressures that only falls loses expansion energy, and one that only rises gains it. |
| Station.IncrementalEESnoc | flow/jetflow.py:50 | The trapezoid sum over a pressure path is additive: appending a sample adds exactly the panel of the last two samples. |
| Station.PsuSecant | flow/jetflow.py:271-286 | The next guess lies where the chord through the two samples crosses zero. A guess whose value is already zero is kept. |
| Station.PsuSecantLinear | flow/jetflow.py:285 | On a linear objective m·(p−r) with m≠0 and two distinct guesses, the secant step is defined and returns exactly r. |
| Station.PsuSecantSymmetric | flow/jetflow.py:285 | The secant step does not depend on the order of its two samples. |
| Station.ThroatOutletMomentum | flow/jetflow.py:395-415 | The mixing momentum is the single-phase momentum at the given density, velocity and area. Mixing plus friction momentum is (1+kth/2) times the mixing momentum, so with kth≥0 friction never lowers it. |
| Station.ThroatWC | flow/jetflow.py:490-507 | For a producing well (oil rate >0, suction watercut in [0,1), power water ≥0), the throat watercut is at least the suction watercut and below 1, and equals it exactly when no power water is added. |
| Station.ThroatWCBounds | flow/jetflow.py:490-507 | With oil rate >0, suction watercut in [0,1) and power water ≥0, the throat watercut lies in [wc_su, 1). It equals wc_su exactly when no power water is added. |
| Station.ThroatWCMonotone | flow/jetflow.py:504-506 | The throat watercut is defined and does not decrease as the power-water rate grows. |
| Station.DiffuserKE | flow/jetflow.py:510-525 | With a loss factor ≥1 the diffuser kinetic term is non-negative. With a factor ≤1 it is at most the discharge kinetic energy vdi²/2. |
| Station.DiffuserKEMonotone | flow/jetflow.py:524 | The diffuser kinetic term does not decrease with kdi. It strictly increases while the throat mixture moves. |
| Station.NozzleVelocityUnique | flow/jetflow.py:334-349 | Bernoulli's relation for the nozzle velocity (v≥0, v²·ρ·(1+knz) = 2·32.174·144·(pni−pte)) has a solution only when pni≥pte. The solution is zero without head and unique. |
| EnergyTrace.TraceKeeps | flow/jetflow.py:188-215 | The trace keeps the accumulation invariant and steps by exactly the search's increment. Every sample is the station conditioned at its own pressure. |
| EnergyTrace.TraceGrows | flow/jetflow.py:201-215 | One more pass appends one sample and leaves earlier samples unchanged. The new pressure is the previous one plus the step. The new expansion energy is the previous plus the trapezoid of the last two samples. The new total is kinetic plus expansion. |
| EnergyTrace.TraceUnique | flow/jetflow.py:188-215 | Any trace that starts at p0, keeps the invariant and is conditioned by the station is the trace the search builds. |
| EnergyTrace.ExpansionFollowsStep | flow/jetflow.py:214 | On an accumulated trace with positive densities, each step down in pressure lowers the expansion energy and each step up raises it. |
| EnergyTrace.CumulativeExpansion | flow/jetflow.py:213 | The expansion energy of a sample is the trapezoid sum over the whole pressure path from the first sample. |
| ThroatEntry.Passes | flow/jetflow.py:199-201 | The entry loop stops at the first trial pressure where the flow is sonic (Mach >1) or the pressure is at most 50 psi. Every earlier trial pressure was subsonic and above the floor. |
| ThroatEntry.EntrySearch | flow/jetflow.py:199-215 | The loop's trace starts at the suction pressure and records one Mach number per sample. |
| ThroatEntry.EntrySearchStops | flow/jetflow.py:199-215 | The entry trace is valid (stepped by −50, accumulated, each sample and Mach conditioned at its pressure) and the loop guard fails at its last sample. |
| ThroatEntry.TeeLastAt | flow/jetflow.py:183 | The oil rate is the inflow curve's rate at the suction pressure. The trace starts at the suction pressure, with as many Mach numbers as samples. |
| ThroatEntry.TeeLastTrace | flow/jetflow.py:183-222 | The first sample has zero expansion energy and total equal to its kinetic term. The loop stops only when sonic or at the floor. Every appended pressure is positive. The number of steps is below psu/50. If Mach never reaches 1, the reported energy is the last sample's. |
| ThroatEntry.TeeFin | flow/jetflow.py:217-220 | When the last Mach number is below 1 the reported energy is the last sample's. When the Mach number is at least 1 at the first sample and the last, interpolating at Mach 1 clamps to the first sample's energy. |
| ThroatEntry.TeeFinSonicSegment | flow/jetflow.py:217-218 | When only the last Mach number is ≥1, the energy at Mach 1 is interpolated on the final segment of the trace. |
| ThroatEntry.EntryPressuresPositive | flow/jetflow.py:199-202 | Each appended pressure comes from a predecessor above 50 psi, so it is positive. The step count is below psu/50. |
| ThroatEntry.SteppedUniform | flow/jetflow.py:202 | A trace stepped by a non-zero d has evenly spaced pressures, d apart. |
| ThroatEntry.Gradient | flow/jetflow.py:237-238 | On evenly spaced pressures h apart, the gradient at sample i is non-negative exactly when the one-sided (at the ends) or central (inside) energy difference times h is non-negative. |
| ThroatEntry.GradientLinear | flow/jetflow.py:238 | On energies linear in the sample index with slope s per unit pressure, the gradient reads s at every sample, ends included. |
| ThroatEntry.TeePositiveSlope | flow/jetflow.py:225-240 | The mask keeps sample i exactly when the neighbouring energy difference (one-sided at the ends, central inside) has the sign of the pressure step or is zero. |
| ThroatEntry.TeeZero | flow/jetflow.py:243-268 | The lookup fails with too few samples exactly when there are fewer than two. With two or more it succeeds exactly when the mask keeps a sample. A pressure it finds lies within the trace's pressure range. |
| ThroatEntry.TeeZeroCrossing | flow/jetflow.py:262-266 | When the flipped, masked energies are strictly increasing and segment k brackets zero, the pressure, density and velocity found are each the straight line through segment k of their own flipped, masked arrays, evaluated where the energy is zero. |
| ThroatEntry.TeeZeroClamped | flow/jetflow.py:262-266 | When the first flipped, masked energy is already non-negative, the lookup returns the first kept entries. When every kept energy is negative, it returns the last kept entries. |
| Suction.SecantSearch | flow/jetflow.py:321-329 | The secant loop only extends the history. Each new guess is the secant update of the two before it, and each recorded value is the objective at its guess. The loop runs while the last two guesses are more than 5 psi apart and stops after at most 10 steps. A settled history is returned unchanged. It fails only when it reaches, below the cap, a history extended by secant steps whose last two guesses are more than 5 psi apart and whose last two objective values are equal, so the next step would divide by zero. |
| Suction.SecantLinearExact | flow/jetflow.py:313-329 | On a linear objective with seeds more than 5 psi apart, the search lands on the root and takes one or two steps. |
| Suction.SeededSearch | flow/jetflow.py:313-318 | Seeds are pres−300 and pres−400. At least one and at most ten secant steps are taken, so the last trace is always defined. It fails only on a zero divisor reached from those seeds, as in SecantSearch. |
| Suction.TeeMinimize | flow/jetflow.py:291-331 | The minimiser fails exactly when the seeded search fails or, after it, the zero lookup on the last guess's entry trace fails, with that error. Otherwise it succeeds with the last guess (even when not converged), the inflow rate at that guess and the lookup's pressure, density and velocity. The pressure found lies between the trace's floor and the guess. |
| Suction.EntryZero | flow/jetflow.py:330 | The lookup on an entry trace fails for lack of samples exactly when the trace has one sample. With two or more samples its pressures are evenly spaced, its result is the throat-entry lookup on the trace's arrays, and it succeeds exactly when the slope mask keeps a sample. A pressure it finds lies between the trace's last pressure and its first. |
| ThroatMixture.Estimate | flow/jetflow.py:459-466 | The code's momentum total (friction plus mixing momentum, less nozzle and entry momentum) is the closed form (1+kth/2)·mixing momentum less the inlet momentum. The estimate is pte less its pressure equivalent over the fixed throat area. The same holds for the refinement at lines 474-480. |
| ThroatMixture.ThroatDischarge | flow/jetflow.py:418-487 | The estimate list starts at pte. Each later entry is pte minus the pressure drop at the previous one, with throat area anz+ate and mass flow mnz+mte fixed for the whole loop. The loop runs while successive estimates are more than 5 psi apart and stops after at most 10 refinements. |
| ThroatMixture.Refine | flow/jetflow.py:471-485 | The refinement loop only extends the list and applies the estimate to the last entry. It stops when settled or at the cap. An already settled list is returned unchanged. |
| ThroatMixture.BalancedThroat | flow/jetflow.py:460-471 | When the momentum balance at pte vanishes, the first estimate equals pte, no refinement runs and the result is pte. |
| ThroatMixture.ConstantEstimateSettles | flow/jetflow.py:471-487 | A constant estimate settles after at most one refinement, on the constant. |
| Diffuser.DiffuserPasses | flow/jetflow.py:566-584 | The diffuser loop goes on exactly while the total energy is negative. It stops at the first non-negative energy or after 15 increments. |
| Diffuser.DiffuserDischarge | flow/jetflow.py:549-588 | The returned throat velocity is the one computed at the throat-mixture pressure before the loop. The trace starts at ptm and has at most 16 samples. |
| Diffuser.DiffuserTrace | flow/jetflow.py:555-588 | The trace has zero initial expansion energy, rises by exactly 100 psi per step and keeps the accumulation invariant. Every kinetic term uses the fixed throat velocity. Energy is negative before the last sample. The discharge pressure lies between ptm and the last trial pressure. |
| Diffuser.DischargeOnLastIncrement | flow/jetflow.py:587 | When the energy turns non-negative only at the last sample, the discharge pressure is the zero of the chord over the last increment and lies between its two pressures. |
| Diffuser.DischargeReads | flow/jetflow.py:566-587 | With n increments made, the discharge pressure is ptm when n is 0. It is the last trial pressure when the cap stopped the loop with the energy still negative. Otherwise the energy before the last increment was negative, and the pressure is the zero of the chord through the last increment and lies on it. |
| Diffuser.DischargeFrictionMonotone | flow/jetflow.py:566-587 | With a larger diffuser loss factor (all else equal) the discharge pressure is no higher. |
| Diffuser.FrictionReadsOrder | flow/jetflow.py:566-584 | With a larger diffuser loss factor (all else equal) the loop makes no more increments. When both loops make the same number, the energies at the last two trial pressures are at least as high. |
| Diffuser.FrictionStopsNoLater | flow/jetflow.py:566-584 | With a larger diffuser loss factor (all else equal) the search stops no later. |
| Diffuser.EnergyMonotone | flow/jetflow.py:577-579 | The total energy at each trial pressure does not decrease with the diffuser loss factor. |
| Numerics.InterpOnSegment | flow/jetflow.py:587 | On strictly increasing sample points, interpolation on a segment is the straight line through its end samples, as numpy's `interp` defines it. |
| Numerics.Interp | flow/jetflow.py:587 | A point at or left of the first sample reads the first value, and a point right of every sample reads the last value, as numpy's `interp` clamps. |
| Numerics.InterpAtSample | flow/jetflow.py:264 | On strictly increasing sample points, interpolation at a sample point reproduces that sample's value. |
| Numerics.InterpWithin | flow/jetflow.py:264 | Interpolation stays within the range of the interpolated values. |

## Left out

- `dete_zero` and `dete_grad_zero` (flow/jetflow.py:58-154): they delegate to `jetplot.ThroatEnteranceBook`, which is not part of this model. The entry trace is modelled from `tee_last`'s inline arrays instead.
- `nozzle_rate` and `throat_inlet_momentum`: single calls into the single-phase helpers. The inlet momentum enters `throat_discharge` as their sum (`ThroatMixture.InletMomentum`).
- `Station.NozzleVelocityUnique`: `math.sqrt` is not modelled. The nozzle velocity is characterised by Bernoulli's relation it satisfies, not computed.
- `flow/jetcheck.py`, `woffl/flow/jetgraphs.py` and `sandbox.py`: print and plot drivers, and a composition of calls not defined in `jetflow.py`.
- Floating-point rounding: all arithmetic is over exact reals.
- `ThroatEntry.TeePositiveSlope`: numpy's `gradient` is modelled only on evenly spaced pressures, which is what `tee_last` produces (50 psi apart). The non-uniform formulas are not modelled.
- `Numerics.Interp`: numpy's `interp` is modelled as a left-to-right segment scan with clamping at both ends. It agrees with numpy on strictly increasing sample points (`Numerics.InterpOnSegment`). On other inputs numpy's result is unspecified, and the model gives the scan's answer.
- The "did not converge" and "did not find discharge pressure" console messages (flow/jetflow.py:328, 483, 583) are not modelled. The loops return their last value, as the code does.
- The two-dimensional array shapes numpy gives the first energy entry (`np.array([kse_ray + ese_ray])`) are not modelled. Every trace is a flat sequence of samples. The two places where that shape makes numpy raise are listed below under `ThroatEntry.TeeFin` and `Diffuser.DiffuserDischarge`.
- ThroatEntry.TeeFin: when the flow is already sonic (Mach >1) at the suction pressure, the loop makes no pass and `tee_ray` keeps the two-dimensional shape of line 195. `np.interp` at line 218 then raises. The model does not raise; it returns the first sample's energy, which is where `interp` clamps on a flat array.
- Diffuser.DiffuserDischarge: when the energy at ptm is already non-negative, the loop makes no pass and `dte_ray` keeps the two-dimensional shape of line 561. `np.interp` at line 587 then raises. The model does not raise; it returns ptm.
- Station.ThroatWC: with `wc_su` equal to 1, or with a zero total of water and oil, the code raises `ZeroDivisionError` at line 504 or 506. The model excludes both cases by its precondition (`Station.ThroatWCDefined`) rather than returning an error.
- Suction.SecantSearch: the code divides by `dete1 - dete2` unguarded, and numpy would produce inf or nan. The model stops with `DegenerateSecantStep` instead of continuing with a non-number.
- Suction.TeeMinimize: the entry trace used for the zero lookup is the one computed in the last loop pass (flow/jetflow.py:323). `tee_last` is a pure function of the suction pressure, so the model recomputes it at the last guess.
- ThroatEntry.TeeZero: the code has no "no zero crossing" error. When the energy does not change sign on the kept samples, numpy's `interp` clamps to an end value, and the model does the same. The only failures are the ones numpy raises: `gradient` on fewer than two samples (`TooFewSamples`) and `interp` on an empty selection (`EmptyMask`).

## Behaviour notes

- More diffuser friction lowers or keeps the discharge pressure (`Diffuser.DischargeFrictionMonotone`). `diffuser_ke` grows with `kdi` (`Station.DiffuserKEMonotone`), so every trial pressure carries at least as much total energy (`Diffuser.EnergyMonotone`), the energy turns non-negative no later (`Diffuser.FrictionStopsNoLater`), and the chord through the last increment crosses zero no further up.
