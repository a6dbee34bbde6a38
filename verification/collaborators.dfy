/** The collaborators the station solvers call but do not own: the fluid
    mixture, the reservoir inflow curve and the single-phase helper formulas.
    Each is an uninterpreted function supplied by the caller. */
module Collaborators {

  /** A fluid mixture conditioned at (pressure psig, temperature deg F):
      `rhoMix` is the mixture density (lbm/ft3), `cMix` the mixture sonic
      velocity (ft/s) and `volmFlow` the sum of the in-situ volumetric flows
      (ft3/s) for a given standard oil rate. */
  datatype MixtureModel = MixtureModel(
    rhoMix: (real, real) -> real,
    cMix: (real, real) -> real,
    volmFlow: (real, real, real) -> real)

  /** The only promise the solvers rely on: density and sonic velocity are
      positive at every condition, so dividing by them is defined. */
  ghost predicate Physical(m: MixtureModel)
  {
    forall p, t :: m.rhoMix(p, t) > 0.0 && m.cMix(p, t) > 0.0
  }

  type Mixture = m: MixtureModel | Physical(m)
    witness MixtureModel((p, t) => 1.0, (p, t) => 1.0, (p, t, q) => 0.0)

  /** Reservoir inflow: the reservoir pressure and the oil rate (STBOPD)
      delivered at a given suction pressure. */
  datatype InFlow = InFlow(pres: real, oilFlow: real -> real)

  /** Single-phase helper formulas: velocity(q, area), momentum(rho, v, area),
      massflow(rho, v, area) and the conversion of a momentum over an area
      into a pressure difference in psi. */
  datatype SinglePhase = SinglePhase(
    velocity: (real, real) -> real,
    momentum: (real, real, real) -> real,
    massflow: (real, real, real) -> real,
    momToPsi: (real, real) -> real)
}
