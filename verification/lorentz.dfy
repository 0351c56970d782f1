/** Shared vocabulary of the selection helpers: the PtEtaPhiM four-vector the
    routines build, the features of a two-body sum, the lepton masses and the
    small arithmetic helpers the C++ takes from the standard library.

    ROOT's four-vector arithmetic (`PtEtaPhiMVector`, its `+`, `.M()`, `.Pt()`,
    `.Eta()`, `.Phi()`) and `ROOT::VecOps::DeltaR` are floating-point
    trigonometry in a foreign library. They are not modelled: every routine
    receives them as function-valued parameters, so every property below holds
    for whatever numbers that library produces. */
module Lorentz {

  /** A four-vector as given to `ROOT::Math::PtEtaPhiMVector(pt, eta, phi, m)`. */
  datatype P4 = P4(pt: real, eta: real, phi: real, m: real)

  /** The features of the sum `p1 + p2` of two four-vectors: its invariant
      mass `.M()`, its `.Pt()`, `.Eta()` and `.Phi()`. */
  datatype SumOracle = SumOracle(
    mass: (P4, P4) -> real,
    pt: (P4, P4) -> real,
    eta: (P4, P4) -> real,
    phi: (P4, P4) -> real)

  /** `ROOT::VecOps::DeltaR(eta1, eta2, phi1, phi2)`, in ROOT's argument order. */
  type DeltaRFn = (real, real, real, real) -> real

  /** Vector addition is commutative, so a feature of `p1 + p2` does not depend
      on the order of the summands. Properties that rely on this say so. */
  ghost predicate Commutative(f: (P4, P4) -> real)
  {
    forall u, v :: f(u, v) == f(v, u)
  }

  /** Rest masses in GeV (float literals in the source, exact reals here). */
  const ElectronMass: real := 0.000511
  const MuonMass: real := 0.105658

  /** PDG codes of the two lepton flavours that carry a mass. */
  const ElectronId: int := 11
  const MuonId: int := 13

  /** `abs` on a C++ int. */
  function Abs(x: int): nat
  {
    if x < 0 then -x else x
  }

  /** `fabs` on a float. */
  function RealAbs(x: real): real
  {
    if x < 0.0 then -x else x
  }

  /** `min(a, b)`: the second argument when it is strictly smaller, else the first. */
  function Min(a: real, b: real): real
  {
    if b < a then b else a
  }
}
