/** `kinematics2l`: a feature of the two-body system built from two leptons,
    each given a mass by its flavour. */
module TwoBodyKinematics {
  import opened Lorentz
  import DileptonSelection

  /** The mass a lepton gets here: the electron mass for `|pdgId| == 11` and
      the muon mass for every other code. Unlike the pair selection there is
      no "no mass" case. */
  function AssignedMass(pdgId: int): (m: real)
    ensures m == ElectronMass <==> Abs(pdgId) == ElectronId
    ensures m == MuonMass <==> Abs(pdgId) != ElectronId
  {
    if Abs(pdgId) == ElectronId then ElectronMass else MuonMass
  }

  /** The two mass assignments agree on electrons and muons; on every other
      flavour the pair selection has no mass (and skips the pair) while this
      routine uses the muon mass. */
  lemma MassAssignmentsCompared(pdgId: int)
    ensures Abs(pdgId) == ElectronId || Abs(pdgId) == MuonId ==>
      AssignedMass(pdgId) == DileptonSelection.LeptonMass(pdgId)
    ensures !(Abs(pdgId) == ElectronId || Abs(pdgId) == MuonId) ==>
      DileptonSelection.LeptonMass(pdgId) < 0.0 && AssignedMass(pdgId) == MuonMass
  {
  }

  /** One lepton as the routine receives it. */
  datatype Lepton = Lepton(pdgId: int, pt: real, eta: real, phi: real)
  {
    /** Its four-vector, with the mass its flavour assigns. */
    function Vector(): P4
    {
      P4(pt, eta, phi, AssignedMass(pdgId))
    }
  }

  /** The features a caller may ask for. */
  datatype Observable = Mass | Pt | Eta | Phi

  /** The selector string read as an observable: "pt", "eta" and "phi" name
      theirs; any other string, "mass" included, means the invariant mass. */
  function ParseKind(kin: string): (o: Observable)
    ensures o == Pt <==> kin == "pt"
    ensures o == Eta <==> kin == "eta"
    ensures o == Phi <==> kin == "phi"
    ensures o == Mass <==> kin != "pt" && kin != "eta" && kin != "phi"
  {
    if kin == "pt" then Pt
    else if kin == "eta" then Eta
    else if kin == "phi" then Phi
    else Mass
  }

  /** The requested feature of `p1 + p2`. */
  function Feature(sum: SumOracle, o: Observable, p1: P4, p2: P4): real
  {
    match o
    case Mass => sum.mass(p1, p2)
    case Pt => sum.pt(p1, p2)
    case Eta => sum.eta(p1, p2)
    case Phi => sum.phi(p1, p2)
  }

  /** What the routine's doc comment promises ("a kinematics feature"): the
      feature `kin` names, with invariant mass as the fallback. */
  function Kinematics2lIntended(a: Lepton, b: Lepton, kin: string, sum: SumOracle): (r: real)
    ensures kin == "pt" ==> r == sum.pt(a.Vector(), b.Vector())
    ensures kin == "eta" ==> r == sum.eta(a.Vector(), b.Vector())
    ensures kin == "phi" ==> r == sum.phi(a.Vector(), b.Vector())
    ensures kin != "pt" && kin != "eta" && kin != "phi" ==> r == sum.mass(a.Vector(), b.Vector())
  {
    Feature(sum, ParseKind(kin), a.Vector(), b.Vector())
  }

  /** The routine as written: the `.Pt()`, `.Eta()` and `.Phi()` of lines
      84-86 are computed and dropped, so whatever `kin` says, the result is
      what the "mass" selector asks for. */
  function Kinematics2l(a: Lepton, b: Lepton, kin: string, sum: SumOracle): (r: real)
    ensures r == Kinematics2lIntended(a, b, "mass", sum)
  {
    sum.mass(a.Vector(), b.Vector())
  }

  /** The selector has no effect on the routine as written. */
  lemma KindIsIgnored(a: Lepton, b: Lepton, kin1: string, kin2: string, sum: SumOracle)
    ensures Kinematics2l(a, b, kin1, sum) == Kinematics2l(a, b, kin2, sum)
  {
  }

  /** Asking for "pt" of a system whose transverse momentum differs from its
      mass: the routine as written returns the mass, not the requested pt. */
  lemma AsWrittenIgnoresPt(a: Lepton, b: Lepton, sum: SumOracle)
    requires sum.pt(a.Vector(), b.Vector()) != sum.mass(a.Vector(), b.Vector())
    ensures Kinematics2l(a, b, "pt", sum) != Kinematics2lIntended(a, b, "pt", sum)
  {
  }

  /** Vector addition commutes, so swapping the two leptons changes no
      feature of their sum, for every selector. */
  lemma SwapInvariant(a: Lepton, b: Lepton, kin: string, sum: SumOracle)
    requires Commutative(sum.mass) && Commutative(sum.pt) && Commutative(sum.eta) && Commutative(sum.phi)
    ensures Kinematics2lIntended(a, b, kin, sum) == Kinematics2lIntended(b, a, kin, sum)
    ensures Kinematics2l(a, b, kin, sum) == Kinematics2l(b, a, kin, sum)
  {
  }
}
