/** `dileptonCands`: flags the leptons of one event that belong to at least
    one opposite-charge, same-flavour pair whose invariant mass lies within
    `deltam` of `m0` (a J/Psi window by default). */
module DileptonSelection {
  import opened Lorentz

  /** Default mass window: J/Psi mass and half-width in GeV. */
  const DefaultM0: real := 3.096
  const DefaultDeltaM: real := 1.2

  /** The "no mass" value the lookup starts from (`float mass(-1)`). */
  const NoMass: real := -1.0

  /** The leptons of one event as parallel arrays. `eta` and `phi` are
      integer arrays in the routine's signature, so their values are whole
      numbers; they are widened to real when a four-vector is built. */
  datatype Leptons = Leptons(pdgId: seq<int>, pt: seq<real>, eta: seq<int>, phi: seq<int>)
  {
    /** All arrays describe the same N objects. */
    predicate Aligned()
    {
      |pt| == |pdgId| && |eta| == |pdgId| && |phi| == |pdgId|
    }

    /** The four-vector of lepton `i` with mass `m`. */
    function Vector(i: nat, m: real): P4
      requires Aligned() && i < |pdgId|
    {
      P4(pt[i], eta[i] as real, phi[i] as real, m)
    }
  }

  /** The mass assigned to a lepton by its code: electron or muon mass, or
      the negative `NoMass` for any other flavour. */
  function LeptonMass(pdgId: int): (m: real)
    ensures m >= 0.0 <==> Abs(pdgId) == ElectronId || Abs(pdgId) == MuonId
    ensures Abs(pdgId) == ElectronId ==> m == ElectronMass
    ensures Abs(pdgId) == MuonId ==> m == MuonMass
  {
    var m := NoMass;
    var m := if Abs(pdgId) == ElectronId then ElectronMass else m;
    if Abs(pdgId) == MuonId then MuonMass else m
  }

  /** The integer checks a pair must pass before its mass is computed: same
      flavour, not a same-sign product, and a flavour with a mass. */
  predicate PassesFlavourCharge(a: int, b: int)
  {
    Abs(a) == Abs(b) && !(a * b > 0) && LeptonMass(a) >= 0.0
  }

  /** The pair `(i, j)` is accepted: it passes the integer checks, and the
      invariant mass of the two leptons, both given the mass of lepton `i`'s
      flavour, is within `deltam` of `m0`. */
  predicate Accepts(l: Leptons, sum: SumOracle, m0: real, deltam: real, i: nat, j: nat)
    requires l.Aligned() && i < |l.pdgId| && j < |l.pdgId|
  {
    PassesFlavourCharge(l.pdgId[i], l.pdgId[j]) &&
    var m := LeptonMass(l.pdgId[i]);
    RealAbs(sum.mass(l.Vector(i, m), l.Vector(j, m)) - m0) <= deltam
  }

  /** Lepton `k` is a member of some accepted pair `i < j`. */
  predicate InAcceptedPair(l: Leptons, sum: SumOracle, m0: real, deltam: real, k: nat)
    requires l.Aligned() && k < |l.pdgId|
  {
    exists i: nat, j: nat :: i < j < |l.pdgId| && (k == i || k == j) && Accepts(l, sum, m0, deltam, i, j)
  }

  /** Lepton `k` is a member of an accepted pair `(a, b)` that the scan has
      already visited when it is about to examine the pair `(i, j)`. */
  predicate FlaggedBefore(l: Leptons, sum: SumOracle, m0: real, deltam: real, k: nat, i: nat, j: nat)
    requires l.Aligned() && k < |l.pdgId|
  {
    exists a: nat, b: nat :: a < b < |l.pdgId| && (a < i || (a == i && b < j)) &&
      (k == a || k == b) && Accepts(l, sum, m0, deltam, a, b)
  }

  /** Visiting the pair `(i, j)` adds exactly that pair to the visited ones. */
  lemma FlaggedStep(l: Leptons, sum: SumOracle, m0: real, deltam: real, i: nat, j: nat)
    requires l.Aligned() && i < j < |l.pdgId|
    ensures forall k: nat :: k < |l.pdgId| ==>
      (FlaggedBefore(l, sum, m0, deltam, k, i, j + 1) <==>
       FlaggedBefore(l, sum, m0, deltam, k, i, j) || ((k == i || k == j) && Accepts(l, sum, m0, deltam, i, j)))
  {
    forall k: nat | k < |l.pdgId|
      ensures FlaggedBefore(l, sum, m0, deltam, k, i, j + 1) ==>
        FlaggedBefore(l, sum, m0, deltam, k, i, j) || ((k == i || k == j) && Accepts(l, sum, m0, deltam, i, j))
    {
      if FlaggedBefore(l, sum, m0, deltam, k, i, j + 1) {
        var a: nat, b: nat :| a < b < |l.pdgId| && (a < i || (a == i && b < j + 1)) &&
          (k == a || k == b) && Accepts(l, sum, m0, deltam, a, b);
        if a < i || b < j {
          assert FlaggedBefore(l, sum, m0, deltam, k, i, j);
        }
      }
    }
    forall k: nat | k < |l.pdgId|
      ensures FlaggedBefore(l, sum, m0, deltam, k, i, j) || ((k == i || k == j) && Accepts(l, sum, m0, deltam, i, j)) ==>
        FlaggedBefore(l, sum, m0, deltam, k, i, j + 1)
    {
      if FlaggedBefore(l, sum, m0, deltam, k, i, j) {
        var a: nat, b: nat :| a < b < |l.pdgId| && (a < i || (a == i && b < j)) &&
          (k == a || k == b) && Accepts(l, sum, m0, deltam, a, b);
        assert a < i || (a == i && b < j + 1);
      } else if (k == i || k == j) && Accepts(l, sum, m0, deltam, i, j) {
        assert i < j < |l.pdgId| && (i < i || (i == i && j < j + 1));
      }
    }
  }

  /** Finishing row `i` is starting row `i + 1`; a row starts after its own
      diagonal. */
  lemma FlaggedRowDone(l: Leptons, sum: SumOracle, m0: real, deltam: real, i: nat)
    requires l.Aligned() && i < |l.pdgId|
    ensures forall k: nat :: k < |l.pdgId| ==>
      (FlaggedBefore(l, sum, m0, deltam, k, i, |l.pdgId|) <==> FlaggedBefore(l, sum, m0, deltam, k, i + 1, i + 2))
    ensures forall k: nat :: k < |l.pdgId| ==>
      (FlaggedBefore(l, sum, m0, deltam, k, i, 0) <==> FlaggedBefore(l, sum, m0, deltam, k, i, i + 1))
  {
    var n := |l.pdgId|;
    forall k: nat | k < n
      ensures FlaggedBefore(l, sum, m0, deltam, k, i, n) <==> FlaggedBefore(l, sum, m0, deltam, k, i + 1, i + 2)
    {
      if FlaggedBefore(l, sum, m0, deltam, k, i, n) {
        var a: nat, b: nat :| a < b < n && (a < i || (a == i && b < n)) &&
          (k == a || k == b) && Accepts(l, sum, m0, deltam, a, b);
        assert a < i + 1;
      }
      if FlaggedBefore(l, sum, m0, deltam, k, i + 1, i + 2) {
        var a: nat, b: nat :| a < b < n && (a < i + 1 || (a == i + 1 && b < i + 2)) &&
          (k == a || k == b) && Accepts(l, sum, m0, deltam, a, b);
        assert a < i || (a == i && b < n);
      }
    }
    forall k: nat | k < n
      ensures FlaggedBefore(l, sum, m0, deltam, k, i, 0) <==> FlaggedBefore(l, sum, m0, deltam, k, i, i + 1)
    {
      if FlaggedBefore(l, sum, m0, deltam, k, i, i + 1) {
        var a: nat, b: nat :| a < b < n && (a < i || (a == i && b < i + 1)) &&
          (k == a || k == b) && Accepts(l, sum, m0, deltam, a, b);
        assert a < i;
      }
    }
  }

  /** The intended scan (the doc comment's "pairs"): every pair `i < j < N`
      once, flags set only to true. The mask starts all false. */
  method DileptonCands(l: Leptons, sum: SumOracle, m0: real, deltam: real) returns (isValidCand: seq<bool>)
    requires l.Aligned()
    ensures |isValidCand| == |l.pdgId|
    ensures forall k :: 0 <= k < |isValidCand| ==>
      (isValidCand[k] <==> InAcceptedPair(l, sum, m0, deltam, k))
  {
    var n := |l.pdgId|;
    var mask := new bool[n](_ => false);
    for i := 0 to n
      invariant forall k: nat :: k < n ==> (mask[k] <==> FlaggedBefore(l, sum, m0, deltam, k, i, i + 1))
    {
      FlaggedRowDone(l, sum, m0, deltam, i);
      for j := i + 1 to n
        invariant forall k: nat :: k < n ==> (mask[k] <==> FlaggedBefore(l, sum, m0, deltam, k, i, j))
      {
        FlaggedStep(l, sum, m0, deltam, i, j);
        ghost var accepted := Accepts(l, sum, m0, deltam, i, j);
        if Abs(l.pdgId[i]) != Abs(l.pdgId[j]) { assert !accepted; continue; }
        if l.pdgId[i] * l.pdgId[j] > 0 { assert !accepted; continue; }
        var mass := LeptonMass(l.pdgId[i]);
        if mass < 0.0 { assert !accepted; continue; }
        var mll := sum.mass(l.Vector(i, mass), l.Vector(j, mass));
        if RealAbs(mll - m0) > deltam { assert !accepted; continue; }
        assert accepted;
        mask[i] := true;
        mask[j] := true;
      }
    }
    isValidCand := mask[..];
    forall k: nat | k < n
      ensures isValidCand[k] <==> InAcceptedPair(l, sum, m0, deltam, k)
    {
      if isValidCand[k] {
        var a: nat, b: nat :| a < b < n && (a < n || (a == n && b < n + 1)) &&
          (k == a || k == b) && Accepts(l, sum, m0, deltam, a, b);
      }
    }
  }

  /** The integer checks of a pair in closed form: they pass exactly for an
      electron and a positron, or a muon and an antimuon. A zero code passes
      the charge test (its product is 0) and is stopped by the mass lookup. */
  lemma FlavourChargeIsOppositeLepton(a: int, b: int)
    ensures PassesFlavourCharge(a, b) <==> a == -b && (Abs(a) == ElectronId || Abs(a) == MuonId)
  {
    if Abs(a) == Abs(b) && a != 0 && a == b {
      assert a * b == Abs(a) * Abs(a);
      assert Abs(a) * Abs(a) >= Abs(a);
    }
    if a == -b {
      assert a * b == -(a * a);
      assert a * a >= 0;
    }
  }

  /** A flagged lepton is an electron or a muon and has a partner of the
      opposite charge and the same flavour: pairs of different flavour, of the
      same sign, or of a flavour without a mass never set a flag. */
  lemma FlaggedHasOppositePartner(l: Leptons, sum: SumOracle, m0: real, deltam: real, k: nat)
    requires l.Aligned() && k < |l.pdgId|
    requires InAcceptedPair(l, sum, m0, deltam, k)
    ensures Abs(l.pdgId[k]) == ElectronId || Abs(l.pdgId[k]) == MuonId
    ensures exists j :: 0 <= j < |l.pdgId| && j != k && l.pdgId[j] == -l.pdgId[k]
  {
    var i: nat, j: nat :| i < j < |l.pdgId| && (k == i || k == j) && Accepts(l, sum, m0, deltam, i, j);
    FlavourChargeIsOppositeLepton(l.pdgId[i], l.pdgId[j]);
    if k == i {
      assert l.pdgId[j] == -l.pdgId[k];
    } else {
      assert l.pdgId[i] == -l.pdgId[k];
    }
  }

  /** An accepted pair flags both of its members. */
  lemma AcceptedPairFlagsBoth(l: Leptons, sum: SumOracle, m0: real, deltam: real, i: nat, j: nat)
    requires l.Aligned() && i < j < |l.pdgId|
    requires Accepts(l, sum, m0, deltam, i, j)
    ensures InAcceptedPair(l, sum, m0, deltam, i) && InAcceptedPair(l, sum, m0, deltam, j)
  {
  }

  /** With fewer than two leptons no pair exists and nothing is flagged. */
  lemma FewerThanTwoFlagsNothing(l: Leptons, sum: SumOracle, m0: real, deltam: real, k: nat)
    requires l.Aligned() && |l.pdgId| < 2 && k < |l.pdgId|
    ensures !InAcceptedPair(l, sum, m0, deltam, k)
  {
  }

  /** Same-flavour leptons get the same mass, and the mass of a sum does not
      depend on the order of the summands, so acceptance is symmetric. */
  lemma AcceptsSymmetric(l: Leptons, sum: SumOracle, m0: real, deltam: real, i: nat, j: nat)
    requires l.Aligned() && i < |l.pdgId| && j < |l.pdgId|
    requires Commutative(sum.mass)
    ensures Accepts(l, sum, m0, deltam, i, j) <==> Accepts(l, sum, m0, deltam, j, i)
  {
    FlavourChargeIsOppositeLepton(l.pdgId[i], l.pdgId[j]);
    FlavourChargeIsOppositeLepton(l.pdgId[j], l.pdgId[i]);
    if PassesFlavourCharge(l.pdgId[i], l.pdgId[j]) {
      var m := LeptonMass(l.pdgId[i]);
      assert LeptonMass(l.pdgId[j]) == m;
      assert sum.mass(l.Vector(i, m), l.Vector(j, m)) == sum.mass(l.Vector(j, m), l.Vector(i, m));
    }
  }

  /** `p` is a permutation of `0..n-1` and `q` is its inverse. */
  predicate IsPermutation(p: seq<nat>, q: seq<nat>, n: nat)
  {
    |p| == n && |q| == n &&
    (forall k :: 0 <= k < n ==> p[k] < n && q[k] < n) &&
    (forall k :: 0 <= k < n ==> q[p[k]] == k) &&
    (forall k :: 0 <= k < n ==> p[q[k]] == k)
  }

  /** The event with its leptons reordered: new lepton `k` is old lepton `p[k]`. */
  function Reorder(l: Leptons, p: seq<nat>): Leptons
    requires l.Aligned() && |p| == |l.pdgId|
    requires forall k :: 0 <= k < |p| ==> p[k] < |l.pdgId|
  {
    Leptons(seq(|p|, k requires 0 <= k < |p| => l.pdgId[p[k]]),
            seq(|p|, k requires 0 <= k < |p| => l.pt[p[k]]),
            seq(|p|, k requires 0 <= k < |p| => l.eta[p[k]]),
            seq(|p|, k requires 0 <= k < |p| => l.phi[p[k]]))
  }

  lemma AcceptsReordered(l: Leptons, sum: SumOracle, m0: real, deltam: real, p: seq<nat>, a: nat, b: nat)
    requires l.Aligned() && |p| == |l.pdgId|
    requires forall k :: 0 <= k < |p| ==> p[k] < |l.pdgId|
    requires a < |p| && b < |p|
    ensures Accepts(Reorder(l, p), sum, m0, deltam, a, b) <==> Accepts(l, sum, m0, deltam, p[a], p[b])
  {
    var r := Reorder(l, p);
    var m := LeptonMass(r.pdgId[a]);
    assert r.Vector(a, m) == l.Vector(p[a], m);
    assert r.Vector(b, m) == l.Vector(p[b], m);
  }

  /** Reordering the leptons reorders the mask the same way: the selection
      does not depend on the order in which the event lists its leptons. */
  lemma ReorderInvariant(l: Leptons, sum: SumOracle, m0: real, deltam: real,
                                            p: seq<nat>, q: seq<nat>, k: nat)
    requires l.Aligned() && IsPermutation(p, q, |l.pdgId|)
    requires Commutative(sum.mass)
    requires k < |l.pdgId|
    ensures InAcceptedPair(Reorder(l, p), sum, m0, deltam, k) <==> InAcceptedPair(l, sum, m0, deltam, p[k])
  {
    var r := Reorder(l, p);
    if InAcceptedPair(r, sum, m0, deltam, k) {
      var a: nat, b: nat :| a < b < |r.pdgId| && (k == a || k == b) && Accepts(r, sum, m0, deltam, a, b);
      AcceptsReordered(l, sum, m0, deltam, p, a, b);
      AcceptsSymmetric(l, sum, m0, deltam, p[a], p[b]);
      assert p[a] != p[b] by { assert q[p[a]] == a && q[p[b]] == b; }
      if p[a] < p[b] {
        assert Accepts(l, sum, m0, deltam, p[a], p[b]);
      } else {
        assert Accepts(l, sum, m0, deltam, p[b], p[a]);
      }
    }
    if InAcceptedPair(l, sum, m0, deltam, p[k]) {
      var c: nat, d: nat :| c < d < |l.pdgId| && (p[k] == c || p[k] == d) && Accepts(l, sum, m0, deltam, c, d);
      var a, b := q[c], q[d];
      assert p[a] == c && p[b] == d;
      AcceptsReordered(l, sum, m0, deltam, p, a, b);
      AcceptsReordered(l, sum, m0, deltam, p, b, a);
      AcceptsSymmetric(l, sum, m0, deltam, c, d);
      assert a != b;
      assert k == a || k == b by { assert q[p[k]] == k; }
      if a < b {
        assert Accepts(r, sum, m0, deltam, a, b);
      } else {
        assert Accepts(r, sum, m0, deltam, b, a);
      }
    }
  }

  /** The mask the routine computes as written. The inner loop's guard and
      increment (line 25) name `i` instead of `j`, so `j` stays at `1`: every
      lepton `i` is compared with lepton 1 only (itself included), and the
      outer loop ends after its first pass. */
  function AsWrittenMask(l: Leptons, sum: SumOracle, m0: real, deltam: real): (r: seq<bool>)
    requires l.Aligned() && |l.pdgId| != 1
    ensures |r| == |l.pdgId|
    ensures forall k :: 0 <= k < |r| && r[k] ==> r[1]
    ensures forall k :: 0 <= k < |r| && k != 1 && r[k] ==> l.pdgId[k] == -l.pdgId[1]
  {
    var n := |l.pdgId|;
    forall k | 0 <= k < n {
      FlavourChargeIsOppositeLepton(l.pdgId[k], l.pdgId[1]);
    }
    seq(n, k requires 0 <= k < n =>
      if k == 1 then exists i :: 0 <= i < n && Accepts(l, sum, m0, deltam, i, 1)
      else Accepts(l, sum, m0, deltam, k, 1))
  }

  /** The routine with the loop guards exactly as written. With one lepton
      the first comparison reads `pdgId[1]`, past the end of the array: that
      input is excluded here. */
  method DileptonCandsAsWritten(l: Leptons, sum: SumOracle, m0: real, deltam: real) returns (isValidCand: seq<bool>)
    requires l.Aligned() && |l.pdgId| != 1
    ensures isValidCand == AsWrittenMask(l, sum, m0, deltam)
  {
    var n := |l.pdgId|;
    var mask := new bool[n](_ => false);
    var i := 0;
    while i < n
      invariant i == 0 || i == n + 1
      invariant i == 0 ==> forall k :: 0 <= k < n ==> !mask[k]
      invariant i == n + 1 ==> mask[..] == AsWrittenMask(l, sum, m0, deltam)
      decreases n + 1 - i
    {
      var j := i + 1;
      while i < n
        invariant j == 1 < n && 0 <= i <= n
        invariant forall k :: 0 <= k < n && k != 1 ==> (mask[k] <==> k < i && Accepts(l, sum, m0, deltam, k, 1))
        invariant mask[1] <==> exists a :: 0 <= a < i && Accepts(l, sum, m0, deltam, a, 1)
        decreases n - i
      {
        assert (exists a :: 0 <= a < i + 1 && Accepts(l, sum, m0, deltam, a, 1)) <==>
          (exists a :: 0 <= a < i && Accepts(l, sum, m0, deltam, a, 1)) || Accepts(l, sum, m0, deltam, i, 1);
        if Abs(l.pdgId[i]) != Abs(l.pdgId[j]) { i := i + 1; continue; }
        if l.pdgId[i] * l.pdgId[j] > 0 { i := i + 1; continue; }
        var mass := LeptonMass(l.pdgId[i]);
        if mass < 0.0 { i := i + 1; continue; }
        var mll := sum.mass(l.Vector(i, mass), l.Vector(j, mass));
        if RealAbs(mll - m0) > deltam { i := i + 1; continue; }
        mask[i] := true;
        mask[j] := true;
        i := i + 1;
      }
      assert mask[..] == AsWrittenMask(l, sum, m0, deltam);
      i := i + 1;
    }
    isValidCand := mask[..];
  }

  /** An electron pair of the same sign followed by a muon pair of opposite
      sign whose mass is in the window: the intended scan flags both muons,
      the routine as written never compares them and flags nothing. */
  lemma AsWrittenMissesPair(l: Leptons, sum: SumOracle, m0: real, deltam: real)
    requires l.Aligned() && l.pdgId == [11, 11, 13, -13]
    requires RealAbs(sum.mass(l.Vector(2, MuonMass), l.Vector(3, MuonMass)) - m0) <= deltam
    ensures InAcceptedPair(l, sum, m0, deltam, 2) && InAcceptedPair(l, sum, m0, deltam, 3)
    ensures AsWrittenMask(l, sum, m0, deltam) == [false, false, false, false]
  {
    assert Accepts(l, sum, m0, deltam, 2, 3);
    forall i | 0 <= i < 4
      ensures !Accepts(l, sum, m0, deltam, i, 1)
    {
      FlavourChargeIsOppositeLepton(l.pdgId[i], l.pdgId[1]);
    }
    var r := AsWrittenMask(l, sum, m0, deltam);
    assert r[0] == r[1] == r[2] == r[3] == false;
  }

  /** A muon and an antimuon with the default J/Psi window: both are flagged
      exactly when their invariant mass lies in [1.896, 4.296] GeV. */
  lemma DefaultWindowMuonPair(l: Leptons, sum: SumOracle)
    requires l.Aligned() && l.pdgId == [13, -13]
    ensures InAcceptedPair(l, sum, DefaultM0, DefaultDeltaM, 0) <==>
      1.896 <= sum.mass(l.Vector(0, MuonMass), l.Vector(1, MuonMass)) <= 4.296
    ensures InAcceptedPair(l, sum, DefaultM0, DefaultDeltaM, 1) <==>
      1.896 <= sum.mass(l.Vector(0, MuonMass), l.Vector(1, MuonMass)) <= 4.296
  {
    FlavourChargeIsOppositeLepton(13, -13);
    if InAcceptedPair(l, sum, DefaultM0, DefaultDeltaM, 0) || InAcceptedPair(l, sum, DefaultM0, DefaultDeltaM, 1) {
      var i: nat, j: nat :| i < j < 2 && Accepts(l, sum, DefaultM0, DefaultDeltaM, i, j);
      assert i == 0 && j == 1;
    }
    if 1.896 <= sum.mass(l.Vector(0, MuonMass), l.Vector(1, MuonMass)) <= 4.296 {
      assert Accepts(l, sum, DefaultM0, DefaultDeltaM, 0, 1);
    }
  }
}
