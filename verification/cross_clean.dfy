/** `crossClean`: flags the objects of one list that are farther than a cone
    from every object of a reference list in the (eta, phi) plane. */
module CrossCleaning {
  import opened Lorentz

  /** The value the running minimum starts from (`float minDR(9999.)`): a
      finite number, not an infinity. */
  const Sentinel: real := 9999.0

  /** Default isolation cone. */
  const DefaultCone: real := 0.4

  /** The running minimum of a list of separations, started at the sentinel
      and folded left to right as the loop does. */
  function MinOf(ds: seq<real>): (r: real)
    ensures r <= Sentinel
    ensures forall k :: 0 <= k < |ds| ==> r <= ds[k]
    ensures r == Sentinel || exists k :: 0 <= k < |ds| && r == ds[k]
  {
    if |ds| == 0 then Sentinel else Min(MinOf(ds[..|ds| - 1]), ds[|ds| - 1])
  }

  /** The minimum is above the cone exactly when the sentinel is and every
      separation is. */
  lemma MinOfAbove(ds: seq<real>, cone: real)
    ensures MinOf(ds) > cone <==> Sentinel > cone && forall k :: 0 <= k < |ds| ==> ds[k] > cone
  {
    var r := MinOf(ds);
    if r > cone {
      forall k | 0 <= k < |ds| ensures ds[k] > cone { }
    } else if Sentinel > cone {
      var k :| 0 <= k < |ds| && r == ds[k];
    }
  }

  /** The separations of the probe at (eta, phi) from each reference object. */
  function Separations(eta: real, phi: real, etaRef: seq<real>, phiRef: seq<real>, deltaR: DeltaRFn): seq<real>
    requires |phiRef| == |etaRef|
  {
    seq(|etaRef|, k requires 0 <= k < |etaRef| => deltaR(eta, etaRef[k], phi, phiRef[k]))
  }

  /** Probe `(eta, phi)` is isolated: farther than `cone` from every
      reference object, and the sentinel itself above the cone. */
  predicate Isolated(eta: real, phi: real, etaRef: seq<real>, phiRef: seq<real>, cone: real, deltaR: DeltaRFn)
    requires |phiRef| == |etaRef|
  {
    Sentinel > cone && forall k :: 0 <= k < |etaRef| ==> deltaR(eta, etaRef[k], phi, phiRef[k]) > cone
  }

  /** The intended scan (the doc comment's "with respect to a reference"):
      each probe against every reference `k < M`, the running minimum started
      at the sentinel, one flag appended per probe. */
  method CrossClean(eta: seq<real>, phi: seq<real>, etaRef: seq<real>, phiRef: seq<real>,
                    cone: real, deltaR: DeltaRFn) returns (isIso: seq<bool>)
    requires |phi| == |eta| && |phiRef| == |etaRef|
    ensures |isIso| == |eta|
    ensures forall i :: 0 <= i < |eta| ==>
      isIso[i] == (MinOf(Separations(eta[i], phi[i], etaRef, phiRef, deltaR)) > cone)
    ensures forall i :: 0 <= i < |eta| ==>
      (isIso[i] <==> Isolated(eta[i], phi[i], etaRef, phiRef, cone, deltaR))
  {
    isIso := [];
    for i := 0 to |eta|
      invariant |isIso| == i
      invariant forall p :: 0 <= p < i ==>
        isIso[p] == (MinOf(Separations(eta[p], phi[p], etaRef, phiRef, deltaR)) > cone)
    {
      ghost var ds := Separations(eta[i], phi[i], etaRef, phiRef, deltaR);
      var minDR := Sentinel;
      for k := 0 to |etaRef|
        invariant minDR == MinOf(ds[..k])
      {
        assert ds[..k + 1][..k] == ds[..k];
        minDR := Min(minDR, deltaR(eta[i], etaRef[k], phi[i], phiRef[k]));
      }
      assert ds[..|etaRef|] == ds;
      isIso := isIso + [minDR > cone];
    }
    forall i | 0 <= i < |eta|
      ensures isIso[i] <==> Isolated(eta[i], phi[i], etaRef, phiRef, cone, deltaR)
    {
      var ds := Separations(eta[i], phi[i], etaRef, phiRef, deltaR);
      assert |ds| == |etaRef|;
      assert forall k :: 0 <= k < |ds| ==> ds[k] == deltaR(eta[i], etaRef[k], phi[i], phiRef[k]);
      MinOfAbove(ds, cone);
    }
  }

  /** With no reference objects every probe gets `9999 > cone`: true for a
      cone below the sentinel, false for any cone at or above it. */
  lemma NoReferencesComparesSentinel(eta: real, phi: real, cone: real, deltaR: DeltaRFn)
    ensures MinOf(Separations(eta, phi, [], [], deltaR)) > cone <==> cone < Sentinel
  {
  }

  /** With the default cone and no reference objects, every probe is
      flagged isolated. */
  lemma DefaultConeNoReferences(eta: real, phi: real, deltaR: DeltaRFn)
    ensures MinOf(Separations(eta, phi, [], [], deltaR)) > DefaultCone
  {
    NoReferencesComparesSentinel(eta, phi, DefaultCone, deltaR);
  }

  /** A probe within the cone of some reference object is never isolated;
      in particular a probe on top of a reference (separation 0) is not
      isolated for any cone `>= 0`. */
  lemma WithinConeNotIsolated(eta: real, phi: real, etaRef: seq<real>, phiRef: seq<real>,
                              cone: real, deltaR: DeltaRFn, k: nat)
    requires |phiRef| == |etaRef| && k < |etaRef|
    requires deltaR(eta, etaRef[k], phi, phiRef[k]) <= cone
    ensures MinOf(Separations(eta, phi, etaRef, phiRef, deltaR)) <= cone
  {
    var ds := Separations(eta, phi, etaRef, phiRef, deltaR);
    assert ds[k] == deltaR(eta, etaRef[k], phi, phiRef[k]);
    MinOfAbove(ds, cone);
  }

  /** The separations of the first `m` probes from reference 0: what the
      as-written inner loop compares. */
  function AgainstFirst(eta: seq<real>, phi: seq<real>, etaRef: seq<real>, phiRef: seq<real>,
                        m: nat, deltaR: DeltaRFn): seq<real>
    requires |phi| == |eta| && |phiRef| == |etaRef| && m <= |eta|
    requires m > 0 ==> |etaRef| > 0
  {
    seq(m, p requires 0 <= p < m => deltaR(eta[p], etaRef[0], phi[p], phiRef[0]))
  }

  /** The number of probes the as-written outer loop visits after its first
      pass: the first pass leaves `i` at `M + 1`. */
  function LaterPasses(n: nat, m: nat): nat
  {
    if n > m + 1 then n - m - 1 else 0
  }

  /** `k` copies of the flag `b`. */
  function Repeat(b: bool, k: nat): seq<bool>
  {
    seq(k, _ => b)
  }

  /** The flags the routine produces as written. The inner loop's guard and
      increment (line 64) name `i` instead of `j`, and `j` stays 0: on the
      first pass `i` runs over the first M probes, each compared with
      reference 0 only, and ONE flag is appended for all of them; every later
      pass finds `i > M`, skips the inner loop and appends `9999 > cone`. */
  function AsWrittenFlags(eta: seq<real>, phi: seq<real>, etaRef: seq<real>, phiRef: seq<real>,
                          cone: real, deltaR: DeltaRFn): (r: seq<bool>)
    requires |phi| == |eta| && |phiRef| == |etaRef|
    requires |eta| == 0 || |etaRef| <= |eta|
    ensures |r| == if |eta| == 0 then 0 else 1 + LaterPasses(|eta|, |etaRef|)
    ensures forall p :: 1 <= p < |r| ==> r[p] == (Sentinel > cone)
  {
    var n, m := |eta|, |etaRef|;
    if n == 0 then []
    else
      [MinOf(AgainstFirst(eta, phi, etaRef, phiRef, m, deltaR)) > cone] +
      Repeat(Sentinel > cone, LaterPasses(n, m))
  }

  /** The routine with the loop guards exactly as written. When there are
      probes and more references than probes, the first pass reads
      `eta[i]` past the end of the probe list: that input is excluded here. */
  method CrossCleanAsWritten(eta: seq<real>, phi: seq<real>, etaRef: seq<real>, phiRef: seq<real>,
                             cone: real, deltaR: DeltaRFn) returns (isIso: seq<bool>)
    requires |phi| == |eta| && |phiRef| == |etaRef|
    requires |eta| == 0 || |etaRef| <= |eta|
    ensures isIso == AsWrittenFlags(eta, phi, etaRef, phiRef, cone, deltaR)
  {
    var n, m := |eta|, |etaRef|;
    ghost var first := AgainstFirst(eta, phi, etaRef, phiRef, if n == 0 then 0 else m, deltaR);
    isIso := [];
    var i := 0;
    while i < n
      invariant i == 0 ==> isIso == []
      invariant i > 0 ==> n > 0 && m + 1 <= i && (i <= n || i == m + 1)
      invariant i > 0 ==> isIso == [MinOf(first) > cone] + Repeat(Sentinel > cone, i - m - 1)
      decreases n + m + 1 - i
    {
      ghost var start := i;
      var minDR := Sentinel;
      var j := 0;
      while i < m
        invariant j == 0 && start <= i
        invariant start == 0 ==> i <= m && minDR == MinOf(first[..i])
        invariant start > 0 ==> i == start && minDR == Sentinel
        decreases m - i
      {
        assert first[..i + 1][..i] == first[..i];
        minDR := Min(minDR, deltaR(eta[i], etaRef[j], phi[i], phiRef[j]));
        i := i + 1;
      }
      assert start == 0 ==> first[..i] == first;
      isIso := isIso + [minDR > cone];
      i := i + 1;
    }
    if n > 0 {
      assert i - m - 1 == LaterPasses(n, m);
    }
  }

  /** Two probes and one reference: the intended scan yields two flags, the
      routine as written yields one. */
  lemma AsWrittenDropsProbe(eta: seq<real>, phi: seq<real>, etaRef: seq<real>, phiRef: seq<real>,
                            cone: real, deltaR: DeltaRFn)
    requires |eta| == |phi| == 2 && |etaRef| == |phiRef| == 1
    ensures |AsWrittenFlags(eta, phi, etaRef, phiRef, cone, deltaR)| == 1 < |eta|
  {
  }
}
