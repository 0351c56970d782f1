# Selection helpers of a nanoAOD analysis, modelled in Dafny

`selection_helpers.h` provides three per-event routines, each working on flat arrays of
reconstructed objects:

- `dileptonCands` flags the leptons that belong to at least one pair with these properties:
  same flavour, opposite charge, electron or muon, and invariant mass within `deltam` of `m0`.
  The defaults are the J/Psi values 3.096 and 1.2 GeV.
- `crossClean` flags the probe objects whose smallest ΔR to a reference list is greater than
  a cone (default 0.4). The running minimum starts at the finite sentinel 9999.
- `kinematics2l` assigns each of two leptons a mass by flavour and returns a feature of
  their four-vector sum.

ROOT's four-vector arithmetic and `DeltaR` are foreign floating-point code. The model
receives them as function-valued parameters: `Lorentz.SumOracle` gives the `.M()`, `.Pt()`,
`.Eta()` and `.Phi()` of a sum, and `Lorentz.DeltaRFn` gives the separation. Every property
therefore holds whatever numbers that library returns. Properties that need vector addition
to commute state that as a `requires` on the parameter (`Lorentz.Commutative`).

Modules:

- `Lorentz` (`lorentz.dfy`): the four-vector, the oracles, lepton masses and PDG codes.
- `DileptonSelection` (`dilepton.dfy`): the pair scan.
  - `DileptonCands` fills a boolean array in place with nested loops.
  - Its contract ties the mask to the declarative `InAcceptedPair`.
- `CrossCleaning` (`cross_clean.dfy`): the isolation scan.
  - `CrossClean` accumulates a running minimum and appends one flag per probe.
  - Its contract ties each flag to `MinOf` and to `Isolated`.
- `TwoBodyKinematics` (`two_body.dfy`): mass assignment and the returned feature.

Both double loops in the source name the outer index in the inner loop's guard and increment
(lines 25 and 64). This model has both versions of each loop. The as-written routines
reproduce the defect, and lemmas show inputs where it matters. The intended scans (pairs
`i < j < N`, references `k < M`, as the doc comments at lines 14-16 and 53-55 describe) are
the ones the other lemmas are about. See "## Findings".

Two points about the code that the model keeps:

- An empty reference list does not mark probes isolated automatically. The minimum starts at
  the finite value 9999, so each flag is `9999 > cone`, which is false for any cone of 9999
  or more.
- The code does not check that the parallel arrays have equal lengths. It reads past an
  array's end when a parallel array is shorter: `pt`, `eta` or `phi` shorter than `pdgId`,
  `phi` shorter than `eta`, or `phi_ref` shorter than `eta_ref`. Longer arrays are read
  safely. The model requires equal lengths.

## Model

| member | source | states |
|---|---|---|
| DileptonSelection.LeptonMass | selection_helpers.h:32-35 | a mass is assigned (non-negative) exactly for flavours 11 and 13; it is the electron mass for 11 and the muon mass for 13 |
| DileptonSelection.FlavourChargeIsOppositeLepton | selection_helpers.h:28-35 | the flavour, charge and mass-lookup checks pass exactly for `pdgId[j] == -pdgId[i]` with `pdgId[i]` in ±11 or ±13; a zero code passes the charge test but is stopped by the lookup |
| DileptonSelection.DileptonCands | selection_helpers.h:17-50 | intended scan over every pair `i < j < N`: the mask has N entries, and entry k is true iff k belongs to some pair that passes flavour, charge, mass lookup and the mass window |
| DileptonSelection.FlaggedHasOppositePartner | selection_helpers.h:28-45 | a flagged lepton is an electron or a muon and has an opposite-charge partner of its own flavour; other pairs never set a flag |
| DileptonSelection.AcceptedPairFlagsBoth | selection_helpers.h:43-45 | an accepted pair flags both of its members |
| DileptonSelection.FewerThanTwoFlagsNothing | selection_helpers.h:19-25 | with fewer than two leptons, the intended scan leaves every entry false |
| DileptonSelection.AcceptsSymmetric | selection_helpers.h:28-43 | when the mass of a sum commutes, accepting `(i, j)` and accepting `(j, i)` are the same |
| DileptonSelection.ReorderInvariant | selection_helpers.h:22-45 | when the mass of a sum commutes, reordering the leptons by a permutation reorders the mask the same way |
| DileptonSelection.DefaultWindowMuonPair | selection_helpers.h:17-45 | with the default window (3.096 ± 1.2 GeV), a muon and an antimuon are both flagged exactly when their pair mass lies in [1.896, 4.296] |
| DileptonSelection.AsWrittenMask | selection_helpers.h:22-46 | the as-written mask has N entries; a flagged lepton other than lepton 1 has the opposite code of lepton 1, and any flag implies lepton 1 is flagged |
| DileptonSelection.DileptonCandsAsWritten | selection_helpers.h:17-50 | with the line-25 guard as written, the result is `AsWrittenMask`: each lepton is compared with lepton 1 only; N == 1 is excluded because it reads `pdgId[1]` |
| DileptonSelection.AsWrittenMissesPair | selection_helpers.h:25 | for codes [11, 11, 13, -13] with the muon pair in the window, the intended scan flags both muons and the as-written scan flags nothing |
| CrossCleaning.MinOf | selection_helpers.h:63-65 | the running minimum seeded with 9999 is at most 9999 and at most every separation, and it equals the sentinel or one of the separations |
| CrossCleaning.MinOfAbove | selection_helpers.h:63-67 | the minimum exceeds the cone iff 9999 does and every separation does |
| CrossCleaning.CrossClean | selection_helpers.h:56-71 | intended scan over every reference `k < M`: one flag per probe, equal to `min(9999, min_k DeltaR) > cone`, and true iff the probe is isolated from every reference |
| CrossCleaning.NoReferencesComparesSentinel | selection_helpers.h:63-67 | with no references, a probe's flag is true exactly when `cone < 9999` |
| CrossCleaning.DefaultConeNoReferences | selection_helpers.h:56-67 | with the default cone 0.4 and no references, every probe is flagged isolated |
| CrossCleaning.WithinConeNotIsolated | selection_helpers.h:65-67 | a probe within the cone of any reference is not isolated, including one at separation 0 |
| CrossCleaning.AsWrittenFlags | selection_helpers.h:61-68 | as written there are 0 flags for 0 probes, otherwise `1 + max(0, N - M - 1)` flags; every flag after the first is `9999 > cone` |
| CrossCleaning.CrossCleanAsWritten | selection_helpers.h:56-71 | with the line-64 guard as written, the result is `AsWrittenFlags`; more references than probes is excluded because it reads `eta` past its end |
| CrossCleaning.AsWrittenDropsProbe | selection_helpers.h:64 | with two probes and one reference, the as-written routine returns one flag instead of two |
| TwoBodyKinematics.AssignedMass | selection_helpers.h:80-81 | the electron mass iff `abs(pdgId) == 11`, and the muon mass for every other code |
| TwoBodyKinematics.MassAssignmentsCompared | selection_helpers.h:80-81 | this lookup agrees with the pair selection's lookup on electrons and muons; for other flavours the pair selection has no mass and this routine uses the muon mass |
| TwoBodyKinematics.ParseKind | selection_helpers.h:84-87 | "pt", "eta" and "phi" select their feature; every other string, "mass" included, selects the invariant mass |
| TwoBodyKinematics.Kinematics2l | selection_helpers.h:76-88 | whatever `kin` says, the result is the invariant mass of the two flavour-massed vectors, as the "mass" selector asks |
| TwoBodyKinematics.Kinematics2lIntended | selection_helpers.h:78-87 | the corrected routine returns the sum's pt for "pt", its eta for "eta", its phi for "phi", and its invariant mass for every other string |
| TwoBodyKinematics.KindIsIgnored | selection_helpers.h:84-87 | two different selector strings give the same result |
| TwoBodyKinematics.AsWrittenIgnoresPt | selection_helpers.h:84 | asking for "pt" of a system whose pt differs from its mass returns something other than the intended pt |
| TwoBodyKinematics.SwapInvariant | selection_helpers.h:82-87 | when the sum's features commute, swapping the two leptons changes neither the intended nor the as-written result, for any selector |

## Left out

- `helpers.py` (plotting and histogramming) is not part of this model: it is display code.
- ROOT's `PtEtaPhiMVector` construction, `+`, `.M()`, `.Pt()`, `.Eta()` and `.Phi()`, and
  `ROOT::VecOps::DeltaR` with its φ wrapping, are not modelled. They are parameters.
  - So the closed-form invariant mass of two equal vectors is not stated.
  - Neither is ΔR = 0 for coincident objects. `WithinConeNotIsolated` takes that value as
    a premise.
- Floating point is not modelled: all numbers are exact reals. This covers float vs double
  literals, rounding of `mll` to float, and NaN in `min` and the comparisons.
- PDG codes are unbounded integers. In C++, `pdgId[i]*pdgId[j]` can overflow for magnitudes
  of 46341 or more, and `abs(INT_MIN)` is undefined. Neither can change the outcome, because
  only magnitudes 11 and 13 get past the mass lookup.
- `eta` and `phi` of `dileptonCands` are integers. The C++ signature declares them as int
  arrays, and the model converts them to real only when it builds a vector.
- Copying the `std::vector` into an `RVec` (lines 49 and 70) is not modelled: the routines
  return a `seq<bool>`.
- Default arguments are named constants: `DefaultM0`, `DefaultDeltaM`, `DefaultCone`. Callers
  pass them explicitly. `DefaultWindowMuonPair` and `DefaultConeNoReferences` state what the
  defaults give.
- Purity, meaning the same inputs always give the same result, is not stated as a lemma.
  Every Dafny function and every method here without a `modifies` clause is deterministic
  over its inputs.
- DileptonCandsAsWritten: excludes N == 1. There the source reads `pdgId[1]` past the end,
  which is undefined behaviour with no value to model.
- CrossCleanAsWritten: excludes 0 < N < M. There the source reads `eta[i]` and `phi[i]` past
  the end.
- ReorderInvariant, AcceptsSymmetric and SwapInvariant: require the oracle to commute. The
  model cannot prove that vector addition commutes, because the arithmetic is not modelled.

## Findings

| source | as written | input that shows it | evidently intended | confidence | as-written member | corrected member |
|---|---|---|---|---|---|---|
| selection_helpers.h:25 | the inner loop tests and increments `i`, so `j` stays at 1: every lepton is compared with lepton 1 only, and one pass ends the outer loop | codes [11, 11, 13, -13] with the muon pair in the window: the muons are never compared and nothing is flagged. A single lepton reads `pdgId[1]` | `for (size_t j=i+1; j<pdgId.size(); j++)`, scanning every pair `i < j < N` | high; not executed | DileptonSelection.DileptonCandsAsWritten, DileptonSelection.AsWrittenMissesPair | DileptonSelection.DileptonCands |
| selection_helpers.h:64 | the inner loop tests and increments `i`, so `j` stays at 0: the first M probes are compared with reference 0 only, and a single flag is pushed for all of them | two probes and one reference give one flag instead of two. More references than probes read `eta` past its end | `for (size_t j=0; j<eta_ref.size(); j++)`, one flag per probe over every reference | high; not executed | CrossCleaning.CrossCleanAsWritten, CrossCleaning.AsWrittenDropsProbe | CrossCleaning.CrossClean |
| selection_helpers.h:84-86 | the `Pt()`, `Eta()` and `Phi()` results are discarded, so the routine always returns the mass | `kin = "pt"` for a system whose pt differs from its mass | `return (p1+p2).Pt();` and the same for eta and phi | high; not executed | TwoBodyKinematics.Kinematics2l, TwoBodyKinematics.AsWrittenIgnoresPt | TwoBodyKinematics.Kinematics2lIntended |
