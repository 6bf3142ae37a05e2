/**
 The local ceiling on signature checks of one continuity command. Counts are `usize`:
 sums saturate, the final product and sum are checked.
 */
module Work {
  import opened Wrappers
  import opened Bytes

  type usize = u64

  const USIZE_MAX: usize := 0xFFFF_FFFF_FFFF_FFFF
  const MAX_SIGNATURE_VERIFICATIONS := 2048
  const MIN_RECOVERY_AUTHORITIES: usize := 2

  datatype WorkError = Overflowed | OverLimit

  /** Proofs by the number of signatures they carry. */
  datatype PolicyProof = Enrollment(signatures: usize) | Update(previous: usize, current: usize)

  datatype ContinuityProof =
    | Routine(signatures: usize)
    | Recovery(signatures: usize)
    | TerminalRevocation(signatures: usize)

  function SatAdd(a: usize, b: usize): usize {
    if a + b > USIZE_MAX then USIZE_MAX else a + b
  }

  function SatSub(a: usize, b: usize): usize {
    if a < b then 0 else a - b
  }

  function SatMul(a: usize, b: usize): usize {
    if (a as int) * (b as int) > USIZE_MAX then USIZE_MAX else ProductNonNegative(a, b); (a as int) * (b as int)
  }

  lemma ProductNonNegative(a: nat, b: nat)
    ensures a * b >= 0
  {}

  function PolicyCount(p: PolicyProof): usize {
    match p case Enrollment(n) => n case Update(a, b) => SatAdd(a, b)
  }

  function TransitionCount(p: ContinuityProof): usize {
    match p case Routine(n) => n case Recovery(n) => SatAdd(n, 1) case TerminalRevocation(n) => n
  }

  /** The saturating folds over proof lists. */
  function PolicySum(proofs: seq<PolicyProof>): usize {
    if proofs == [] then 0 else SatAdd(PolicySum(proofs[..|proofs| - 1]), PolicyCount(proofs[|proofs| - 1]))
  }

  function TransitionSum(proofs: seq<ContinuityProof>): usize {
    if proofs == [] then 0 else SatAdd(TransitionSum(proofs[..|proofs| - 1]), TransitionCount(proofs[|proofs| - 1]))
  }

  /** The checked fold: signatures times passes, term by term. */
  function VerificationWork(terms: seq<(usize, usize)>): Result<usize, WorkError> {
    if terms == [] then Success(0)
    else
      var total :- VerificationWork(terms[..|terms| - 1]);
      var (signatures, passes) := terms[|terms| - 1];
      var term := (signatures as int) * (passes as int);
      var _ :- Need(term <= USIZE_MAX, Overflowed);
      var _ :- Need(total + term <= USIZE_MAX, Overflowed);
      ProductNonNegative(signatures, passes);
      Success(total + term)
  }

  function RequireWork(terms: seq<(usize, usize)>): Result<(), WorkError> {
    var work :- VerificationWork(terms);
    var _ :- Need(work <= MAX_SIGNATURE_VERIFICATIONS, OverLimit);
    Success(())
  }

  function MinimumPolicySignatures(count: usize): usize {
    if count == 0 then 0
    else SatAdd(MIN_RECOVERY_AUTHORITIES, SatMul(SatSub(count, 1), SatMul(MIN_RECOVERY_AUTHORITIES, 2)))
  }

  function MinimumTransitionSignatures(count: usize): usize {
    SatMul(count, 2)
  }

  // ----- the true, unbounded counts -----

  function TruePolicyCount(p: PolicyProof): nat {
    match p case Enrollment(n) => n case Update(a, b) => a + b
  }

  function TrueTransitionCount(p: ContinuityProof): nat {
    match p case Routine(n) => n case Recovery(n) => n + 1 case TerminalRevocation(n) => n
  }

  function TruePolicySum(proofs: seq<PolicyProof>): nat {
    if proofs == [] then 0 else TruePolicySum(proofs[..|proofs| - 1]) + TruePolicyCount(proofs[|proofs| - 1])
  }

  function TrueTransitionSum(proofs: seq<ContinuityProof>): nat {
    if proofs == [] then 0 else TrueTransitionSum(proofs[..|proofs| - 1]) + TrueTransitionCount(proofs[|proofs| - 1])
  }

  function TrueWork(terms: seq<(nat, usize)>): nat {
    if terms == [] then 0
    else
      ProductNonNegative(terms[|terms| - 1].0, terms[|terms| - 1].1);
      TrueWork(terms[..|terms| - 1]) + terms[|terms| - 1].0 * terms[|terms| - 1].1
  }

  function Clamp(n: nat): usize {
    if n > USIZE_MAX then USIZE_MAX else n
  }

  function Clamped(terms: seq<(nat, usize)>): (r: seq<(usize, usize)>)
    ensures |r| == |terms|
  {
    seq(|terms|, i requires 0 <= i < |terms| => (Clamp(terms[i].0), terms[i].1))
  }

  /** A saturating fold is the true sum, clamped. */
  lemma {:induction false} PolicySumClamps(proofs: seq<PolicyProof>)
    ensures PolicySum(proofs) == Clamp(TruePolicySum(proofs))
  {
    if proofs != [] {
      PolicySumClamps(proofs[..|proofs| - 1]);
    }
  }

  lemma {:induction false} TransitionSumClamps(proofs: seq<ContinuityProof>)
    ensures TransitionSum(proofs) == Clamp(TrueTransitionSum(proofs))
  {
    if proofs != [] {
      TransitionSumClamps(proofs[..|proofs| - 1]);
    }
  }

  function SignatureTotal(proofs: seq<ContinuityProof>): nat {
    if proofs == [] then 0 else SignatureTotal(proofs[..|proofs| - 1]) + proofs[|proofs| - 1].signatures
  }

  function RecoveryTotal(proofs: seq<ContinuityProof>): nat {
    if proofs == [] then 0
    else RecoveryTotal(proofs[..|proofs| - 1]) + (if proofs[|proofs| - 1].Recovery? then 1 else 0)
  }

  /** Every stored signature is checked once, and in a recovery the next key's as well. */
  lemma {:induction false} TrueSumMeans(proofs: seq<ContinuityProof>)
    ensures TrueTransitionSum(proofs) == SignatureTotal(proofs) + RecoveryTotal(proofs)
  {
    if proofs != [] {
      TrueSumMeans(proofs[..|proofs| - 1]);
    }
  }

  lemma TermExact(n: nat, passes: usize)
    ensures n * passes >= 0
    ensures if n * passes <= USIZE_MAX then Clamp(n) * passes == n * passes else Clamp(n) * passes >= USIZE_MAX
  {
    if n > USIZE_MAX {
      if passes == 0 {
        assert n * passes == 0;
      } else {
        assert n * passes >= n by { Grows(n, passes); }
        Grows(USIZE_MAX, passes);
      }
    }
  }

  lemma Grows(n: nat, passes: nat)
    requires passes >= 1
    ensures n * passes >= n
  {
    assert n * passes == n + n * (passes - 1);
    ProductNonNegative(n, passes - 1);
  }

  /** Checked arithmetic on clamped counts gives the true work, or the true work is beyond any limit. */
  lemma {:induction false} WorkExact(terms: seq<(nat, usize)>)
    ensures var work := VerificationWork(Clamped(terms));
            if TrueWork(terms) < USIZE_MAX then work == Success(TrueWork(terms))
            else work.Failure? || work.value == USIZE_MAX
  {
    if terms != [] {
      var front, last := terms[..|terms| - 1], terms[|terms| - 1];
      WorkExact(front);
      TermExact(last.0, last.1);
      var clamped := Clamped(terms);
      assert clamped[..|clamped| - 1] == Clamped(front);
      assert clamped[|clamped| - 1] == (Clamp(last.0), last.1);
      assert TrueWork(terms) == TrueWork(front) + last.0 * last.1;
    }
  }

  /** The gate admits a command exactly when its true signature work is at most 2048. */
  lemma GateExact(terms: seq<(nat, usize)>)
    ensures RequireWork(Clamped(terms)).Success? <==> TrueWork(terms) <= MAX_SIGNATURE_VERIFICATIONS
  {
    hide VerificationWork, TrueWork;
    WorkExact(terms);
  }

  // ----- the two gates of creating a transition -----

  /** From path counts alone, before any file is opened. */
  function Preflight(transitions: usize, policies: usize): Result<(), WorkError> {
    RequireWork([(1, 3), (MinimumTransitionSignatures(transitions), 2), (MinimumPolicySignatures(policies), 2), (2, 3)])
  }

  /** From the proofs themselves. */
  function ExactGate(transitions: seq<ContinuityProof>, policies: seq<PolicyProof>): Result<(), WorkError> {
    RequireWork([(1, 3), (TransitionSum(transitions), 2), (PolicySum(policies), 2), (2, 3)])
  }

  /** The work the command will do: three checks of the root, two of everything stored, three of the new pair. */
  function CommandWork(transitionSignatures: nat, policySignatures: nat): nat {
    3 + 2 * transitionSignatures + 2 * policySignatures + 6
  }

  lemma FourTerms(a: nat, b: nat)
    ensures RequireWork([(1, 3), (Clamp(a), 2), (Clamp(b), 2), (2, 3)]).Success?
       <==> CommandWork(a, b) <= MAX_SIGNATURE_VERIFICATIONS
  {
    var terms: seq<(nat, usize)> := [(1, 3), (a, 2), (b, 2), (2, 3)];
    GateExact(terms);
    assert Clamped(terms) == [(1, 3), (Clamp(a), 2), (Clamp(b), 2), (2, 3)];
    FourTermSum(a, b);
  }

  lemma FourTermSum(a: nat, b: nat)
    ensures TrueWork([(1, 3), (a, 2), (b, 2), (2, 3)]) == CommandWork(a, b)
  {
    var t: seq<(nat, usize)> := [(1, 3), (a, 2), (b, 2), (2, 3)];
    assert t[..3][..2] == t[..2] && t[..2][..1] == t[..1] && t[..1][..0] == [];
    assert TrueWork(t[..1]) == 3;
    assert TrueWork(t[..2]) == 3 + a * 2;
    assert TrueWork(t[..3]) == 3 + a * 2 + b * 2;
  }

  /** The exact gate decides by the true work, whatever the proofs claim. */
  lemma ExactGateExact(transitions: seq<ContinuityProof>, policies: seq<PolicyProof>)
    ensures ExactGate(transitions, policies).Success? <==>
      CommandWork(TrueTransitionSum(transitions), TruePolicySum(policies)) <= MAX_SIGNATURE_VERIFICATIONS
  {
    TransitionSumClamps(transitions);
    PolicySumClamps(policies);
    FourTerms(TrueTransitionSum(transitions), TruePolicySum(policies));
  }

  /** The fewest signatures any structurally valid proof carries. */
  predicate MeetsMinimums(transitions: seq<ContinuityProof>, policies: seq<PolicyProof>) {
    && (forall i :: 0 <= i < |transitions| ==> TrueTransitionCount(transitions[i]) >= 2)
    && (forall i :: 0 <= i < |policies| ==> TruePolicyCount(policies[i]) >= if i == 0 then 2 else 4)
  }

  lemma {:induction false} TransitionFloor(transitions: seq<ContinuityProof>)
    requires forall i :: 0 <= i < |transitions| ==> TrueTransitionCount(transitions[i]) >= 2
    ensures TrueTransitionSum(transitions) >= 2 * |transitions|
  {
    if transitions != [] {
      TransitionFloor(transitions[..|transitions| - 1]);
    }
  }

  lemma {:induction false} PolicyFloor(policies: seq<PolicyProof>)
    requires forall i :: 0 <= i < |policies| ==> TruePolicyCount(policies[i]) >= if i == 0 then 2 else 4
    ensures TruePolicySum(policies) >= if policies == [] then 0 else 2 + 4 * (|policies| - 1)
  {
    if |policies| > 1 {
      PolicyFloor(policies[..|policies| - 1]);
    }
  }

  /** The early gate admits exactly what the fewest signatures of that many proofs would need. */
  lemma PreflightExact(transitions: usize, policies: usize)
    ensures Preflight(transitions, policies).Success? <==>
      CommandWork(2 * transitions, if policies == 0 then 0 else 2 + 4 * (policies - 1)) <= 2048
  {
    var a: nat := 2 * transitions;
    var b: nat := if policies == 0 then 0 else 2 + 4 * (policies - 1);
    assert MinimumTransitionSignatures(transitions) == Clamp(a);
    assert MinimumPolicySignatures(policies) == Clamp(b);
    FourTerms(a, b);
  }

  /** Refusing early refuses nothing that would have been admitted. */
  lemma PreflightIsSafe(transitions: seq<ContinuityProof>, policies: seq<PolicyProof>)
    requires |transitions| <= USIZE_MAX && |policies| <= USIZE_MAX
    requires MeetsMinimums(transitions, policies)
    requires ExactGate(transitions, policies).Success?
    ensures Preflight(|transitions|, |policies|).Success?
  {
    ExactGateExact(transitions, policies);
    TransitionFloor(transitions);
    PolicyFloor(policies);
    PreflightExact(|transitions|, |policies|);
  }
}
