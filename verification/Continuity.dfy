/** A persona's history: a root and the transitions that follow it, each linked to the one before. */
module Continuity {
  import opened Wrappers
  import opened Bytes
  import opened Keys
  import opened Statements
  import Hex

  const MAX_TRANSITIONS := 4096

  datatype Report = Report(
    persona: string,
    personaAnchor: string,
    rootSha256: string,
    initialKey: string,
    tipKey: string,
    transitionCount: u32,
    lastIssuedAt: i64,
    lastSha256: Option<string>,
    checkpointVerified: bool)

  /** The opaque outcome of one complete verification. */
  datatype Chain = Chain(root: VerifiedRoot, transitions: seq<VerifiedTransition>, report: Report)

  // ----- what a chain is, independent of how it is checked -----

  function KeyBefore(root: VerifiedRoot, vs: seq<VerifiedTransition>, i: nat): string
    requires i <= |vs|
  {
    if i == 0 then root.statement.initialKey else vs[i - 1].statement.nextKey
  }

  function DigestBefore(vs: seq<VerifiedTransition>, i: nat): Option<string>
    requires i <= |vs|
  {
    if i == 0 then None else Some(vs[i - 1].sha256)
  }

  function TimeBefore(root: VerifiedRoot, vs: seq<VerifiedTransition>, i: nat): i64
    requires i <= |vs|
  {
    if i == 0 then root.statement.issuedAt else vs[i - 1].statement.issuedAt
  }

  /** Transition `i` continues the history that ends just before it. */
  predicate LinkedAt(root: VerifiedRoot, vs: seq<VerifiedTransition>, i: nat)
    requires i < |vs|
  {
    var s := vs[i].statement;
    && s.sequence == i + 1
    && s.personaAnchor == root.statement.personaAnchor
    && s.persona == root.statement.persona
    && s.rootSha256 == root.sha256
    && s.previousSha256 == DigestBefore(vs, i)
    && s.previousKey == KeyBefore(root, vs, i)
    && TimeBefore(root, vs, i) <= s.issuedAt
  }

  predicate Linked(root: VerifiedRoot, vs: seq<VerifiedTransition>) {
    forall i :: 0 <= i < |vs| ==> LinkedAt(root, vs, i)
  }

  predicate AllVerify(o: Oracles, proofs: seq<TransitionProof>) {
    forall i :: 0 <= i < |proofs| ==> VerifyTransition(o, proofs[i]).Success?
  }

  function Verified(o: Oracles, proofs: seq<TransitionProof>): (vs: seq<VerifiedTransition>)
    requires AllVerify(o, proofs)
    ensures |vs| == |proofs|
    ensures forall i :: 0 <= i < |vs| ==> VerifyTransition(o, proofs[i]) == Success(vs[i])
  {
    seq(|proofs|, i requires 0 <= i < |proofs| => VerifyTransition(o, proofs[i]).value)
  }

  predicate RootAccepted(o: Oracles, rootProof: RootProof, expectedRoot: string) {
    && Hex.IsSha256(expectedRoot)
    && VerifyRoot(o, rootProof).Success?
    && VerifyRoot(o, rootProof).value.sha256 == expectedRoot
  }

  /** A pinned root, at most 4096 valid transition proofs, and every link in place. */
  predicate Accepted(o: Oracles, rootProof: RootProof, proofs: seq<TransitionProof>, expectedRoot: string) {
    && |proofs| <= MAX_TRANSITIONS
    && RootAccepted(o, rootProof, expectedRoot)
    && AllVerify(o, proofs)
    && Linked(VerifyRoot(o, rootProof).value, Verified(o, proofs))
  }

  function ReportOf(root: VerifiedRoot, vs: seq<VerifiedTransition>): Report
    requires |vs| <= MAX_TRANSITIONS
  {
    Report(root.statement.persona, root.statement.personaAnchor, root.sha256, root.statement.initialKey,
           KeyBefore(root, vs, |vs|), |vs|, TimeBefore(root, vs, |vs|), DigestBefore(vs, |vs|), false)
  }

  function ChainOf(o: Oracles, rootProof: RootProof, proofs: seq<TransitionProof>, expectedRoot: string): Chain
    requires Accepted(o, rootProof, proofs, expectedRoot)
  {
    var root, vs := VerifyRoot(o, rootProof).value, Verified(o, proofs);
    Chain(root, vs, ReportOf(root, vs))
  }

  // ----- the checks -----

  /** Whether one verified transition fits directly behind the given head. */
  function ValidateAtHead(root: VerifiedRoot, v: VerifiedTransition, sequence: u32, previousSha256: Option<string>,
                          previousKey: string, previousIssuedAt: i64): Result<(), ProofError>
  {
    var s := v.statement;
    var _ :- Need(s.sequence == sequence, ContinuityChainMismatch);
    var _ :- Need(s.personaAnchor == root.statement.personaAnchor && s.persona == root.statement.persona
                  && s.rootSha256 == root.sha256, ContinuityChainMismatch);
    var _ :- Need(s.previousSha256 == previousSha256, ContinuityChainMismatch);
    var _ :- Need(s.previousKey == previousKey, ContinuityChainMismatch);
    var _ :- Need(s.issuedAt >= previousIssuedAt, ContinuityChainMismatch);
    Success(())
  }

  lemma HeadCheckIsLink(root: VerifiedRoot, vs: seq<VerifiedTransition>, i: nat)
    requires i < |vs| && i < MAX_TRANSITIONS
    ensures ValidateAtHead(root, vs[i], i + 1, DigestBefore(vs, i), KeyBefore(root, vs, i),
                           TimeBefore(root, vs, i)).Success?
       <==> LinkedAt(root, vs, i)
  {}

  /** Extends an accepted chain by one proof without looking at the earlier proofs again. */
  function VerifyExtension(o: Oracles, chain: Chain, proof: TransitionProof): Result<VerifiedTransition, ProofError> {
    var _ :- RequireCapacity(chain);
    var receipt :- VerifyTransition(o, proof);
    var _ :- ValidateExtension(chain, receipt);
    Success(receipt)
  }

  function RequireCapacity(chain: Chain): Result<(), ProofError> {
    Need(|chain.transitions| < MAX_TRANSITIONS, ContinuityChainMismatch)
  }

  /** Links an already verified receipt to the tip of a chain. */
  function ValidateExtension(chain: Chain, receipt: VerifiedTransition): Result<(), ProofError> {
    var _ :- RequireCapacity(chain);
    var _ :- Need(chain.report.transitionCount < 0xFFFF_FFFF, ContinuityChainMismatch); // checked_add
    ValidateAtHead(chain.root, receipt, chain.report.transitionCount + 1, chain.report.lastSha256,
                   chain.report.tipKey, chain.report.lastIssuedAt)
  }

  function ExtendedBy(chain: Chain, v: VerifiedTransition): Chain
    requires |chain.transitions| < MAX_TRANSITIONS
  {
    var vs := chain.transitions + [v];
    Chain(chain.root, vs, ReportOf(chain.root, vs))
  }

  lemma PrefixLinked(root: VerifiedRoot, vs: seq<VerifiedTransition>, n: nat)
    requires n <= |vs|
    ensures Linked(root, vs) ==> Linked(root, vs[..n])
    ensures n + 1 == |vs| && Linked(root, vs[..n]) && LinkedAt(root, vs, n) ==> Linked(root, vs)
  {
    forall i | 0 <= i < n ensures LinkedAt(root, vs[..n], i) <==> LinkedAt(root, vs, i) {
      assert vs[..n][i] == vs[i];
    }
  }

  /** Every prefix of an accepted history is an accepted history. */
  lemma PrefixAccepted(o: Oracles, rootProof: RootProof, proofs: seq<TransitionProof>, expectedRoot: string, n: nat)
    requires Accepted(o, rootProof, proofs, expectedRoot) && n <= |proofs|
    ensures Accepted(o, rootProof, proofs[..n], expectedRoot)
    ensures ChainOf(o, rootProof, proofs[..n], expectedRoot).transitions
         == ChainOf(o, rootProof, proofs, expectedRoot).transitions[..n]
  {
    hide VerifyTransition, VerifyRoot, Hex.IsSha256;
    var vs := Verified(o, proofs);
    PrefixLinked(VerifyRoot(o, rootProof).value, vs, n);
    assert Verified(o, proofs[..n]) == vs[..n];
  }

  /** The fast path agrees with full verification, at every length up to the 4096th transition. */
  lemma ExtensionRefines(o: Oracles, rootProof: RootProof, proofs: seq<TransitionProof>, expectedRoot: string,
                         proof: TransitionProof)
    requires Accepted(o, rootProof, proofs, expectedRoot)
    ensures var chain := ChainOf(o, rootProof, proofs, expectedRoot);
            VerifyExtension(o, chain, proof).Success? <==> Accepted(o, rootProof, proofs + [proof], expectedRoot)
    ensures var chain := ChainOf(o, rootProof, proofs, expectedRoot);
            Accepted(o, rootProof, proofs + [proof], expectedRoot) ==>
              && |proofs| < MAX_TRANSITIONS
              && VerifyExtension(o, chain, proof).Success?
              && ChainOf(o, rootProof, proofs + [proof], expectedRoot)
                 == ExtendedBy(chain, VerifyExtension(o, chain, proof).value)
  {
    hide VerifyTransition, VerifyRoot, Hex.IsSha256, ValidateAtHead;
    var all, n := proofs + [proof], |proofs|;
    var root, vs := VerifyRoot(o, rootProof).value, Verified(o, proofs);
    assert all[n] == proof && all[..n] == proofs;
    if VerifyTransition(o, proof).Success? && n < MAX_TRANSITIONS {
      assert AllVerify(o, all);
      var v := VerifyTransition(o, proof).value;
      assert Verified(o, all) == vs + [v];
      assert (vs + [v])[..n] == vs;
      HeadCheckIsLink(root, vs + [v], n);
      PrefixLinked(root, vs + [v], n);
    }
  }

  /** Why a history is refused: the first check, or the first transition, that does not hold. */
  ghost predicate Rejected(o: Oracles, rootProof: RootProof, proofs: seq<TransitionProof>, expectedRoot: string,
                           error: ProofError)
  {
    if !Hex.IsSha256(expectedRoot) then error == InvalidContinuityStatement
    else if |proofs| > MAX_TRANSITIONS then error == ContinuityChainMismatch
    else if VerifyRoot(o, rootProof).Failure? then error == VerifyRoot(o, rootProof).error
    else if VerifyRoot(o, rootProof).value.sha256 != expectedRoot then error == ContinuityChainMismatch
    else exists k :: 0 <= k < |proofs| && StopsAt(o, rootProof, proofs, expectedRoot, k, error)
  }

  /** The history is sound up to transition `k`, which does not continue it. */
  ghost predicate StopsAt(o: Oracles, rootProof: RootProof, proofs: seq<TransitionProof>, expectedRoot: string,
                          k: nat, error: ProofError)
    requires k < |proofs|
  {
    && Accepted(o, rootProof, proofs[..k], expectedRoot)
    && VerifyExtension(o, ChainOf(o, rootProof, proofs[..k], expectedRoot), proofs[k]) == Failure(error)
  }

  /** The full verification loop accepts exactly the accepted histories and reports their tip. */
  method VerifyChain(o: Oracles, rootProof: RootProof, proofs: seq<TransitionProof>, expectedRoot: string)
    returns (r: Result<Chain, ProofError>)
    ensures r.Success? <==> Accepted(o, rootProof, proofs, expectedRoot)
    ensures r.Success? ==> r.value == ChainOf(o, rootProof, proofs, expectedRoot)
    ensures r.Failure? ==> Rejected(o, rootProof, proofs, expectedRoot, r.error)
  {
    hide VerifyTransition, VerifyRoot, Hex.IsSha256, ValidateAtHead;
    if !Hex.IsSha256(expectedRoot) {
      return Failure(InvalidContinuityStatement);
    }
    if |proofs| > MAX_TRANSITIONS {
      return Failure(ContinuityChainMismatch);
    }
    var root :- VerifyRoot(o, rootProof);
    if root.sha256 != expectedRoot {
      return Failure(ContinuityChainMismatch);
    }
    var currentKey := root.statement.initialKey;
    var previousSha256: Option<string> := None;
    var previousIssuedAt := root.statement.issuedAt;
    var verified: seq<VerifiedTransition> := [];
    for i := 0 to |proofs|
      invariant Accepted(o, rootProof, proofs[..i], expectedRoot)
      invariant |verified| == i
      invariant ChainOf(o, rootProof, proofs[..i], expectedRoot) == Chain(root, verified, ReportOf(root, verified))
      invariant currentKey == KeyBefore(root, verified, i)
      invariant previousSha256 == DigestBefore(verified, i)
      invariant previousIssuedAt == TimeBefore(root, verified, i)
    {
      assert proofs[..i + 1] == proofs[..i] + [proofs[i]];
      ExtensionRefines(o, rootProof, proofs[..i], expectedRoot, proofs[i]);
      assert Accepted(o, rootProof, proofs, expectedRoot) ==> Accepted(o, rootProof, proofs[..i + 1], expectedRoot) by {
        if Accepted(o, rootProof, proofs, expectedRoot) {
          PrefixAccepted(o, rootProof, proofs, expectedRoot, i + 1);
        }
      }
      var step := VerifyTransition(o, proofs[i]);
      if step.Failure? {
        assert StopsAt(o, rootProof, proofs, expectedRoot, i, step.error);
        return Failure(step.error);
      }
      var v := step.value;
      var link := ValidateAtHead(root, v, i + 1, previousSha256, currentKey, previousIssuedAt);
      if link.Failure? {
        assert StopsAt(o, rootProof, proofs, expectedRoot, i, link.error);
        return Failure(link.error);
      }
      currentKey := v.statement.nextKey;
      previousSha256 := Some(v.sha256);
      previousIssuedAt := v.statement.issuedAt;
      verified := verified + [v];
    }
    assert proofs[..|proofs|] == proofs;
    r := Success(Chain(root, verified,
                       Report(root.statement.persona, root.statement.personaAnchor, root.sha256,
                              root.statement.initialKey, currentKey, |proofs|, previousIssuedAt,
                              previousSha256, false)));
  }

  // ----- custody -----

  lemma {:induction false} TimesNeverDecrease(root: VerifiedRoot, vs: seq<VerifiedTransition>, i: nat, j: nat)
    requires Linked(root, vs) && i <= j <= |vs|
    ensures TimeBefore(root, vs, i) <= TimeBefore(root, vs, j)
  {
    if i < j {
      TimesNeverDecrease(root, vs, i, j - 1);
      assert LinkedAt(root, vs, j - 1);
    }
  }

  /**
   Chain of custody at one position: the statement stands in its place, belongs to the root's
   persona, names the digests of the root and of the exact statement before it, and passes
   the persona from the key current before it, the root's key at first, to a different next
   key; both keys signed it, and no earlier statement is younger.
   */
  lemma Custody(o: Oracles, rootProof: RootProof, proofs: seq<TransitionProof>, expectedRoot: string, i: nat)
    requires Accepted(o, rootProof, proofs, expectedRoot) && i < |proofs|
    ensures var chain := ChainOf(o, rootProof, proofs, expectedRoot);
            var root, vs, s := chain.root.statement, chain.transitions, chain.transitions[i].statement;
            && s.sequence == i + 1
            && s.persona == root.persona && s.personaAnchor == root.personaAnchor
            && s.rootSha256 == expectedRoot == Sha256Hex(o, o.rootBytes(root))
            && s.previousSha256 == (if i == 0 then None
                                    else Some(Sha256Hex(o, o.transitionBytes(vs[i - 1].statement))))
            && s.previousKey == (if i == 0 then root.initialKey else vs[i - 1].statement.nextKey)
            && s.previousKey != s.nextKey
            && BothSigned(o, proofs[i], vs[i])
            && root.issuedAt <= s.issuedAt
            && forall j :: 0 <= j < i ==> vs[j].statement.issuedAt <= s.issuedAt
  {
    hide VerifyTransition, VerifyRoot, Hex.IsSha256, Sha256Hex, BothSigned, CanonicalRootBytes,
         CanonicalTransitionBytes;
    var chain := ChainOf(o, rootProof, proofs, expectedRoot);
    var vs := chain.transitions;
    RootEvidence(o, rootProof, chain.root);
    TransitionEvidence(o, proofs[i], vs[i]);
    if i > 0 {
      TransitionEvidence(o, proofs[i - 1], vs[i - 1]);
    }
    assert LinkedAt(chain.root, vs, i);
    TimesNeverDecrease(chain.root, vs, 0, i + 1);
    forall j | 0 <= j < i ensures vs[j].statement.issuedAt <= vs[i].statement.issuedAt {
      TimesNeverDecrease(chain.root, vs, j + 1, i + 1);
    }
  }

  /** The statement at one position takes the persona over from what stands before it. */
  predicate TakesOver(root: VerifiedRoot, vs: seq<VerifiedTransition>, i: nat)
    requires i < |vs|
  {
    var s := vs[i].statement;
    && s.sequence == i + 1
    && s.persona == root.statement.persona && s.personaAnchor == root.statement.personaAnchor
    && s.rootSha256 == root.sha256
    && (if i == 0 then
          && s.previousSha256 == None && s.previousKey == root.statement.initialKey
          && root.statement.issuedAt <= s.issuedAt
        else
          var before := vs[i - 1];
          && s.previousSha256 == Some(before.sha256) && s.previousKey == before.statement.nextKey
          && before.statement.issuedAt <= s.issuedAt)
  }

  /** Conversely a pinned root and at most 4096 verified transitions that pass the persona on are accepted. */
  lemma CustodySuffices(o: Oracles, rootProof: RootProof, proofs: seq<TransitionProof>, expectedRoot: string)
    requires |proofs| <= 4096 && AllVerify(o, proofs)
    requires VerifyRoot(o, rootProof).Success? && VerifyRoot(o, rootProof).value.sha256 == expectedRoot
    requires forall i :: 0 <= i < |proofs| ==> TakesOver(VerifyRoot(o, rootProof).value, Verified(o, proofs), i)
    ensures Accepted(o, rootProof, proofs, expectedRoot)
  {
    hide VerifyTransition, VerifyRoot, Hex.IsSha256, Sha256Hex, CanonicalRootBytes;
    var root, vs := VerifyRoot(o, rootProof).value, Verified(o, proofs);
    RootEvidence(o, rootProof, root);
    forall i | 0 <= i < |vs| ensures LinkedAt(root, vs, i) {
      assert TakesOver(root, vs, i);
    }
  }

  /** Every field of the report of an accepted history, from its root and its last statement. */
  lemma ReportExact(o: Oracles, rootProof: RootProof, proofs: seq<TransitionProof>, expectedRoot: string)
    requires Accepted(o, rootProof, proofs, expectedRoot)
    ensures var chain := ChainOf(o, rootProof, proofs, expectedRoot);
            var root, vs, report := chain.root.statement, chain.transitions, chain.report;
            && VerifyRoot(o, rootProof) == Success(chain.root)
            && |vs| == |proofs|
            && (forall i :: 0 <= i < |vs| ==> VerifyTransition(o, proofs[i]) == Success(vs[i]))
            && report.persona == root.persona && report.personaAnchor == root.personaAnchor
            && report.rootSha256 == expectedRoot && report.initialKey == root.initialKey
            && report.transitionCount == |proofs|
            && report.tipKey == (if vs == [] then root.initialKey else vs[|vs| - 1].statement.nextKey)
            && report.lastIssuedAt == (if vs == [] then root.issuedAt else vs[|vs| - 1].statement.issuedAt)
            && report.lastSha256 == (if vs == [] then None
                                     else Some(Sha256Hex(o, o.transitionBytes(vs[|vs| - 1].statement))))
            && !report.checkpointVerified
  {
    hide VerifyTransition, VerifyRoot, Hex.IsSha256, Sha256Hex, BothSigned, CanonicalTransitionBytes;
    var vs := Verified(o, proofs);
    if proofs != [] {
      TransitionEvidence(o, proofs[|proofs| - 1], vs[|vs| - 1]);
    }
  }

  // ----- checkpoints -----

  datatype Checkpoint = Checkpoint(sequence: u32, sha256: Option<string>)

  function MatchCheckpoint(sequence: u32, sha256: Option<string>, expected: Checkpoint): Result<(), ProofError> {
    var _ :- Need(expected.sequence <= MAX_TRANSITIONS, ContinuityChainMismatch);
    var _ :- Need(expected.sequence == 0 <==> expected.sha256.None?, ContinuityChainMismatch);
    var _ :- Need(expected.sha256.Some? ==> Hex.IsSha256(expected.sha256.value), InvalidContinuityStatement);
    var _ :- Need(sequence == expected.sequence && sha256 == expected.sha256, ContinuityChainMismatch);
    Success(())
  }

  /** Of an accepted history exactly its own tip, sequence and digest, passes as a checkpoint. */
  lemma CheckpointExact(o: Oracles, rootProof: RootProof, proofs: seq<TransitionProof>, expectedRoot: string,
                        head: Checkpoint)
    requires Accepted(o, rootProof, proofs, expectedRoot)
    ensures AcceptedAt(o, rootProof, proofs, expectedRoot, head) <==>
      var vs := ChainOf(o, rootProof, proofs, expectedRoot).transitions;
      && head.sequence == |proofs|
      && head.sha256 == (if vs == [] then None
                         else Some(Sha256Hex(o, o.transitionBytes(vs[|vs| - 1].statement))))
  {
    hide VerifyTransition, VerifyRoot, Hex.IsSha256, Sha256Hex, ReportOf, Linked, AllVerify;
    ReportExact(o, rootProof, proofs, expectedRoot);
    var vs := ChainOf(o, rootProof, proofs, expectedRoot).transitions;
    if vs != [] {
      DigestText(o, o.transitionBytes(vs[|vs| - 1].statement));
    }
  }

  predicate AcceptedAt(o: Oracles, rootProof: RootProof, proofs: seq<TransitionProof>, expectedRoot: string,
                       head: Checkpoint)
  {
    && Accepted(o, rootProof, proofs, expectedRoot)
    && var report := ChainOf(o, rootProof, proofs, expectedRoot).report;
       MatchCheckpoint(report.transitionCount, report.lastSha256, head).Success?
  }

  method VerifyChainAtCheckpoint(o: Oracles, rootProof: RootProof, proofs: seq<TransitionProof>, expectedRoot: string,
                                 head: Checkpoint)
    returns (r: Result<Report, ProofError>)
    ensures r.Success? <==> AcceptedAt(o, rootProof, proofs, expectedRoot, head)
    ensures r.Success? ==>
      r.value == ChainOf(o, rootProof, proofs, expectedRoot).report.(checkpointVerified := true)
  {
    hide Accepted, MatchCheckpoint;
    var chain :- VerifyChain(o, rootProof, proofs, expectedRoot);
    var _ :- MatchCheckpoint(chain.report.transitionCount, chain.report.lastSha256, head);
    r := Success(chain.report.(checkpointVerified := true));
  }

  /** The signed bytes of a history: the root's, then each transition's. */
  function SignedBytes(o: Oracles, chain: Chain, i: nat): seq<byte>
    requires i <= |chain.transitions|
  {
    if i == 0 then o.rootBytes(chain.root.statement) else o.transitionBytes(chain.transitions[i - 1].statement)
  }

  predicate SameHistory(a: Chain, b: Chain) {
    && |a.transitions| == |b.transitions|
    && a.root.statement == b.root.statement
    && forall i :: 0 <= i < |a.transitions| ==> a.transitions[i].statement == b.transitions[i].statement
  }

  /** Two different signed payloads, one from each history, with one SHA-256 digest. */
  ghost predicate Collision(o: Oracles, a: Chain, b: Chain) {
    exists i, j | 0 <= i <= |a.transitions| && 0 <= j <= |b.transitions| :: Collides(o, a, b, i, j)
  }

  predicate Collides(o: Oracles, a: Chain, b: Chain, i: nat, j: nat)
    requires i <= |a.transitions| && j <= |b.transitions|
  {
    && SignedBytes(o, a, i) != SignedBytes(o, b, j)
    && o.sha256(SignedBytes(o, a, i)) == o.sha256(SignedBytes(o, b, j))
  }

  /** Equal digests of two positions mean equal statements there, or a collision. */
  lemma EqualDigests(o: Oracles, a: Chain, b: Chain, i: nat)
    requires 0 < i <= |a.transitions| && i <= |b.transitions|
    requires Sha256Hex(o, SignedBytes(o, a, i)) == Sha256Hex(o, SignedBytes(o, b, i))
    requires o.parseTransition(SignedBytes(o, a, i)) == Some(a.transitions[i - 1].statement)
    requires o.parseTransition(SignedBytes(o, b, i)) == Some(b.transitions[i - 1].statement)
    ensures a.transitions[i - 1].statement == b.transitions[i - 1].statement || Collision(o, a, b)
  {
    Hex.EncodeInjective(o.sha256(SignedBytes(o, a, i)), o.sha256(SignedBytes(o, b, i)));
    if SignedBytes(o, a, i) != SignedBytes(o, b, i) {
      assert Collides(o, a, b, i, i);
    }
  }

  /** Backward along the hash links: histories that agree on one digest agree on all before it. */
  lemma {:induction false} AgreeBackward(o: Oracles, root1: RootProof, proofs1: seq<TransitionProof>,
                                         root2: RootProof, proofs2: seq<TransitionProof>, expectedRoot: string, n: nat)
    requires Accepted(o, root1, proofs1, expectedRoot) && Accepted(o, root2, proofs2, expectedRoot)
    requires n <= |proofs1| && n <= |proofs2|
    requires var a, b := ChainOf(o, root1, proofs1, expectedRoot), ChainOf(o, root2, proofs2, expectedRoot);
             DigestBefore(a.transitions, n) == DigestBefore(b.transitions, n)
    ensures var a, b := ChainOf(o, root1, proofs1, expectedRoot), ChainOf(o, root2, proofs2, expectedRoot);
            || Collision(o, a, b)
            || forall i :: 0 <= i < n ==> a.transitions[i].statement == b.transitions[i].statement
  {
    hide VerifyTransition, VerifyRoot, Hex.IsSha256, Sha256Hex, BothSigned, CanonicalTransitionBytes, Collision;
    var a, b := ChainOf(o, root1, proofs1, expectedRoot), ChainOf(o, root2, proofs2, expectedRoot);
    if n > 0 {
      TransitionEvidence(o, proofs1[n - 1], a.transitions[n - 1]);
      TransitionEvidence(o, proofs2[n - 1], b.transitions[n - 1]);
      EqualDigests(o, a, b, n);
      if !Collision(o, a, b) {
        assert LinkedAt(a.root, a.transitions, n - 1) && LinkedAt(b.root, b.transitions, n - 1);
        AgreeBackward(o, root1, proofs1, root2, proofs2, expectedRoot, n - 1);
      }
    }
  }

  lemma SameRoot(o: Oracles, root1: RootProof, proofs1: seq<TransitionProof>,
                 root2: RootProof, proofs2: seq<TransitionProof>, expectedRoot: string)
    requires Accepted(o, root1, proofs1, expectedRoot) && Accepted(o, root2, proofs2, expectedRoot)
    ensures var a, b := ChainOf(o, root1, proofs1, expectedRoot), ChainOf(o, root2, proofs2, expectedRoot);
            a.root.statement == b.root.statement || Collision(o, a, b)
  {
    hide VerifyTransition, VerifyRoot, Hex.IsSha256, CanonicalRootBytes, Hex.Encode;
    var a, b := ChainOf(o, root1, proofs1, expectedRoot), ChainOf(o, root2, proofs2, expectedRoot);
    RootEvidence(o, root1, a.root);
    RootEvidence(o, root2, b.root);
    Hex.EncodeInjective(o.sha256(SignedBytes(o, a, 0)), o.sha256(SignedBytes(o, b, 0)));
    if SignedBytes(o, a, 0) != SignedBytes(o, b, 0) {
      assert Collides(o, a, b, 0, 0);
    }
  }

  /**
   A checkpoint pins the whole history: two proof lists that verify against one root digest
   and one head checkpoint state the same history, or exhibit a SHA-256 collision.
   */
  lemma CheckpointPinsHistory(o: Oracles, root1: RootProof, proofs1: seq<TransitionProof>,
                              root2: RootProof, proofs2: seq<TransitionProof>, expectedRoot: string, head: Checkpoint)
    requires AcceptedAt(o, root1, proofs1, expectedRoot, head) && AcceptedAt(o, root2, proofs2, expectedRoot, head)
    ensures var a, b := ChainOf(o, root1, proofs1, expectedRoot), ChainOf(o, root2, proofs2, expectedRoot);
            SameHistory(a, b) || Collision(o, a, b)
  {
    hide VerifyTransition, VerifyRoot, Hex.IsSha256, Collision;
    SameRoot(o, root1, proofs1, root2, proofs2, expectedRoot);
    AgreeBackward(o, root1, proofs1, root2, proofs2, expectedRoot, |proofs1|);
  }

  /** The tip of a history as a checkpoint. */
  function TipCheckpoint(chain: Chain): Checkpoint {
    Checkpoint(chain.report.transitionCount, chain.report.lastSha256)
  }

  /** A history's own tip is a checkpoint it meets, and no shorter prefix of it meets. */
  lemma CheckpointSelectsTip(o: Oracles, rootProof: RootProof, proofs: seq<TransitionProof>, expectedRoot: string)
    requires Accepted(o, rootProof, proofs, expectedRoot)
    ensures var head := TipCheckpoint(ChainOf(o, rootProof, proofs, expectedRoot));
            && AcceptedAt(o, rootProof, proofs, expectedRoot, head)
            && forall n :: 0 <= n < |proofs| ==>
                 && Accepted(o, rootProof, proofs[..n], expectedRoot)
                 && !AcceptedAt(o, rootProof, proofs[..n], expectedRoot, head)
  {
    hide VerifyTransition, VerifyRoot, Hex.IsSha256;
    var chain := ChainOf(o, rootProof, proofs, expectedRoot);
    if proofs != [] {
      TransitionDigest(o, proofs[|proofs| - 1], chain.transitions[|proofs| - 1]);
    }
    forall n | 0 <= n < |proofs|
      ensures Accepted(o, rootProof, proofs[..n], expectedRoot)
        && !AcceptedAt(o, rootProof, proofs[..n], expectedRoot, TipCheckpoint(chain))
    {
      PrefixAccepted(o, rootProof, proofs, expectedRoot, n);
    }
  }

  lemma TransitionDigest(o: Oracles, proof: TransitionProof, v: VerifiedTransition)
    requires VerifyTransition(o, proof) == Success(v)
    ensures Hex.IsSha256(v.sha256)
  {
    hide VerifyTransition, Hex.IsSha256, BothSigned, CanonicalTransitionBytes;
    TransitionEvidence(o, proof, v);
  }
}
