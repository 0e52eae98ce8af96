/** The frozen local state against the witness: which heads a stored proposal can still
    meet, what a signed readback says of them, and when the frozen pointer agrees. */
module CommitOutcomes {
  import opened Wrappers
  import opened Patterns
  import opened Timestamps
  import opened ActiveReceipts
  import WitnessMessages
  import opened CheckpointStore
  import opened StoreRuns
  import opened CheckpointWitness
  import opened WitnessProtocol
  import opened SlotRecords
  import opened SuccessorProposals
  import Slots
  import SoftwareRoots
  import SlotRuns
  import ProposalFreeze

  // ----------------------------------------------------------- signed readback

  datatype Status = SuccessorConfirmed | PriorVisible

  type Transport = Bytes -> Option<Bytes>

  /** The revision a reply shows for these receipt bytes, if it verifies for them. */
  function RevisionFor(sha: Hash, verifies: Verifier, c: IssuedChallenge, reply: Bytes, receipt: Bytes,
                       witnessId: string, now: Moment, minimum: Option<int>): Option<int> {
    var seen := VerifyStatement(sha, verifies, c, reply, receipt, witnessId, now, minimum);
    if seen.None? then None else Some(seen.value.revision)
  }

  /** The successor is tried first; the head found has to have the revision it should. */
  function Classified(next: Option<int>, prior: Option<int>, revision: int): Option<Status> {
    if next.Some? then if next.value == revision + 1 then Some(SuccessorConfirmed) else None
    else if prior == Some(revision) then Some(PriorVisible) else None
  }

  /** One signed reply to one fresh challenge, held against both exact receipts. */
  function SignedHead(sha: Hash, verifies: Verifier, q: Request, nonce: Bytes, transport: Transport, now: Moment,
                      minimum: Option<int>): Option<Status> {
    hide RevisionFor, ValidRequest, IssueChallenge, Classified, VerifyStatement;
    var c := IssueChallenge(sha, q.installation, now, nonce);
    if !ValidRequest(sha, q) || c.None? || transport(c.value.raw).None? then None
    else
      var reply := transport(c.value.raw).value;
      Classified(RevisionFor(sha, verifies, c.value, reply, q.successor, q.witnessId, now, minimum),
                 RevisionFor(sha, verifies, c.value, reply, q.previous, q.witnessId, now, minimum), q.revision)
  }

  /** The request's predecessor is the n-th receipt accepted for its installation. */
  predicate Builds(log: seq<Bytes>, q: Request, n: nat) { 0 < n <= |log| && log[n - 1] == q.previous }

  /** No other accepted receipt has the digest of one of the request's two. */
  predicate Tells(sha: Hash, log: seq<Bytes>, q: Request) {
    forall r <- log ::
      (sha(r) == sha(q.previous) ==> r == q.previous) && (sha(r) == sha(q.successor) ==> r == q.successor)
  }

  /** A head verified for these bytes is the log's receipt of that number. */
  lemma VerifiedIsInLog(sha: Hash, storeId: string, calls: seq<Call>, verifies: Verifier, c: IssuedChallenge,
                        reply: Bytes, receipt: Bytes, witnessId: string, now: Moment, minimum: Option<int>)
    requires WitnessName(storeId) && OnlyStoreSigns(sha, storeId, calls, verifies)
    requires RevisionFor(sha, verifies, c, reply, receipt, witnessId, now, minimum).Some?
    ensures var revision := RevisionFor(sha, verifies, c, reply, receipt, witnessId, now, minimum).value;
            var log := Accepted(sha, calls, c.installation);
            1 <= revision <= |log| && sha(log[revision - 1]) == sha(receipt)
  {
    hide VerifyStatement, OnlyStoreSigns, Accepted, WitnessName, HeadWhenAnswered;
    var seen := VerifyStatement(sha, verifies, c, reply, receipt, witnessId, now, minimum).value;
    VerifiedMeansCommittedHead(sha, storeId, calls, verifies, c, reply, receipt, witnessId, now, minimum);
    var k :| 0 <= k < |calls| && HeadWhenAnswered(sha, calls, k, c, receipt, seen, now);
    AnsweredHeadIsInLog(sha, calls, k, c, receipt, seen, now);
  }

  lemma AnsweredHeadIsInLog(sha: Hash, calls: seq<Call>, k: nat, c: IssuedChallenge, receipt: Bytes, seen: Observation,
                            now: Moment)
    requires k < |calls| && HeadWhenAnswered(sha, calls, k, c, receipt, seen, now)
    ensures var log := Accepted(sha, calls, c.installation);
            1 <= seen.revision <= |log| && sha(log[seen.revision - 1]) == sha(receipt)
  {
    hide Accepted, AnswerAt, ParseReceipt;
    AcceptedOnlyGrows(sha, calls, k, c.installation);
  }

  lemma IssuedFor(sha: Hash, installation: string, now: Moment, nonce: Bytes)
    ensures IssueChallenge(sha, installation, now, nonce).Some? ==>
              IssueChallenge(sha, installation, now, nonce).value.installation == installation
  {
    hide WitnessMessages.ChallengeText, Token;
  }

  /** Whatever reply arrives: when only the store signs under the pinned key, a readback
      that confirms the successor means it was accepted right after the demanded revision,
      and one that shows the prior head means the predecessor was accepted at it. */
  lemma ReadbackIsSound(sha: Hash, storeId: string, calls: seq<Call>, verifies: Verifier, q: Request, nonce: Bytes,
                        transport: Transport, now: Moment, minimum: Option<int>)
    requires WitnessName(storeId) && OnlyStoreSigns(sha, storeId, calls, verifies)
    requires Tells(sha, Accepted(sha, calls, q.installation), q)
    ensures var status, log := SignedHead(sha, verifies, q, nonce, transport, now, minimum),
                               Accepted(sha, calls, q.installation);
            && (status == Some(SuccessorConfirmed) ==> 0 <= q.revision < |log| && log[q.revision] == q.successor)
            && (status == Some(PriorVisible) ==> 0 <= q.revision && Builds(log, q, q.revision))
  {
    hide RevisionFor, OnlyStoreSigns, Accepted, WitnessName, ValidRequest, IssueChallenge;
    IssuedFor(sha, q.installation, now, nonce);
    var c := IssueChallenge(sha, q.installation, now, nonce);
    if SignedHead(sha, verifies, q, nonce, transport, now, minimum).Some? {
      var reply := transport(c.value.raw).value;
      if RevisionFor(sha, verifies, c.value, reply, q.successor, q.witnessId, now, minimum).Some? {
        VerifiedIsInLog(sha, storeId, calls, verifies, c.value, reply, q.successor, q.witnessId, now, minimum);
      } else {
        VerifiedIsInLog(sha, storeId, calls, verifies, c.value, reply, q.previous, q.witnessId, now, minimum);
      }
    }
  }

  // ------------------------------------------------------------- three outcomes

  datatype Outcome = StillPrior | ProposedNext | OtherNext

  /** What became of the place after the n-th receipt. */
  function OutcomeOf(log: seq<Bytes>, q: Request, n: nat): Outcome {
    if |log| <= n then StillPrior else if log[n] == q.successor then ProposedNext else OtherNext
  }

  /** The receipt names this predecessor and the number after it. */
  predicate Succeeds(sha: Hash, receipt: Bytes, previous: Bytes, n: nat) {
    var r := ParseReceipt(receipt);
    r.Some? && r.value.generation == n + 1 && r.value.previousSha == Some(sha(previous))
  }

  /** Whatever is accepted next, the proposed receipt or another, is generation n + 1 and
      names the predecessor; and no later call changes which of the two it was. */
  lemma OutcomeIsFinal(sha: Hash, calls: seq<Call>, q: Request, n: nat, k: nat)
    requires k <= |calls| && Builds(Accepted(sha, calls[..k], q.installation), q, n)
    ensures var early, late := Accepted(sha, calls[..k], q.installation), Accepted(sha, calls, q.installation);
            && Builds(late, q, n)
            && (OutcomeOf(late, q, n) != StillPrior ==> Succeeds(sha, late[n], q.previous, n))
            && (OutcomeOf(early, q, n) != StillPrior ==> OutcomeOf(late, q, n) == OutcomeOf(early, q, n))
  {
    hide Accepted, After, ParseReceipt;
    AcceptedOnlyGrows(sha, calls, k, q.installation);
    NoFork(sha, calls, q.installation);
    var late := Accepted(sha, calls, q.installation);
    if |late| > n { assert Link(sha, late, n); }
  }

  // ------------------------------------------------------------- the readback, exactly

  /** An honest readback by a client and a store whose clocks agree says exactly which
      head there is: the prior one, the proposed one, or neither. */
  lemma ReadbackExactly(sha: Hash, verifies: Verifier, calls: seq<Call>, q: Request, n: nat, nonce: Bytes,
                        transport: Transport, t0: Second, ask: AnswerCall, minimum: Option<int>)
    requires ValidRequest(sha, q) && q.revision == n && (minimum.Some? ==> 1 <= minimum.value <= n)
    requires Honest(sha, q.witnessId, verifies, calls, q.installation, nonce, t0, ask) && ask.now == Reading(t0)
    requires transport(ask.challenge) == SentReply(sha, q.witnessId, calls, ask)
    requires var log := Accepted(sha, calls, q.installation); Builds(log, q, n) && Tells(sha, log, q)
    ensures var log := Accepted(sha, calls, q.installation);
            SignedHead(sha, verifies, q, nonce, transport, Reading(t0), minimum) ==
            if |log| == n then Some(PriorVisible)
            else if |log| == n + 1 && OutcomeOf(log, q, n) == ProposedNext then Some(SuccessorConfirmed)
            else None
  {
    hide RevisionFor, Accepted, Honest, ValidRequest, CarriesHead, SentReply, ParseReceipt, IssueChallenge, Tells,
         HeldChallenge, OutcomeOf, InWindow, Reading;
    HonestIssue(sha, q.witnessId, verifies, calls, q.installation, nonce, t0, ask);
    EqualClocksInWindow(t0, minimum, |Accepted(sha, calls, q.installation)|);
    HonestRevision(sha, q.witnessId, verifies, calls, q.installation, nonce, t0, ask, q.successor, Reading(t0),
                   minimum);
    HonestRevision(sha, q.witnessId, verifies, calls, q.installation, nonce, t0, ask, q.previous, Reading(t0),
                   minimum);
    CarriesExactly(sha, calls, q, n);
    NextIsProposed(Accepted(sha, calls, q.installation), q, n);
  }

  lemma NextIsProposed(log: seq<Bytes>, q: Request, n: nat)
    ensures OutcomeOf(log, q, n) == ProposedNext <==> n < |log| && log[n] == q.successor
  {
  }

  /** The challenge of an honest exchange is the one its client issues. */
  lemma HonestIssue(sha: Hash, storeId: string, verifies: Verifier, calls: seq<Call>, installation: string,
                    nonce: Bytes, t0: Second, ask: AnswerCall)
    requires Honest(sha, storeId, verifies, calls, installation, nonce, t0, ask)
    ensures IssueChallenge(sha, installation, Reading(t0), nonce)
            == Some(HeldChallenge(sha, installation, nonce, t0, ask))
    ensures HeldChallenge(sha, installation, nonce, t0, ask).raw == ask.challenge
  {
    hide Honest, WitnessMessages.ChallengeText, Token, Accepted;
    LogNotEmpty(sha, storeId, verifies, calls, installation, nonce, t0, ask);
  }

  /** In its window an honest reply shows the log's length, for exactly the head. */
  lemma HonestRevision(sha: Hash, storeId: string, verifies: Verifier, calls: seq<Call>, installation: string,
                       nonce: Bytes, t0: Second, ask: AnswerCall, receipt: Bytes, t2: Moment, minimum: Option<int>)
    requires Honest(sha, storeId, verifies, calls, installation, nonce, t0, ask)
    requires Accepted(sha, calls, installation) != []
    requires InWindow(t0, ask.now, t2, minimum, |Accepted(sha, calls, installation)|)
    ensures var log, c := Accepted(sha, calls, installation), HeldChallenge(sha, installation, nonce, t0, ask);
            var reply := SentReply(sha, storeId, calls, ask);
            reply.Some? && RevisionFor(sha, verifies, c, reply.value, receipt, storeId, t2, minimum)
                           == if CarriesHead(sha, receipt, log) then Some(|log|) else None
  {
    hide Honest, Accepted, SentReply, CarriesHead, VerifyStatement, HeldChallenge, InWindow;
    HonestReplyShowsHead(sha, storeId, verifies, calls, installation, nonce, t0, ask, receipt, t2, minimum);
  }

  lemma EqualClocksInWindow(t0: Second, minimum: Option<int>, revision: nat)
    requires minimum.Some? ==> 1 <= minimum.value <= revision
    ensures InWindow(t0, Reading(t0), Reading(t0), minimum, revision)
  {
  }

  /** Of the two receipts, the last one accepted carries the head and no other does. */
  lemma CarriesExactly(sha: Hash, calls: seq<Call>, q: Request, n: nat)
    requires var log := Accepted(sha, calls, q.installation); Builds(log, q, n) && Tells(sha, log, q)
    requires ValidRequest(sha, q)
    ensures var log := Accepted(sha, calls, q.installation);
            && (CarriesHead(sha, q.previous, log) <==> |log| == n)
            && (CarriesHead(sha, q.successor, log) <==> |log| == n + 1 && log[n] == q.successor)
  {
    hide Accepted, After, ParseReceipt, Token, WitnessName;
    NoFork(sha, calls, q.installation);
    var log := Accepted(sha, calls, q.installation);
    assert Link(sha, log, n - 1) && Link(sha, log, |log| - 1);
  }

  // ----------------------------------------------------------- the frozen pointer

  /** The pointer selects the software this receipt is for, at its generation. */
  predicate Describes(s: Selection, r: Receipt) { SameSoftware(s, r) && s.generation == r.generation }

  predicate SameSoftware(s: Selection, r: Receipt) {
    && s.transactionId == r.transactionId && s.stagePath == r.stagePath
    && s.preparedSha == r.preparedSha && s.nativeSha == r.nativeEnvelopeSha
  }

  /** The pointer selects what the last accepted receipt is for. */
  predicate AgreesWithHead(pointer: Selection, log: seq<Bytes>) {
    log != [] && var r := ParseReceipt(log[|log| - 1]); r.Some? && Describes(pointer, r.value)
  }

  /** The pointer a proposal is stored beside is one generation after its predecessor, and
      selects the software of the proposed successor. */
  lemma PersistedPointer(sha: Hash, journalSha: JournalHash, f: Slots.Files, c: PersistCall)
    returns (pointer: Selection)
    requires PersistWrites(sha, journalSha, f, c) != []
    ensures f.selection.Some? && ParseSelection(f.selection.value) == Some(pointer)
    ensures var prior, next := ParseReceipt(c.request.previous), ParseReceipt(c.request.successor);
            && prior.Some? && next.Some? && Describes(pointer, next.value)
            && pointer.generation == prior.value.generation + 1
  {
    hide PersistWrites, ParseReceipt, ParseSelection, ParseRecovery, Separate;
    var s, now, raw := ProposalFreeze.PersistedBytes(sha, journalSha, f, c);
    pointer := ParseSelection(f.selection.value).value;
  }

  /** How a pointer stands to a log: while the prior head is last it disagrees; with the
      proposed receipt as head it agrees; and with another next receipt exactly when that
      one is the head and is for the same software. */
  predicate Stands(pointer: Selection, log: seq<Bytes>, q: Request, n: nat) {
    && pointer.generation == n + 1
    && match OutcomeOf(log, q, n)
       case StillPrior => !AgreesWithHead(pointer, log)
       case ProposedNext => AgreesWithHead(pointer, log) <==> |log| == n + 1
       case OtherNext =>
         var r := ParseReceipt(log[n]);
         r.Some? && (AgreesWithHead(pointer, log) <==> |log| == n + 1 && SameSoftware(pointer, r.value))
  }

  lemma PointerStands(sha: Hash, calls: seq<Call>, q: Request, n: nat, pointer: Selection)
    requires Builds(Accepted(sha, calls, q.installation), q, n)
    requires ParseReceipt(q.previous).Some? && pointer.generation == ParseReceipt(q.previous).value.generation + 1
    requires ParseReceipt(q.successor).Some? && Describes(pointer, ParseReceipt(q.successor).value)
    ensures Stands(pointer, Accepted(sha, calls, q.installation), q, n)
  {
    hide Accepted, ParseReceipt, SameSoftware;
    var log := Accepted(sha, calls, q.installation);
    GenerationAt(sha, calls, q.installation, n);
    GenerationAt(sha, calls, q.installation, |log|);
    if |log| > n { GenerationAt(sha, calls, q.installation, n + 1); }
  }

  /** The files after a persist call and these events. */
  function Later(sha: Hash, journalSha: JournalHash, d: Slots.Disk, c: PersistCall, stop: Slots.Stop,
                 events: seq<SlotRuns.Event>): Slots.Files {
    SlotRuns.Run(sha, journalSha, SlotRuns.Next(sha, journalSha, d, SlotRuns.Persist(c, stop)), events).files
  }

  /** Over every run of calls on the frozen root and every run of the witness whose log
      has the proposal's predecessor as its n-th receipt, the pointer is the one the
      proposal was stored beside, and stands to that log so. */
  lemma FrozenPointerAgreesExactly(sha: Hash, journalSha: JournalHash, d: Slots.Disk, c: PersistCall,
                                   stop: Slots.Stop, events: seq<SlotRuns.Event>, calls: seq<Call>, n: nat)
    returns (pointer: Selection)
    requires c.transactionId !in d.files.proposals
    requires c.transactionId in Later(sha, journalSha, d, c, stop, []).proposals
    requires forall e <- events :: !e.Settle?
    requires Builds(Accepted(sha, calls, c.request.installation), c.request, n)
    ensures var f := Later(sha, journalSha, d, c, stop, events);
            f.selection.Some? && ParseSelection(f.selection.value) == Some(pointer)
    ensures Stands(pointer, Accepted(sha, calls, c.request.installation), c.request, n)
  {
    hide Later, Accepted, ParseReceipt, ParseSelection, Stands, Describes;
    pointer := LaterPointer(sha, journalSha, d, c, stop, events);
    PointerStands(sha, calls, c.request, n, pointer);
  }

  lemma LaterPointer(sha: Hash, journalSha: JournalHash, d: Slots.Disk, c: PersistCall, stop: Slots.Stop,
                     events: seq<SlotRuns.Event>)
    returns (pointer: Selection)
    requires c.transactionId !in d.files.proposals
    requires c.transactionId in Later(sha, journalSha, d, c, stop, []).proposals
    requires forall e <- events :: !e.Settle?
    ensures var f := Later(sha, journalSha, d, c, stop, events);
            f.selection.Some? && ParseSelection(f.selection.value) == Some(pointer)
    ensures var prior, next := ParseReceipt(c.request.previous), ParseReceipt(c.request.successor);
            && prior.Some? && next.Some? && Describes(pointer, next.value)
            && pointer.generation == prior.value.generation + 1
  {
    hide PersistWrites, ParseReceipt, ParseSelection, Slots.Cut, Describes;
    ProposalFreeze.FreezeAfterProposal(sha, journalSha, d, c, stop, events);
    ProposalFreeze.PersistFreezes(sha, journalSha, d.files, c, stop);
    StoredMeansWritten(sha, journalSha, d.files, c, stop);
    pointer := PersistedPointer(sha, journalSha, d.files, c);
  }

  lemma StoredMeansWritten(sha: Hash, journalSha: JournalHash, f: Slots.Files, c: PersistCall, stop: Slots.Stop)
    requires c.transactionId !in f.proposals
    requires c.transactionId in Slots.Cut(f, PersistWrites(sha, journalSha, f, c), stop).proposals
    ensures PersistWrites(sha, journalSha, f, c) != []
  {
    hide PersistWrites, Slots.Cut;
    SoftwareRoots.NothingMade(f, stop);
  }

  lemma GenerationAt(sha: Hash, calls: seq<Call>, installation: string, n: nat)
    requires 0 < n <= |Accepted(sha, calls, installation)|
    ensures var r := ParseReceipt(Accepted(sha, calls, installation)[n - 1]); r.Some? && r.value.generation == n
  {
    hide Accepted, After, ParseReceipt;
    NoFork(sha, calls, installation);
    assert Link(sha, Accepted(sha, calls, installation), n - 1);
  }
}
