/** The two separately written ends together: what a verified reply proves about the
    store, and which honest replies verify. */
module WitnessProtocol {
  import opened Wrappers
  import opened Patterns
  import opened Timestamps
  import opened ActiveReceipts
  import opened WitnessMessages
  import opened CheckpointStore
  import opened StoreRuns
  import opened CheckpointWitness

  /** The statement the store signs for the k-th call of a run, if it answers it. */
  function SignedAt(sha: Hash, witnessId: string, calls: seq<Call>, k: nat): Option<Statement>
    requires k < |calls|
  {
    var a := AnswerAt(sha, calls, k);
    if a.None? then None else StatementOf(sha, witnessId, a.value)
  }

  /** Ideal signatures: only payloads of this store's answers verify. */
  ghost predicate OnlyStoreSigns(sha: Hash, storeId: string, calls: seq<Call>, verifies: Verifier) {
    forall signature: Bytes, payload: Bytes | verifies(signature, payload) ::
      exists k | 0 <= k < |calls| :: SignedAt(sha, storeId, calls, k).Some?
                                     && payload == StatementText(SignedAt(sha, storeId, calls, k).value)
  }

  /** Call k answered a challenge with this digest for this installation, within the
      window, when the receipt was the store's committed head. */
  ghost predicate HeadWhenAnswered(sha: Hash, calls: seq<Call>, k: nat, c: IssuedChallenge,
                                   receipt: Bytes, seen: Observation, now: Moment)
    requires k < |calls|
  {
    var a, log := AnswerAt(sha, calls, k), Accepted(sha, calls[..k], c.installation);
    && a.Some? && a.value.installation == c.installation && sha(a.value.challenge) == sha(c.raw)
    && c.issuedAt <= a.value.at * SECOND <= now <= (a.value.at + 60) * SECOND
    && log != [] && seen.revision == seen.receipt.generation == |log|
    && ParseReceipt(receipt) == Some(seen.receipt) && seen.digest == sha(receipt) == sha(log[|log| - 1])
    && seen.receipt.previousSha == (if |log| == 1 then None else Some(sha(log[|log| - 2])))
  }

  lemma AnswerShowsHead(sha: Hash, calls: seq<Call>, k: nat)
    requires k < |calls| && AnswerAt(sha, calls, k).Some?
    ensures var a := AnswerAt(sha, calls, k).value;
            var log := Accepted(sha, calls[..k], a.installation);
            log != [] && a.head == HeadOf(sha, a.installation, log)
  {
    hide After, AnswerAt, Accepted, HeadOf, ReadChallenge, Kept, SoundRow;
    AnswerFacts(sha, calls, k);
    NoFork(sha, calls[..k], AnswerAt(sha, calls, k).value.installation);
  }

  lemma StoreStatementValid(sha: Hash, storeId: string, a: Answer)
    requires StatementOf(sha, storeId, a).Some?
    requires WitnessName(storeId) && Token(a.installation) && SoundRow(a.head)
    ensures ValidStatement(StatementOf(sha, storeId, a).value)
  {
    hide WitnessName, Token;
  }

  lemma SignedStatementReads(sha: Hash, storeId: string, calls: seq<Call>, k: nat)
    requires k < |calls| && WitnessName(storeId) && SignedAt(sha, storeId, calls, k).Some?
    ensures ReadStatement(StatementText(SignedAt(sha, storeId, calls, k).value)) == SignedAt(sha, storeId, calls, k)
  {
    hide AnswerAt, StatementText, ReadStatement, ReadChallenge, WitnessName, After, Kept, StatementOf, SoundRow;
    AnswerFacts(sha, calls, k);
    var a, s := AnswerAt(sha, calls, k).value, SignedAt(sha, storeId, calls, k).value;
    ReadsExactlyChallenges(a.challenge, ReadChallenge(a.challenge).value);
    StoreStatementValid(sha, storeId, a);
    hide ValidStatement;
    ReadsExactlyStatements(StatementText(s), s);
  }

  lemma VerifiedStatement(sha: Hash, verifies: Verifier, c: IssuedChallenge, reply: Bytes, receipt: Bytes,
                          witnessId: string, now: Moment, minimum: Option<int>)
    returns (payload: Bytes, s: Statement)
    requires VerifyStatement(sha, verifies, c, reply, receipt, witnessId, now, minimum).Some?
    ensures var seen := VerifyStatement(sha, verifies, c, reply, receipt, witnessId, now, minimum).value;
            && (exists signature :: verifies(signature, payload))
            && ReadStatement(payload) == Some(s) && StatementHolds(sha, s, c, witnessId, now, minimum)
            && VerifyPinned(sha, receipt, PinnedHead(s.generation, s.headSha), Predecessor(s)) == Some(seen.receipt)
            && seen.digest == sha(receipt) && seen.revision == s.revision
  {
    hide ReadEnvelope, ReadStatement, VerifyPinned, StatementHolds, ChallengeHolds;
    var e := ReadEnvelope(reply).value;
    payload, s := e.payload, ReadStatement(e.payload).value;
  }

  /** Soundness, end to end. If a reply verifies and only the store signs under the
      pinned key, the receipt was that installation's committed head when the store
      answered a challenge with this digest, between its issue and now. */
  lemma VerifiedMeansCommittedHead(sha: Hash, storeId: string, calls: seq<Call>, verifies: Verifier,
                                   c: IssuedChallenge, reply: Bytes, receipt: Bytes,
                                   witnessId: string, now: Moment, minimum: Option<int>)
    requires WitnessName(storeId) && OnlyStoreSigns(sha, storeId, calls, verifies)
    requires VerifyStatement(sha, verifies, c, reply, receipt, witnessId, now, minimum).Some?
    ensures var seen := VerifyStatement(sha, verifies, c, reply, receipt, witnessId, now, minimum).value;
            && witnessId == storeId && (minimum.Some? ==> minimum.value <= seen.revision)
            && exists k | 0 <= k < |calls| :: HeadWhenAnswered(sha, calls, k, c, receipt, seen, now)
  {
    var seen := VerifyStatement(sha, verifies, c, reply, receipt, witnessId, now, minimum).value;
    var payload, s := VerifiedStatement(sha, verifies, c, reply, receipt, witnessId, now, minimum);
    var k :| 0 <= k < |calls| && SignedAt(sha, storeId, calls, k).Some?
             && payload == StatementText(SignedAt(sha, storeId, calls, k).value);
    SignedStatementReads(sha, storeId, calls, k);
    AnswerShowsHead(sha, calls, k);
    ReceiptMatchesHead(sha, calls, k, storeId, s, c, receipt, seen, witnessId, now, minimum);
  }

  lemma ReceiptMatchesHead(sha: Hash, calls: seq<Call>, k: nat, storeId: string, s: Statement, c: IssuedChallenge,
                           receipt: Bytes, seen: Observation, witnessId: string, now: Moment, minimum: Option<int>)
    requires k < |calls| && SignedAt(sha, storeId, calls, k) == Some(s)
    requires StatementHolds(sha, s, c, witnessId, now, minimum)
    requires VerifyPinned(sha, receipt, PinnedHead(s.generation, s.headSha), Predecessor(s)) == Some(seen.receipt)
    requires seen.digest == sha(receipt) && seen.revision == s.revision
    requires var a := AnswerAt(sha, calls, k).value;
             var log := Accepted(sha, calls[..k], a.installation);
             log != [] && a.head == HeadOf(sha, a.installation, log)
    ensures witnessId == storeId && HeadWhenAnswered(sha, calls, k, c, receipt, seen, now)
  {
    hide AnswerAt, Accepted, ParseReceipt, Hex, Positive, WitnessName;
  }

  /** With no digest collision between this challenge and those the store answered, it
      is this very challenge that was answered, and by one call only. */
  lemma AnsweredThisChallengeOnce(sha: Hash, calls: seq<Call>, c: IssuedChallenge, receipt: Bytes,
                                  seen: Observation, now: Moment, j: nat, k: nat)
    requires j < |calls| && k < |calls| && ClockForward(sha, calls)
    requires HeadWhenAnswered(sha, calls, j, c, receipt, seen, now)
    requires HeadWhenAnswered(sha, calls, k, c, receipt, seen, now)
    requires forall i | 0 <= i < |calls| && AnswerAt(sha, calls, i).Some?
               && sha(AnswerAt(sha, calls, i).value.challenge) == sha(c.raw) ::
                   AnswerAt(sha, calls, i).value.challenge == c.raw
    ensures j == k && AnswerAt(sha, calls, k).value.challenge == c.raw
  {
    hide AnswerAt, Accepted, ParseReceipt, ClockForward;
    if j < k {
      NoChallengeAnsweredTwice(sha, calls, j, k);
    } else if k < j {
      NoChallengeAnsweredTwice(sha, calls, k, j);
    }
  }

  /** Answers in store order never show an older revision, and equal revisions show
      the same head. */
  lemma RevisionsNeverDecrease(sha: Hash, calls: seq<Call>, j: nat, k: nat)
    requires j < k < |calls| && AnswerAt(sha, calls, j).Some? && AnswerAt(sha, calls, k).Some?
    requires AnswerAt(sha, calls, j).value.installation == AnswerAt(sha, calls, k).value.installation
    ensures var a, b := AnswerAt(sha, calls, j).value.head, AnswerAt(sha, calls, k).value.head;
            a.revision <= b.revision && (a.revision == b.revision ==> a == b)
  {
    hide AnswerAt, Accepted;
    var installation := AnswerAt(sha, calls, j).value.installation;
    AnswerShowsHead(sha, calls, j);
    AnswerShowsHead(sha, calls, k);
    assert calls[..k][..j] == calls[..j];
    AcceptedOnlyGrows(sha, calls[..k], j, installation);
    var early, late := Accepted(sha, calls[..j], installation), Accepted(sha, calls[..k], installation);
    if |early| == |late| { assert early == late; }
  }

  // ------------------------------------------------------------ completeness

  /** The signer makes a signature of this payload that the verifier accepts. */
  predicate HonestSigner(sign: Bytes -> Option<Bytes>, verifies: Verifier, payload: Bytes) {
    var signature := sign(payload);
    signature.Some? && |signature.value| == 64 && verifies(signature.value, payload)
  }

  /** The nonce's last answer, if any, has been purged by the answering time. */
  ghost predicate NonceFree(sha: Hash, calls: seq<Call>, installation: string, nonce: Bytes, t1: int) {
    300 <= t1 < EndOfTime() && (installation, sha(nonce)) !in Kept(After(sha, calls).issued, t1 - 300)
  }

  /** The statement an honest store signs for a non-empty log. */
  function HonestStatement(sha: Hash, storeId: string, challenge: Bytes, installation: string, t1: Second,
                           log: seq<Bytes>): Statement
    requires log != [] && t1 + 60 < EndOfTime()
  {
    var n := |log|;
    Statement(sha(challenge), t1 + 60, n, sha(log[n - 1]), installation, t1,
              if n == 1 then None else Some((n - 1, sha(log[n - 2]))), storeId, n)
  }

  /** An honest exchange: the challenge is issued at t0 and answered at t1 by a store
      that has committed a receipt and can sign this one statement for the verifier. */
  ghost predicate Honest(sha: Hash, storeId: string, verifies: Verifier, calls: seq<Call>, installation: string,
                         nonce: Bytes, t0: Second, ask: AnswerCall) {
    var log := Accepted(sha, calls, installation);
    && WitnessName(storeId) && Token(installation) && |nonce| == 32 && log != []
    && ask.challenge == ChallengeText(Challenge(installation, nonce, t0))
    && ask.mayRead && ask.fault.NoFault? && ask.now % SECOND == 0
    && var t1 := ask.now / SECOND;
    && t1 + 60 < EndOfTime() && t0 <= t1 <= t0 + 120 && NonceFree(sha, calls, installation, nonce, t1)
    && HonestSigner(ask.sign, verifies,
                    StatementText(HonestStatement(sha, storeId, ask.challenge, installation, t1, log)))
  }

  lemma HonestAnswer(sha: Hash, storeId: string, verifies: Verifier, calls: seq<Call>, installation: string,
                     nonce: Bytes, t0: Second, ask: AnswerCall)
    requires Honest(sha, storeId, verifies, calls, installation, nonce, t0, ask)
    ensures Answered(sha, After(sha, calls), ask)
         == Some(Answer(ask.challenge, installation, sha(nonce), ask.now / SECOND,
                        HeadOf(sha, installation, Accepted(sha, calls, installation))))
  {
    hide After, Accepted, Kept, ReadChallenge, ChallengeText, Hex;
    NoFork(sha, calls, installation);
    EveryRowSound(sha, calls, installation);
    ReadsExactlyChallenges(ask.challenge, Challenge(installation, nonce, t0));
  }

  lemma HonestStatementValid(sha: Hash, storeId: string, challenge: Bytes, installation: string, t1: Second,
                             log: seq<Bytes>)
    requires log != [] && t1 + 60 < EndOfTime() && |log| <= MAX_GENERATION && WitnessName(storeId)
             && Token(installation)
    ensures ValidStatement(HonestStatement(sha, storeId, challenge, installation, t1, log))
  {
  }

  /** The reply an honest store sends is read back as that statement. */
  lemma HonestReply(sha: Hash, storeId: string, verifies: Verifier, calls: seq<Call>, installation: string,
                    nonce: Bytes, t0: Second, ask: AnswerCall)
    returns (e: Envelope)
    requires Honest(sha, storeId, verifies, calls, installation, nonce, t0, ask)
    ensures var a := Answered(sha, After(sha, calls), ask);
            var s := HonestStatement(sha, storeId, ask.challenge, installation, ask.now / SECOND,
                                     Accepted(sha, calls, installation));
            && a.Some? && Reply(sha, storeId, a.value, ask.sign) == Some(EnvelopeText(e))
            && ReadEnvelope(EnvelopeText(e)) == Some(e) && verifies(e.signature, e.payload)
            && ReadStatement(e.payload) == Some(s)
  {
    hide After, Accepted, Answered, StatementText, EnvelopeText, ReadEnvelope, ReadStatement, NonceFree,
         ChallengeText, Hex,
         Reply, ValidStatement, HonestSigner, WitnessName;
    HonestAnswer(sha, storeId, verifies, calls, installation, nonce, t0, ask);
    LogIsShort(sha, calls, installation);
    var log := Accepted(sha, calls, installation);
    var s := HonestStatement(sha, storeId, ask.challenge, installation, ask.now / SECOND, log);
    HonestStatementValid(sha, storeId, ask.challenge, installation, ask.now / SECOND, log);
    e := SignedReply(sha, storeId, Answered(sha, After(sha, calls), ask).value, ask.sign, verifies, s);
  }

  /** A valid statement signed by an honest signer is sent and read back. */
  lemma SignedReply(sha: Hash, storeId: string, a: Answer, sign: Bytes -> Option<Bytes>, verifies: Verifier,
                    s: Statement)
    returns (e: Envelope)
    requires StatementOf(sha, storeId, a) == Some(s) && ValidStatement(s)
    requires HonestSigner(sign, verifies, StatementText(s))
    ensures Reply(sha, storeId, a, sign) == Some(EnvelopeText(e)) && ReadEnvelope(EnvelopeText(e)) == Some(e)
    ensures verifies(e.signature, e.payload) && ReadStatement(e.payload) == Some(s)
  {
    hide StatementOf, ValidStatement, StatementText, EnvelopeText, ReadEnvelope, ReadStatement;
    StatementWidth(s);
    e := Envelope(StatementText(s), sign(StatementText(s)).value);
    ReadsExactlyEnvelopes(EnvelopeText(e), e);
    ReadsExactlyStatements(StatementText(s), s);
  }

  /** The bytes carry the head of this log: its digest, number and predecessor. */
  predicate CarriesHead(sha: Hash, receipt: Bytes, log: seq<Bytes>)
    requires log != []
  {
    var n, r := |log|, ParseReceipt(receipt);
    && sha(receipt) == sha(log[n - 1]) && r.Some? && r.value.generation == n
    && r.value.previousSha == if n == 1 then None else Some(sha(log[n - 2]))
  }

  /** The receipt committed last for this installation. */
  predicate Committed(sha: Hash, calls: seq<Call>, installation: string, receipt: Bytes) {
    var log := Accepted(sha, calls, installation);
    log != [] && receipt == log[|log| - 1]
  }

  lemma CommittedCarriesHead(sha: Hash, calls: seq<Call>, installation: string, receipt: Bytes)
    requires Committed(sha, calls, installation, receipt)
    ensures CarriesHead(sha, receipt, Accepted(sha, calls, installation))
  {
    hide Accepted, After, ParseReceipt;
    NoFork(sha, calls, installation);
    var log := Accepted(sha, calls, installation);
    assert Link(sha, log, |log| - 1);
  }

  lemma HeadPinned(sha: Hash, storeId: string, challenge: Bytes, installation: string, t1: Second, log: seq<Bytes>,
                   receipt: Bytes)
    requires log != [] && t1 + 60 < EndOfTime()
    ensures var s := HonestStatement(sha, storeId, challenge, installation, t1, log);
            VerifyPinned(sha, receipt, PinnedHead(s.generation, s.headSha), Predecessor(s)).Some?
            <==> CarriesHead(sha, receipt, log)
  {
    hide ParseReceipt;
  }

  /** With a genuine reply only the windows and the receipt remain to be checked. */
  lemma GenuineReplyVerifies(sha: Hash, verifies: Verifier, c: IssuedChallenge, reply: Bytes, receipt: Bytes,
                             witnessId: string, now: Moment, minimum: Option<int>, e: Envelope, s: Statement)
    requires WitnessName(witnessId) && ReadEnvelope(reply) == Some(e) && verifies(e.signature, e.payload)
    requires ReadStatement(e.payload) == Some(s)
    ensures VerifyStatement(sha, verifies, c, reply, receipt, witnessId, now, minimum).Some?
       <==> ChallengeHolds(sha, c, now) && StatementHolds(sha, s, c, witnessId, now, minimum)
            && VerifyPinned(sha, receipt, PinnedHead(s.generation, s.headSha), Predecessor(s)).Some?
    ensures var seen := VerifyStatement(sha, verifies, c, reply, receipt, witnessId, now, minimum);
            seen.Some? ==> seen.value.revision == s.revision
  {
    hide ReadEnvelope, ReadStatement, VerifyPinned, Predecessor, ChallengeHolds, StatementHolds;
  }

  /** An issued challenge holds at a moment if and only if at most 120 seconds have passed. */
  lemma IssuedChallengeHoldsExactly(sha: Hash, installation: string, issued: Moment, nonce: Bytes, now: Moment)
    requires IssueChallenge(sha, installation, issued, nonce).Some?
    ensures ChallengeHolds(sha, IssueChallenge(sha, installation, issued, nonce).value, now)
            <==> 0 <= now - issued <= 120 * SECOND
  {
    hide ChallengeHolds, ChallengeText, Hex;
    HonestChallengeHolds(sha, installation, nonce, issued / SECOND, now);
  }

  lemma HonestChallengeHolds(sha: Hash, installation: string, nonce: Bytes, t0: Second, now: Moment)
    requires Token(installation) && |nonce| == 32 && t0 * SECOND < EndOfTime() * SECOND
    ensures var raw := ChallengeText(Challenge(installation, nonce, t0));
            ChallengeHolds(sha, IssuedChallenge(raw, installation, sha(nonce), t0 * SECOND), now)
            <==> t0 * SECOND <= now <= (t0 + 120) * SECOND
  {
    hide ReadChallenge, ChallengeText;
    ReadsExactlyChallenges(ChallengeText(Challenge(installation, nonce, t0)), Challenge(installation, nonce, t0));
  }

  /** The statement's 60 seconds, the challenge's 120, and a demanded revision that is reached. */
  predicate InWindow(t0: Second, t1: Moment, t2: Moment, minimum: Option<int>, revision: nat) {
    && t1 <= t2 <= t1 + 60 * SECOND && t2 <= (t0 + 120) * SECOND
    && (minimum.Some? ==> 1 <= minimum.value <= revision)
  }

  /** The reading of a clock at a whole second. */
  function Reading(t: Second): (m: Moment)
    ensures m == t * SECOND
  {
    t * SECOND
  }

  /** The challenge the client holds in an honest exchange. */
  function HeldChallenge(sha: Hash, installation: string, nonce: Bytes, t0: Second, ask: AnswerCall): IssuedChallenge {
    IssuedChallenge(ask.challenge, installation, sha(nonce), Reading(t0))
  }

  /** What the store sends back for a question asked after these calls. */
  function SentReply(sha: Hash, storeId: string, calls: seq<Call>, ask: AnswerCall): Option<Bytes> {
    var a := Answered(sha, After(sha, calls), ask);
    if a.None? then None else Reply(sha, storeId, a.value, ask.sign)
  }

  /** There is a reply, and it makes the client accept these receipt bytes. */
  predicate Convinces(sha: Hash, verifies: Verifier, c: IssuedChallenge, reply: Option<Bytes>, receipt: Bytes,
                      witnessId: string, now: Moment, minimum: Option<int>) {
    reply.Some? && VerifyStatement(sha, verifies, c, reply.value, receipt, witnessId, now, minimum).Some?
  }

  /** Completeness, exactly. The client accepts an honest reply at t2 for these receipt
      bytes if and only if t2 lies in both windows, the demanded revision has been reached
      and the bytes carry the store's head. */
  lemma HonestReplyShowsHead(sha: Hash, storeId: string, verifies: Verifier, calls: seq<Call>, installation: string,
                             nonce: Bytes, t0: Second, ask: AnswerCall, receipt: Bytes, t2: Moment,
                             minimum: Option<int>)
    requires Honest(sha, storeId, verifies, calls, installation, nonce, t0, ask)
    ensures var log, reply := Accepted(sha, calls, installation), SentReply(sha, storeId, calls, ask);
            var c := HeldChallenge(sha, installation, nonce, t0, ask);
            reply.Some? && (Convinces(sha, verifies, c, reply, receipt, storeId, t2, minimum) <==>
                            InWindow(t0, ask.now, t2, minimum, |log|) && CarriesHead(sha, receipt, log))
            && var seen := VerifyStatement(sha, verifies, c, reply.value, receipt, storeId, t2, minimum);
               seen.Some? ==> seen.value.revision == |log|
  {
    hide After, Accepted, Answered, Reply, EnvelopeText, ReadEnvelope, ReadStatement, NonceFree, ChallengeText,
         ReadChallenge, VerifyPinned, Predecessor, VerifyStatement, ChallengeHolds, HonestSigner, Hex, WitnessName,
         StatementText, CarriesHead;
    var e := HonestReply(sha, storeId, verifies, calls, installation, nonce, t0, ask);
    var t1, log := ask.now / SECOND, Accepted(sha, calls, installation);
    var s := HonestStatement(sha, storeId, ask.challenge, installation, t1, log);
    HeadPinned(sha, storeId, ask.challenge, installation, t1, log, receipt);
    LogIsShort(sha, calls, installation);
    HonestChallengeHolds(sha, installation, nonce, t0, t2);
    var c := HeldChallenge(sha, installation, nonce, t0, ask);
    GenuineReplyVerifies(sha, verifies, c, EnvelopeText(e), receipt, storeId, t2, minimum, e, s);
  }

  lemma LogNotEmpty(sha: Hash, storeId: string, verifies: Verifier, calls: seq<Call>, installation: string,
                    nonce: Bytes, t0: Second, ask: AnswerCall)
    requires Honest(sha, storeId, verifies, calls, installation, nonce, t0, ask)
    ensures Accepted(sha, calls, installation) != [] && WitnessName(storeId) && Token(installation) && |nonce| == 32
    ensures ask.challenge == ChallengeText(Challenge(installation, nonce, t0)) && ask.now % SECOND == 0
    ensures t0 * SECOND <= ask.now
  {
    hide Accepted, NonceFree, HonestSigner, ChallengeText, WitnessName, Token, StatementText;
  }

  lemma LogIsShort(sha: Hash, calls: seq<Call>, installation: string)
    ensures |Accepted(sha, calls, installation)| <= MAX_GENERATION
  {
    NoFork(sha, calls, installation);
  }

  /** The committed receipt itself, for genesis and for successors alike. */
  lemma HonestReplyVerifiesExactly(sha: Hash, storeId: string, verifies: Verifier, calls: seq<Call>,
                                   installation: string, nonce: Bytes, t0: Second, ask: AnswerCall,
                                   receipt: Bytes, t2: Moment, minimum: Option<int>)
    requires Honest(sha, storeId, verifies, calls, installation, nonce, t0, ask)
    requires Committed(sha, calls, installation, receipt)
    ensures var reply, c := SentReply(sha, storeId, calls, ask), HeldChallenge(sha, installation, nonce, t0, ask);
            reply.Some? && (Convinces(sha, verifies, c, reply, receipt, storeId, t2, minimum) <==>
                            InWindow(t0, ask.now, t2, minimum, |Accepted(sha, calls, installation)|))
  {
    hide SentReply, Convinces, Accepted, Honest, CarriesHead, HeldChallenge, InWindow, Committed;
    CommittedCarriesHead(sha, calls, installation, receipt);
    HonestReplyShowsHead(sha, storeId, verifies, calls, installation, nonce, t0, ask, receipt, t2, minimum);
  }

  /** A query that issues and verifies at one reading of the client's clock succeeds
      only if the store's clock shows that same second. */
  lemma OneClockQueryNeedsEqualClocks(sha: Hash, storeId: string, verifies: Verifier, calls: seq<Call>,
                                      installation: string, nonce: Bytes, t0: Second, ask: AnswerCall,
                                      receipt: Bytes, minimum: Option<int>)
    requires Honest(sha, storeId, verifies, calls, installation, nonce, t0, ask)
    requires Committed(sha, calls, installation, receipt)
    requires minimum.Some? ==> 1 <= minimum.value <= |Accepted(sha, calls, installation)|
    ensures var reply, c := SentReply(sha, storeId, calls, ask), HeldChallenge(sha, installation, nonce, t0, ask);
            reply.Some? && (Convinces(sha, verifies, c, reply, receipt, storeId, Reading(t0), minimum) <==>
                            ask.now == Reading(t0))
  {
    hide SentReply, Convinces, Accepted, Honest, HeldChallenge, Committed, Reading, InWindow, ChallengeText, Token,
         WitnessName;
    LogNotEmpty(sha, storeId, verifies, calls, installation, nonce, t0, ask);
    WindowAtIssue(t0, ask.now, minimum, |Accepted(sha, calls, installation)|);
    HonestReplyVerifiesExactly(sha, storeId, verifies, calls, installation, nonce, t0, ask, receipt, Reading(t0),
                               minimum);
  }

  /** At the reading of the issue only an answer of that same second is in its window. */
  lemma WindowAtIssue(t0: Second, t1: Moment, minimum: Option<int>, revision: nat)
    requires t0 * SECOND <= t1 && (minimum.Some? ==> 1 <= minimum.value <= revision)
    ensures InWindow(t0, t1, Reading(t0), minimum, revision) <==> t1 == Reading(t0)
  {
  }

  // ----------------------------------------- soundness and completeness together

  /** No call before answered a challenge of this digest. */
  ghost predicate FreshDigest(sha: Hash, calls: seq<Call>, challenge: Bytes) {
    forall k | 0 <= k < |calls| && AnswerAt(sha, calls, k).Some? ::
      sha(AnswerAt(sha, calls, k).value.challenge) != sha(challenge)
  }

  /** Some reply makes the client accept these receipt bytes. */
  ghost predicate SomeReplyVerifies(sha: Hash, verifies: Verifier, c: IssuedChallenge, receipt: Bytes,
                                    witnessId: string, now: Moment, minimum: Option<int>) {
    exists reply :: VerifyStatement(sha, verifies, c, reply, receipt, witnessId, now, minimum).Some?
  }

  lemma AnswerBefore(sha: Hash, calls: seq<Call>, more: seq<Call>, k: nat)
    requires k < |calls|
    ensures AnswerAt(sha, calls + more, k) == AnswerAt(sha, calls, k)
  {
    assert (calls + more)[..k] == calls[..k];
  }

  /** One verifier, both ways: when only the store signs under the pinned key, and it
      answers this challenge last, receipt bytes can be made to verify at t2, by whatever
      reply, if and only if they carry the head of that moment and t2 is in both windows. */
  lemma VerifiesExactlyTheHead(sha: Hash, storeId: string, verifies: Verifier, calls: seq<Call>,
                               installation: string, nonce: Bytes, t0: Second, ask: AnswerCall,
                               receipt: Bytes, witnessId: string, t2: Moment, minimum: Option<int>)
    requires Honest(sha, storeId, verifies, calls, installation, nonce, t0, ask)
    requires OnlyStoreSigns(sha, storeId, calls + [Ask(ask)], verifies) && FreshDigest(sha, calls, ask.challenge)
    ensures var log := Accepted(sha, calls, installation);
            var c := HeldChallenge(sha, installation, nonce, t0, ask);
            SomeReplyVerifies(sha, verifies, c, receipt, witnessId, t2, minimum) <==>
            witnessId == storeId && InWindow(t0, ask.now, t2, minimum, |log|) && CarriesHead(sha, receipt, log)
  {
    hide SentReply, VerifyStatement, Accepted, Honest, ChallengeText, CarriesHead, OnlyStoreSigns, FreshDigest;
    LogNotEmpty(sha, storeId, verifies, calls, installation, nonce, t0, ask);
    HonestReplyShowsHead(sha, storeId, verifies, calls, installation, nonce, t0, ask, receipt, t2, minimum);
    var c := HeldChallenge(sha, installation, nonce, t0, ask);
    if reply :| VerifyStatement(sha, verifies, c, reply, receipt, witnessId, t2, minimum).Some? {
      AnyReplyShowsHead(sha, storeId, verifies, calls, c, ask, reply, receipt, witnessId, t2, minimum);
      HonestChallengeHolds(sha, installation, nonce, t0, t2);
      VerifiedHolds(sha, verifies, c, reply, receipt, witnessId, t2, minimum);
    }
  }

  /** A verified reply is inside the challenge's window and demands a possible revision. */
  lemma VerifiedHolds(sha: Hash, verifies: Verifier, c: IssuedChallenge, reply: Bytes, receipt: Bytes,
                      witnessId: string, now: Moment, minimum: Option<int>)
    requires VerifyStatement(sha, verifies, c, reply, receipt, witnessId, now, minimum).Some?
    ensures ChallengeHolds(sha, c, now) && (minimum.Some? ==> minimum.value >= 1)
  {
    hide ReadEnvelope, ReadStatement, VerifyPinned, ChallengeHolds;
  }

  lemma AnyReplyShowsHead(sha: Hash, storeId: string, verifies: Verifier, calls: seq<Call>, c: IssuedChallenge,
                          ask: AnswerCall, reply: Bytes, receipt: Bytes, witnessId: string, t2: Moment,
                          minimum: Option<int>)
    requires WitnessName(storeId) && c.raw == ask.challenge && ask.now % SECOND == 0
    requires OnlyStoreSigns(sha, storeId, calls + [Ask(ask)], verifies) && FreshDigest(sha, calls, ask.challenge)
    requires VerifyStatement(sha, verifies, c, reply, receipt, witnessId, t2, minimum).Some?
    ensures witnessId == storeId && ask.now <= t2 <= ask.now + 60 * SECOND
    ensures var log := Accepted(sha, calls, c.installation);
            log != [] && CarriesHead(sha, receipt, log) && (minimum.Some? ==> minimum.value <= |log|)
  {
    hide AnswerAt, Accepted, ParseReceipt, VerifyStatement, OnlyStoreSigns, WitnessName;
    var all := calls + [Ask(ask)];
    var seen := VerifyStatement(sha, verifies, c, reply, receipt, witnessId, t2, minimum).value;
    VerifiedMeansCommittedHead(sha, storeId, all, verifies, c, reply, receipt, witnessId, t2, minimum);
    var k :| 0 <= k < |all| && HeadWhenAnswered(sha, all, k, c, receipt, seen, t2);
    if k < |calls| { AnswerBefore(sha, calls, [Ask(ask)], k); }
    assert k == |calls| && all[..k] == calls;
    LastAnswered(sha, calls, ask);
  }

  lemma LastAnswered(sha: Hash, calls: seq<Call>, ask: AnswerCall)
    requires AnswerAt(sha, calls + [Ask(ask)], |calls|).Some?
    ensures AnswerAt(sha, calls + [Ask(ask)], |calls|).value.at * SECOND == ask.now
  {
    hide After, ReadChallenge, Kept, SoundRow;
    AnsweredFacts(sha, After(sha, (calls + [Ask(ask)])[..|calls|]), ask);
  }
}
