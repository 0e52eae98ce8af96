/** A store whose clock is one second ahead of the client's: the same honest exchange is
    accepted by a second reading of the client's clock, and never by the first. */
module ClockSkew {
  import opened Wrappers
  import opened CanonicalJson
  import opened Patterns
  import opened Timestamps
  import opened ActiveReceipts
  import opened WitnessMessages
  import opened CheckpointStore
  import opened StoreRuns
  import opened CheckpointWitness
  import opened WitnessProtocol
  import opened StoreReplay

  const WITNESS := "witness"

  function Installation(): string { Repeated('0', 32) }

  function Nonce(): Bytes { Repeated('a', 32) }

  /** The run that enrols the installation. */
  function Enrolment(): seq<Call> { Calls()[..1] }

  function Question(): Bytes { ChallengeText(Challenge(Installation(), Nonce(), Seconds(1000))) }

  /** A challenge issued at second 1000 and answered at second 1001. */
  function Late(): AnswerCall { AnswerCall(Question(), true, Clocked(1001), NoFault, _ => Some(Repeated('s', 64))) }

  function OnlyStatement(sha: Hash): Bytes {
    TimeIsLong();
    StatementText(HonestStatement(sha, WITNESS, Question(), Installation(), Seconds(1001), [EncodeReceipt(Genesis())]))
  }

  /** The key under which nothing but that one statement is signed. */
  function Pinned(sha: Hash): Verifier { (signature, payload) => payload == OnlyStatement(sha) }

  lemma EnrolledLog(sha: Hash)
    ensures Accepted(sha, Enrolment(), Installation()) == [EncodeReceipt(Genesis())]
  {
    hide NextRow, EncodeReceipt;
    assert Enrolment()[..0] == [] && Enrolment()[0] == Calls()[0];
    Enrolled(sha, Calls()[0].commit);
  }

  lemma NameFits()
    ensures WitnessName(WITNESS)
  {
  }

  lemma ExchangeIsHonest(sha: Hash)
    ensures Honest(sha, WITNESS, Pinned(sha), Enrolment(), Installation(), Nonce(), Seconds(1000), Late())
  {
    hide Accepted, After, ChallengeText, StatementText, EncodeReceipt, WitnessName, Kept, Enrolment;
    EnrolledLog(sha);
    NameFits();
    TimeIsLong();
    NothingIssued(sha);
    assert HonestSigner(Late().sign, Pinned(sha), OnlyStatement(sha));
  }

  lemma NothingIssued(sha: Hash)
    ensures NonceFree(sha, Enrolment(), Installation(), Nonce(), 1001)
  {
    hide After, Less, Stamp;
    TimeIsLong();
    AfterEnrolment(sha, sha(Nonce()));
  }

  /** The statement is what the store signs for the question. */
  lemma StoreSigned(sha: Hash)
    ensures SignedAt(sha, WITNESS, Enrolment() + [Ask(Late())], 1).Some?
    ensures StatementText(SignedAt(sha, WITNESS, Enrolment() + [Ask(Late())], 1).value) == OnlyStatement(sha)
  {
    hide Accepted, After, Answered, ChallengeText, StatementText, EncodeReceipt, Honest, Enrolment, HonestSigner;
    OneCall();
    ExchangeIsHonest(sha);
    HonestAnswer(sha, WITNESS, Pinned(sha), Enrolment(), Installation(), Nonce(), Seconds(1000), Late());
    EnrolledLog(sha);
    TimeIsLong();
    assert (Enrolment() + [Ask(Late())])[..1] == Enrolment();
  }

  lemma OneCall()
    ensures |Enrolment()| == 1 && Enrolment()[0].Commit?
  {
  }

  lemma OnlyThatIsSigned(sha: Hash)
    ensures OnlyStoreSigns(sha, WITNESS, Enrolment() + [Ask(Late())], Pinned(sha))
    ensures FreshDigest(sha, Enrolment(), Question())
  {
    hide SignedAt, ChallengeText, StatementText, Enrolment, Late, OnlyStatement;
    OneCall();
    StoreSigned(sha);
  }

  lemma ReceiptCommitted(sha: Hash)
    ensures Committed(sha, Enrolment(), Installation(), EncodeReceipt(Genesis()))
  {
    hide Accepted, EncodeReceipt, Enrolment;
    EnrolledLog(sha);
  }

  function ClientChallenge(sha: Hash): IssuedChallenge {
    HeldChallenge(sha, Installation(), Nonce(), Seconds(1000), Late())
  }

  /** What the client makes of the store's reply at a reading of its own clock. */
  predicate AcceptedAt(sha: Hash, n: nat)
    requires n <= 2000
  {
    Convinces(sha, Pinned(sha), ClientChallenge(sha), SentReply(sha, WITNESS, Enrolment(), Late()),
              EncodeReceipt(Genesis()), WITNESS, Reading(Seconds(n)), None)
  }

  ghost predicate AcceptableAt(sha: Hash, n: nat)
    requires n <= 2000
  {
    SomeReplyVerifies(sha, Pinned(sha), ClientChallenge(sha), EncodeReceipt(Genesis()), WITNESS,
                      Reading(Seconds(n)), None)
  }

  /** The reply is good one second later, and no reply at all is good for a client that
      verifies at the reading it issued the challenge with. */
  lemma OneReadingFails(sha: Hash)
    ensures AcceptedAt(sha, 1001) && !AcceptedAt(sha, 1000)
    ensures !AcceptableAt(sha, 1000)
  {
    hide Convinces, SentReply, EncodeReceipt, Honest, OnlyStoreSigns, FreshDigest, HeldChallenge, Accepted, Committed,
         Pinned, CarriesHead, Enrolment, ChallengeText;
    ExchangeIsHonest(sha);
    OnlyThatIsSigned(sha);
    ReceiptCommitted(sha);
    var receipt := EncodeReceipt(Genesis());
    HonestReplyVerifiesExactly(sha, WITNESS, Pinned(sha), Enrolment(), Installation(), Nonce(), Seconds(1000), Late(),
                               receipt, Reading(Seconds(1001)), None);
    OneClockQueryNeedsEqualClocks(sha, WITNESS, Pinned(sha), Enrolment(), Installation(), Nonce(), Seconds(1000),
                                  Late(), receipt, None);
    LogNotEmpty(sha, WITNESS, Pinned(sha), Enrolment(), Installation(), Nonce(), Seconds(1000), Late());
    VerifiesExactlyTheHead(sha, WITNESS, Pinned(sha), Enrolment(), Installation(), Nonce(), Seconds(1000), Late(),
                           receipt, WITNESS, Reading(Seconds(1000)), None);
  }
}
