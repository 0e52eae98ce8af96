/** A run of the witness service on a clock that is set back, in which the very same
    challenge is answered twice. */
module StoreReplay {
  import opened Wrappers
  import opened CanonicalJson
  import opened Patterns
  import opened Timestamps
  import opened ActiveReceipts
  import opened WitnessMessages
  import opened CheckpointStore
  import opened StoreRuns

  function Repeated(c: Octet, n: nat): Bytes { seq(n, _ => c) }

  function Zeros(): Digest { Repeated('0', 64) }

  /** The digest tells the two nonces apart. */
  predicate TellsNonces(sha: Hash) { sha(Repeated('a', 32)) != sha(Repeated('b', 32)) }

  function Genesis(): Receipt {
    Receipt(1, 0, Repeated('0', 32), "s", "w", Zeros(), Zeros(), Zeros(), Zeros(), Zeros(), Zeros(), [], [], [], None)
  }

  lemma OnePart(c: char)
    requires Letter(c)
    ensures SafeRelative([c])
  {
    assert [c][1..] == "" && Split("", '/') == [""];
    assert [c] + [""][0] == [c] && [""][1..] == [];
    assert Split([c], '/') == [[c]] + [];
    assert PathPart([c]);
  }

  lemma GenesisValid()
    ensures ValidReceipt(Genesis())
  {
    hide Split;
    OnePart('s');
    OnePart('w');
    assert "s" == ['s'] && "w" == ['w'];
    hide SafeRelative;
  }

  lemma ReceiptNamesShort()
    ensures forall i | 0 <= i < 17 :: |ReceiptFields()[i]| <= 25
  {
  }

  lemma ReceiptTypeWidth()
    ensures |Print(Str(ReceiptType()))| <= 500
  {
    hide Escaped;
    CrudeWidth(ReceiptType());
  }

  lemma ZerosWidth()
    ensures |Print(Str(Zeros()))| == 66 && |Print(Str(Repeated('0', 32)))| == 34
  {
    hide Quoted;
    QuotedWidth(Zeros());
    QuotedWidth(Repeated('0', 32));
  }

  lemma NoRowsWidth()
    ensures |Print(Arr(TextRow([])))| == 2 && |Print(Arr(TextTable([])))| == 2 && |Print(Null)| == 4
    ensures |Print(Str("s"))| == 3 && |Print(Str("w"))| == 3
  {
    hide Quoted;
    assert TextRow([]) == [] && TextTable([]) == [];
    QuotedWidth("s");
    QuotedWidth("w");
  }

  lemma GenesisValueIs(i: nat)
    requires i < 17
    ensures var v := ReceiptValue(Genesis(), i);
            v in {Str(Zeros()), Str(Repeated('0', 32)), Str(ReceiptType()), Str(Stamp(0)), Str("s"), Str("w"),
                  Arr(TextRow([])), Arr(TextTable([])), Num(1), Null}
  {
    hide Stamp, ReceiptType, Zeros, Repeated, TextRow, TextTable;
  }

  lemma GenesisValueWidth(i: nat)
    requires i < 17
    ensures |Print(ReceiptValue(Genesis(), i))| <= 500
  {
    hide Print, TextRow, TextTable, Stamp, ReceiptType, Repeated, Zeros, ReceiptValue, Genesis;
    ReceiptTypeWidth();
    ZerosWidth();
    NoRowsWidth();
    StampWidth(0);
    OneWidth();
    GenesisValueIs(i);
  }

  lemma GenesisSize()
    ensures |EncodeReceipt(Genesis())| <= MAX_RECEIPT
  {
    hide ReceiptFields, ReceiptValues, ReceiptValue, Genesis, Print, Dumps, Record;
    assert EncodeReceipt(Genesis()) == Dumps(Record(ReceiptFields(), ReceiptValues(Genesis())));
    ReceiptNamesShort();
    forall i | 0 <= i < 17 ensures |Print(ReceiptValues(Genesis())[i])| <= 500 {
      GenesisValueWidth(i);
    }
    RecordWidthCrude(ReceiptFields(), ReceiptValues(Genesis()), 25, 500);
  }

  lemma GenesisParses()
    ensures ParseReceipt(EncodeReceipt(Genesis())) == Some(Genesis())
  {
    hide ValidReceipt, ParseReceipt, EncodeReceipt, Genesis;
    GenesisValid();
    GenesisSize();
    ParsesExactlyEncodings(EncodeReceipt(Genesis()), Genesis());
  }

  // ------------------------------------------------------------- the replay

  lemma TimeIsLong()
    ensures EndOfTime() > 2000
  {
    assert DaysBeforeYear(10000) >= 9999;
  }

  function Seconds(n: nat): Second
    requires n <= 2000
  {
    TimeIsLong();
    n
  }

  function Clocked(n: nat): Moment
    requires n <= 2000
  {
    TimeIsLong();
    n * SECOND
  }

  function Asked(mark: Octet, n: nat): AnswerCall
    requires n <= 2000
  {
    AnswerCall(ChallengeText(Challenge(Repeated('0', 32), Repeated(mark, 32), Seconds(n))),
               true, Clocked(n), NoFault, _ => None)
  }

  /** Enrolment, a question, another one 301 seconds later, and the first one again
      by a clock that was set back. */
  function Calls(): seq<Call> {
    [Commit(CommitCall(Repeated('0', 32), EncodeReceipt(Genesis()), true, true, NoFault)),
     Ask(Asked('a', 1000)), Ask(Asked('b', 1301)), Ask(Asked('a', 1000))]
  }

  lemma ReadsAsked(mark: Octet, n: nat)
    requires n <= 2000
    ensures ReadChallenge(Asked(mark, n).challenge)
            == Some(Challenge(Repeated('0', 32), Repeated(mark, 32), Seconds(n)))
  {
    hide ChallengeText, ReadChallenge;
    ReadsExactlyChallenges(Asked(mark, n).challenge, Challenge(Repeated('0', 32), Repeated(mark, 32), Seconds(n)));
  }

  /** Enrolled with a sound row, and the nonce not answered yet. */
  ghost predicate Ready(t: Tables, nonceSha: Digest) {
    var id := Repeated('0', 32);
    id in t.heads && SoundRow(t.heads[id]) && (id, nonceSha) !in t.issued
  }

  lemma AnswersReady(sha: Hash, t: Tables, mark: Octet, n: nat)
    requires 300 <= n <= 2000 && Ready(t, sha(Repeated(mark, 32)))
    ensures Answered(sha, t, Asked(mark, n)).Some?
    ensures var a := Answered(sha, t, Asked(mark, n)).value;
            a.installation == Repeated('0', 32) && a.nonceSha == sha(Repeated(mark, 32)) && a.at == n
  {
    hide ReadChallenge, SoundRow, Stamp, Less, ChallengeText;
    ReadsAsked(mark, n);
  }

  lemma Enrolled(sha: Hash, call: CommitCall)
    requires call == CommitCall(Repeated('0', 32), EncodeReceipt(Genesis()), true, true, NoFault)
    ensures NextRow(sha, map[], call).Some? && SoundRow(NextRow(sha, map[], call).value)
  {
    hide ParseReceipt, EncodeReceipt;
    GenesisParses();
  }

  lemma AfterEnrolment(sha: Hash, nonceSha: Digest)
    ensures Ready(After(sha, Calls()[..1]), nonceSha) && After(sha, Calls()[..1]).issued == map[]
  {
    hide SoundRow, EncodeReceipt, Asked, NextRow;
    assert Calls()[..1][..0] == [] && Calls()[..1][0] == Calls()[0];
    Enrolled(sha, Calls()[0].commit);
  }

  /** The k-th call was answered at this reading of the clock, under this nonce. */
  ghost predicate AnsweredTo(sha: Hash, calls: seq<Call>, k: nat, mark: Octet, n: nat)
    requires n <= 2000
  {
    && k < |calls| && calls[k] == Ask(Asked(mark, n)) && AnswerAt(sha, calls, k).Some?
    && var a := AnswerAt(sha, calls, k).value;
       a.installation == Repeated('0', 32) && a.nonceSha == sha(Repeated(mark, 32)) && a.at == n
       && a.challenge == Asked(mark, n).challenge
  }

  lemma Asks(sha: Hash, calls: seq<Call>, k: nat, mark: Octet, n: nat)
    requires k < |calls| && 300 <= n <= 2000 && calls[k] == Ask(Asked(mark, n))
    requires Ready(After(sha, calls[..k]), sha(Repeated(mark, 32)))
    ensures AnsweredTo(sha, calls, k, mark, n)
  {
    hide ReadChallenge, SoundRow, Stamp, Less, ChallengeText, Asked, Kept, After;
    AnswersReady(sha, After(sha, calls[..k]), mark, n);
    AnsweredFacts(sha, After(sha, calls[..k]), Asked(mark, n));
  }

  /** An empty nonce table afterwards holds that one answer. */
  lemma OneNonce(sha: Hash, calls: seq<Call>, k: nat, mark: Octet, n: nat, nonceSha: Digest)
    requires n <= 2000 && AnsweredTo(sha, calls, k, mark, n) && nonceSha != sha(Repeated(mark, 32))
    requires Ready(After(sha, calls[..k]), nonceSha) && After(sha, calls[..k]).issued == map[]
    ensures Ready(After(sha, calls[..k + 1]), nonceSha)
  {
    hide SoundRow, Stamp, Less, Asked, Answered;
    AfterOne(sha, calls, k + 1);
    assert calls[..k + 1][..k] == calls[..k] && calls[..k + 1][k] == calls[k];
  }

  lemma BothAnswered(sha: Hash)
    requires TellsNonces(sha)
    ensures AnsweredTo(sha, Calls(), 1, 'a', 1000) && AnsweredTo(sha, Calls(), 2, 'b', 1301)
  {
    hide After, Asked, Ready, AnsweredTo, EncodeReceipt, Repeated;
    var first, second := sha(Repeated('a', 32)), sha(Repeated('b', 32));
    AfterEnrolment(sha, first);
    AfterEnrolment(sha, second);
    Asks(sha, Calls(), 1, 'a', 1000);
    OneNonce(sha, Calls(), 1, 'a', 1000, second);
    Asks(sha, Calls(), 2, 'b', 1301);
  }

  /** The same challenge bytes were answered twice, at the same reading of the clock. */
  ghost predicate Replayed(sha: Hash, calls: seq<Call>, j: nat, k: nat) {
    && j < k < |calls| && AnswerAt(sha, calls, j).Some? && AnswerAt(sha, calls, k).Some?
    && AnswerAt(sha, calls, j).value.challenge == AnswerAt(sha, calls, k).value.challenge
    && AnswerAt(sha, calls, j).value.at == AnswerAt(sha, calls, k).value.at
  }

  /** For every digest that tells the two nonces apart. */
  lemma AnsweredTwice(sha: Hash)
    requires TellsNonces(sha)
    ensures Replayed(sha, Calls(), 1, 3)
  {
    hide AnswerAt, EncodeReceipt, Asked, Repeated, Admissible;
    BothAnswered(sha);
    AdmissiblyAsked('a', 1000);
    ReplaysExactly(sha, Calls(), 1, 3);
    SameQuestion(sha, Calls(), 1, 3);
  }

  lemma AdmissiblyAsked(mark: Octet, n: nat)
    requires 300 <= n <= 2000
    ensures Admissible(Asked(mark, n))
  {
    hide ReadChallenge, ChallengeText;
    ReadsAsked(mark, n);
  }

  lemma SameQuestion(sha: Hash, calls: seq<Call>, j: nat, k: nat)
    requires j < k < |calls| && AnswerAt(sha, calls, j).Some? && AnswerAt(sha, calls, k).Some? && calls[j] == calls[k]
    ensures Replayed(sha, calls, j, k)
  {
    hide After, ReadChallenge, Kept, SoundRow;
  }
}
