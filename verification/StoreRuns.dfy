/** What every run of the witness service keeps. */
module StoreRuns {
  import opened Wrappers
  import opened CanonicalJson
  import opened Patterns
  import opened Timestamps
  import opened ActiveReceipts
  import opened WitnessMessages
  import opened CheckpointStore

  // ----------------------------------------------------------------- no fork

  /** Receipt i is of generation i + 1 and names the digest of the one before. */
  ghost predicate Link(sha: Hash, log: seq<Bytes>, i: nat)
    requires i < |log|
  {
    var r := ParseReceipt(log[i]);
    && r.Some? && r.value.generation == i + 1
    && r.value.previousSha == if i == 0 then None else Some(sha(log[i - 1]))
  }

  ghost predicate Chain(sha: Hash, log: seq<Bytes>) {
    forall i | 0 <= i < |log| :: Link(sha, log, i)
  }

  /** The row that a non-empty log of accepted receipts must have left. */
  function HeadOf(sha: Hash, installation: string, log: seq<Bytes>): Row
    requires log != []
  {
    var n := |log|;
    Row(installation, n, n, sha(log[n - 1]),
        if n == 1 then None else Some(n - 1), if n == 1 then None else Some(sha(log[n - 2])))
  }

  /** What the service knows about an installation: the log so far and its row. */
  ghost predicate Agree(sha: Hash, heads: Heads, installation: string, log: seq<Bytes>) {
    && Chain(sha, log) && |log| <= MAX_GENERATION
    && (installation in heads <==> log != [])
    && (log != [] ==> heads[installation] == HeadOf(sha, installation, log))
  }

  /** Over every run, an installation's accepted receipts form one chain, and its row
      is the one that chain determines: revision, generation and length agree. */
  lemma {:induction false} NoFork(sha: Hash, calls: seq<Call>, installation: string)
    ensures Agree(sha, After(sha, calls).heads, installation, Accepted(sha, calls, installation))
  {
    if calls == [] {
      assert Chain(sha, []);
    } else {
      hide NextRow, Answered, Recorded, Agree, After, Accepted;
      var earlier, last := calls[..|calls| - 1], calls[|calls| - 1];
      var heads, log := After(sha, earlier).heads, Accepted(sha, earlier, installation);
      NoFork(sha, earlier, installation);
      LastCall(sha, calls, installation);
      if last.Commit? && NextRow(sha, heads, last.commit).Some? {
        if last.commit.installation == installation {
          LogGrows(sha, heads, last.commit, log);
        } else {
          OthersStay(sha, heads, installation, log, last.commit.installation, NextRow(sha, heads, last.commit).value);
        }
      }
    }
  }

  /** What the last call of a run does to the heads and to an installation's log. */
  lemma LastCall(sha: Hash, calls: seq<Call>, installation: string)
    requires calls != []
    ensures var earlier, last := calls[..|calls| - 1], calls[|calls| - 1];
            var heads, log := After(sha, earlier).heads, Accepted(sha, earlier, installation);
            if last.Commit? && NextRow(sha, heads, last.commit).Some? then
              After(sha, calls).heads == heads[last.commit.installation := NextRow(sha, heads, last.commit).value]
              && Accepted(sha, calls, installation) ==
                 if last.commit.installation == installation then log + [last.commit.receipt] else log
            else After(sha, calls).heads == heads && Accepted(sha, calls, installation) == log
  {
    hide NextRow, Answered, Recorded;
    var log := Accepted(sha, calls[..|calls| - 1], installation);
    assert log + [] == log;
  }

  lemma OthersStay(sha: Hash, heads: Heads, installation: string, log: seq<Bytes>, other: string, row: Row)
    requires Agree(sha, heads, installation, log) && other != installation
    ensures Agree(sha, heads[other := row], installation, log)
  {
    hide Chain;
  }

  lemma ChainGrows(sha: Hash, log: seq<Bytes>, receipt: Bytes)
    requires Chain(sha, log) && Link(sha, log + [receipt], |log|)
    ensures Chain(sha, log + [receipt])
  {
    hide ParseReceipt;
    var longer := log + [receipt];
    forall i | 0 <= i < |longer| ensures Link(sha, longer, i) {
      if i < |log| { assert Link(sha, log, i); }
    }
  }

  lemma NextRowLinks(sha: Hash, heads: Heads, call: CommitCall, log: seq<Bytes>)
    requires Agree(sha, heads, call.installation, log) && NextRow(sha, heads, call).Some?
    ensures var longer := log + [call.receipt];
            && Link(sha, longer, |log|) && |longer| <= MAX_GENERATION
            && NextRow(sha, heads, call).value == HeadOf(sha, call.installation, longer)
  {
    hide ParseReceipt, Hex, Token, Chain;
    var longer := log + [call.receipt];
    assert |log| > 0 ==> longer[|log| - 1] == log[|log| - 1];
  }

  lemma LogGrows(sha: Hash, heads: Heads, call: CommitCall, log: seq<Bytes>)
    requires Agree(sha, heads, call.installation, log) && NextRow(sha, heads, call).Some?
    ensures Agree(sha, heads[call.installation := NextRow(sha, heads, call).value],
                  call.installation, log + [call.receipt])
  {
    NextRowLinks(sha, heads, call, log);
    hide NextRow, Chain, Link, HeadOf;
    assert Chain(sha, log);
    ChainGrows(sha, log, call.receipt);
  }

  /** Every row a run can leave passes the reader's checks and the table's constraints. */
  lemma EveryRowSound(sha: Hash, calls: seq<Call>, installation: string)
    requires installation in After(sha, calls).heads
    ensures var row := After(sha, calls).heads[installation];
            SoundRow(row) && SchemaAllows(row) && row.revision == row.generation && row.installation == installation
  {
    hide After, Accepted, Chain, Hex;
    NoFork(sha, calls, installation);
  }

  /** Accepted receipts are never replaced: a longer run only appends. */
  lemma {:induction false} AcceptedOnlyGrows(sha: Hash, calls: seq<Call>, k: nat, installation: string)
    requires k <= |calls|
    ensures Accepted(sha, calls[..k], installation) <= Accepted(sha, calls, installation)
    decreases |calls|
  {
    if k < |calls| {
      var earlier := calls[..|calls| - 1];
      assert earlier[..k] == calls[..k];
      AcceptedOnlyGrows(sha, earlier, k, installation);
    } else {
      assert calls[..k] == calls;
    }
  }

  /** At most one receipt is ever accepted for a generation. */
  lemma OneReceiptPerGeneration(sha: Hash, calls: seq<Call>, installation: string, i: nat, j: nat)
    requires i < |Accepted(sha, calls, installation)| && j < |Accepted(sha, calls, installation)|
    requires var log := Accepted(sha, calls, installation);
             ParseReceipt(log[i]).Some? && ParseReceipt(log[j]).Some?
             && ParseReceipt(log[i]).value.generation == ParseReceipt(log[j]).value.generation
    ensures i == j
  {
    hide After, Accepted, ParseReceipt, HeadOf;
    NoFork(sha, calls, installation);
    assert Link(sha, Accepted(sha, calls, installation), i) && Link(sha, Accepted(sha, calls, installation), j);
  }

  // ---------------------------------------------------------- replay freedom

  /** The service clock does not run backwards between answers. */
  ghost predicate ClockForward(sha: Hash, calls: seq<Call>) {
    forall i, j | 0 <= i < j < |calls| && AnswerAt(sha, calls, i).Some? && AnswerAt(sha, calls, j).Some? ::
      AnswerAt(sha, calls, i).value.at <= AnswerAt(sha, calls, j).value.at
  }

  /** What a committed answer says about its challenge and the tables it was made from. */
  ghost predicate GoodAnswer(sha: Hash, t: Tables, a: Answer) {
    hide ReadChallenge;
    var c := ReadChallenge(a.challenge);
    && a.at >= 300 && c.Some? && 0 <= a.at - c.value.issuedAt <= 120
    && a.installation == c.value.installation && a.nonceSha == sha(c.value.nonce)
    && (a.installation, a.nonceSha) !in Kept(t.issued, a.at - 300)
    && a.installation in t.heads && a.head == t.heads[a.installation] && SoundRow(a.head)
  }

  lemma AnsweredFacts(sha: Hash, t: Tables, call: AnswerCall)
    requires Answered(sha, t, call).Some?
    ensures var a := Answered(sha, t, call).value;
            GoodAnswer(sha, t, a) && a.challenge == call.challenge && a.at * SECOND == call.now
  {
    hide ReadChallenge, Kept, SoundRow;
  }

  lemma AnswerFacts(sha: Hash, calls: seq<Call>, k: nat)
    requires k < |calls| && AnswerAt(sha, calls, k).Some?
    ensures GoodAnswer(sha, After(sha, calls[..k]), AnswerAt(sha, calls, k).value)
  {
    hide Answered, After, GoodAnswer;
    AnsweredFacts(sha, After(sha, calls[..k]), calls[k].ask);
  }

  lemma AfterOne(sha: Hash, calls: seq<Call>, k: nat)
    requires 0 < k <= |calls|
    ensures var t, t' := After(sha, calls[..k - 1]), After(sha, calls[..k]);
            var b := AnswerAt(sha, calls, k - 1);
            if b.None? then t'.issued == t.issued else b.value.at >= 300 && t'.issued == Recorded(t.issued, b.value)
  {
    assert calls[..k][..k - 1] == calls[..k - 1] && calls[..k][k - 1] == calls[k - 1];
    var t := After(sha, calls[..k - 1]);
    assert After(sha, calls[..k]) == Step(sha, t, calls[k - 1]);
    hide After, Answered, NextRow, Recorded;
    if AnswerAt(sha, calls, k - 1).Some? { AnswerFacts(sha, calls, k - 1); }
  }

  /** Two answers to one installation and nonce: what the nonce table cannot hold both of. */
  predicate SameKey(a: Answer, b: Answer) { a.installation == b.installation && a.nonceSha == b.nonceSha }

  /** The nonce's row still holds exactly the time of this answer. */
  predicate Held(issued: Nonces, a: Answer) {
    var key := (a.installation, a.nonceSha);
    key in issued && issued[key] == Stamp(a.at)
  }

  lemma KeptWhileRecent(issued: Nonces, a: Answer, cutoff: Second)
    requires Held(issued, a) && 0 <= a.at < EndOfTime()
    ensures (a.installation, a.nonceSha) in Kept(issued, cutoff) <==> cutoff <= a.at
  {
    hide Stamp, Less;
    StampOrder(a.at, cutoff);
  }

  /** Another answer leaves the row alone unless it comes more than 300 seconds later. */
  lemma HeldAfterAnother(issued: Nonces, a: Answer, b: Answer)
    requires Held(issued, a) && 300 <= b.at && !SameKey(a, b)
    ensures if b.at <= a.at + 300 then Held(Recorded(issued, b), a)
            else (a.installation, a.nonceSha) !in Recorded(issued, b)
  {
    hide Stamp, Less;
    KeptWhileRecent(issued, a, b.at - 300);
  }

  /** An answered call between two others that came more than 300 seconds after an answer. */
  ghost predicate PurgedBetween(sha: Hash, calls: seq<Call>, a: Answer, j: nat, k: nat)
    requires k <= |calls|
  {
    exists i | j < i < k :: AnswerAt(sha, calls, i).Some? && AnswerAt(sha, calls, i).value.at > a.at + 300
  }

  lemma PurgedSooner(sha: Hash, calls: seq<Call>, a: Answer, j: nat, k: nat)
    requires 0 < k <= |calls| && !PurgedBetween(sha, calls, a, j, k)
    ensures !PurgedBetween(sha, calls, a, j, k - 1)
    ensures j < k - 1 && AnswerAt(sha, calls, k - 1).Some? ==> AnswerAt(sha, calls, k - 1).value.at <= a.at + 300
  {
    hide AnswerAt;
  }

  /** Until some answer comes more than 300 seconds later, the row stays and nobody
      answers that nonce again. */
  lemma {:induction false} HeldUntilPurged(sha: Hash, calls: seq<Call>, j: nat, k: nat)
    requires j < k <= |calls| && AnswerAt(sha, calls, j).Some?
    requires !PurgedBetween(sha, calls, AnswerAt(sha, calls, j).value, j, k)
    ensures Held(After(sha, calls[..k]).issued, AnswerAt(sha, calls, j).value)
    decreases k
  {
    hide AnswerAt, After, Recorded, Held, PurgedBetween, GoodAnswer;
    var a, b, t := AnswerAt(sha, calls, j).value, AnswerAt(sha, calls, k - 1), After(sha, calls[..k - 1]);
    AfterOne(sha, calls, k);
    if k - 1 == j {
      JustRecorded(t.issued, a);
    } else {
      PurgedSooner(sha, calls, a, j, k);
      HeldUntilPurged(sha, calls, j, k - 1);
      if b.Some? {
        AnsweredAgainIsLate(sha, calls, a, t.issued, k - 1);
        HeldAfterAnother(t.issued, a, b.value);
      }
    }
  }

  lemma JustRecorded(issued: Nonces, a: Answer)
    requires a.at >= 300
    ensures Held(Recorded(issued, a), a)
  {
    hide Stamp, Kept;
  }

  /** While the row is held, only an answer more than 300 seconds later repeats the nonce. */
  lemma AnsweredAgainIsLate(sha: Hash, calls: seq<Call>, a: Answer, issued: Nonces, k: nat)
    requires k < |calls| && AnswerAt(sha, calls, k).Some? && issued == After(sha, calls[..k]).issued && Held(issued, a)
    ensures SameKey(a, AnswerAt(sha, calls, k).value) ==> AnswerAt(sha, calls, k).value.at > a.at + 300
  {
    hide AnswerAt, After, Kept, ReadChallenge, SoundRow, Held;
    AnswerFacts(sha, calls, k);
    KeptWhileRecent(issued, a, AnswerAt(sha, calls, k).value.at - 300);
  }

  /** Whatever the clock does, a nonce is answered again only more than 300 seconds after
      it was answered, or after some answer in between was. */
  lemma RepeatedNonceNeedsPurge(sha: Hash, calls: seq<Call>, j: nat, k: nat)
    requires j < k < |calls| && AnswerAt(sha, calls, j).Some? && AnswerAt(sha, calls, k).Some?
    requires SameKey(AnswerAt(sha, calls, j).value, AnswerAt(sha, calls, k).value)
    ensures var a := AnswerAt(sha, calls, j).value;
            PurgedBetween(sha, calls, a, j, k) || AnswerAt(sha, calls, k).value.at > a.at + 300
  {
    hide AnswerAt, After, Held, PurgedBetween;
    var a := AnswerAt(sha, calls, j).value;
    if !PurgedBetween(sha, calls, a, j, k) {
      HeldUntilPurged(sha, calls, j, k);
      AnsweredAgainIsLate(sha, calls, a, After(sha, calls[..k]).issued, k);
    }
  }

  /** Answers to the same challenge bytes are at most 120 seconds apart, either way. */
  lemma SameChallengeSameMoment(sha: Hash, calls: seq<Call>, j: nat, k: nat)
    requires j < |calls| && k < |calls| && AnswerAt(sha, calls, j).Some? && AnswerAt(sha, calls, k).Some?
    requires AnswerAt(sha, calls, j).value.challenge == AnswerAt(sha, calls, k).value.challenge
    ensures SameKey(AnswerAt(sha, calls, j).value, AnswerAt(sha, calls, k).value)
    ensures AnswerAt(sha, calls, k).value.at <= AnswerAt(sha, calls, j).value.at + 120
  {
    hide AnswerAt, After, Kept, ReadChallenge, SoundRow;
    AnswerFacts(sha, calls, j);
    AnswerFacts(sha, calls, k);
  }

  /** Whatever the clock does, the same challenge bytes are answered twice only if in
      between some answer was clocked more than 300 seconds after the first. */
  lemma RepeatedChallengeNeedsPurge(sha: Hash, calls: seq<Call>, j: nat, k: nat)
    requires j < k < |calls| && AnswerAt(sha, calls, j).Some? && AnswerAt(sha, calls, k).Some?
    requires AnswerAt(sha, calls, j).value.challenge == AnswerAt(sha, calls, k).value.challenge
    ensures PurgedBetween(sha, calls, AnswerAt(sha, calls, j).value, j, k)
  {
    hide AnswerAt, PurgedBetween;
    SameChallengeSameMoment(sha, calls, j, k);
    RepeatedNonceNeedsPurge(sha, calls, j, k);
  }

  /** On a clock that does not run back, two answers to one installation and nonce lie
      more than 300 seconds apart, purge or no purge. */
  lemma NonceAnswersFarApart(sha: Hash, calls: seq<Call>, j: nat, k: nat)
    requires j < k < |calls| && ClockForward(sha, calls)
    requires AnswerAt(sha, calls, j).Some? && AnswerAt(sha, calls, k).Some?
    requires SameKey(AnswerAt(sha, calls, j).value, AnswerAt(sha, calls, k).value)
    ensures AnswerAt(sha, calls, j).value.at + 300 < AnswerAt(sha, calls, k).value.at
  {
    hide AnswerAt;
    RepeatedNonceNeedsPurge(sha, calls, j, k);
  }

  /** And the same challenge bytes are never answered twice. */
  lemma NoChallengeAnsweredTwice(sha: Hash, calls: seq<Call>, j: nat, k: nat)
    requires j < k < |calls| && ClockForward(sha, calls)
    requires AnswerAt(sha, calls, j).Some? && AnswerAt(sha, calls, k).Some?
    ensures AnswerAt(sha, calls, j).value.challenge != AnswerAt(sha, calls, k).value.challenge
  {
    hide AnswerAt;
    if AnswerAt(sha, calls, j).value.challenge == AnswerAt(sha, calls, k).value.challenge {
      SameChallengeSameMoment(sha, calls, j, k);
      RepeatedChallengeNeedsPurge(sha, calls, j, k);
    }
  }

  // ------------------------------------------------------------ exact replay

  /** No answer strictly between the two calls is to this nonce. */
  ghost predicate Unrepeated(sha: Hash, calls: seq<Call>, a: Answer, j: nat, k: nat)
    requires k <= |calls|
  {
    forall i | j < i < k && AnswerAt(sha, calls, i).Some? :: !SameKey(a, AnswerAt(sha, calls, i).value)
  }

  lemma UnrepeatedSooner(sha: Hash, calls: seq<Call>, a: Answer, j: nat, k: nat)
    requires 0 < k <= |calls| && Unrepeated(sha, calls, a, j, k)
    ensures Unrepeated(sha, calls, a, j, k - 1)
    ensures j < k - 1 && AnswerAt(sha, calls, k - 1).Some? ==> !SameKey(a, AnswerAt(sha, calls, k - 1).value)
  {
    hide AnswerAt;
  }

  lemma AbsentAfterAnother(issued: Nonces, a: Answer, b: Answer)
    requires (a.installation, a.nonceSha) !in issued && 300 <= b.at && !SameKey(a, b)
    ensures (a.installation, a.nonceSha) !in Recorded(issued, b)
  {
    hide Stamp, Less;
  }

  /** With nobody answering the nonce meanwhile, its row is gone exactly when purged. */
  lemma {:induction false} HeldExactlyUntilPurged(sha: Hash, calls: seq<Call>, j: nat, k: nat)
    requires j < k <= |calls| && AnswerAt(sha, calls, j).Some?
    requires Unrepeated(sha, calls, AnswerAt(sha, calls, j).value, j, k)
    ensures var a, issued := AnswerAt(sha, calls, j).value, After(sha, calls[..k]).issued;
            if PurgedBetween(sha, calls, a, j, k) then (a.installation, a.nonceSha) !in issued else Held(issued, a)
    decreases k
  {
    hide AnswerAt, After, Recorded, Held, PurgedBetween, Unrepeated, SameKey;
    var a, b, t := AnswerAt(sha, calls, j).value, AnswerAt(sha, calls, k - 1), After(sha, calls[..k - 1]);
    if !PurgedBetween(sha, calls, a, j, k) {
      HeldUntilPurged(sha, calls, j, k);
    } else if k - 1 > j {
      AfterOne(sha, calls, k);
      UnrepeatedSooner(sha, calls, a, j, k);
      HeldExactlyUntilPurged(sha, calls, j, k - 1);
      PurgedStep(sha, calls, a, j, k);
      if b.Some? {
        if PurgedBetween(sha, calls, a, j, k - 1) { AbsentAfterAnother(t.issued, a, b.value); }
        else { HeldAfterAnother(t.issued, a, b.value); }
      }
    } else {
      NothingBetween(sha, calls, a, j, k);
    }
  }

  lemma PurgedStep(sha: Hash, calls: seq<Call>, a: Answer, j: nat, k: nat)
    requires j < k - 1 && k <= |calls|
    ensures PurgedBetween(sha, calls, a, j, k) <==>
            PurgedBetween(sha, calls, a, j, k - 1)
            || (AnswerAt(sha, calls, k - 1).Some? && AnswerAt(sha, calls, k - 1).value.at > a.at + 300)
  {
    hide AnswerAt;
  }

  lemma NothingBetween(sha: Hash, calls: seq<Call>, a: Answer, j: nat, k: nat)
    requires k == j + 1 <= |calls|
    ensures !PurgedBetween(sha, calls, a, j, k)
  {
  }

  /** An enrolled installation stays, and its row stays sound. */
  lemma HeadsStay(sha: Hash, calls: seq<Call>, j: nat, k: nat, installation: string)
    requires j <= k <= |calls| && installation in After(sha, calls[..j]).heads
    ensures installation in After(sha, calls[..k]).heads && SoundRow(After(sha, calls[..k]).heads[installation])
  {
    hide After, Accepted, Chain, SoundRow, HeadOf;
    assert calls[..k][..j] == calls[..j];
    NoFork(sha, calls[..j], installation);
    NoFork(sha, calls[..k], installation);
    AcceptedOnlyGrows(sha, calls[..k], j, installation);
    EveryRowSound(sha, calls[..k], installation);
  }

  /** What a question must bring with it, whatever the tables hold. */
  predicate Admissible(ask: AnswerCall) {
    hide ReadChallenge;
    var c := ReadChallenge(ask.challenge);
    && ask.now % SECOND == 0 && c.Some? && ask.mayRead && ask.fault.NoFault?
    && 300 <= ask.now / SECOND && 0 <= ask.now / SECOND - c.value.issuedAt <= 120
  }

  /** The tables know the installation and, after the purge, not the nonce. */
  predicate Open(t: Tables, key: (string, string), at: Second)
    requires at >= 300
  {
    key !in Kept(t.issued, at - 300) && key.0 in t.heads && SoundRow(t.heads[key.0])
  }

  lemma AnsweredExactly(sha: Hash, t: Tables, ask: AnswerCall, c: Challenge)
    requires ReadChallenge(ask.challenge) == Some(c)
    ensures Answered(sha, t, ask).Some? <==>
            Admissible(ask) && Open(t, (c.installation, sha(c.nonce)), ask.now / SECOND)
  {
    hide ReadChallenge, Kept, SoundRow, EndOfTime;
  }

  /** Tables that still know the installation answer the same challenge again, admissibly
      asked, if they no longer know the nonce, and not while they hold its row. */
  lemma AskedAgain(sha: Hash, t: Tables, t': Tables, a: Answer, ask: AnswerCall)
    requires GoodAnswer(sha, t, a) && ask.challenge == a.challenge
    requires a.installation in t'.heads && SoundRow(t'.heads[a.installation])
    ensures (a.installation, a.nonceSha) !in t'.issued ==> (Answered(sha, t', ask).Some? <==> Admissible(ask))
    ensures Held(t'.issued, a) ==> Answered(sha, t', ask).None?
  {
    hide ReadChallenge, SoundRow, Stamp, Less, Held, Answered, EndOfTime;
    AnsweredExactly(sha, t', ask, ReadChallenge(ask.challenge).value);
    if Held(t'.issued, a) && Admissible(ask) { KeptWhileRecent(t'.issued, a, ask.now / SECOND - 300); }
  }

  lemma AnswerKnown(sha: Hash, calls: seq<Call>, k: nat)
    requires k < |calls| && AnswerAt(sha, calls, k).Some?
    ensures var a := AnswerAt(sha, calls, k).value;
            GoodAnswer(sha, After(sha, calls[..k]), a) && a.installation in After(sha, calls[..k]).heads
            && calls[k].Ask? && a.challenge == calls[k].ask.challenge
  {
    hide After, ReadChallenge, Kept, SoundRow;
    AnswerFacts(sha, calls, k);
  }

  /** Asking with the same challenge bytes again, at whatever reading of the clock, is
      answered if and only if the question is admissible and in between some answer was
      clocked more than 300 seconds after the first. */
  lemma ReplaysExactly(sha: Hash, calls: seq<Call>, j: nat, k: nat)
    requires j < k < |calls| && AnswerAt(sha, calls, j).Some?
    requires calls[k].Ask? && calls[k].ask.challenge == AnswerAt(sha, calls, j).value.challenge
    requires Unrepeated(sha, calls, AnswerAt(sha, calls, j).value, j, k)
    ensures AnswerAt(sha, calls, k).Some? <==>
            Admissible(calls[k].ask) && PurgedBetween(sha, calls, AnswerAt(sha, calls, j).value, j, k)
  {
    hide Answered, After, Held, PurgedBetween, Unrepeated, SoundRow, Kept, GoodAnswer, Admissible;
    var a, t' := AnswerAt(sha, calls, j).value, After(sha, calls[..k]);
    AnswerKnown(sha, calls, j);
    assert AnswerAt(sha, calls, k) == Answered(sha, t', calls[k].ask);
    hide AnswerAt;
    HeldExactlyUntilPurged(sha, calls, j, k);
    HeadsStay(sha, calls, j, k, a.installation);
    AskedAgain(sha, After(sha, calls[..j]), t', a, calls[k].ask);
  }
}
