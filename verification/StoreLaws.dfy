/** Exactly which commits and which questions the witness service accepts, over every run,
    in terms of the call and of what was accepted and answered before. */
module StoreLaws {
  import opened Wrappers
  import opened CanonicalJson
  import opened Patterns
  import opened Timestamps
  import opened ActiveReceipts
  import opened WitnessMessages
  import opened CheckpointStore
  import opened StoreRuns

  // ----------------------------------------------------------------------- commits

  lemma CommitStep(sha: Hash, calls: seq<Call>, c: CommitCall, installation: string)
    ensures var all, next := calls + [Commit(c)], NextRow(sha, After(sha, calls).heads, c);
            && Accepted(sha, all, installation) ==
               (if next.Some? && installation == c.installation then Accepted(sha, calls, installation) + [c.receipt]
                else Accepted(sha, calls, installation))
            && After(sha, all).issued == After(sha, calls).issued
            && After(sha, all).heads ==
               (if next.Some? then After(sha, calls).heads[c.installation := next.value] else After(sha, calls).heads)
  {
    hide NextRow;
    var all := calls + [Commit(c)];
    assert all[..|all| - 1] == calls && all[|all| - 1] == Commit(c);
    var log := Accepted(sha, calls, installation);
    assert log + [] == log;
  }

  lemma NextRowExactly(sha: Hash, calls: seq<Call>, c: CommitCall)
    ensures var log, r := Accepted(sha, calls, c.installation), ParseReceipt(c.receipt);
            NextRow(sha, After(sha, calls).heads, c) ==
            if && |c.installation| == 32
               && (forall i | 0 <= i < 32 :: '0' <= c.installation[i] <= '9' || 'a' <= c.installation[i] <= 'f')
               && r.Some? && c.mayCommit && c.fault == NoFault
               && r.value.generation == |log| + 1 <= 9007199254740991
               && r.value.previousSha == (if log == [] then None else Some(sha(log[|log| - 1])))
               && (log == [] ==> c.mayEnroll)
            then Some(Row(c.installation, |log| + 1, |log| + 1, sha(c.receipt),
                          if log == [] then None else Some(|log|),
                          if log == [] then None else Some(sha(log[|log| - 1]))))
            else None
  {
    hide After, Accepted, ParseReceipt, Chain;
    NoFork(sha, calls, c.installation);
    if c.installation in After(sha, calls).heads { EveryRowSound(sha, calls, c.installation); }
  }

  /** A commit is accepted if and only if the installation is 32 lower-case hexadecimal
      digits, the receipt parses, the caller may commit, and enrol if nothing was accepted
      before, no statement fails, and the receipt is the next generation and names the last
      receipt accepted, or nothing for the first. Nothing else changes. */
  lemma CommitAcceptedExactly(sha: Hash, calls: seq<Call>, c: CommitCall, other: string)
    requires other != c.installation
    ensures var log, r := Accepted(sha, calls, c.installation), ParseReceipt(c.receipt);
            Accepted(sha, calls + [Commit(c)], c.installation) ==
            if && |c.installation| == 32
               && (forall i | 0 <= i < 32 :: '0' <= c.installation[i] <= '9' || 'a' <= c.installation[i] <= 'f')
               && r.Some? && c.mayCommit && c.fault == NoFault
               && r.value.generation == |log| + 1 <= 9007199254740991
               && r.value.previousSha == (if log == [] then None else Some(sha(log[|log| - 1])))
               && (log == [] ==> c.mayEnroll)
            then log + [c.receipt] else log
    ensures Accepted(sha, calls + [Commit(c)], other) == Accepted(sha, calls, other)
    ensures After(sha, calls + [Commit(c)]).issued == After(sha, calls).issued
  {
    hide After, Accepted, ParseReceipt, NextRow;
    CommitStep(sha, calls, c, c.installation);
    CommitStep(sha, calls, c, other);
    NextRowExactly(sha, calls, c);
  }

  /** What an accepted commit returns to its caller. */
  lemma CommitReturnsExactly(sha: Hash, calls: seq<Call>, c: CommitCall)
    requires NextRow(sha, After(sha, calls).heads, c).Some?
    ensures var log := Accepted(sha, calls, c.installation);
            Read(NextRow(sha, After(sha, calls).heads, c).value) ==
            Checkpoint(c.installation, |log| + 1, |log| + 1, sha(c.receipt),
                       if log == [] then None else Some(sha(log[|log| - 1])))
  {
    hide After, Accepted, ParseReceipt, NextRow;
    NextRowExactly(sha, calls, c);
  }

  // --------------------------------------------------------------------- questions

  /** An earlier answer still stands in the way at this time: it was to this nonce, at most
      300 seconds ago, and no answer since came more than 300 seconds after it. */
  ghost predicate StandsInTheWay(sha: Hash, calls: seq<Call>, j: nat, k: nat, installation: string, nonceSha: Digest,
                                 at: int)
    requires j < k <= |calls|
  {
    var a := AnswerAt(sha, calls, j);
    && a.Some? && a.value.installation == installation && a.value.nonceSha == nonceSha && at <= a.value.at + 300
    && forall i | j < i < k && AnswerAt(sha, calls, i).Some? :: AnswerAt(sha, calls, i).value.at <= a.value.at + 300
  }

  /** Every row of the nonce table is the time of an answer no later one has purged. */
  lemma {:induction false} RowsAreAnswers(sha: Hash, calls: seq<Call>, k: nat, installation: string, nonceSha: Digest)
    returns (j: nat)
    requires k <= |calls| && (installation, nonceSha) in After(sha, calls[..k]).issued
    ensures j < k && AnswerAt(sha, calls, j).Some?
    ensures var a := AnswerAt(sha, calls, j).value;
            && a.installation == installation && a.nonceSha == nonceSha && Held(After(sha, calls[..k]).issued, a)
            && !PurgedBetween(sha, calls, a, j, k)
    decreases k
  {
    hide AnswerAt, After, Recorded, Held, PurgedBetween;
    if k == 0 {
      NothingIssuedYet(sha, calls);
    } else {
      AfterOne(sha, calls, k);
      var b, issued := AnswerAt(sha, calls, k - 1), After(sha, calls[..k - 1]).issued;
      if b.None? {
        j := RowsAreAnswers(sha, calls, k - 1, installation, nonceSha);
        PurgedStep(sha, calls, AnswerAt(sha, calls, j).value, j, k);
      } else if b.value.installation == installation && b.value.nonceSha == nonceSha {
        j := k - 1;
        JustRecorded(issued, b.value);
        NothingBetween(sha, calls, b.value, j, k);
      } else {
        RowKept(issued, b.value, installation, nonceSha);
        j := RowsAreAnswers(sha, calls, k - 1, installation, nonceSha);
        var a := AnswerAt(sha, calls, j).value;
        PurgedStep(sha, calls, a, j, k);
        HeldAfterAnother(issued, a, b.value);
      }
    }
  }

  lemma NothingIssuedYet(sha: Hash, calls: seq<Call>)
    ensures After(sha, calls[..0]).issued == map[]
  {
    assert calls[..0] == [];
  }

  lemma RowKept(issued: Nonces, b: Answer, installation: string, nonceSha: Digest)
    requires b.at >= 300 && (installation, nonceSha) in Recorded(issued, b)
    requires b.installation != installation || b.nonceSha != nonceSha
    ensures (installation, nonceSha) in issued
  {
    hide Stamp, Less;
  }

  lemma InTheWayExactly(sha: Hash, calls: seq<Call>, k: nat, installation: string, nonceSha: Digest, at: Second)
    requires k <= |calls| && at >= 300
    ensures (installation, nonceSha) in Kept(After(sha, calls[..k]).issued, at - 300) <==>
            exists j | 0 <= j < k :: StandsInTheWay(sha, calls, j, k, installation, nonceSha, at)
  {
    hide AnswerAt, After, Kept, Held, StandsInTheWay;
    var issued := After(sha, calls[..k]).issued;
    if (installation, nonceSha) in Kept(issued, at - 300) {
      KeptIsThere(issued, at - 300, (installation, nonceSha));
      var j := RowsAreAnswers(sha, calls, k, installation, nonceSha);
      KeptWhileRecent(issued, AnswerAt(sha, calls, j).value, at - 300);
      WayMeans(sha, calls, j, k, installation, nonceSha, at);
    }
    if j :| 0 <= j < k && StandsInTheWay(sha, calls, j, k, installation, nonceSha, at) {
      WayMeans(sha, calls, j, k, installation, nonceSha, at);
      HeldUntilPurged(sha, calls, j, k);
      KeptWhileRecent(issued, AnswerAt(sha, calls, j).value, at - 300);
    }
  }

  lemma KeptIsThere(issued: Nonces, cutoff: Second, key: (string, string))
    requires key in Kept(issued, cutoff)
    ensures key in issued
  {
    hide Stamp, Less;
  }

  lemma WayMeans(sha: Hash, calls: seq<Call>, j: nat, k: nat, installation: string, nonceSha: Digest, at: int)
    requires j < k <= |calls|
    ensures StandsInTheWay(sha, calls, j, k, installation, nonceSha, at) <==>
            var a := AnswerAt(sha, calls, j);
            && a.Some? && a.value.installation == installation && a.value.nonceSha == nonceSha
            && at <= a.value.at + 300 && !PurgedBetween(sha, calls, a.value, j, k)
  {
    hide AnswerAt;
  }

  /** The k-th call is answered if and only if its challenge reads, the caller may ask, the
      clock shows a whole second of at least 300 and at most 120 after the issue, no
      statement fails, something was accepted for that installation, and no earlier answer
      stands in the way; and the answer shows the last receipt accepted. */
  lemma QuestionAnsweredExactly(sha: Hash, calls: seq<Call>, k: nat)
    requires k < |calls| && calls[k].Ask?
    ensures var ask := calls[k].ask;
            var c, at := ReadChallenge(ask.challenge), ask.now / 1_000_000;
            AnswerAt(sha, calls, k).Some? <==>
            && c.Some? && ask.mayRead && ask.fault == NoFault && ask.now % 1_000_000 == 0
            && at >= 300 && c.value.issuedAt <= at <= c.value.issuedAt + 120
            && Accepted(sha, calls[..k], c.value.installation) != []
            && forall j | 0 <= j < k :: !StandsInTheWay(sha, calls, j, k, c.value.installation, sha(c.value.nonce), at)
  {
    hide After, Accepted, ReadChallenge, Kept, SoundRow, StandsInTheWay, HeadOf, Chain, AnswerAt;
    var ask, t := calls[k].ask, After(sha, calls[..k]);
    AskedAt(sha, calls, k);
    if ReadChallenge(ask.challenge).Some? {
      var c := ReadChallenge(ask.challenge).value;
      AnsweredExactly(sha, t, ask, c);
      NoFork(sha, calls[..k], c.installation);
      if c.installation in t.heads { EveryRowSound(sha, calls[..k], c.installation); }
      if ask.now / SECOND >= 300 {
        InTheWayExactly(sha, calls, k, c.installation, sha(c.nonce), ask.now / SECOND);
      }
    } else {
      Unreadable(sha, t, ask);
    }
  }

  lemma AskedAt(sha: Hash, calls: seq<Call>, k: nat)
    requires k < |calls| && calls[k].Ask?
    ensures AnswerAt(sha, calls, k) == Answered(sha, After(sha, calls[..k]), calls[k].ask)
  {
    hide Answered, After;
  }

  lemma Unreadable(sha: Hash, t: Tables, ask: AnswerCall)
    requires ReadChallenge(ask.challenge).None?
    ensures Answered(sha, t, ask).None?
  {
    hide ReadChallenge, Kept, SoundRow;
  }

  lemma AnswerShowsExactly(sha: Hash, calls: seq<Call>, k: nat)
    requires k < |calls| && AnswerAt(sha, calls, k).Some?
    ensures calls[k].Ask? && ReadChallenge(calls[k].ask.challenge).Some?
    ensures var ask, a := calls[k].ask, AnswerAt(sha, calls, k).value;
            var c := ReadChallenge(ask.challenge).value;
            var log := Accepted(sha, calls[..k], c.installation);
            && log != [] && a.challenge == ask.challenge && a.installation == c.installation
            && a.nonceSha == sha(c.nonce) && a.at == ask.now / 1_000_000
            && a.head == Row(c.installation, |log|, |log|, sha(log[|log| - 1]),
                             if |log| == 1 then None else Some(|log| - 1),
                             if |log| == 1 then None else Some(sha(log[|log| - 2])))
  {
    hide After, Accepted, ReadChallenge, Kept, SoundRow, Chain;
    AnswerFacts(sha, calls, k);
    NoFork(sha, calls[..k], AnswerAt(sha, calls, k).value.installation);
  }
}
