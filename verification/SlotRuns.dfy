/** Crash consistency of the two slot files, over every interruption and every run. */
module SlotRuns {
  import opened Wrappers
  import opened Patterns
  import opened ActiveReceipts
  import opened SlotRecords
  import opened Slots
  import opened SoftwareRoots
  import opened SuccessorProposals

  // --------------------------------------------------------------- invariant

  /** A selection short enough for a capsule that saves it to be read back. */
  predicate Small(raw: Bytes) { 1 <= |raw| <= MAX_PREIMAGE }

  /** The candidate follows the saved selection by exactly one generation. */
  ghost predicate Follows(sha: Hash, r: Recovery, s: Selection) {
    && r.candidateSha == sha(SelectionBytes(s)) && Small(SelectionBytes(s)) && s.transactionId == r.transactionId
    && s.generation == if r.previous.None? || ParseSelection(r.previous.value).None? then 1
                       else ParseSelection(r.previous.value).value.generation + 1
  }

  /** The capsule saves r's preimage before candidate s, and the pointer is one of the two. */
  ghost predicate Pending(sha: Hash, f: Files, r: Recovery, s: Selection) {
    && f.capsule == Some(RecoveryBytes(r)) && ValidRecovery(sha, r)
    && (r.previous.Some? ==> Small(r.previous.value))
    && Follows(sha, r, s)
    && (f.selection == r.previous || f.selection == Some(SelectionBytes(s)))
  }

  ghost predicate JournalsRead(f: Files) { forall tx <- f.journals :: ValidJournal(f.journals[tx]) }

  ghost predicate Recoverable(sha: Hash, f: Files) {
    && JournalsRead(f)
    && (f.selection.Some? ==> Small(f.selection.value))
    && (f.capsule.Some? ==> exists r, s :: Pending(sha, f, r, s))
  }

  lemma PendingReads(sha: Hash, f: Files, r: Recovery, s: Selection)
    requires Pending(sha, f, r, s)
    ensures ParseRecovery(sha, f.capsule.value) == Some(r)
  {
    hide ValidRecovery, ParseRecovery, RecoveryBytes, Follows;
    if r.previous.None? { EmptyCapsuleReadable(sha, r); } else { CapsuleReadableExactly(sha, r); }
  }

  /** Where a restore must end: the saved selection, and no capsule. */
  function Restored(f: Files, r: Recovery): Files { f.(selection := r.previous, capsule := None) }

  // ----------------------------------------------------------------- restore

  /** What a restore writes from a pending state: never nothing. */
  lemma PendingRestore(sha: Hash, f: Files, r: Recovery, s: Selection)
    requires Pending(sha, f, r, s) && r.transactionId !in f.proposals
    ensures RestoreWrites(sha, f, r.transactionId) ==
            if f.selection == Some(SelectionBytes(s)) || (f.selection.Some? && sha(f.selection.value) == r.candidateSha)
            then [if r.previous.None? then DropSelection else PutSelection(r.previous.value), DropCapsule]
            else [DropCapsule]
  {
    hide ParseRecovery, RecoveryBytes, ParseSelection, SelectionBytes, Hex, Token;
    PendingReads(sha, f, r, s);
  }

  lemma RestoreShapes(sha: Hash, f: Files, r: Recovery, s: Selection, stop: Stop)
    requires Pending(sha, f, r, s) && r.transactionId !in f.proposals
    ensures var g := Cut(f, RestoreWrites(sha, f, r.transactionId), stop);
            g == f || g == f.(selection := r.previous) || g == Restored(f, r)
    ensures Cut(f, RestoreWrites(sha, f, r.transactionId), Never) == Restored(f, r)
  {
    hide RestoreWrites, Pending, Cut, SelectionBytes, RecoveryBytes;
    var put := if r.previous.None? then DropSelection else PutSelection(r.previous.value);
    PendingRestore(sha, f, r, s);
    PendingSides(sha, f, r, s);
    CutTwo(f, put, DropCapsule, stop);
    CutTwo(f, put, DropCapsule, Never);
    CutOne(f, DropCapsule, stop);
    CutOne(f, DropCapsule, Never);
  }

  lemma PendingSides(sha: Hash, f: Files, r: Recovery, s: Selection)
    requires Pending(sha, f, r, s)
    ensures f.capsule == Some(RecoveryBytes(r))
    ensures f.selection == r.previous || f.selection == Some(SelectionBytes(s))
  {
    hide RecoveryBytes, SelectionBytes, ValidRecovery, Follows;
  }

  lemma PutBackPending(sha: Hash, f: Files, r: Recovery, s: Selection)
    requires Pending(sha, f, r, s)
    ensures Pending(sha, f.(selection := r.previous), r, s)
  {
    hide RecoveryBytes, SelectionBytes, ValidRecovery, Follows;
  }

  /** However often a restore is cut short, running it once more to the end puts back
      exactly the saved selection and leaves no capsule. */
  lemma {:induction false} RestoreRetried(sha: Hash, f: Files, r: Recovery, s: Selection, stops: seq<Stop>)
    requires Pending(sha, f, r, s) && r.transactionId !in f.proposals
    ensures var g := Retried(sha, f, r.transactionId, stops);
            Cut(g, RestoreWrites(sha, g, r.transactionId), Never) == Restored(f, r)
    decreases |stops|
  {
    hide Cut, RestoreWrites, Pending;
    if stops == [] {
      RestoreShapes(sha, f, r, s, Never);
    } else {
      RestoreShapes(sha, f, r, s, stops[0]);
      PutBackPending(sha, f, r, s);
      var g := Cut(f, RestoreWrites(sha, f, r.transactionId), stops[0]);
      if g == Restored(f, r) {
        NothingToRestore(sha, g, r.transactionId, stops[1..]);
      } else {
        RestoreRetried(sha, g, r, s, stops[1..]);
      }
    }
  }

  /** Restores of one transaction, each stopped as given, with its lock cleared in between. */
  function Retried(sha: Hash, f: Files, tx: string, stops: seq<Stop>): Files
    decreases |stops|
  {
    if stops == [] then f else Retried(sha, Cut(f, RestoreWrites(sha, f, tx), stops[0]), tx, stops[1..])
  }

  lemma {:induction false} NothingToRestore(sha: Hash, f: Files, tx: string, stops: seq<Stop>)
    requires f.capsule.None?
    ensures Retried(sha, f, tx, stops) == f && Cut(f, RestoreWrites(sha, f, tx), Never) == f
    decreases |stops|
  {
    hide ParseRecovery, ParseSelection;
    NothingMade(f, Never);
    if stops != [] {
      NothingMade(f, stops[0]);
      NothingToRestore(sha, f, tx, stops[1..]);
    }
  }

  // ------------------------------------------------------------------ switch

  predicate SelectionFits(s: Selection) {
    && Token(s.transactionId) && Hex(s.preparedSha, 64) && Hex(s.nativeSha, 64) && |s.stagePath| <= 180
    && Positive(s.generation)
  }

  /** s may be selected next: its fields are a readable journal's and its generation
      follows the present selection's. */
  ghost predicate Successor(f: Files, s: Selection) {
    && f.capsule.None? && SelectionFits(s)
    && (f.selection.None? ==> s.generation == 1)
    && (f.selection.Some? ==> ParseSelection(f.selection.value).Some?
                              && s.generation == ParseSelection(f.selection.value).value.generation + 1)
  }

  lemma JournalSelects(tx: string, j: Journal, generation: int)
    requires ValidJournal(j) && Token(tx) && Positive(generation)
    ensures var s := Selected(tx, j, generation);
            s.transactionId == tx && s.generation == generation && SelectionFits(s)
  {
  }

  lemma SwitchSelects(sha: Hash, f: Files, c: SwitchCall) returns (s: Selection)
    requires JournalsRead(f) && SwitchWrites(sha, f, c) != []
    ensures Successor(f, s) && s.transactionId == c.transactionId
    ensures SwitchWrites(sha, f, c) == CapsuleFirst(sha, f.selection, s)
  {
    hide ParseSelection, SelectionBytes, CapsuleFirst, SwitchArmed, ValidJournal, ValidSelection, Token,
         SelectionFits, Selected;
    var j := f.journals[c.transactionId];
    assert ValidJournal(j);
    var generation := NextGeneration(f.selection, c.transactionId).value;
    s := Selected(c.transactionId, j, generation);
    if f.selection.Some? { GenerationPositive(f.selection.value); }
    JournalSelects(c.transactionId, j, generation);
  }

  lemma GenerationPositive(raw: Bytes)
    requires ParseSelection(raw).Some?
    ensures 1 <= ParseSelection(raw).value.generation <= MAX_GENERATION
  {
    hide ParseSelection;
    SelectionBounds(raw);
  }

  lemma ArmedToken(sha: Hash, j: Journal, c: SelectCall)
    requires ValidJournal(j) && SelectArmed(sha, j, c)
    ensures Token(c.transactionId)
  {
  }

  lemma SelectSelects(sha: Hash, f: Files, c: SelectCall) returns (s: Selection)
    requires JournalsRead(f) && SelectWrites(sha, f, c) != []
    ensures Successor(f, s) && s.transactionId == c.transactionId && f.selection.Some?
    ensures SelectWrites(sha, f, c) == CapsuleFirst(sha, f.selection, s)
    ensures s == Selected(c.transactionId, f.journals[c.transactionId],
                          ParseReceipt(c.previousReceipt).value.generation + 1)
  {
    hide ParseSelection, ParseReceipt, CapsuleFirst, SelectArmed, ValidJournal, Token, SelectionFits, Selected;
    var j, generation := f.journals[c.transactionId], ParseReceipt(c.previousReceipt).value.generation + 1;
    assert ValidJournal(j);
    s := Selected(c.transactionId, j, generation);
    GenerationPositive(f.selection.value);
    ArmedToken(sha, j, c);
    JournalSelects(c.transactionId, j, generation);
  }

  lemma SavedValid(sha: Hash, f: Files, s: Selection)
    requires Successor(f, s)
    ensures ValidRecovery(sha, Saved(sha, f.selection, s)) && Follows(sha, Saved(sha, f.selection, s), s)
  {
    hide SelectionBytes, ParseSelection;
    SelectionWidth(s);
  }

  lemma SaveShapes(sha: Hash, f: Files, s: Selection, stop: Stop)
    requires Successor(f, s)
    ensures var g := Cut(f, CapsuleFirst(sha, f.selection, s), stop);
            var saved := Some(RecoveryBytes(Saved(sha, f.selection, s)));
            g == f || g == f.(capsule := saved) || g == f.(capsule := saved, selection := Some(SelectionBytes(s)))
    ensures Cut(f, CapsuleFirst(sha, f.selection, s), Never) ==
            f.(capsule := Some(RecoveryBytes(Saved(sha, f.selection, s))), selection := Some(SelectionBytes(s)))
  {
    hide Saved, SelectionBytes, RecoveryBytes, Cut, Successor;
    CutTwo(f, PutCapsule(RecoveryBytes(Saved(sha, f.selection, s))), PutSelection(SelectionBytes(s)), stop);
    CutTwo(f, PutCapsule(RecoveryBytes(Saved(sha, f.selection, s))), PutSelection(SelectionBytes(s)), Never);
  }

  /** A switch cut short anywhere leaves the files alone, or a pending state whose
      restore is the state before the switch. */
  lemma SwitchPending(sha: Hash, f: Files, s: Selection, stop: Stop)
    requires Successor(f, s) && (f.selection.Some? ==> Small(f.selection.value))
    ensures var g := Cut(f, CapsuleFirst(sha, f.selection, s), stop);
            g == f || (Pending(sha, g, Saved(sha, f.selection, s), s) && Restored(g, Saved(sha, f.selection, s)) == f)
    ensures Pending(sha, Cut(f, CapsuleFirst(sha, f.selection, s), Never), Saved(sha, f.selection, s), s)
  {
    SavedValid(sha, f, s);
    SaveShapes(sha, f, s, stop);
    assert Saved(sha, f.selection, s).previous == f.selection && f.capsule.None?;
    hide Cut, CapsuleFirst, SelectionBytes, RecoveryBytes, ValidRecovery, Follows, Saved, Successor;
  }

  /** A completed switch is undone by a restore if and only if the selection it
      replaced was absent or at most 5901 bytes long. */
  lemma SwitchReversibleExactly(sha: Hash, f: Files, s: Selection)
    requires Successor(f, s) && s.transactionId !in f.proposals
    ensures var g := Cut(f, CapsuleFirst(sha, f.selection, s), Never);
            Cut(g, RestoreWrites(sha, g, s.transactionId), Never) == f <==>
            f.selection.None? || |f.selection.value| <= MAX_PREIMAGE
  {
    var saved, g := Saved(sha, f.selection, s), Cut(f, CapsuleFirst(sha, f.selection, s), Never);
    SavedValid(sha, f, s);
    SaveShapes(sha, f, s, Never);
    if f.selection.Some? { SelectionBounds(f.selection.value); }
    if f.selection.None? || |f.selection.value| <= MAX_PREIMAGE {
      SwitchPending(sha, f, s, Never);
      hide Cut, CapsuleFirst, SelectionBytes, RecoveryBytes, ValidRecovery, Follows, Pending;
      RestoreShapes(sha, g, saved, s, Never);
    } else {
      hide SelectionBytes, RecoveryBytes, ValidRecovery, Follows, ParseRecovery;
      CapsuleReadableExactly(sha, saved);
      OnlyItsOwnCapsule(sha, saved);
      NothingMade(g, Never);
    }
  }

  /** So a switch call that goes through is undone by a restore if and only if the
      selection it found was absent or at most 5901 bytes long. */
  lemma SwitchCallReversibleExactly(sha: Hash, f: Files, c: SwitchCall)
    requires JournalsRead(f) && SwitchWrites(sha, f, c) != [] && c.transactionId !in f.proposals
    ensures var g := Cut(f, SwitchWrites(sha, f, c), Never);
            Cut(g, RestoreWrites(sha, g, c.transactionId), Never) == f <==>
            f.selection.None? || |f.selection.value| <= MAX_PREIMAGE
  {
    hide SwitchWrites, CapsuleFirst, RestoreWrites, Cut, Successor, JournalsRead;
    var s := SwitchSelects(sha, f, c);
    SwitchReversibleExactly(sha, f, s);
  }

  // ------------------------------------------------------ a switch not undone

  function NextTransaction(): string { Repeated('1', 32) }

  /** An armed intent to select the stage b, whose audited records are all empty. */
  function ArmedJournal(sha: Hash): Journal {
    Journal(NextTransaction(), 1, ActivationIntent, 0, "b", "w", sha([]), sha([]), sha([]), sha([]), None)
  }

  /** A root that holds the long selection and that intent. */
  function LongRoot(sha: Hash): Files {
    Files(Some(SelectionBytes(LongSelection())), None, map[NextTransaction() := ArmedJournal(sha)], map[])
  }

  /** A switch that finds the directory a, which the long selection's path leads to. */
  function LongCall(): SwitchCall { SwitchCall(NextTransaction(), [], [], [], [], true, {["a"]}) }

  lemma {:induction false} DotsVanish(n: nat)
    ensures KeptParts(DotParts(n)) == []
  {
    if n > 0 {
      DotsVanish(n - 1);
      assert DotParts(n)[1..] == DotParts(n - 1);
    }
  }

  lemma LongStagePresent()
    ensures StagePresent({["a"]}, LongSelection().stagePath)
  {
    hide Split, Dots;
    NamedThenDots(2925);
    DotsVanish(2925);
    var parts := ["a"] + DotParts(2925);
    assert parts[1..] == DotParts(2925);
    assert KeptParts(parts) == ["a"] && ["a"][..1] == ["a"];
  }

  lemma ShortPath(c: char)
    requires c != '/' && c != '\\' && c != ':' && c != '.'
    ensures JournalPath([c])
  {
    assert [c][1..] == "" && [c] + "" == [c];
    assert Split([c], '/') == [[c]];
  }

  lemma ArmedJournalValid(sha: Hash)
    ensures ValidJournal(ArmedJournal(sha)) && Token(NextTransaction())
  {
    hide Split, JournalPath;
    ShortPath('b');
    ShortPath('w');
    assert "b" == ['b'] && "w" == ['w'];
  }

  lemma LongRootRead(sha: Hash)
    ensures JournalsRead(LongRoot(sha)) && Token(NextTransaction())
  {
    hide ValidJournal, Token, ArmedJournal, NextTransaction, SelectionBytes;
    ArmedJournalValid(sha);
  }

  /** A switch the code makes that no restore undoes. */
  lemma LongSelectionNotRestored(sha: Hash)
    ensures SwitchWrites(sha, LongRoot(sha), LongCall()) != []
    ensures var g := Cut(LongRoot(sha), SwitchWrites(sha, LongRoot(sha), LongCall()), Never);
            Cut(g, RestoreWrites(sha, g, NextTransaction()), Never) != LongRoot(sha)
  {
    LongSwitchGoes(sha);
    LongSelectionAccepted();
    LongRootRead(sha);
    hide LongSelection, SelectionBytes, ParseSelection, JournalsRead, SwitchWrites, Cut, RestoreWrites, NextTransaction;
    SwitchCallReversibleExactly(sha, LongRoot(sha), LongCall());
  }

  lemma LongSwitchGoes(sha: Hash)
    ensures SwitchWrites(sha, LongRoot(sha), LongCall()) != []
  {
    hide SelectionBytes, ParseSelection, StagePresent, Dots, SwitchArmed, LongSelection, NextTransaction, Token,
         ArmedJournal, RecoveryBytes;
    LongSelectionAccepted();
    LongStagePresent();
    ArmedJournalValid(sha);
    LongIntentArmed(sha);
  }

  lemma LongIntentArmed(sha: Hash)
    ensures SwitchArmed(sha, ArmedJournal(sha), LongCall())
    ensures LongSelection().transactionId != NextTransaction() && LongSelection().generation == 1
  {
    assert LongSelection().transactionId[0] != NextTransaction()[0];
  }

  /** A printed capsule is read back as itself or not at all. */
  lemma OnlyItsOwnCapsule(sha: Hash, r: Recovery)
    requires ValidRecovery(sha, r)
    ensures ParseRecovery(sha, RecoveryBytes(r)).Some? ==> ParseRecovery(sha, RecoveryBytes(r)) == Some(r)
  {
    hide ParseRecovery, RecoveryBytes, ValidRecovery;
    if ParseRecovery(sha, RecoveryBytes(r)).Some? {
      RecoveryBounds(sha, RecoveryBytes(r));
      ParsesExactlyRecoveries(sha, RecoveryBytes(r), r);
    }
  }

  // --------------------------------------------------------------- reconcile

  /** A pending witness-bound switch whose journal can still be reconciled at this time. */
  ghost predicate Resumable(sha: Hash, f: Files, r: Recovery, s: Selection, now: Second) {
    && Pending(sha, f, r, s) && r.transactionId !in f.proposals && r.transactionId in f.journals
    && Reconcilable(f.journals[r.transactionId], r.transactionId, now)
    && OwnSwitch(sha, r, r.transactionId, f.journals[r.transactionId])
  }

  function WithPointer(f: Files, saved: Bytes): Files { f.(selection := Some(saved)) }

  function WithMark(f: Files, tx: string, saved: Bytes, now: Second): Files
    requires tx in f.journals
  {
    f.(selection := Some(saved), journals := f.journals[tx := Reconciled(f.journals[tx], now)])
  }

  lemma UndoShapes(f: Files, tx: string, saved: Bytes, now: Second, stop: Stop)
    requires tx in f.journals && f.selection.Some?
    ensures var g := Cut(f, UndoWrites(f, tx, saved, now), stop);
            g == f || g == WithPointer(f, saved) || g == WithMark(f, tx, saved, now)
            || g == WithMark(f, tx, saved, now).(capsule := None)
    ensures Cut(f, UndoWrites(f, tx, saved, now), Never) == WithMark(f, tx, saved, now).(capsule := None)
  {
    hide Cut;
    var j := f.journals[tx];
    assert j.phase != ActivationIntent ==> f.journals[tx := Reconciled(j, now)] == f.journals;
    hide Reconciled;
    var mark := PutJournal(tx, Reconciled(j, now));
    var back := if f.selection.value != saved then [PutSelection(saved)] else [];
    var marked := back + if j.phase == ActivationIntent then [mark] else [];
    assert back + [] == back;
    NothingMade(f, stop);
    NothingMade(f, Never);
    NextMade(f, [], PutSelection(saved), [PutSelection(saved)], stop);
    NextMade(f, [], PutSelection(saved), [PutSelection(saved)], Never);
    NextMade(f, back, mark, back + [mark], stop);
    NextMade(f, back, mark, back + [mark], Never);
    NextMade(f, marked, DropCapsule, marked + [DropCapsule], stop);
    NextMade(f, marked, DropCapsule, marked + [DropCapsule], Never);
  }

  lemma PendingReconcile(sha: Hash, f: Files, r: Recovery, s: Selection, now: Second)
    requires Resumable(sha, f, r, s, now)
    ensures r.previous.Some? && f.selection.Some?
    ensures ReconcileWrites(sha, f, r.transactionId, now) == UndoWrites(f, r.transactionId, r.previous.value, now)
  {
    hide ParseRecovery, RecoveryBytes, ParseSelection, SelectionBytes, Hex, Token, UndoWrites, Reconcilable, Selected;
    PendingReads(sha, f, r, s);
  }

  /** The saved selection back, the journal marked at that time, and no capsule. */
  function Ended(f: Files, r: Recovery, at: Second): Files
    requires r.transactionId in f.journals
  {
    f.(selection := r.previous, capsule := None,
       journals := f.journals[r.transactionId := Reconciled(f.journals[r.transactionId], at)])
  }

  /** Finishing from g ends where finishing from f would have, at some time. */
  ghost predicate SameEnd(f: Files, g: Files, r: Recovery, now: Second) {
    && r.transactionId in f.journals && r.transactionId in g.journals
    && forall at: Second :: Ended(g, r, at) == Ended(f, r, at) || Ended(g, r, at) == Ended(f, r, now)
  }

  lemma LaterReconcilable(j: Journal, tx: string, now: Second, later: Second)
    requires Reconcilable(j, tx, now) && now <= later
    ensures Reconcilable(j, tx, later) && Reconcilable(Reconciled(j, now), tx, later)
    ensures forall at: Second :: Reconciled(Reconciled(j, now), at) == Reconciled(j, now)
  {
  }

  lemma StillOwn(sha: Hash, r: Recovery, tx: string, j: Journal, now: Second)
    requires OwnSwitch(sha, r, tx, j)
    ensures OwnSwitch(sha, r, tx, Reconciled(j, now))
  {
    hide ParseSelection, SelectionBytes;
    assert forall n :: Selected(tx, Reconciled(j, now), n) == Selected(tx, j, n);
  }

  lemma PointerResumable(sha: Hash, f: Files, r: Recovery, s: Selection, now: Second, later: Second)
    requires Resumable(sha, f, r, s, now) && now <= later && r.previous.Some?
    ensures var g := WithPointer(f, r.previous.value);
            Resumable(sha, f, r, s, later) && Resumable(sha, g, r, s, later)
            && SameEnd(f, f, r, now) && SameEnd(f, g, r, now)
  {
    LaterReconcilable(f.journals[r.transactionId], r.transactionId, now, later);
    PutBackPending(sha, f, r, s);
    hide Pending, OwnSwitch, Reconcilable, Reconciled;
    assert WithPointer(f, r.previous.value) == f.(selection := r.previous);
  }

  lemma MarkResumable(sha: Hash, f: Files, r: Recovery, s: Selection, now: Second, later: Second)
    requires Resumable(sha, f, r, s, now) && now <= later && r.previous.Some?
    ensures Resumable(sha, WithMark(f, r.transactionId, r.previous.value, now), r, s, later)
  {
    hide Pending, OwnSwitch, Reconcilable, Reconciled;
    var tx := r.transactionId;
    var g := WithMark(f, tx, r.previous.value, now);
    LaterReconcilable(f.journals[tx], tx, now, later);
    StillOwn(sha, r, tx, f.journals[tx], now);
    PutBackPending(sha, f, r, s);
    SelectionAndCapsuleOnly(sha, f.(selection := r.previous), g, r, s);
  }

  lemma MarkSameEnd(f: Files, r: Recovery, now: Second)
    requires r.transactionId in f.journals && r.previous.Some?
    requires var j := f.journals[r.transactionId];
             forall at: Second :: Reconciled(Reconciled(j, now), at) == Reconciled(j, now)
    ensures SameEnd(f, WithMark(f, r.transactionId, r.previous.value, now), r, now)
  {
    hide Reconciled;
    var g := WithMark(f, r.transactionId, r.previous.value, now);
    forall at: Second ensures Ended(g, r, at) == Ended(f, r, now) {
      assert g.journals[r.transactionId := Reconciled(g.journals[r.transactionId], at)] == g.journals;
    }
  }

  lemma SelectionAndCapsuleOnly(sha: Hash, f: Files, g: Files, r: Recovery, s: Selection)
    requires Pending(sha, f, r, s) && g.selection == f.selection && g.capsule == f.capsule
    ensures Pending(sha, g, r, s)
  {
    hide RecoveryBytes, SelectionBytes, ValidRecovery, Follows;
  }

  lemma ReconcileStep(sha: Hash, f: Files, r: Recovery, s: Selection, now: Second, stop: Stop, later: Second)
    requires Resumable(sha, f, r, s, now) && now <= later
    ensures var g := Cut(f, ReconcileWrites(sha, f, r.transactionId, now), stop);
            g == Ended(f, r, now) || (Resumable(sha, g, r, s, later) && SameEnd(f, g, r, now))
    ensures Cut(f, ReconcileWrites(sha, f, r.transactionId, now), Never) == Ended(f, r, now)
  {
    PendingReconcile(sha, f, r, s, now);
    PointerResumable(sha, f, r, s, now, later);
    MarkResumable(sha, f, r, s, now, later);
    LaterReconcilable(f.journals[r.transactionId], r.transactionId, now, later);
    MarkSameEnd(f, r, now);
    UndoShapes(f, r.transactionId, r.previous.value, now, stop);
    hide Resumable, SameEnd, Cut, ReconcileWrites, UndoWrites, Reconcilable, Reconciled;
    assert r.previous == Some(r.previous.value);
  }

  datatype Try = Try(now: Second, stop: Stop)

  /** Reconciliations of one transaction, each at its time and stopped as given. */
  function Reattempted(sha: Hash, f: Files, tx: string, tries: seq<Try>): Files
    decreases |tries|
  {
    if tries == [] then f
    else Reattempted(sha, Cut(f, ReconcileWrites(sha, f, tx, tries[0].now), tries[0].stop), tx, tries[1..])
  }

  function TimeOf(tries: seq<Try>, last: Second, i: nat): Second { if i < |tries| then tries[i].now else last }

  /** The tries and then the last time are in order. */
  ghost predicate InOrder(tries: seq<Try>, last: Second) {
    forall i, j | 0 <= i <= j :: TimeOf(tries, last, i) <= TimeOf(tries, last, j)
  }

  lemma {:induction false} NothingToReconcile(sha: Hash, f: Files, tx: string, tries: seq<Try>, last: Second)
    requires f.capsule.None?
    ensures Reattempted(sha, f, tx, tries) == f && Cut(f, ReconcileWrites(sha, f, tx, last), Never) == f
    decreases |tries|
  {
    hide ParseRecovery, OwnSwitch, Reconcilable, UndoWrites;
    NothingMade(f, Never);
    if tries != [] {
      NothingMade(f, tries[0].stop);
      NothingToReconcile(sha, f, tx, tries[1..], last);
    }
  }

  /** However often an offline reconciliation is cut short, one that runs to the end
      leaves the saved selection, no capsule, and the journal marked exactly once. */
  lemma {:induction false} ReconcileRetried(sha: Hash, f: Files, r: Recovery, s: Selection, tries: seq<Try>,
                                            last: Second)
    requires Resumable(sha, f, r, s, TimeOf(tries, last, 0)) && InOrder(tries, last)
    ensures var g := Reattempted(sha, f, r.transactionId, tries);
            exists at: Second :: Cut(g, ReconcileWrites(sha, g, r.transactionId, last), Never) == Ended(f, r, at)
    decreases |tries|
  {
    hide Resumable, ReconcileWrites, Cut, Ended, InOrder;
    HasJournal(sha, f, r, s, TimeOf(tries, last, 0));
    if tries == [] {
      ReconcileStep(sha, f, r, s, last, Never, last);
    } else {
      var now, rest := tries[0].now, tries[1..];
      var later := TimeOf(rest, last, 0);
      var g := Cut(f, ReconcileWrites(sha, f, r.transactionId, now), tries[0].stop);
      TriesInOrder(tries, last);
      ReconcileStep(sha, f, r, s, now, tries[0].stop, later);
      if g == Ended(f, r, now) {
        EndedHasNoCapsule(f, r, now);
        NothingToReconcile(sha, g, r.transactionId, rest, last);
      } else {
        ReconcileRetried(sha, g, r, s, rest, last);
      }
    }
  }

  lemma HasJournal(sha: Hash, f: Files, r: Recovery, s: Selection, now: Second)
    requires Resumable(sha, f, r, s, now)
    ensures r.transactionId in f.journals
  {
  }

  lemma TriesInOrder(tries: seq<Try>, last: Second)
    requires InOrder(tries, last) && tries != []
    ensures InOrder(tries[1..], last) && tries[0].now <= TimeOf(tries[1..], last, 0)
  {
    assert TimeOf(tries, last, 0) <= TimeOf(tries, last, 1);
    forall i, j | 0 <= i <= j ensures TimeOf(tries[1..], last, i) <= TimeOf(tries[1..], last, j) {
      assert TimeOf(tries, last, i + 1) <= TimeOf(tries, last, j + 1);
    }
  }

  lemma EndedHasNoCapsule(f: Files, r: Recovery, at: Second)
    requires r.transactionId in f.journals
    ensures Ended(f, r, at).capsule.None?
  {
  }

  // -------------------------------------------------------------------- runs

  /** A call by some process, a journal written by the update steps, or an operator's act. */
  datatype Event =
    | Switch(switch: SwitchCall, stop: Stop)
    | Select(select: SelectCall, stop: Stop)
    | Restore(tx: string, stop: Stop)
    | Reconcile(tx: string, now: Second, stop: Stop)
    | Persist(persist: PersistCall, stop: Stop)
    | Inspect(tx: string, stop: Stop)
    | SaveJournal(tx: string, journal: Journal)
    | ClearLocks
    | Settle  // the operator drops the capsule by hand

  function Next(sha: Hash, journalSha: JournalHash, d: Disk, e: Event): Disk {
    match e
    case Switch(c, stop) => Locked(d, SwitchWrites(sha, d.files, c), stop)
    case Select(c, stop) => LockedTwice(d, c.transactionId, SelectWrites(sha, d.files, c), stop)
    case Restore(tx, stop) => Locked(d, RestoreWrites(sha, d.files, tx), stop)
    case Reconcile(tx, now, stop) => LockedTwice(d, tx, ReconcileWrites(sha, d.files, tx, now), stop)
    case Persist(c, stop) => LockedTwice(d, c.transactionId, PersistWrites(sha, journalSha, d.files, c), stop)
    case Inspect(tx, stop) => LockedTwice(d, tx, [], stop)
    case SaveJournal(tx, j) =>
      if tx in d.journalLocks || !ValidJournal(j) then d
      else d.(files := d.files.(journals := d.files.journals[tx := j]))
    case ClearLocks => d.(locked := false, journalLocks := {})
    case Settle => d.(files := d.files.(capsule := None))
  }

  function Run(sha: Hash, journalSha: JournalHash, d: Disk, events: seq<Event>): Disk
    decreases |events|
  {
    if events == [] then d else Run(sha, journalSha, Next(sha, journalSha, d, events[0]), events[1..])
  }

  lemma SaveKeeps(sha: Hash, f: Files, s: Selection, stop: Stop)
    requires Recoverable(sha, f) && Successor(f, s)
    ensures Recoverable(sha, Cut(f, CapsuleFirst(sha, f.selection, s), stop))
  {
    var g := Cut(f, CapsuleFirst(sha, f.selection, s), stop);
    hide Pending, Cut, CapsuleFirst, Saved, Successor, RecoveryBytes, SelectionBytes, ValidJournal;
    SwitchPending(sha, f, s, stop);
    SaveShapes(sha, f, s, stop);
    if g != f { PendingRecoverable(sha, g, Saved(sha, f.selection, s), s); }
  }

  lemma PendingRecoverable(sha: Hash, f: Files, r: Recovery, s: Selection)
    requires Pending(sha, f, r, s) && JournalsRead(f)
    ensures Recoverable(sha, f)
  {
    hide JournalsRead, ValidRecovery, RecoveryBytes, SelectionBytes, ParseSelection;
  }

  lemma RestoreOwner(sha: Hash, f: Files, r: Recovery, s: Selection, tx: string)
    requires Pending(sha, f, r, s) && RestoreWrites(sha, f, tx) != []
    ensures tx == r.transactionId && tx !in f.proposals
  {
    PendingReads(sha, f, r, s);
    hide ParseRecovery, Pending, ReadFile;
  }

  lemma PendingRestoreKeeps(sha: Hash, f: Files, r: Recovery, s: Selection, stop: Stop)
    requires Pending(sha, f, r, s) && JournalsRead(f) && r.transactionId !in f.proposals
    ensures Recoverable(sha, Cut(f, RestoreWrites(sha, f, r.transactionId), stop))
  {
    hide RestoreWrites, Pending, Cut, JournalsRead, Recoverable;
    RestoreShapes(sha, f, r, s, stop);
    PutBackPending(sha, f, r, s);
    PendingRecoverable(sha, f, r, s);
    SameJournals(f, f.(selection := r.previous));
    PendingRecoverable(sha, f.(selection := r.previous), r, s);
    SavedIsSmall(sha, f, r, s);
    SameJournals(f, Restored(f, r));
    SettledRecoverable(sha, Restored(f, r));
  }

  lemma SameJournals(f: Files, g: Files)
    requires JournalsRead(f) && g.journals == f.journals
    ensures JournalsRead(g)
  {
  }

  lemma SettledRecoverable(sha: Hash, f: Files)
    requires JournalsRead(f) && f.capsule.None? && (f.selection.Some? ==> Small(f.selection.value))
    ensures Recoverable(sha, f)
  {
  }

  lemma RestoreKeeps(sha: Hash, f: Files, tx: string, stop: Stop)
    requires Recoverable(sha, f)
    ensures Recoverable(sha, Cut(f, RestoreWrites(sha, f, tx), stop))
  {
    if RestoreWrites(sha, f, tx) == [] {
      NothingMade(f, stop);
    } else {
      NeedsCapsule(sha, f, tx);
      var r, s :| Pending(sha, f, r, s);
      hide RestoreWrites, Pending, Cut, ValidJournal;
      RestoreOwner(sha, f, r, s, tx);
      PendingRestoreKeeps(sha, f, r, s, stop);
    }
  }

  lemma NeedsCapsule(sha: Hash, f: Files, tx: string)
    requires RestoreWrites(sha, f, tx) != []
    ensures f.capsule.Some?
  {
    hide ParseRecovery, ReadFile;
  }

  lemma SavedIsSmall(sha: Hash, f: Files, r: Recovery, s: Selection)
    requires Pending(sha, f, r, s)
    ensures r.previous.Some? ==> Small(r.previous.value)
  {
    hide ValidRecovery, RecoveryBytes, SelectionBytes, ParseSelection;
  }

  lemma ReconcileOwner(sha: Hash, f: Files, r: Recovery, s: Selection, tx: string, now: Second)
    requires Pending(sha, f, r, s) && ReconcileWrites(sha, f, tx, now) != []
    ensures tx == r.transactionId && r.previous.Some? && tx in f.journals && f.selection.Some?
    ensures ReconcileWrites(sha, f, tx, now) == UndoWrites(f, tx, r.previous.value, now)
  {
    PendingReads(sha, f, r, s);
    hide ParseRecovery, Pending, Reconcilable, UndoWrites, ParseSelection, SelectionBytes;
  }

  lemma MarkReads(f: Files, tx: string, saved: Bytes, now: Second)
    requires JournalsRead(f) && tx in f.journals
    ensures JournalsRead(WithMark(f, tx, saved, now))
  {
    hide JournalPath, Hex, Token;
  }

  lemma PendingReconcileKeeps(sha: Hash, f: Files, r: Recovery, s: Selection, now: Second, stop: Stop)
    requires Pending(sha, f, r, s) && JournalsRead(f)
    requires r.transactionId in f.journals && r.previous.Some? && f.selection.Some?
    ensures Recoverable(sha, Cut(f, UndoWrites(f, r.transactionId, r.previous.value, now), stop))
  {
    var back, marked := WithPointer(f, r.previous.value), WithMark(f, r.transactionId, r.previous.value, now);
    hide UndoWrites, Pending, Cut, JournalsRead, Recoverable, Reconciled;
    assert back == f.(selection := r.previous);
    UndoShapes(f, r.transactionId, r.previous.value, now, stop);
    PutBackPending(sha, f, r, s);
    PendingRecoverable(sha, f, r, s);
    SameJournals(f, back);
    PendingRecoverable(sha, back, r, s);
    MarkReads(f, r.transactionId, r.previous.value, now);
    SelectionAndCapsuleOnly(sha, back, marked, r, s);
    PendingRecoverable(sha, marked, r, s);
    SavedIsSmall(sha, f, r, s);
    SameJournals(marked, marked.(capsule := None));
    SettledRecoverable(sha, marked.(capsule := None));
  }

  lemma ReconcileKeeps(sha: Hash, f: Files, tx: string, now: Second, stop: Stop)
    requires Recoverable(sha, f)
    ensures Recoverable(sha, Cut(f, ReconcileWrites(sha, f, tx, now), stop))
  {
    if ReconcileWrites(sha, f, tx, now) == [] {
      NothingMade(f, stop);
    } else {
      ReconcileNeedsCapsule(sha, f, tx, now);
      var r, s :| Pending(sha, f, r, s);
      hide ReconcileWrites, Pending, Cut, ValidJournal;
      ReconcileOwner(sha, f, r, s, tx, now);
      PendingReconcileKeeps(sha, f, r, s, now, stop);
    }
  }

  lemma ReconcileNeedsCapsule(sha: Hash, f: Files, tx: string, now: Second)
    requires ReconcileWrites(sha, f, tx, now) != []
    ensures f.capsule.Some?
  {
    hide ParseRecovery, ReadFile, Reconcilable, OwnSwitch, UndoWrites;
  }

  /** Files that differ in proposals, and in journals that all read, recover alike. */
  lemma OthersKeep(sha: Hash, f: Files, g: Files)
    requires Recoverable(sha, f) && g.selection == f.selection && g.capsule == f.capsule && JournalsRead(g)
    ensures Recoverable(sha, g)
  {
    if f.capsule.Some? {
      var r, s :| Pending(sha, f, r, s);
      hide Pending, ValidJournal;
      SelectionAndCapsuleOnly(sha, f, g, r, s);
    }
  }

  lemma PersistShapes(sha: Hash, journalSha: JournalHash, f: Files, c: PersistCall, stop: Stop)
    ensures var g := Cut(f, PersistWrites(sha, journalSha, f, c), stop);
            g.(proposals := f.proposals) == f
            && (g.proposals == f.proposals
                || (c.transactionId !in f.proposals && PersistWrites(sha, journalSha, f, c) != []
                    && g == Cut(f, PersistWrites(sha, journalSha, f, c), Never)))
    ensures PersistWrites(sha, journalSha, f, c) != [] ==>
            exists raw :: PersistWrites(sha, journalSha, f, c) == [PutProposal(c.transactionId, raw)]
  {
    hide ParseReceipt, TakeSnapshot, ProposalBytes, Consecutive, Token, WitnessName, Cut;
    var writes := PersistWrites(sha, journalSha, f, c);
    NothingMade(f, stop);
    if writes != [] {
      assert writes == [writes[0]] && writes[0] == PutProposal(c.transactionId, writes[0].raw);
      CutOne(f, writes[0], stop);
      CutOne(f, writes[0], Never);
    }
  }

  lemma SwitchKeeps(sha: Hash, f: Files, c: SwitchCall, stop: Stop)
    requires Recoverable(sha, f)
    ensures Recoverable(sha, Cut(f, SwitchWrites(sha, f, c), stop))
  {
    hide Recoverable, Cut, SwitchWrites, ValidJournal;
    RecoverableJournals(sha, f);
    NothingMade(f, stop);
    if SwitchWrites(sha, f, c) != [] {
      var s := SwitchSelects(sha, f, c);
      SaveKeeps(sha, f, s, stop);
    }
  }

  lemma SelectKeeps(sha: Hash, f: Files, c: SelectCall, stop: Stop)
    requires Recoverable(sha, f)
    ensures Recoverable(sha, Cut(f, SelectWrites(sha, f, c), stop))
  {
    hide Recoverable, Cut, SelectWrites, ValidJournal;
    RecoverableJournals(sha, f);
    NothingMade(f, stop);
    if SelectWrites(sha, f, c) != [] {
      var s := SelectSelects(sha, f, c);
      SaveKeeps(sha, f, s, stop);
    }
  }

  lemma PersistKeeps(sha: Hash, journalSha: JournalHash, f: Files, c: PersistCall, stop: Stop)
    requires Recoverable(sha, f)
    ensures Recoverable(sha, Cut(f, PersistWrites(sha, journalSha, f, c), stop))
  {
    hide Recoverable, Cut, PersistWrites, JournalsRead;
    RecoverableJournals(sha, f);
    PersistShapes(sha, journalSha, f, c, stop);
    SameJournals(f, Cut(f, PersistWrites(sha, journalSha, f, c), stop));
    OthersKeep(sha, f, Cut(f, PersistWrites(sha, journalSha, f, c), stop));
  }

  lemma SaveJournalKeeps(sha: Hash, f: Files, tx: string, j: Journal)
    requires Recoverable(sha, f) && ValidJournal(j)
    ensures Recoverable(sha, f.(journals := f.journals[tx := j]))
  {
    hide Recoverable, ValidJournal;
    RecoverableJournals(sha, f);
    OthersKeep(sha, f, f.(journals := f.journals[tx := j]));
  }

  /** Every event, stopped anywhere, keeps the files recoverable. */
  lemma StepKeeps(sha: Hash, journalSha: JournalHash, d: Disk, e: Event)
    requires Recoverable(sha, d.files)
    ensures Recoverable(sha, Next(sha, journalSha, d, e).files)
  {
    hide Recoverable, Cut, SwitchWrites, SelectWrites, RestoreWrites, ReconcileWrites, PersistWrites, ValidJournal;
    var f := d.files;
    match e
    case Switch(c, stop) => SwitchKeeps(sha, f, c, stop);
    case Select(c, stop) => SelectKeeps(sha, f, c, stop);
    case Restore(tx, stop) => RestoreKeeps(sha, f, tx, stop);
    case Reconcile(tx, now, stop) => ReconcileKeeps(sha, f, tx, now, stop);
    case Persist(c, stop) => PersistKeeps(sha, journalSha, f, c, stop);
    case Inspect(tx, stop) => NothingMade(f, stop);
    case SaveJournal(tx, j) => if ValidJournal(j) { SaveJournalKeeps(sha, f, tx, j); }
    case ClearLocks =>
    case Settle =>
      RecoverableJournals(sha, f);
      RecoverablePointer(sha, f);
      hide JournalsRead;
      SameJournals(f, f.(capsule := None));
      SettledRecoverable(sha, f.(capsule := None));
  }

  lemma RecoverableJournals(sha: Hash, f: Files)
    requires Recoverable(sha, f)
    ensures JournalsRead(f)
  {
  }

  lemma RecoverablePointer(sha: Hash, f: Files)
    requires Recoverable(sha, f)
    ensures f.selection.Some? ==> Small(f.selection.value)
  {
  }

  /** Every run from recoverable files, however its calls are cut short, ends in
      recoverable files. */
  lemma {:induction false} RunsStayRecoverable(sha: Hash, journalSha: JournalHash, d: Disk, events: seq<Event>)
    requires Recoverable(sha, d.files)
    ensures Recoverable(sha, Run(sha, journalSha, d, events).files)
    decreases |events|
  {
    hide Recoverable, Next;
    if events != [] {
      StepKeeps(sha, journalSha, d, events[0]);
      RunsStayRecoverable(sha, journalSha, Next(sha, journalSha, d, events[0]), events[1..]);
    }
  }

  /** The capsule is readable, the pointer is its preimage or its candidate, and a
      restore ends with the preimage and no capsule, unless a proposal forbids it. */
  ghost predicate Restorable(sha: Hash, f: Files)
    requires f.capsule.Some?
  {
    var r := ParseRecovery(sha, f.capsule.value);
    && r.Some? && (exists s :: Pending(sha, f, r.value, s))
    && (r.value.transactionId !in f.proposals ==>
          Cut(f, RestoreWrites(sha, f, r.value.transactionId), Never) == Restored(f, r.value))
  }

  lemma RecoverableRestorable(sha: Hash, f: Files)
    requires Recoverable(sha, f) && f.capsule.Some?
    ensures Restorable(sha, f)
  {
    hide Pending, Restorable, JournalsRead;
    var r, s :| Pending(sha, f, r, s);
    PendingRestorable(sha, f, r, s);
  }

  lemma PendingRestorable(sha: Hash, f: Files, r: Recovery, s: Selection)
    requires Pending(sha, f, r, s) && f.capsule.Some?
    ensures Restorable(sha, f)
  {
    hide Pending, Cut, RestoreWrites, ParseRecovery, Restored;
    PendingReads(sha, f, r, s);
    if r.transactionId !in f.proposals { RestoreShapes(sha, f, r, s, Never); }
  }

  /** So after every run, whenever a capsule exists, a restore is never ambiguous. */
  lemma RestoreNeverAmbiguous(sha: Hash, journalSha: JournalHash, d: Disk, events: seq<Event>)
    requires Recoverable(sha, d.files)
    ensures var f := Run(sha, journalSha, d, events).files;
            f.capsule.Some? ==> Restorable(sha, f)
  {
    hide Run, Recoverable, Restorable;
    RunsStayRecoverable(sha, journalSha, d, events);
    if Run(sha, journalSha, d, events).files.capsule.Some? {
      RecoverableRestorable(sha, Run(sha, journalSha, d, events).files);
    }
  }

  /** A software root starts out recoverable. */
  lemma FreshRootRecoverable(sha: Hash)
    ensures Recoverable(sha, Files(None, None, map[], map[]))
  {
  }

  lemma SelectArms(sha: Hash, f: Files, c: SelectCall, s: Selection)
    requires SelectWrites(sha, f, c) != [] && SelectWrites(sha, f, c) == CapsuleFirst(sha, f.selection, s)
    requires s == Selected(c.transactionId, f.journals[c.transactionId],
                           ParseReceipt(c.previousReceipt).value.generation + 1)
    ensures c.transactionId in f.journals && f.selection.Some?
    ensures Reconcilable(f.journals[c.transactionId], c.transactionId, c.now)
    ensures OwnSwitch(sha, Saved(sha, f.selection, s), c.transactionId, f.journals[c.transactionId])
  {
    hide ParseSelection, ParseReceipt, SelectionBytes, RecoveryBytes, CapsuleFirst;
  }

  /** The state before the switch, with the journal marked at some time. */
  ghost predicate OnlyMarked(f: Files, tx: string, g: Files) {
    tx in f.journals && exists at: Second :: g == f.(journals := f.journals[tx := Reconciled(f.journals[tx], at)])
  }

  lemma EndedIsMarked(f: Files, g: Files, r: Recovery, at: Second)
    requires r.transactionId in f.journals && g.journals == f.journals && Restored(g, r) == f
    ensures OnlyMarked(f, r.transactionId, Ended(g, r, at))
  {
    hide Reconciled;
    assert Ended(g, r, at)
           == f.(journals := f.journals[r.transactionId := Reconciled(f.journals[r.transactionId], at)]);
  }

  /** A witness-bound switch cut short anywhere, then reconciled with any interruptions,
      leaves either nothing done at all or the state before it with its journal marked. */
  lemma SelectThenReconcile(sha: Hash, f: Files, c: SelectCall, stop: Stop, tries: seq<Try>, last: Second)
    requires JournalsRead(f) && SelectWrites(sha, f, c) != [] && c.transactionId !in f.proposals
    requires f.selection.Some? && Small(f.selection.value)
    requires InOrder(tries, last) && c.now <= TimeOf(tries, last, 0)
    ensures var g := Cut(f, SelectWrites(sha, f, c), stop);
            g == f || OnlyMarked(f, c.transactionId,
                                 Cut(Reattempted(sha, g, c.transactionId, tries),
                                     ReconcileWrites(sha, Reattempted(sha, g, c.transactionId, tries),
                                         c.transactionId, last), Never))
  {
    hide JournalsRead, Small, SelectWrites, Cut, CapsuleFirst, Reattempted, ReconcileWrites, InOrder, OnlyMarked,
         Selected,
         Successor, OwnSwitch, Reconcilable, Pending, Saved, Ended, Restored;
    var s := SelectSelects(sha, f, c);
    var saved := Saved(sha, f.selection, s);
    SavedNames(sha, f, s);
    SelectArms(sha, f, c, s);
    SwitchPending(sha, f, s, stop);
    SaveShapes(sha, f, s, stop);
    var g := Cut(f, CapsuleFirst(sha, f.selection, s), stop);
    if g != f {
      LaterReconcilable(f.journals[c.transactionId], c.transactionId, c.now, TimeOf(tries, last, 0));
      assert Resumable(sha, g, saved, s, TimeOf(tries, last, 0));
      ReconcileRetried(sha, g, saved, s, tries, last);
      var done := Reattempted(sha, g, c.transactionId, tries);
      var at: Second :| Cut(done, ReconcileWrites(sha, done, c.transactionId, last), Never) == Ended(g, saved, at);
      EndedIsMarked(f, g, saved, at);
    }
  }

  lemma SavedNames(sha: Hash, f: Files, s: Selection)
    ensures Saved(sha, f.selection, s).transactionId == s.transactionId
  {
  }

  /** A switch cut short anywhere, then restored with any interruptions, leaves exactly
      the state before it. */
  lemma SwitchThenRestore(sha: Hash, f: Files, c: SwitchCall, stop: Stop, stops: seq<Stop>)
    requires JournalsRead(f) && SwitchWrites(sha, f, c) != [] && c.transactionId !in f.proposals
    requires f.selection.Some? ==> Small(f.selection.value)
    ensures var g := Retried(sha, Cut(f, SwitchWrites(sha, f, c), stop), c.transactionId, stops);
            Cut(f, SwitchWrites(sha, f, c), stop) == f
            || Cut(g, RestoreWrites(sha, g, c.transactionId), Never) == f
  {
    hide JournalsRead, Small, SwitchWrites, Cut, CapsuleFirst, Retried, RestoreWrites, Selected, Successor, Pending,
         Saved, Restored;
    var s := SwitchSelects(sha, f, c);
    SavedNames(sha, f, s);
    SwitchPending(sha, f, s, stop);
    SaveShapes(sha, f, s, stop);
    var g := Cut(f, CapsuleFirst(sha, f.selection, s), stop);
    if g != f { RestoreRetried(sha, g, Saved(sha, f.selection, s), s, stops); }
  }
}
