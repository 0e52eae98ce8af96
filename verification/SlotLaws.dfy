/** When each procedure of the software root acts at all, and what it leaves when it runs
    to its end, in terms of the call and of the files it finds. */
module SlotLaws {
  import opened Wrappers
  import opened CanonicalJson
  import opened Patterns
  import opened ActiveReceipts
  import opened SlotRecords
  import opened Slots
  import opened SoftwareRoots
  import opened SuccessorProposals
  import opened SlotRuns

  // -------------------------------------------------------------------- references

  /** A reference's parts without its empty steps. */
  function StepNames(parts: seq<string>): seq<string> {
    if parts == [] then []
    else
      var last := parts[|parts| - 1];
      StepNames(parts[..|parts| - 1]) + if last in {"", "."} then [] else [last]
  }

  lemma {:induction false} NamesFirst(part: string, parts: seq<string>)
    ensures StepNames([part] + parts) == StepNames([part]) + StepNames(parts)
    decreases |parts|
  {
    var all := [part] + parts;
    if parts == [] {
      assert all == [part];
    } else {
      var init, last := parts[..|parts| - 1], parts[|parts| - 1];
      assert all == [part] + init + [last] && parts == init + [last];
      NamesLast([part] + init, last);
      NamesLast(init, last);
      NamesFirst(part, init);
    }
  }

  lemma NamesLast(init: seq<string>, last: string)
    ensures StepNames(init + [last]) == StepNames(init) + StepNames([last])
    ensures StepNames([last]) == if last == "" || last == "." then [] else [last]
  {
    assert (init + [last])[..|init|] == init;
    assert [last][..0] == [] && StepNames([]) == [];
  }

  lemma {:induction false} KeptPartsAreStepNames(parts: seq<string>)
    ensures KeptParts(parts) == StepNames(parts)
  {
    hide StepNames;
    if parts == [] {
      NoNames();
    } else {
      KeptPartsAreStepNames(parts[1..]);
      NamesFirst(parts[0], parts[1..]);
      NamesLast([], parts[0]);
      assert parts == [parts[0]] + parts[1..];
    }
  }

  lemma NoNames()
    ensures StepNames([]) == []
  {
  }

  /** The reference names at least one directory, never steps upwards, and every directory
      on the way is an ordinary one. */
  predicate Reached(directories: set<seq<string>>, path: string) {
    var names := StepNames(Split(path, '/'));
    |names| >= 1 && ".." !in names && forall i | 1 <= i <= |names| :: names[..i] in directories
  }

  lemma PresentExactly(directories: set<seq<string>>, path: string)
    ensures StagePresent(directories, path) <==> Reached(directories, path)
  {
    KeptPartsAreStepNames(Split(path, '/'));
  }

  // ------------------------------------------------------------------------ switch

  /** Thirty-two lower-case hexadecimal digits. */
  predicate TransactionId(s: string) {
    |s| == 32 && forall i | 0 <= i < 32 :: '0' <= s[i] <= '9' || 'a' <= s[i] <= 'f'
  }

  /** No capsule is pending, the intent stored for the transaction is armed without a
      predecessor, the four records given are the ones it names, the audit passed, and the
      slot to be left, if any, reads, is another transaction's, still stands and has a
      generation after it. */
  predicate SwitchDue(sha: Hash, f: Files, c: SwitchCall) {
    && TransactionId(c.transactionId) && f.capsule.None? && c.transactionId in f.journals
    && var j := f.journals[c.transactionId];
    && j.phase == ActivationIntent && j.previousReceiptSha.None? && c.stageVerified
    && sha(c.prepared) == j.preparedSha && sha(c.registry) == j.registrySha
    && sha(c.lock) == j.lockSha && sha(c.evidence) == j.nativeSha
    && (f.selection.Some? ==>
          var p := ParseSelection(f.selection.value);
          && p.Some? && p.value.transactionId != c.transactionId
          && p.value.generation < 9007199254740991 && Reached(c.directories, p.value.stagePath))
  }

  /** A switch acts exactly then. */
  lemma SwitchActsExactly(sha: Hash, f: Files, c: SwitchCall)
    ensures SwitchWrites(sha, f, c) != [] <==> SwitchDue(sha, f, c)
  {
    hide ParseSelection, Saved, SelectionBytes, RecoveryBytes, Reached, StagePresent;
    if f.selection.Some? {
      var p := ParseSelection(f.selection.value);
      if p.Some? {
        SelectionBounds(f.selection.value);
        PresentExactly(c.directories, p.value.stagePath);
      }
    }
  }

  /** What a switch that acts leaves: the capsule that saves the pointer found, and the
      pointer to the journal's stage, records and the next generation. */
  lemma SwitchLeavesExactly(sha: Hash, f: Files, c: SwitchCall)
    requires SwitchWrites(sha, f, c) != []
    ensures c.transactionId in f.journals && (f.selection.Some? ==> ParseSelection(f.selection.value).Some?)
    ensures var j := f.journals[c.transactionId];
            var n := if f.selection.None? then 1 else ParseSelection(f.selection.value).value.generation + 1;
            var pointer := SelectionBytes(Selection(c.transactionId, j.stagePath, j.preparedSha, j.nativeSha, n));
            var saved := Recovery(c.transactionId, f.selection, sha(pointer),
                                  if f.selection.None? then None else Some(sha(f.selection.value)));
            Cut(f, SwitchWrites(sha, f, c), Never)
            == f.(capsule := Some(RecoveryBytes(saved)), selection := Some(pointer))
  {
    hide ParseSelection, SelectionBytes, RecoveryBytes, SwitchArmed, PreviousPresent, Cut, CapsuleFirst;
    var generation := NextGeneration(ReadFile(f.selection).value, c.transactionId).value;
    CapsuleThenPointer(sha, f, Selected(c.transactionId, f.journals[c.transactionId], generation));
  }

  /** On free locks the whole call, run to its end, changes the files exactly then. */
  lemma SwitchCallActsExactly(sha: Hash, journalSha: JournalHash, d: Disk, c: SwitchCall)
    requires !d.locked
    ensures Next(sha, journalSha, d, Switch(c, Never)).files != d.files <==> SwitchDue(sha, d.files, c)
  {
    hide SwitchWrites, Cut, ParseSelection, Reached, SelectionBytes, RecoveryBytes, SwitchDue;
    SwitchActsExactly(sha, d.files, c);
    if SwitchWrites(sha, d.files, c) != [] {
      SwitchLeavesExactly(sha, d.files, c);
      SwitchDueIsClear(sha, d.files, c);
    } else {
      NothingMade(d.files, Never);
    }
  }

  lemma SwitchDueIsClear(sha: Hash, f: Files, c: SwitchCall)
    requires SwitchDue(sha, f, c)
    ensures f.capsule.None?
  {
    hide ParseSelection, Reached;
  }

  // ------------------------------------------------------------------- new pointers

  /** A character the pointer's reader takes in a reference. */
  predicate Plainly(c: char) {
    'A' <= c <= 'Z' || 'a' <= c <= 'z' || '0' <= c <= '9' || c == '_' || c == '.' || c == '-'
  }

  predicate AllPlain(s: string) { forall i | 0 <= i < |s| :: Plainly(s[i]) }

  predicate PlainParts(parts: seq<string>) { forall i | 0 <= i < |parts| :: AllPlain(parts[i]) }

  predicate PlainPath(s: string) { forall i | 0 <= i < |s| :: s[i] == '/' || Plainly(s[i]) }

  lemma PlainHead(c: char, s: string)
    ensures AllPlain([c] + s) <==> Plainly(c) && AllPlain(s)
  {
    hide Plainly;
    var all := [c] + s;
    if AllPlain(all) {
      assert Plainly(all[0]);
      forall i | 0 <= i < |s| ensures Plainly(s[i]) { assert Plainly(all[i + 1]); }
    }
  }

  lemma PlainPathHead(s: string)
    requires s != ""
    ensures PlainPath(s) <==> (s[0] == '/' || Plainly(s[0])) && PlainPath(s[1..])
  {
    hide Plainly;
    if PlainPath(s) {
      forall i | 0 <= i < |s| - 1 ensures s[1..][i] == '/' || Plainly(s[1..][i]) { assert s[1..][i] == s[i + 1]; }
    }
    if (s[0] == '/' || Plainly(s[0])) && PlainPath(s[1..]) {
      forall i | 0 < i < |s| ensures s[i] == '/' || Plainly(s[i]) { assert s[1..][i - 1] == s[i]; }
    }
  }

  lemma PlainPartsHead(part: string, rest: seq<string>)
    ensures PlainParts([part] + rest) <==> AllPlain(part) && PlainParts(rest)
  {
    hide AllPlain;
    var all := [part] + rest;
    if PlainParts(all) {
      assert AllPlain(all[0]);
      forall i | 0 <= i < |rest| ensures AllPlain(rest[i]) { assert AllPlain(all[i + 1]); }
    }
  }

  lemma {:induction false} PlainPathByParts(s: string)
    ensures PlainParts(Split(s, '/')) <==> PlainPath(s)
  {
    hide Plainly, AllPlain, PlainParts, PlainPath;
    if s == "" {
      EmptyIsPlain();
    } else {
      var rest := Split(s[1..], '/');
      assert s == [s[0]] + s[1..] && rest == [rest[0]] + rest[1..];
      EmptyIsPlain();
      PlainPathByParts(s[1..]);
      PlainPathHead(s);
      PlainPartsHead(rest[0], rest[1..]);
      PlainPartsHead("", rest);
      PlainHead(s[0], rest[0]);
      PlainPartsHead([s[0]] + rest[0], rest[1..]);
    }
  }

  lemma EmptyIsPlain()
    ensures AllPlain("") && PlainParts([""]) && PlainPath("")
  {
  }

  lemma RelativeExactly(s: string)
    ensures Relative(s) <==> PlainPath(s) && forall part <- Split(s, '/') :: part != ""
  {
    PlainPathByParts(s);
    hide Split;
    var parts := Split(s, '/');
    if PlainParts(parts) && forall part <- parts :: part != "" {
      forall part <- parts ensures PathPart(part) {
        var i :| 0 <= i < |parts| && parts[i] == part;
        assert AllPlain(parts[i]);
      }
    }
    if Relative(s) {
      forall i | 0 <= i < |parts| ensures AllPlain(parts[i]) && parts[i] != "" { assert PathPart(parts[i]); }
    }
  }

  /** The pointer a switch leaves is read back as what was selected if and only if the
      journal's stage path is spelt in letters, digits, underscores, dots and hyphens; the
      journal's own reader also takes other characters. */
  lemma NewPointerReadExactly(sha: Hash, f: Files, c: SwitchCall)
    requires JournalsRead(f) && SwitchWrites(sha, f, c) != []
    ensures c.transactionId in f.journals && (f.selection.Some? ==> ParseSelection(f.selection.value).Some?)
    ensures var j, g := f.journals[c.transactionId], Cut(f, SwitchWrites(sha, f, c), Never);
            var n := if f.selection.None? then 1 else ParseSelection(f.selection.value).value.generation + 1;
            g.selection.Some?
            && ParseSelection(g.selection.value) ==
               if PlainPath(j.stagePath)
               then Some(Selection(c.transactionId, j.stagePath, j.preparedSha, j.nativeSha, n)) else None
  {
    hide ParseSelection, SelectionBytes, RecoveryBytes, SwitchArmed, PreviousPresent, Cut, SwitchWrites, PlainPath,
         ValidJournal, JournalsRead;
    SwitchLeavesExactly(sha, f, c);
    var s := SwitchSelects(sha, f, c);
    SwitchSelected(sha, f, c);
    var j := f.journals[c.transactionId];
    var n := if f.selection.None? then 1 else ParseSelection(f.selection.value).value.generation + 1;
    PointerReadExactly(c.transactionId, j, n);
  }

  lemma SwitchSelected(sha: Hash, f: Files, c: SwitchCall)
    requires JournalsRead(f) && SwitchWrites(sha, f, c) != []
    ensures c.transactionId in f.journals && ValidJournal(f.journals[c.transactionId]) && Token(c.transactionId)
    ensures var n := if f.selection.None? then 1 else ParseSelection(f.selection.value).value.generation + 1;
            Positive(n)
  {
    hide ParseSelection, CapsuleFirst, SwitchArmed, ValidJournal, PreviousPresent;
    assert ValidJournal(f.journals[c.transactionId]);
    if f.selection.Some? { GenerationPositive(f.selection.value); }
  }

  lemma PointerReadExactly(tx: string, j: Journal, n: int)
    requires ValidJournal(j) && Token(tx) && Positive(n)
    ensures var s := Selection(tx, j.stagePath, j.preparedSha, j.nativeSha, n);
            ParseSelection(SelectionBytes(s)) == if PlainPath(j.stagePath) then Some(s) else None
  {
    hide ParseSelection, SelectionBytes, Split, PlainPath;
    var s := Selection(tx, j.stagePath, j.preparedSha, j.nativeSha, n);
    RelativeExactly(j.stagePath);
    PointerValid(tx, j, n);
    SelectionWidth(s);
    PrintedReads(s);
  }

  lemma PointerValid(tx: string, j: Journal, n: int)
    requires ValidJournal(j) && Token(tx) && Positive(n)
    ensures (forall part <- Split(j.stagePath, '/') :: part != "") && |j.stagePath| <= 180
    ensures var s := Selection(tx, j.stagePath, j.preparedSha, j.nativeSha, n);
            (ValidSelection(s) <==> Relative(j.stagePath)) && Hex(s.preparedSha, 64) && Hex(s.nativeSha, 64)
  {
    hide Split, Relative;
  }

  /** A printed selection of the admitted size is read back if it is well-formed, and not
      as anything else if it is not. */
  lemma PrintedReads(s: Selection)
    requires 1 <= |SelectionBytes(s)| <= MAX_BYTES
    ensures ParseSelection(SelectionBytes(s)) == if ValidSelection(s) then Some(s) else None
  {
    hide ValidSelection, SelectionFields, SelectionValues, ReadRecord, ReadSelection;
    SelectionFieldsAscend();
    ReadsRecord(SelectionFields(), SelectionValues(s), MAX_BYTES);
    ReadsSelection(s);
  }

  /** An armed intent whose stage directory's name has a space in it. */
  function SpacedRoot(sha: Hash): Files {
    Files(None, None, map[NextTransaction() := ArmedJournal(sha).(stagePath := "b c")], map[])
  }

  lemma SpacedPath()
    ensures JournalPath("b c") && !PlainPath("b c")
  {
    SplitStep('c', "", '/');
    SplitStep(' ', "c", '/');
    SplitStep('b', " c", '/');
    assert ['c'] + "" == "c" && [' '] + "c" == " c" && ['b'] + " c" == "b c" && "b c"[1] == ' ';
  }

  /** A switch that goes through, after which the pointer is read by nobody. */
  lemma SpacedPointerUnread(sha: Hash)
    ensures JournalsRead(SpacedRoot(sha)) && SwitchWrites(sha, SpacedRoot(sha), LongCall()) != []
    ensures var g := Cut(SpacedRoot(sha), SwitchWrites(sha, SpacedRoot(sha), LongCall()), Never);
            g.selection.Some? && ParseSelection(g.selection.value).None?
  {
    hide JournalPath, PlainPath, ParseSelection, SelectionBytes, SwitchWrites, Cut, NextTransaction;
    SpacedPath();
    ArmedJournalValid(sha);
    TransactionIdIsToken(NextTransaction());
    SwitchActsExactly(sha, SpacedRoot(sha), LongCall());
    SpacedJournalValid(sha);
    NewPointerReadExactly(sha, SpacedRoot(sha), LongCall());
  }

  lemma TransactionIdIsToken(s: string)
    ensures TransactionId(s) <==> Token(s)
  {
  }

  lemma SpacedJournalValid(sha: Hash)
    requires JournalPath("b c")
    ensures ValidJournal(ArmedJournal(sha).(stagePath := "b c"))
  {
    hide JournalPath;
    ArmedJournalValid(sha);
  }

  // ----------------------------------------------------------------------- restore

  /** A capsule for this transaction is pending and reads, no proposal forbids it, and the
      pointer, present or not, is by its digest the candidate or the preimage. */
  predicate RestoreDue(sha: Hash, f: Files, tx: string) {
    && f.capsule.Some? && tx !in f.proposals
    && (f.selection.Some? ==> 1 <= |f.selection.value| <= 8192)
    && var r := ParseRecovery(sha, f.capsule.value);
    && r.Some? && r.value.transactionId == tx
    && var digest := if f.selection.None? then None else Some(sha(f.selection.value));
       digest == Some(r.value.candidateSha) || digest == r.value.previousSha
  }

  /** A restore acts exactly then, and run to its end puts the preimage back, unless the
      pointer is it already, and clears the capsule. */
  lemma RestoreActsExactly(sha: Hash, f: Files, tx: string)
    ensures RestoreWrites(sha, f, tx) != [] <==> RestoreDue(sha, f, tx)
    ensures RestoreDue(sha, f, tx) ==>
              var r := ParseRecovery(sha, f.capsule.value).value;
              Cut(f, RestoreWrites(sha, f, tx), Never) ==
              if f.selection.Some? && sha(f.selection.value) == r.candidateSha
              then f.(selection := r.previous, capsule := None) else f.(capsule := None)
  {
    hide ParseRecovery, Cut;
    if RestoreDue(sha, f, tx) {
      var r := ParseRecovery(sha, f.capsule.value).value;
      CutTwo(f, if r.previous.None? then DropSelection else PutSelection(r.previous.value), DropCapsule, Never);
      CutOne(f, DropCapsule, Never);
    }
  }

  // ---------------------------------------------------------- witness-bound switch

  /** No capsule is pending, the pointer reads, the armed intent is for this candidate and
      for this signed observation of the prior head, the witness showed that head, the four
      records given are the intent's, and the predecessor receipt describes the slot the
      pointer selects, by records that are given too, no later than the intent. */
  predicate SelectDue(sha: Hash, f: Files, c: SelectCall) {
    && f.capsule.None? && f.selection.Some? && c.transactionId in f.journals && c.witnessed
    && var j, p, r := f.journals[c.transactionId], ParseSelection(f.selection.value), ParseReceipt(c.previousReceipt);
    && j.transactionId == c.transactionId && j.phase == ActivationIntent && j.revision == 2 && j.recordedAt <= c.now
    && j.previousReceiptSha == Some(sha(c.priorObservation))
    && sha(c.prepared) == j.preparedSha && sha(c.registry) == j.registrySha
    && sha(c.lock) == j.lockSha && sha(c.evidence) == j.nativeSha
    && p.Some? && r.Some? && p.value.transactionId != c.transactionId
    && r.value.transactionId == p.value.transactionId && r.value.stagePath == p.value.stagePath
    && r.value.preparedSha == p.value.preparedSha && r.value.preparedSha == sha(c.priorPrepared)
    && r.value.nativeEnvelopeSha == p.value.nativeSha && r.value.nativeEnvelopeSha == sha(c.priorEvidence)
    && r.value.registrySha == sha(c.priorRegistry) && r.value.lockSha == sha(c.priorLock)
    && r.value.generation == p.value.generation && r.value.generation < 9007199254740991
    && r.value.recordedAt <= j.recordedAt
  }

  /** A witness-bound switch acts exactly then. */
  lemma SelectActsExactly(sha: Hash, f: Files, c: SelectCall)
    ensures SelectWrites(sha, f, c) != [] <==> SelectDue(sha, f, c)
  {
    hide ParseSelection, ParseReceipt, SelectionBytes, RecoveryBytes, Saved;
  }

  /** Run to its end it saves the pointer found and selects the journal's stage at the
      next generation. */
  lemma SelectLeavesExactly(sha: Hash, f: Files, c: SelectCall)
    requires SelectWrites(sha, f, c) != []
    ensures c.transactionId in f.journals && f.selection.Some? && ParseSelection(f.selection.value).Some?
    ensures var j, n := f.journals[c.transactionId], ParseSelection(f.selection.value).value.generation + 1;
            var pointer := SelectionBytes(Selection(c.transactionId, j.stagePath, j.preparedSha, j.nativeSha, n));
            var saved := Recovery(c.transactionId, f.selection, sha(pointer), Some(sha(f.selection.value)));
            Cut(f, SelectWrites(sha, f, c), Never)
            == f.(capsule := Some(RecoveryBytes(saved)), selection := Some(pointer))
  {
    hide ParseSelection, CapsuleFirst, SelectWrites, Cut, SelectionBytes, RecoveryBytes;
    var s := SelectSelected(sha, f, c);
    CapsuleThenPointer(sha, f, s);
  }

  lemma SelectSelected(sha: Hash, f: Files, c: SelectCall) returns (s: Selection)
    requires SelectWrites(sha, f, c) != []
    ensures c.transactionId in f.journals && f.selection.Some? && ParseSelection(f.selection.value).Some?
    ensures var j, n := f.journals[c.transactionId], ParseSelection(f.selection.value).value.generation + 1;
            s == Selection(c.transactionId, j.stagePath, j.preparedSha, j.nativeSha, n)
    ensures SelectWrites(sha, f, c) == CapsuleFirst(sha, f.selection, s)
  {
    hide ParseSelection, ParseReceipt, CapsuleFirst, SelectArmed;
    s := Selected(c.transactionId, f.journals[c.transactionId], ParseReceipt(c.previousReceipt).value.generation + 1);
  }

  lemma CapsuleThenPointer(sha: Hash, f: Files, s: Selection)
    ensures var pointer := SelectionBytes(s);
            var saved := Recovery(s.transactionId, f.selection, sha(pointer),
                                  if f.selection.None? then None else Some(sha(f.selection.value)));
            Cut(f, CapsuleFirst(sha, f.selection, s), Never)
            == f.(capsule := Some(RecoveryBytes(saved)), selection := Some(pointer))
  {
    hide SelectionBytes, RecoveryBytes, Cut;
    CutTwo(f, PutCapsule(RecoveryBytes(Saved(sha, f.selection, s))), PutSelection(SelectionBytes(s)), Never);
  }

  // --------------------------------------------------------------------- reconcile

  /** A capsule for this transaction is pending and reads, no proposal forbids it, its
      intent is armed at revision 2 or already marked at revision 3, no later than now, it
      is this intent's own switch away from a saved pointer of another transaction, and the
      present pointer is by its digest the candidate or the preimage. */
  predicate ReconcileDue(sha: Hash, f: Files, tx: string, now: Second) {
    && f.capsule.Some? && f.selection.Some? && 1 <= |f.selection.value| <= 8192
    && tx in f.journals && tx !in f.proposals
    && var j, r := f.journals[tx], ParseRecovery(sha, f.capsule.value);
    && j.transactionId == tx && j.recordedAt <= now
    && ((j.phase == ActivationIntent && j.revision == 2) || (j.phase == RecoveryRequired && j.revision == 3))
    && r.Some? && r.value.transactionId == tx && r.value.previous.Some?
    && var p := ParseSelection(r.value.previous.value);
    && p.Some? && p.value.generation < 9007199254740991 && p.value.transactionId != tx
    && r.value.candidateSha ==
       sha(SelectionBytes(Selection(tx, j.stagePath, j.preparedSha, j.nativeSha, p.value.generation + 1)))
    && var digest := sha(f.selection.value);
       digest == r.value.candidateSha || Some(digest) == r.value.previousSha
  }

  /** An offline reconciliation acts exactly then. */
  lemma ReconcileActsExactly(sha: Hash, f: Files, tx: string, now: Second)
    ensures ReconcileWrites(sha, f, tx, now) != [] <==> ReconcileDue(sha, f, tx, now)
  {
    hide ParseSelection, ParseRecovery, SelectionBytes;
  }

  /** Run to its end it puts the saved pointer back, marks an armed intent as needing
      recovery at revision 3 and this time, and clears the capsule. */
  lemma ReconcileLeavesExactly(sha: Hash, f: Files, tx: string, now: Second)
    requires ReconcileWrites(sha, f, tx, now) != []
    ensures f.capsule.Some? && ParseRecovery(sha, f.capsule.value).Some? && tx in f.journals
    ensures var r, j := ParseRecovery(sha, f.capsule.value).value, f.journals[tx];
            var marked := if j.phase == ActivationIntent
                          then j.(revision := 3, phase := RecoveryRequired, recordedAt := now) else j;
            r.previous.Some?
            && Cut(f, ReconcileWrites(sha, f, tx, now), Never)
               == f.(selection := r.previous, journals := f.journals[tx := marked], capsule := None)
  {
    hide ParseSelection, ParseRecovery, SelectionBytes, Cut, UndoWrites, Reconcilable;
    var r := ParseRecovery(sha, f.capsule.value).value;
    UndoShapes(f, tx, r.previous.value, now, Never);
  }

  // ------------------------------------------------------------------------- locks

  predicate IsCall(e: Event) { !e.SaveJournal? && !e.ClearLocks? && !e.Settle? }

  /** The calls that also take their transaction's journal lock. */
  predicate TakesBoth(e: Event) { e.Select? || e.Reconcile? || e.Persist? || e.Inspect? }

  function TransactionOf(e: Event): string {
    match e
    case Select(c, _) => c.transactionId
    case Reconcile(tx, _, _) => tx
    case Persist(c, _) => c.transactionId
    case Inspect(tx, _) => tx
    case _ => ""
  }

  /** While the selection lock is held no call changes anything, and while a transaction's
      journal lock is held none of its two-lock calls changes a file. A call that gets the
      locks leaves them behind exactly when it crashes. */
  lemma LocksAreRespected(sha: Hash, journalSha: JournalHash, d: Disk, e: Event)
    requires IsCall(e)
    ensures var g, tx, both := Next(sha, journalSha, d, e), TransactionOf(e), TakesBoth(e);
            if d.locked then g == d
            else
              && (g.locked <==> e.stop.Crashes?)
              && (both && tx in d.journalLocks ==> g.files == d.files)
              && g.journalLocks == if both && e.stop.Crashes? then d.journalLocks + {tx} else d.journalLocks
  {
    hide SwitchWrites, SelectWrites, RestoreWrites, ReconcileWrites, PersistWrites, Cut;
    assert d.journalLocks + {} == d.journalLocks;
    if TransactionOf(e) in d.journalLocks { assert d.journalLocks + {TransactionOf(e)} == d.journalLocks; }
  }

  /** Sixty-four lower-case hexadecimal digits. */
  predicate Sha256(s: string) { |s| == 64 && forall i | 0 <= i < 64 :: '0' <= s[i] <= '9' || 'a' <= s[i] <= 'f' }

  /** At most 180 characters without backslash or colon, and no part empty, a dot or two. */
  predicate JournalReference(s: string) {
    && 1 <= |s| <= 180 && (forall i | 0 <= i < |s| :: s[i] != '\\' && s[i] != ':')
    && "" !in Split(s, '/') && "." !in Split(s, '/') && ".." !in Split(s, '/')
  }

  lemma ReferenceExactly(s: string)
    ensures JournalPath(s) <==> JournalReference(s)
  {
    hide Split;
  }

  lemma Sha256Exactly(s: string)
    ensures Hex(s, 64) <==> Sha256(s)
  {
  }

  /** The journals the reader takes. */
  lemma JournalReadExactly(j: Journal)
    ensures ValidJournal(j) <==>
            && TransactionId(j.transactionId) && 1 <= j.revision <= 9007199254740991
            && JournalReference(j.stagePath) && JournalReference(j.wheelhousePath)
            && Sha256(j.preparedSha) && Sha256(j.registrySha) && Sha256(j.lockSha) && Sha256(j.nativeSha)
            && (j.previousReceiptSha.Some? ==> Sha256(j.previousReceiptSha.value))
  {
    hide JournalPath, JournalReference, Hex, Sha256, TransactionId;
    ReferenceExactly(j.stagePath);
    ReferenceExactly(j.wheelhousePath);
    Sha256Exactly(j.preparedSha);
    Sha256Exactly(j.registrySha);
    Sha256Exactly(j.lockSha);
    Sha256Exactly(j.nativeSha);
    if j.previousReceiptSha.Some? { Sha256Exactly(j.previousReceiptSha.value); }
    TransactionIdIsToken(j.transactionId);
  }

  /** A journal is saved unless it is locked or ill-formed. */
  lemma JournalSavedExactly(sha: Hash, journalSha: JournalHash, d: Disk, tx: string, j: Journal)
    ensures var g := Next(sha, journalSha, d, SaveJournal(tx, j));
            if tx !in d.journalLocks && ValidJournal(j) then
              g == d.(files := d.files.(journals := d.files.journals[tx := j]))
            else g == d
  {
    hide Locked, LockedTwice, SwitchWrites, SelectWrites, RestoreWrites, ReconcileWrites, PersistWrites, ValidJournal;
  }

  /** The operator's two acts do what they say. */
  lemma OperatorActsExactly(sha: Hash, journalSha: JournalHash, d: Disk)
    ensures Next(sha, journalSha, d, ClearLocks) == Disk(d.files, false, {})
    ensures Next(sha, journalSha, d, Settle) == Disk(d.files.(capsule := None), d.locked, d.journalLocks)
  {
    hide Locked, LockedTwice, SwitchWrites, SelectWrites, RestoreWrites, ReconcileWrites, PersistWrites, ValidJournal;
  }
}
