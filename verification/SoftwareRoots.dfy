/** The procedures that change the software root, file operation by file operation. */
module SoftwareRoots {
  import opened Wrappers
  import opened Patterns
  import opened ActiveReceipts
  import opened SlotRecords
  import opened Slots
  import opened SuccessorProposals
  import opened Timestamps

  /** Whether a procedure stopped so still makes its next write after this many. */
  predicate Goes(stop: Stop, made: nat) { stop.Never? || made < stop.after }

  lemma {:induction false} AppliedLast(f: Files, writes: seq<Write>, w: Write)
    ensures ApplyAll(f, writes + [w]) == Apply(ApplyAll(f, writes), w)
    decreases |writes|
  {
    hide Apply;
    if writes == [] {
      assert [] + [w] == [w] && [w][1..] == [];
    } else {
      assert (writes + [w])[1..] == writes[1..] + [w];
      AppliedLast(Apply(f, writes[0]), writes[1..], w);
    }
  }

  lemma NothingMade(f: Files, stop: Stop)
    ensures Cut(f, [], stop) == f
  {
  }

  /** One more write at the end is made exactly when the procedure gets that far. */
  lemma NextMade(f: Files, writes: seq<Write>, w: Write, longer: seq<Write>, stop: Stop)
    requires longer == writes + [w]
    ensures Cut(f, longer, stop) ==
            if Goes(stop, |writes|) then Apply(Cut(f, writes, stop), w) else Cut(f, writes, stop)
  {
    hide Apply;
    AppliedLast(f, writes, w);
    if !Goes(stop, |writes|) { assert Made(longer, stop) == Made(writes, stop); }
  }

  lemma CutOne(f: Files, w: Write, stop: Stop)
    ensures Cut(f, [w], stop) == if Goes(stop, 0) then Apply(f, w) else f
  {
    hide Cut, Apply;
    NothingMade(f, stop);
    NextMade(f, [], w, [w], stop);
  }

  lemma CutTwo(f: Files, v: Write, w: Write, stop: Stop)
    ensures Cut(f, [v, w], stop) ==
            if !Goes(stop, 0) then f else if !Goes(stop, 1) then Apply(f, v) else Apply(Apply(f, v), w)
  {
    hide Cut, Apply;
    CutOne(f, v, stop);
    NextMade(f, [v], w, [v, w], stop);
  }

  class SoftwareRoot {
    const sha: Hash
    const journalSha: JournalHash
    var selection: Option<Bytes>
    var capsule: Option<Bytes>
    var journals: map<string, Journal>
    var proposals: map<string, Bytes>
    var locked: bool
    var journalLocks: set<string>

    constructor (sha: Hash, journalSha: JournalHash)
      ensures this.sha == sha && this.journalSha == journalSha
      ensures Contents() == Disk(Files(None, None, map[], map[]), false, {})
    {
      this.sha, this.journalSha := sha, journalSha;
      selection, capsule, journals, proposals, locked, journalLocks := None, None, map[], map[], false, {};
    }

    function Stored(): Files
      reads this
    {
      Files(selection, capsule, journals, proposals)
    }

    function Contents(): Disk
      reads this
    {
      Disk(Stored(), locked, journalLocks)
    }

    /** Select a reverified stage under the selection lock. */
    method Switch(c: SwitchCall, stop: Stop)
      modifies this
      ensures Contents() == Locked(old(Contents()), SwitchWrites(sha, old(Stored()), c), stop)
    {
      hide SwitchWrites, Cut;
      if locked { return; }
      locked := true;
      SwitchNow(c, stop);
      locked := stop.Crashes?;
    }

    method SwitchNow(c: SwitchCall, stop: Stop)
      modifies `selection, `capsule
      ensures Stored() == Cut(old(Stored()), SwitchWrites(sha, old(Stored()), c), stop)
    {
      hide SwitchArmed, NextGeneration, CapsuleFirst, Token, ReadFile, Cut, PreviousPresent;
      NothingMade(Stored(), stop);
      if Token(c.transactionId) && capsule.None? && c.transactionId in journals {
        var j, previous := journals[c.transactionId], ReadFile(selection);
        if SwitchArmed(sha, j, c) && previous.Some? {
          var generation := NextGeneration(previous.value, c.transactionId);
          var present := PreviousStands(c.directories, previous.value);
          if generation.Some? && present {
            Save(previous.value, Selected(c.transactionId, j, generation.value), stop);
          }
        }
      }
    }

    /** Follow the present selection's stage path down the root. */
    method PreviousStands(directories: set<seq<string>>, previous: Option<Bytes>) returns (present: bool)
      ensures present == PreviousPresent(directories, previous)
    {
      hide ParseSelection, KeptParts;
      if previous.None? { return true; }
      var selection := ParseSelection(previous.value);
      if selection.None? { return false; }
      var parts, i := KeptParts(Split(selection.value.stagePath, '/')), 0;
      while i < |parts|
        invariant 0 <= i <= |parts| && ".." !in parts[..i]
        invariant forall k | 0 < k <= i :: parts[..k] in directories
      {
        if parts[i] == ".." || parts[..i + 1] !in directories { return false; }
        i := i + 1;
      }
      present := parts != [];
    }

    /** Write the capsule that names both states, then the candidate selection. */
    method Save(previous: Option<Bytes>, selected: Selection, stop: Stop)
      modifies `selection, `capsule
      ensures Stored() == Cut(old(Stored()), CapsuleFirst(sha, previous, selected), stop)
    {
      hide SelectionBytes, RecoveryBytes, Cut;
      var candidate := SelectionBytes(selected);
      var saved := Recovery(selected.transactionId, previous, sha(candidate),
                            if previous.None? then None else Some(sha(previous.value)));
      CutTwo(Stored(), PutCapsule(RecoveryBytes(saved)), PutSelection(candidate), stop);
      if Goes(stop, 0) { capsule := Some(RecoveryBytes(saved)); }
      if Goes(stop, 1) { selection := Some(candidate); }
    }

    /** Undo a switch under the selection lock. */
    method Restore(tx: string, stop: Stop)
      modifies this
      ensures Contents() == Locked(old(Contents()), RestoreWrites(sha, old(Stored()), tx), stop)
    {
      hide RestoreWrites, Cut;
      if locked { return; }
      locked := true;
      RestoreNow(tx, stop);
      locked := stop.Crashes?;
    }

    /** Put the saved selection back, then clear the capsule. */
    method RestoreNow(tx: string, stop: Stop)
      modifies `selection, `capsule
      ensures Stored() == Cut(old(Stored()), RestoreWrites(sha, old(Stored()), tx), stop)
    {
      hide ParseRecovery, ReadFile, Cut;
      ghost var before := Stored();
      NothingMade(before, stop);
      if capsule.Some? {
        var r, current := ParseRecovery(sha, capsule.value), ReadFile(selection);
        if r.Some? && r.value.transactionId == tx && tx !in proposals && current.Some? {
          var digest := if current.value.None? then None else Some(sha(current.value.value));
          if digest == Some(r.value.candidateSha) {
            ghost var put := if r.value.previous.None? then DropSelection else PutSelection(r.value.previous.value);
            CutTwo(before, put, DropCapsule, stop);
            if Goes(stop, 0) { selection := r.value.previous; }
            if Goes(stop, 1) { capsule := None; }
          } else if digest == r.value.previousSha {
            CutOne(before, DropCapsule, stop);
            if Goes(stop, 0) { capsule := None; }
          }
        }
      }
    }

    /** Select the successor of a witnessed receipt, under both locks. */
    method SelectWitnessBound(c: SelectCall, stop: Stop)
      modifies this
      ensures Contents() == LockedTwice(old(Contents()), c.transactionId, SelectWrites(sha, old(Stored()), c), stop)
    {
      hide SelectWrites, Cut;
      if locked { return; }
      locked := true;
      if c.transactionId !in journalLocks {
        journalLocks := journalLocks + {c.transactionId};
        SelectNow(c, stop);
        if !stop.Crashes? { journalLocks := journalLocks - {c.transactionId}; }
      }
      locked := stop.Crashes?;
    }

    method SelectNow(c: SelectCall, stop: Stop)
      modifies `selection, `capsule
      ensures Stored() == Cut(old(Stored()), SelectWrites(sha, old(Stored()), c), stop)
    {
      hide ParseSelection, ParseReceipt, SelectArmed, ReceiptMatches, CapsuleFirst, Cut;
      NothingMade(Stored(), stop);
      if capsule.None? && selection.Some? && c.transactionId in journals {
        var j := journals[c.transactionId];
        var prior, receipt := ParseSelection(selection.value), ParseReceipt(c.previousReceipt);
        if SelectArmed(sha, j, c) && prior.Some? && receipt.Some?
            && ReceiptMatches(sha, receipt.value, prior.value, j, c) {
          Save(selection, Selected(c.transactionId, j, receipt.value.generation + 1), stop);
        }
      }
    }

    /** Undo a witness-bound switch and mark its journal, under both locks. */
    method Reconcile(tx: string, now: Second, stop: Stop)
      modifies this
      ensures Contents() == LockedTwice(old(Contents()), tx, ReconcileWrites(sha, old(Stored()), tx, now), stop)
    {
      hide ReconcileWrites, Cut;
      if locked { return; }
      locked := true;
      if tx !in journalLocks {
        journalLocks := journalLocks + {tx};
        ReconcileNow(tx, now, stop);
        if !stop.Crashes? { journalLocks := journalLocks - {tx}; }
      }
      locked := stop.Crashes?;
    }

    /** Put the saved selection back, mark the journal, then clear the capsule. */
    method ReconcileNow(tx: string, now: Second, stop: Stop)
      modifies `selection, `capsule, `journals
      ensures Stored() == Cut(old(Stored()), ReconcileWrites(sha, old(Stored()), tx, now), stop)
    {
      hide ParseRecovery, Reconcilable, ParseSelection, SelectionBytes, UndoWrites, Cut;
      NothingMade(Stored(), stop);
      if capsule.Some? && tx in journals && tx !in proposals {
        var r, j, current := ParseRecovery(sha, capsule.value), journals[tx], ReadFile(selection);
        if r.Some? && Reconcilable(j, tx, now) && OwnSwitch(sha, r.value, tx, j) && current.Some?
            && current.value.Some? {
          var saved, digest := r.value.previous.value, sha(current.value.value);
          if Some(digest) == r.value.previousSha || digest == r.value.candidateSha {
            Undo(tx, saved, now, stop);
          }
        }
      }
    }

    method Undo(tx: string, saved: Bytes, now: Second, stop: Stop)
      requires tx in journals && selection.Some?
      modifies `selection, `capsule, `journals
      ensures Stored() == Cut(old(Stored()), UndoWrites(old(Stored()), tx, saved, now), stop)
    {
      hide Reconciled, Cut, Made, ApplyAll;
      var before, j, made := Stored(), journals[tx], 0;
      ghost var back := if selection.value != saved then [PutSelection(saved)] else [];
      ghost var marked := if j.phase == ActivationIntent then [PutJournal(tx, Reconciled(j, now))] else [];
      NothingMade(before, stop);
      if selection.value != saved {
        NextMade(before, [], PutSelection(saved), back, stop);
        if Goes(stop, made) { selection := Some(saved); }
        made := made + 1;
      }
      assert Stored() == Cut(before, back, stop) && made == |back|;
      if j.phase == ActivationIntent {
        NextMade(before, back, PutJournal(tx, Reconciled(j, now)), back + marked, stop);
        if Goes(stop, made) { journals := journals[tx := Reconciled(j, now)]; }
        made := made + 1;
      }
      assert back + marked == back || j.phase == ActivationIntent;
      assert Stored() == Cut(before, back + marked, stop) && made == |back + marked|;
      NextMade(before, back + marked, DropCapsule, back + marked + [DropCapsule], stop);
      if Goes(stop, made) { capsule := None; }
    }

    /** Store the proposal that may be submitted, under both locks. */
    method Persist(c: PersistCall, stop: Stop)
      modifies this
      ensures Contents() == LockedTwice(old(Contents()), c.transactionId,
                                        PersistWrites(sha, journalSha, old(Stored()), c), stop)
    {
      hide PersistWrites, Cut;
      if locked { return; }
      locked := true;
      if c.transactionId !in journalLocks {
        journalLocks := journalLocks + {c.transactionId};
        PersistNow(c, stop);
        if !stop.Crashes? { journalLocks := journalLocks - {c.transactionId}; }
      }
      locked := stop.Crashes?;
    }

    method PersistNow(c: PersistCall, stop: Stop)
      modifies `proposals
      ensures Stored() == Cut(old(Stored()), PersistWrites(sha, journalSha, old(Stored()), c), stop)
    {
      hide ParseReceipt, TakeSnapshot, ProposalBytes, Consecutive, Token, WitnessName, Cut;
      NothingMade(Stored(), stop);
      if c.now % SECOND == 0 && ValidRequest(sha, c.request) && c.transactionId !in proposals
         && c.directoriesPresent && c.priorHeadVisible {
        var s := TakeSnapshot(sha, journalSha, Stored(), c.transactionId, c.request);
        if s.Some? && ParseReceipt(c.request.previous).value.recordedAt * SECOND <= c.now
           && ParseReceipt(c.request.successor).value.recordedAt * SECOND <= c.now {
          var raw := ProposalBytes(sha, s.value, c.now / SECOND);
          if raw.Some? && |raw.value| <= MAX_RECORD {
            CutOne(Stored(), PutProposal(c.transactionId, raw.value), stop);
            if Goes(stop, 0) { proposals := proposals[c.transactionId := raw.value]; }
          }
        }
      }
    }
  }
}
