/** From the moment a successor proposal is stored, a remote commit may have happened:
    nothing that respects the locks moves the local state any more. */
module ProposalFreeze {
  import opened Wrappers
  import opened Patterns
  import opened Timestamps
  import opened ActiveReceipts
  import opened SlotRecords
  import opened Slots
  import opened SoftwareRoots
  import opened SuccessorProposals
  import opened SlotRuns

  /** A proposal is stored for the transaction whose capsule is pending. */
  ghost predicate Frozen(sha: Hash, f: Files, tx: string) {
    && tx in f.proposals && f.capsule.Some?
    && var r := ParseRecovery(sha, f.capsule.value);
       r.Some? && r.value.transactionId == tx
  }

  /** The pointer, the capsule and this proposal are what they were. */
  predicate Unmoved(f: Files, g: Files, tx: string) {
    && g.selection == f.selection && g.capsule == f.capsule
    && tx in f.proposals && tx in g.proposals && g.proposals[tx] == f.proposals[tx]
  }

  /** A snapshot is only ever taken of the transaction the capsule belongs to. */
  lemma OtherSnapshot(sha: Hash, journalSha: JournalHash, f: Files, tx: string, q: Request)
    requires TakeSnapshot(sha, journalSha, f, tx, q).Some?
    ensures f.capsule.Some? && f.selection.Some? && tx in f.journals
    ensures ParseRecovery(sha, f.capsule.value).Some? && ParseRecovery(sha, f.capsule.value).value.transactionId == tx
    ensures ParseReceipt(q.successor).Some? && ParseReceipt(q.successor).value.transactionId == tx
    ensures var s := TakeSnapshot(sha, journalSha, f, tx, q).value;
            s == Snapshot(tx, journalSha(f.journals[tx]), sha(f.selection.value), sha(f.capsule.value), q)
  {
    hide ParseRecovery, ParseReceipt, ParseSelection, Separate;
  }

  lemma NothingDone(d: Disk, tx: string, stop: Stop)
    ensures Locked(d, [], stop).files == d.files && LockedTwice(d, tx, [], stop).files == d.files
  {
    NothingMade(d.files, stop);
  }

  lemma FrozenSwitches(sha: Hash, f: Files, tx: string)
    requires Frozen(sha, f, tx)
    ensures forall c: SwitchCall :: SwitchWrites(sha, f, c) == []
    ensures forall c: SelectCall :: SelectWrites(sha, f, c) == []
  {
    hide ParseRecovery;
    forall c: SwitchCall ensures SwitchWrites(sha, f, c) == [] {}
    forall c: SelectCall ensures SelectWrites(sha, f, c) == [] {}
  }

  lemma FrozenRestore(sha: Hash, f: Files, tx: string, other: string)
    requires Frozen(sha, f, tx)
    ensures RestoreWrites(sha, f, other) == []
  {
    hide ParseRecovery, ReadFile;
  }

  lemma FrozenReconcile(sha: Hash, f: Files, tx: string, other: string, now: Second)
    requires Frozen(sha, f, tx)
    ensures ReconcileWrites(sha, f, other, now) == []
  {
    hide ParseRecovery, ReadFile, UndoWrites, Reconcilable, ParseSelection, SelectionBytes;
  }

  lemma FrozenPersist(sha: Hash, journalSha: JournalHash, f: Files, tx: string, c: PersistCall)
    requires Frozen(sha, f, tx)
    ensures PersistWrites(sha, journalSha, f, c) == []
  {
    hide ParseRecovery, TakeSnapshot, ProposalBytes, ValidRequest, ParseReceipt;
    if TakeSnapshot(sha, journalSha, f, c.transactionId, c.request).Some? {
      OtherSnapshot(sha, journalSha, f, c.transactionId, c.request);
    }
  }

  /** Events that are neither an operator dropping the capsule nor a new journal for tx. */
  predicate Ordinary(e: Event, tx: string) { !e.Settle? && !(e.SaveJournal? && e.tx == tx) }

  predicate JournalKept(f: Files, g: Files, tx: string) {
    tx in f.journals ==> tx in g.journals && g.journals[tx] == f.journals[tx]
  }

  lemma FrozenNext(sha: Hash, journalSha: JournalHash, d: Disk, e: Event, tx: string)
    requires Frozen(sha, d.files, tx) && !e.Settle?
    ensures var g := Next(sha, journalSha, d, e).files;
            g == d.files || (e.SaveJournal? && g == d.files.(journals := d.files.journals[e.tx := e.journal]))
  {
    hide Locked, LockedTwice, Frozen, SwitchWrites, SelectWrites, RestoreWrites, ReconcileWrites, PersistWrites,
         ValidJournal;
    var f := d.files;
    match e
    case Switch(c, stop) => FrozenSwitches(sha, f, tx); NothingDone(d, "", stop);
    case Select(c, stop) => FrozenSwitches(sha, f, tx); NothingDone(d, c.transactionId, stop);
    case Restore(other, stop) => FrozenRestore(sha, f, tx, other); NothingDone(d, other, stop);
    case Reconcile(other, now, stop) => FrozenReconcile(sha, f, tx, other, now); NothingDone(d, other, stop);
    case Persist(c, stop) => FrozenPersist(sha, journalSha, f, tx, c); NothingDone(d, c.transactionId, stop);
    case Inspect(other, stop) => NothingDone(d, other, stop);
    case SaveJournal(other, j) =>
    case ClearLocks =>
  }

  /** No call, for any transaction, moves a frozen state. */
  lemma FrozenStep(sha: Hash, journalSha: JournalHash, d: Disk, e: Event, tx: string)
    requires Frozen(sha, d.files, tx) && !e.Settle?
    ensures Frozen(sha, Next(sha, journalSha, d, e).files, tx)
    ensures Unmoved(d.files, Next(sha, journalSha, d, e).files, tx)
    ensures Ordinary(e, tx) ==> JournalKept(d.files, Next(sha, journalSha, d, e).files, tx)
  {
    hide ParseRecovery, Next;
    FrozenNext(sha, journalSha, d, e, tx);
  }

  lemma {:induction false} FrozenRun(sha: Hash, journalSha: JournalHash, d: Disk, events: seq<Event>, tx: string)
    requires Frozen(sha, d.files, tx) && forall e <- events :: !e.Settle?
    ensures Unmoved(d.files, Run(sha, journalSha, d, events).files, tx)
    ensures (forall e <- events :: Ordinary(e, tx)) ==> JournalKept(d.files, Run(sha, journalSha, d, events).files, tx)
    decreases |events|
  {
    hide Frozen, Next;
    if events == [] {
      FrozenStored(sha, d.files, tx);
    } else {
      FrozenStep(sha, journalSha, d, events[0], tx);
      FrozenRun(sha, journalSha, Next(sha, journalSha, d, events[0]), events[1..], tx);
    }
  }

  lemma FrozenStored(sha: Hash, f: Files, tx: string)
    requires Frozen(sha, f, tx)
    ensures Unmoved(f, f, tx)
  {
  }

  /** The proposal a persist call writes, and the snapshot it is bound to. */
  lemma PersistedBytes(sha: Hash, journalSha: JournalHash, f: Files, c: PersistCall)
    returns (s: Snapshot, now: Second, raw: Bytes)
    requires PersistWrites(sha, journalSha, f, c) != []
    ensures TakeSnapshot(sha, journalSha, f, c.transactionId, c.request) == Some(s)
    ensures PersistWrites(sha, journalSha, f, c) == [PutProposal(c.transactionId, raw)]
    ensures ProposalBytes(sha, s, now) == Some(raw) && |raw| <= MAX_RECORD
  {
    hide ParseReceipt, TakeSnapshot, ProposalBytes, Consecutive, Token, WitnessName;
    s := TakeSnapshot(sha, journalSha, f, c.transactionId, c.request).value;
    now := c.now / SECOND;
    raw := ProposalBytes(sha, s, now).value;
  }

  lemma PersistFreezes(sha: Hash, journalSha: JournalHash, f: Files, c: PersistCall, stop: Stop)
    requires c.transactionId !in f.proposals
    requires c.transactionId in Cut(f, PersistWrites(sha, journalSha, f, c), stop).proposals
    ensures var g := Cut(f, PersistWrites(sha, journalSha, f, c), stop);
            Frozen(sha, g, c.transactionId) && g.(proposals := f.proposals) == f
    ensures var g := Cut(f, PersistWrites(sha, journalSha, f, c), stop);
            PersistWrites(sha, journalSha, f, c) == [PutProposal(c.transactionId, g.proposals[c.transactionId])]
  {
    hide Cut, PersistWrites, TakeSnapshot, ParseRecovery, ProposalBytes, ParseReceipt;
    NothingMade(f, stop);
    if PersistWrites(sha, journalSha, f, c) != [] {
      var s, now, raw := PersistedBytes(sha, journalSha, f, c);
      CutOne(f, PutProposal(c.transactionId, raw), stop);
      OtherSnapshot(sha, journalSha, f, c.transactionId, c.request);
    }
  }

  /** Once a persist call has stored a proposal, no run of calls for any transaction,
      cut short in any way, changes the pointer, the capsule or that proposal. */
  lemma FreezeAfterProposal(sha: Hash, journalSha: JournalHash, d: Disk, c: PersistCall, stop: Stop, events: seq<Event>)
    requires c.transactionId !in d.files.proposals
    requires c.transactionId in Next(sha, journalSha, d, Persist(c, stop)).files.proposals
    requires forall e <- events :: !e.Settle?
    ensures var stored := Next(sha, journalSha, d, Persist(c, stop));
            var last := Run(sha, journalSha, stored, events).files;
            && Unmoved(stored.files, last, c.transactionId)
            && last.selection == d.files.selection && last.capsule == d.files.capsule
  {
    hide Cut, PersistWrites, Frozen, Run;
    PersistFreezes(sha, journalSha, d.files, c, stop);
    FrozenRun(sha, journalSha, Next(sha, journalSha, d, Persist(c, stop)), events, c.transactionId);
  }

  // -------------------------------------------------------------- inspection

  lemma SnapshotValid(sha: Hash, journalSha: JournalHash, f: Files, tx: string, q: Request)
    requires TakeSnapshot(sha, journalSha, f, tx, q).Some? && SerializeRequest(sha, q).Some?
    ensures ValidSnapshot(sha, TakeSnapshot(sha, journalSha, f, tx, q).value)
  {
    hide TakeSnapshot, SerializeRequest, ParseReceipt, ParseRecovery;
    OtherSnapshot(sha, journalSha, f, tx, q);
  }

  lemma RequestSerializes(sha: Hash, s: Snapshot, now: Second)
    requires ProposalBytes(sha, s, now).Some?
    ensures SerializeRequest(sha, s.request).Some?
  {
    hide SerializeRequest, ProposalFields, ProposalValues;
  }

  /** A stored proposal parses back to the snapshot it was made from. */
  lemma StoredParses(sha: Hash, journalSha: JournalHash, f: Files, c: PersistCall, raw: Bytes)
    requires PersistWrites(sha, journalSha, f, c) == [PutProposal(c.transactionId, raw)]
    ensures TakeSnapshot(sha, journalSha, f, c.transactionId, c.request).Some?
    ensures ParseProposal(sha, raw).Some?
            && ParseProposal(sha, raw).value.0 == TakeSnapshot(sha, journalSha, f, c.transactionId, c.request).value
    ensures TakeSnapshot(sha, journalSha, f, c.transactionId, c.request).value.request == c.request
    ensures TakeSnapshot(sha, journalSha, f, c.transactionId, c.request).value.transactionId == c.transactionId
  {
    hide PersistWrites, ParseProposal, TakeSnapshot, ProposalBytes, ValidSnapshot, SerializeRequest, ParseReceipt,
         ParseRecovery;
    var s, now, bytes := PersistedBytes(sha, journalSha, f, c);
    assert raw == bytes;
    OtherSnapshot(sha, journalSha, f, c.transactionId, c.request);
    RequestSerializes(sha, s, now);
    SnapshotValid(sha, journalSha, f, c.transactionId, c.request);
    ParsesExactlyProposals(sha, raw, s, now);
  }

  lemma SameFilesSameSnapshot(sha: Hash, journalSha: JournalHash, f: Files, g: Files, tx: string, q: Request)
    requires g.selection == f.selection && g.capsule == f.capsule && tx in f.journals && tx in g.journals
    requires g.journals[tx] == f.journals[tx]
    ensures TakeSnapshot(sha, journalSha, g, tx, q) == TakeSnapshot(sha, journalSha, f, tx, q)
  {
    hide ParseRecovery, ParseReceipt, ParseSelection, Separate, SameStory;
  }

  /** Whenever the pointer, capsule, journal and proposal are those a persist call left,
      an inspection finds exactly the snapshot that call took. */
  lemma InspectionAgrees(sha: Hash, journalSha: JournalHash, f: Files, c: PersistCall, raw: Bytes, g: Files)
    requires PersistWrites(sha, journalSha, f, c) == [PutProposal(c.transactionId, raw)]
    requires g.selection == f.selection && g.capsule == f.capsule && JournalKept(f, g, c.transactionId)
    requires c.transactionId in g.proposals && g.proposals[c.transactionId] == raw
    ensures var s := TakeSnapshot(sha, journalSha, f, c.transactionId, c.request);
            s.Some? && InspectLocal(sha, journalSha, g, c.transactionId) == s
  {
    hide PersistWrites, ParseProposal, TakeSnapshot, ParseReceipt, ParseRecovery;
    StoredParses(sha, journalSha, f, c, raw);
    OtherSnapshot(sha, journalSha, f, c.transactionId, c.request);
    SameFilesSameSnapshot(sha, journalSha, f, g, c.transactionId, c.request);
  }

  /** So inspections keep succeeding, with that snapshot, over every run in which nobody
      rewrites the journal or drops the capsule by hand. */
  lemma InspectionsKeepAgreeing(sha: Hash, journalSha: JournalHash, d: Disk, c: PersistCall, stop: Stop,
                                events: seq<Event>)
    requires c.transactionId !in d.files.proposals
    requires c.transactionId in Next(sha, journalSha, d, Persist(c, stop)).files.proposals
    requires forall e <- events :: Ordinary(e, c.transactionId)
    ensures var last := Run(sha, journalSha, Next(sha, journalSha, d, Persist(c, stop)), events).files;
            var s := TakeSnapshot(sha, journalSha, d.files, c.transactionId, c.request);
            s.Some? && InspectLocal(sha, journalSha, last, c.transactionId) == s
  {
    hide Cut, PersistWrites, Frozen, Run, TakeSnapshot, InspectLocal;
    var stored := Next(sha, journalSha, d, Persist(c, stop));
    PersistFreezes(sha, journalSha, d.files, c, stop);
    FrozenRun(sha, journalSha, stored, events, c.transactionId);
    InspectionAgrees(sha, journalSha, d.files, c, stored.files.proposals[c.transactionId],
        Run(sha, journalSha, stored, events).files);
  }
}
