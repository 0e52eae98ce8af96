/** The software root's files and the procedures that change them.

    A file is an optional byte string replaced or removed atomically. Each procedure
    decides under its locks which writes to make, and makes them in order; it may be
    stopped before any of them, by a failing operation, which releases the locks, or
    by a crash, which leaves them behind. */
module Slots {
  import opened Wrappers
  import opened Patterns
  import opened ActiveReceipts
  import opened SlotRecords

  datatype Phase = CandidateVerified | ActivationIntent | RecoveryRequired | Aborted

  datatype Journal = Journal(
    transactionId: string,
    revision: int,
    phase: Phase,
    recordedAt: Second,
    stagePath: string,
    wheelhousePath: string,
    preparedSha: string,
    registrySha: string,
    lockSha: string,
    nativeSha: string,
    previousReceiptSha: Option<string>)

  predicate JournalPath(s: string) {
    && 1 <= |s| <= 180 && (forall i | 0 <= i < |s| :: s[i] != '\\' && s[i] != ':')
    && forall part <- Split(s, '/') :: part != "" && part != "." && part != ".."
  }

  /** What the journal reader insists on. */
  predicate ValidJournal(j: Journal) {
    && Token(j.transactionId) && Positive(j.revision) && JournalPath(j.stagePath) && JournalPath(j.wheelhousePath)
    && Hex(j.preparedSha, 64) && Hex(j.registrySha, 64) && Hex(j.lockSha, 64) && Hex(j.nativeSha, 64)
    && (j.previousReceiptSha.Some? ==> Hex(j.previousReceiptSha.value, 64))
  }

  datatype Files = Files(
    selection: Option<Bytes>,
    capsule: Option<Bytes>,
    journals: map<string, Journal>,
    proposals: map<string, Bytes>)

  datatype Disk = Disk(files: Files, locked: bool, journalLocks: set<string>)

  datatype Write =
    | PutCapsule(raw: Bytes)
    | PutSelection(raw: Bytes)
    | DropSelection
    | DropCapsule
    | PutJournal(tx: string, journal: Journal)
    | PutProposal(tx: string, raw: Bytes)

  function Apply(f: Files, w: Write): Files {
    match w
    case PutCapsule(raw) => f.(capsule := Some(raw))
    case PutSelection(raw) => f.(selection := Some(raw))
    case DropSelection => f.(selection := None)
    case DropCapsule => f.(capsule := None)
    case PutJournal(tx, j) => f.(journals := f.journals[tx := j])
    case PutProposal(tx, raw) => f.(proposals := f.proposals[tx := raw])
  }

  function ApplyAll(f: Files, writes: seq<Write>): Files
    decreases |writes|
  {
    if writes == [] then f else ApplyAll(Apply(f, writes[0]), writes[1..])
  }

  /** Where a procedure is stopped: nowhere, or after so many of its writes, by an
      exception or by a crash. */
  datatype Stop = Never | Fails(after: nat) | Crashes(after: nat)

  function Made(writes: seq<Write>, stop: Stop): seq<Write> {
    if stop.Never? || stop.after >= |writes| then writes else writes[..stop.after]
  }

  /** The files after the writes that were made. */
  function Cut(f: Files, writes: seq<Write>, stop: Stop): Files { ApplyAll(f, Made(writes, stop)) }

  /** A procedure under the selection lock: refused while it is held, else stopped so;
      a crash leaves the lock behind. */
  function Locked(d: Disk, writes: seq<Write>, stop: Stop): Disk {
    if d.locked then d else Disk(Cut(d.files, writes, stop), stop.Crashes?, d.journalLocks)
  }

  /** The same under the selection lock and then one journal's lock. */
  function LockedTwice(d: Disk, tx: string, writes: seq<Write>, stop: Stop): Disk {
    if d.locked then d
    else if tx in d.journalLocks then d.(locked := stop.Crashes?)
    else Disk(Cut(d.files, writes, stop), stop.Crashes?, d.journalLocks + if stop.Crashes? then {tx} else {})
  }

  /** A bounded read: nothing when the file's length makes the read raise. */
  function ReadFile(file: Option<Bytes>): Option<Option<Bytes>> {
    if file.None? || 1 <= |file.value| <= MAX_BYTES then Some(file) else None
  }

  // ------------------------------------------------------------------ switch

  /** What a switch is given, the outcome of its audit of the staged bytes, and the
      ordinary directories below the root, each by its parts. */
  datatype SwitchCall = SwitchCall(
    transactionId: string, prepared: Bytes, registry: Bytes, lock: Bytes, evidence: Bytes,
    stageVerified: bool, directories: set<seq<string>>)

  /** The parts of a reference that path handling keeps: lone dots vanish. */
  function KeptParts(parts: seq<string>): seq<string> {
    if parts == [] then []
    else if parts[0] == "." || parts[0] == "" then KeptParts(parts[1..])
    else [parts[0]] + KeptParts(parts[1..])
  }

  /** The reference leads down the root through ordinary directories only. */
  predicate StagePresent(directories: set<seq<string>>, path: string) {
    var parts := KeptParts(Split(path, '/'));
    parts != [] && ".." !in parts && forall i | 0 < i <= |parts| :: parts[..i] in directories
  }

  /** The slot that would be left is still there, if one is selected at all. */
  predicate PreviousPresent(directories: set<seq<string>>, previous: Option<Bytes>) {
    previous.Some? ==>
      var s := ParseSelection(previous.value);
      s.Some? && StagePresent(directories, s.value.stagePath)
  }

  function Selected(tx: string, j: Journal, generation: int): Selection {
    Selection(tx, j.stagePath, j.preparedSha, j.nativeSha, generation)
  }

  /** The capsule for a switch away from this selection. */
  function Saved(sha: Hash, previous: Option<Bytes>, selected: Selection): Recovery {
    Recovery(selected.transactionId, previous, sha(SelectionBytes(selected)),
             if previous.None? then None else Some(sha(previous.value)))
  }

  /** The two writes that save the present selection and then replace it. */
  function CapsuleFirst(sha: Hash, previous: Option<Bytes>, selected: Selection): seq<Write> {
    [PutCapsule(RecoveryBytes(Saved(sha, previous, selected))), PutSelection(SelectionBytes(selected))]
  }

  /** The generation after the present selection, unless that selection is unusable. */
  function NextGeneration(previous: Option<Bytes>, tx: string): Option<int> {
    if previous.None? then Some(1)
    else
      var p := ParseSelection(previous.value);
      if p.None? || p.value.transactionId == tx || p.value.generation + 1 > MAX_GENERATION then None
      else Some(p.value.generation + 1)
  }

  /** The journal asks for this very candidate, and the staged bytes were reverified. */
  predicate SwitchArmed(sha: Hash, j: Journal, c: SwitchCall) {
    && j.phase == ActivationIntent && j.previousReceiptSha.None? && c.stageVerified
    && sha(c.prepared) == j.preparedSha && sha(c.registry) == j.registrySha
    && sha(c.lock) == j.lockSha && sha(c.evidence) == j.nativeSha
  }

  function SwitchWrites(sha: Hash, f: Files, c: SwitchCall): seq<Write> {
    if !Token(c.transactionId) || f.capsule.Some? || c.transactionId !in f.journals then []
    else
      var j, previous := f.journals[c.transactionId], ReadFile(f.selection);
      if !SwitchArmed(sha, j, c) || previous.None? then []
      else
        var generation := NextGeneration(previous.value, c.transactionId);
        if generation.None? || !PreviousPresent(c.directories, previous.value) then []
        else CapsuleFirst(sha, previous.value, Selected(c.transactionId, j, generation.value))
  }

  // ----------------------------------------------------------------- restore

  function RestoreWrites(sha: Hash, f: Files, tx: string): seq<Write> {
    if f.capsule.None? then []
    else
      var r, current := ParseRecovery(sha, f.capsule.value), ReadFile(f.selection);
      if r.None? || r.value.transactionId != tx || tx in f.proposals || current.None? then []
      else
        var digest := if current.value.None? then None else Some(sha(current.value.value));
        if digest != Some(r.value.candidateSha) && digest != r.value.previousSha then []
        else if digest == Some(r.value.candidateSha) then
          [if r.value.previous.None? then DropSelection else PutSelection(r.value.previous.value), DropCapsule]
        else [DropCapsule]
  }

  // ---------------------------------------------------- witness-bound switch

  datatype SelectCall = SelectCall(
    transactionId: string, prepared: Bytes, registry: Bytes, lock: Bytes, evidence: Bytes,
    priorObservation: Bytes, priorPrepared: Bytes, priorRegistry: Bytes, priorLock: Bytes, priorEvidence: Bytes,
    previousReceipt: Bytes, now: Second, witnessed: bool)

  /** The predecessor receipt describes the slot now selected. */
  predicate ReceiptMatches(sha: Hash, receipt: Receipt, prior: Selection, j: Journal, c: SelectCall) {
    && receipt.transactionId == prior.transactionId != c.transactionId && receipt.stagePath == prior.stagePath
    && receipt.preparedSha == prior.preparedSha == sha(c.priorPrepared)
    && receipt.nativeEnvelopeSha == prior.nativeSha == sha(c.priorEvidence)
    && receipt.registrySha == sha(c.priorRegistry) && receipt.lockSha == sha(c.priorLock)
    && receipt.generation == prior.generation < MAX_GENERATION && receipt.recordedAt <= j.recordedAt
  }

  /** The journal was armed at revision 2 for this candidate and this predecessor. */
  predicate SelectArmed(sha: Hash, j: Journal, c: SelectCall) {
    && j.transactionId == c.transactionId && j.phase == ActivationIntent && j.revision == 2 && j.recordedAt <= c.now
    && j.previousReceiptSha == Some(sha(c.priorObservation)) && c.witnessed
    && sha(c.prepared) == j.preparedSha && sha(c.registry) == j.registrySha && sha(c.lock) == j.lockSha
    && sha(c.evidence) == j.nativeSha
  }

  function SelectWrites(sha: Hash, f: Files, c: SelectCall): seq<Write> {
    if f.capsule.Some? || f.selection.None? || c.transactionId !in f.journals then []
    else
      var j, prior, receipt := f.journals[c.transactionId], ParseSelection(f.selection.value),
          ParseReceipt(c.previousReceipt);
      if !SelectArmed(sha, j, c) || prior.None? || receipt.None?
         || !ReceiptMatches(sha, receipt.value, prior.value, j, c) then []
      else CapsuleFirst(sha, f.selection, Selected(c.transactionId, j, receipt.value.generation + 1))
  }

  // --------------------------------------------------------------- reconcile

  /** The journal may still be reconciled: armed, or already marked by an earlier try. */
  predicate Reconcilable(j: Journal, tx: string, now: Second) {
    && j.transactionId == tx && j.recordedAt <= now
    && ((j.phase == ActivationIntent && j.revision == 2) || (j.phase == RecoveryRequired && j.revision == 3))
  }

  /** The capsule is this journal's own switch away from the saved selection. */
  predicate OwnSwitch(sha: Hash, r: Recovery, tx: string, j: Journal) {
    && r.transactionId == tx && r.previous.Some?
    && var prior := ParseSelection(r.previous.value);
       && prior.Some? && prior.value.generation < MAX_GENERATION && prior.value.transactionId != tx
       && sha(SelectionBytes(Selected(tx, j, prior.value.generation + 1))) == r.candidateSha
  }

  function Reconciled(j: Journal, now: Second): Journal {
    if j.phase == ActivationIntent then j.(revision := 3, phase := RecoveryRequired, recordedAt := now) else j
  }

  /** Put the saved selection back, mark the journal once, and only then drop the capsule. */
  function UndoWrites(f: Files, tx: string, saved: Bytes, now: Second): seq<Write>
    requires tx in f.journals && f.selection.Some?
  {
    (if f.selection.value != saved then [PutSelection(saved)] else [])
    + (if f.journals[tx].phase == ActivationIntent then [PutJournal(tx, Reconciled(f.journals[tx], now))] else [])
    + [DropCapsule]
  }

  function ReconcileWrites(sha: Hash, f: Files, tx: string, now: Second): seq<Write> {
    if f.capsule.None? || tx !in f.journals || tx in f.proposals then []
    else
      var r, j, current := ParseRecovery(sha, f.capsule.value), f.journals[tx], ReadFile(f.selection);
      if r.None? || !Reconcilable(j, tx, now) || !OwnSwitch(sha, r.value, tx, j)
         || current.None? || current.value.None? then []
      else
        var saved, digest := r.value.previous.value, sha(current.value.value);
        if Some(digest) != r.value.previousSha && digest != r.value.candidateSha then []
        else UndoWrites(f, tx, saved, now)
  }
}
