/** The durable, untrusted successor proposal: the commit request it carries, its own
    canonical bytes, and the local snapshot it is bound to. */
module SuccessorProposals {
  import opened Wrappers
  import opened CanonicalJson
  import opened Patterns
  import opened Timestamps
  import opened ActiveReceipts
  import opened SlotRecords
  import opened Slots
  import Base64
  import WitnessMessages

  const MAX_REQUEST: int := 48 * 1024
  const MAX_RECORD: int := 80 * 1024

  // ----------------------------------------------------------------- request

  datatype Request = Request(
    installation: string, witnessId: string, revision: int, previous: Bytes, successor: Bytes)

  /** The two receipts are consecutive and reuse nothing of each other's software. */
  predicate Consecutive(sha: Hash, q: Request, prior: Receipt, next: Receipt) {
    && prior.generation < MAX_GENERATION && next.generation == prior.generation + 1
    && next.previousSha == Some(sha(q.previous)) && next.transactionId != prior.transactionId
    && next.recordedAt >= prior.recordedAt && next.stagePath != prior.stagePath
        && next.wheelhousePath != prior.wheelhousePath
  }

  predicate ValidRequest(sha: Hash, q: Request) {
    var prior, next := ParseReceipt(q.previous), ParseReceipt(q.successor);
    && Token(q.installation) && WitnessName(q.witnessId) && 1 <= q.revision < MAX_GENERATION
    && prior.Some? && next.Some? && Consecutive(sha, q, prior.value, next.value)
  }

  function RequestFields(): (names: seq<string>)
    ensures |names| == 9
  {
    ["expected_witness_revision", "installation_id", "predecessor_b64", "predecessor_sha256", "record_type",
     "schema_version", "successor_b64", "successor_sha256", "witness_id"]
  }

  function RequestType(): string { "pds_witness_successor_commit_request" }

  function RequestValue(sha: Hash, q: Request, i: int): Json {
    match i
    case 0 => Num(q.revision)
    case 1 => Str(q.installation)
    case 2 => Str(Base64.Encode(q.previous))
    case 3 => Str(sha(q.previous))
    case 4 => Str(RequestType())
    case 5 => Num(1)
    case 6 => Str(Base64.Encode(q.successor))
    case 7 => Str(sha(q.successor))
    case _ => Str(q.witnessId)
  }

  function RequestValues(sha: Hash, q: Request): (values: seq<Json>)
    ensures |values| == 9
    ensures forall i | 0 <= i < 9 :: values[i] == RequestValue(sha, q, i)
  {
    seq(9, i => RequestValue(sha, q, i))
  }

  function RequestText(sha: Hash, q: Request): Bytes {
    Dumps(Record(RequestFields(), RequestValues(sha, q)))
  }

  function SerializeRequest(sha: Hash, q: Request): Option<Bytes> {
    if ValidRequest(sha, q) && |RequestText(sha, q)| <= MAX_REQUEST then Some(RequestText(sha, q)) else None
  }

  /** A receipt behind its canonical base64 text. */
  function DecodeReceipt(v: Json): Option<Bytes> {
    if !v.Str? || !(1 <= |v.text| <= 4 * ((MAX_RECEIPT + 2) / 3)) then None
    else
      var data := Base64.DecodeCanonical(v.text);
      if data.Some? && 1 <= |data.value| <= MAX_RECEIPT then data else None
  }

  function ReadRequest(sha: Hash, v: seq<Json>): Option<Request>
    requires |v| == 9
  {
    if !(v[4] == Str(RequestType()) && v[5] == Num(1) && v[0].Num? && v[1].Str? && v[8].Str?) then None
    else
      var previous, successor := DecodeReceipt(v[2]), DecodeReceipt(v[6]);
      if previous.None? || successor.None? then None
      else
        var q := Request(v[1].text, v[8].text, v[0].number, previous.value, successor.value);
        if ValidRequest(sha, q) && v[3] == Str(sha(q.previous)) && v[7] == Str(sha(q.successor)) then Some(q) else None
  }

  function ParseRequest(sha: Hash, raw: Bytes): Option<Request> {
    var v := ReadRecord(raw, MAX_REQUEST, RequestFields());
    if v.None? then None
    else
      var q := ReadRequest(sha, v.value);
      if q.Some? && SerializeRequest(sha, q.value) == Some(raw) then q else None
  }

  lemma PredecessorFields()
    ensures Less("predecessor_b64", "predecessor_sha256")
  {
    LessAt("predecessor_b64", "predecessor_sha256", 12);
  }

  lemma SuccessorFields()
    ensures Less("successor_b64", "successor_sha256")
  {
    LessAt("successor_b64", "successor_sha256", 10);
  }

  lemma OtherRequestFields()
    ensures Less("expected_witness_revision", "installation_id") && Less("installation_id", "predecessor_b64")
    ensures Less("predecessor_sha256", "record_type") && Less("record_type", "schema_version")
    ensures Less("schema_version", "successor_b64") && Less("successor_sha256", "witness_id")
  {
    LessAt("schema_version", "successor_b64", 1);
  }

  lemma RequestFieldsAscend()
    ensures Ascending(RequestFields())
  {
    hide Less;
    PredecessorFields();
    SuccessorFields();
    OtherRequestFields();
  }

  lemma ReadsReceiptText(raw: Bytes)
    requires ParseReceipt(raw).Some?
    ensures DecodeReceipt(Str(Base64.Encode(raw))) == Some(raw)
  {
    hide ParseReceipt, ValidReceipt, EncodeReceipt, Base64.Encode, Base64.DecodeCanonical;
    ParsesExactlyEncodings(raw, ParseReceipt(raw).value);
    ReceiptNotEmpty(raw);
    Base64.AcceptsExactlyEncodings(Base64.Encode(raw), raw);
  }

  lemma ReceiptNotEmpty(raw: Bytes)
    requires ParseReceipt(raw).Some?
    ensures raw != []
  {
    hide ReceiptFields, ReadReceipt, EncodeReceipt;
  }

  lemma ReadsRequest(sha: Hash, q: Request)
    requires ValidRequest(sha, q)
    ensures ReadRequest(sha, RequestValues(sha, q)) == Some(q)
  {
    hide ParseReceipt, RequestType, RequestValues, DecodeReceipt, Base64.Encode, Consecutive;
    ReadsReceiptText(q.previous);
    ReadsReceiptText(q.successor);
    var v := RequestValues(sha, q);
    assert v[4] == Str(RequestType()) && v[5] == Num(1) && v[0] == Num(q.revision) && v[1] == Str(q.installation);
    assert v[2] == Str(Base64.Encode(q.previous)) && v[6] == Str(Base64.Encode(q.successor));
    assert v[3] == Str(sha(q.previous)) && v[7] == Str(sha(q.successor)) && v[8] == RequestValue(sha, q, 8);
    hide RequestValue, ValidRequest;
  }

  /** A request parses from exactly the bytes it serializes to. */
  lemma ParsesExactlyRequests(sha: Hash, raw: Bytes, q: Request)
    ensures ParseRequest(sha, raw) == Some(q) <==> SerializeRequest(sha, q) == Some(raw)
  {
    hide RequestFields, RequestValues, ValidRequest, ReadRequest, ReadRecord;
    if SerializeRequest(sha, q) == Some(raw) {
      RequestFieldsAscend();
      ReadsRecord(RequestFields(), RequestValues(sha, q), MAX_REQUEST);
      ReadsRequest(sha, q);
    }
  }

  // ---------------------------------------------------------------- proposal

  datatype Snapshot = Snapshot(
    transactionId: string, journalSha: string, selectionSha: string, recoverySha: string, request: Request)

  predicate ValidSnapshot(sha: Hash, s: Snapshot) {
    && Hex(s.journalSha, 64) && Hex(s.selectionSha, 64) && Hex(s.recoverySha, 64)
    && SerializeRequest(sha, s.request).Some?
    && s.transactionId == ParseReceipt(s.request.successor).value.transactionId
  }

  function ProposalFields(): (names: seq<string>)
    ensures |names| == 10
  {
    ["journal_sha256", "record_type", "recorded_at", "recovery_sha256", "request_b64", "request_sha256",
     "schema_version", "selection_sha256", "status", "transaction_id"]
  }

  function ProposalType(): string { "pds_untrusted_successor_receipt_proposal" }
  function ProposalStatus(): string { "proposal_only_not_active" }

  function ProposalValue(s: Snapshot, requestSha: string, request: Bytes, now: Second, i: int): Json {
    match i
    case 0 => Str(s.journalSha)
    case 1 => Str(ProposalType())
    case 2 => Str(Stamp(now))
    case 3 => Str(s.recoverySha)
    case 4 => Str(Base64.Encode(request))
    case 5 => Str(requestSha)
    case 6 => Num(1)
    case 7 => Str(s.selectionSha)
    case 8 => Str(ProposalStatus())
    case _ => Str(s.transactionId)
  }

  function ProposalValues(sha: Hash, s: Snapshot, request: Bytes, now: Second): (values: seq<Json>)
    ensures |values| == 10
    ensures forall i | 0 <= i < 10 :: values[i] == ProposalValue(s, sha(request), request, now, i)
  {
    seq(10, i => ProposalValue(s, sha(request), request, now, i))
  }

  /** The record's bytes; nothing when the request it carries does not serialize. */
  function ProposalBytes(sha: Hash, s: Snapshot, now: Second): Option<Bytes> {
    var request := SerializeRequest(sha, s.request);
    if request.None? then None else Some(Dumps(Record(ProposalFields(), ProposalValues(sha, s, request.value, now))))
  }

  function DecodeRequest(v: Json): Option<Bytes> {
    if !v.Str? || !(1 <= |v.text| <= 4 * ((MAX_REQUEST + 2) / 3)) then None
    else
      var data := Base64.DecodeCanonical(v.text);
      if data.Some? && 1 <= |data.value| <= MAX_REQUEST then data else None
  }

  predicate ProposalShape(v: seq<Json>)
    requires |v| == 10
  {
    && v[1] == Str(ProposalType()) && v[6] == Num(1) && v[8] == Str(ProposalStatus())
    && v[0].Str? && v[3].Str? && v[5].Str? && v[7].Str? && v[9].Str?
  }

  function ReadProposal(sha: Hash, v: seq<Json>): Option<(Snapshot, Second)>
    requires |v| == 10
  {
    if !ProposalShape(v) then None
    else
      var now, raw := WitnessMessages.UnstampValue(v[2]), DecodeRequest(v[4]);
      if now.None? || raw.None? || v[5].text != sha(raw.value) then None
      else
        var q := ParseRequest(sha, raw.value);
        if q.None? then None
        else
          var s := Snapshot(v[9].text, v[0].text, v[7].text, v[3].text, q.value);
          if ValidSnapshot(sha, s) then Some((s, now.value)) else None
  }

  function ParseProposal(sha: Hash, raw: Bytes): Option<(Snapshot, Second)> {
    var v := ReadRecord(raw, MAX_RECORD, ProposalFields());
    if v.None? then None
    else
      var p := ReadProposal(sha, v.value);
      if p.Some? && ProposalBytes(sha, p.value.0, p.value.1) == Some(raw) then p else None
  }

  lemma RecordedFields()
    ensures Less("record_type", "recorded_at") && Less("recorded_at", "recovery_sha256")
  {
    LessAt("record_type", "recorded_at", 6);
    LessAt("recorded_at", "recovery_sha256", 4);
  }

  lemma RequestNames()
    ensures Less("recovery_sha256", "request_b64") && Less("request_b64", "request_sha256")
  {
    LessAt("recovery_sha256", "request_b64", 2);
    LessAt("request_b64", "request_sha256", 8);
  }

  lemma OtherProposalFields()
    ensures Less("journal_sha256", "record_type") && Less("request_sha256", "schema_version")
    ensures Less("schema_version", "selection_sha256") && Less("selection_sha256", "status")
    ensures Less("status", "transaction_id")
  {
    LessAt("schema_version", "selection_sha256", 1);
    LessAt("selection_sha256", "status", 1);
  }

  lemma ProposalFieldsAscend()
    ensures Ascending(ProposalFields())
  {
    hide Less;
    RecordedFields();
    RequestNames();
    OtherProposalFields();
  }

  lemma ReadsRequestText(sha: Hash, q: Request, raw: Bytes)
    requires SerializeRequest(sha, q) == Some(raw)
    ensures DecodeRequest(Str(Base64.Encode(raw))) == Some(raw)
  {
    hide ValidRequest, RequestFields, RequestValues, Base64.Encode, Base64.DecodeCanonical;
    Base64.AcceptsExactlyEncodings(Base64.Encode(raw), raw);
  }

  lemma ReadsProposal(sha: Hash, s: Snapshot, now: Second, request: Bytes)
    requires ValidSnapshot(sha, s) && SerializeRequest(sha, s.request) == Some(request)
    ensures ReadProposal(sha, ProposalValues(sha, s, request, now)) == Some((s, now))
  {
    hide ValidSnapshot, SerializeRequest, ParseRequest, DecodeRequest, Base64.Encode, Stamp, ProposalValues,
         ProposalType, ProposalStatus, WitnessMessages.UnstampValue;
    ReadsRequestText(sha, s.request, request);
    ParsesExactlyRequests(sha, request, s.request);
    WitnessMessages.ReadsExactlyStamps(Str(Stamp(now)), now);
    var v := ProposalValues(sha, s, request, now);
    assert v[1] == Str(ProposalType()) && v[6] == Num(1) && v[8] == Str(ProposalStatus());
    assert v[0] == Str(s.journalSha) && v[3] == Str(s.recoverySha) && v[7] == Str(s.selectionSha);
    assert v[2] == Str(Stamp(now)) && v[4] == Str(Base64.Encode(request)) && v[5] == Str(sha(request));
    assert v[9] == ProposalValue(s, sha(request), request, now, 9);
  }

  /** A proposal parses from exactly the bytes its snapshot and time print to. */
  lemma ParsesExactlyProposals(sha: Hash, raw: Bytes, s: Snapshot, now: Second)
    ensures ParseProposal(sha, raw) == Some((s, now)) <==>
            ValidSnapshot(sha, s) && ProposalBytes(sha, s, now) == Some(raw) && |raw| <= MAX_RECORD
  {
    hide ValidSnapshot, SerializeRequest, ProposalFields, ProposalValues, ReadProposal, ReadRecord;
    if ValidSnapshot(sha, s) && ProposalBytes(sha, s, now) == Some(raw) && |raw| <= MAX_RECORD {
      var request := SerializeRequest(sha, s.request).value;
      ProposalFieldsAscend();
      ReadsRecord(ProposalFields(), ProposalValues(sha, s, request, now), MAX_RECORD);
      ReadsProposal(sha, s, now, request);
    }
    if ParseProposal(sha, raw) == Some((s, now)) { ProposalBounds(sha, raw); }
  }

  lemma ProposalBounds(sha: Hash, raw: Bytes)
    requires ParseProposal(sha, raw).Some?
    ensures |raw| <= MAX_RECORD && ValidSnapshot(sha, ParseProposal(sha, raw).value.0)
  {
    hide ProposalFields, ValidSnapshot, ProposalBytes, ProposalShape, ParseRequest, DecodeRequest,
         WitnessMessages.UnstampValue;
  }

  // ---------------------------------------------------------------- snapshot

  /** The digest of a journal's own bytes. */
  type JournalHash = Journal -> Digest

  predicate Overlap(a: string, b: string) {
    a == b || a + "/" <= b || b + "/" <= a
  }

  predicate Separate(prior: Receipt, next: Receipt) {
    var paths := [prior.stagePath, prior.wheelhousePath, next.stagePath, next.wheelhousePath];
    forall i, j | 0 <= i < j < 4 :: !Overlap(paths[i], paths[j])
  }

  /** The journal, the pointer, the capsule and the two receipts tell one story. */
  predicate SameStory(sha: Hash, tx: string, j: Journal, selected: Selection, pending: Recovery, saved: Selection,
                      selection: Bytes, prior: Receipt, next: Receipt, predecessorSha: string) {
    && j.transactionId == pending.transactionId == selected.transactionId == next.transactionId == tx
    && j.revision == 2 && j.phase == ActivationIntent && j.previousReceiptSha.Some?
    && pending.candidateSha == sha(selection)
    && selected.stagePath == j.stagePath == next.stagePath && next.wheelhousePath == j.wheelhousePath
    && selected.preparedSha == j.preparedSha == next.preparedSha
    && selected.nativeSha == j.nativeSha == next.nativeEnvelopeSha
    && next.registrySha == j.registrySha && next.lockSha == j.lockSha
    && selected.generation == prior.generation + 1 == next.generation
    && next.previousSha == Some(predecessorSha)
    && saved.transactionId == prior.transactionId && saved.stagePath == prior.stagePath
        && saved.generation == prior.generation
    && saved.preparedSha == prior.preparedSha && saved.nativeSha == prior.nativeEnvelopeSha
    && prior.recordedAt <= j.recordedAt <= next.recordedAt
  }

  function TakeSnapshot(sha: Hash, journalSha: JournalHash, f: Files, tx: string, q: Request): Option<Snapshot> {
    if f.selection.None? || f.capsule.None? || tx !in f.journals then None
    else
      var j, selected, pending := f.journals[tx], ParseSelection(f.selection.value),
          ParseRecovery(sha, f.capsule.value);
      var prior, next := ParseReceipt(q.previous), ParseReceipt(q.successor);
      if selected.None? || pending.None? || pending.value.previous.None? || prior.None? || next.None? then None
      else
        var saved := ParseSelection(pending.value.previous.value);
        if saved.None? || !Separate(prior.value, next.value)
           || !SameStory(sha, tx, j, selected.value, pending.value, saved.value, f.selection.value,
                         prior.value, next.value, sha(q.previous)) then None
        else Some(Snapshot(tx, journalSha(j), sha(f.selection.value), sha(f.capsule.value), q))
  }

  // ----------------------------------------------------- persist and inspect

  datatype PersistCall = PersistCall(
    transactionId: string, request: Request, directoriesPresent: bool, priorHeadVisible: bool, now: Moment)

  /** The single write of a proposal, made only while the witness still shows the prior head. */
  function PersistWrites(sha: Hash, journalSha: JournalHash, f: Files, c: PersistCall): seq<Write> {
    hide ParseReceipt, TakeSnapshot, ProposalBytes, Consecutive, Token, WitnessName;
    if c.now % SECOND != 0 || !ValidRequest(sha, c.request)
       || c.transactionId in f.proposals || !c.directoriesPresent || !c.priorHeadVisible then []
    else
      var s := TakeSnapshot(sha, journalSha, f, c.transactionId, c.request);
      if s.None? || ParseReceipt(c.request.previous).value.recordedAt * SECOND > c.now
         || ParseReceipt(c.request.successor).value.recordedAt * SECOND > c.now then []
      else
        var raw := ProposalBytes(sha, s.value, c.now / SECOND);
        if raw.None? || |raw.value| > MAX_RECORD then [] else [PutProposal(c.transactionId, raw.value)]
  }

  /** What an inspection finds: the stored proposal, when nothing local has drifted. */
  function InspectLocal(sha: Hash, journalSha: JournalHash, f: Files, tx: string): Option<Snapshot> {
    if tx !in f.proposals then None
    else
      var p := ParseProposal(sha, f.proposals[tx]);
      if p.None? || p.value.0.transactionId != tx
         || TakeSnapshot(sha, journalSha, f, tx, p.value.0.request) != Some(p.value.0) then None
      else Some(p.value.0)
  }
}
