/** The two slot files: the candidate selection and the pending-recovery capsule that
    saves the selection it replaces. */
module SlotRecords {
  import opened Wrappers
  import opened CanonicalJson
  import opened Patterns
  import opened ActiveReceipts
  import Base64
  import WitnessMessages

  const MAX_BYTES: int := 8 * 1024

  // --------------------------------------------------------------- selection

  datatype Selection = Selection(
    transactionId: string, stagePath: string, preparedSha: string, nativeSha: string, generation: int)

  predicate ValidSelection(s: Selection) {
    && Token(s.transactionId) && Relative(s.stagePath) && Hex(s.preparedSha, 64) && Hex(s.nativeSha, 64)
    && Positive(s.generation)
  }

  function SelectionFields(): (names: seq<string>)
    ensures |names| == 7
  {
    ["generation", "native_envelope_sha256", "prepared_sha256", "record_type", "schema_version",
     "stage_relative_path", "transaction_id"]
  }

  function SelectionType(): string { "pds_evergreen_candidate_selection" }

  function SelectionValue(s: Selection, i: int): Json {
    match i
    case 0 => Num(s.generation)
    case 1 => Str(s.nativeSha)
    case 2 => Str(s.preparedSha)
    case 3 => Str(SelectionType())
    case 4 => Num(1)
    case 5 => Str(s.stagePath)
    case _ => Str(s.transactionId)
  }

  function SelectionValues(s: Selection): (values: seq<Json>)
    ensures |values| == 7
    ensures forall i | 0 <= i < 7 :: values[i] == SelectionValue(s, i)
  {
    seq(7, i => SelectionValue(s, i))
  }

  function SelectionBytes(s: Selection): Bytes {
    Dumps(Record(SelectionFields(), SelectionValues(s)))
  }

  function ReadSelection(v: seq<Json>): Option<Selection>
    requires |v| == 7
  {
    if !(v[3] == Str(SelectionType()) && v[4] == Num(1) && v[0].Num?
         && v[1].Str? && v[2].Str? && v[5].Str? && v[6].Str?) then None
    else
      var s := Selection(v[6].text, v[5].text, v[2].text, v[1].text, v[0].number);
      if ValidSelection(s) then Some(s) else None
  }

  function ParseSelection(raw: Bytes): Option<Selection> {
    var v := ReadRecord(raw, MAX_BYTES, SelectionFields());
    if v.None? then None
    else
      var s := ReadSelection(v.value);
      if s.Some? && SelectionBytes(s.value) == raw then s else None
  }

  lemma SelectionNamesOrdered()
    ensures Less("generation", "native_envelope_sha256") && Less("native_envelope_sha256", "prepared_sha256")
    ensures Less("prepared_sha256", "record_type") && Less("record_type", "schema_version")
    ensures Less("stage_relative_path", "transaction_id")
  {
  }

  lemma SchemaBeforeStage()
    ensures Less("schema_version", "stage_relative_path")
  {
    LessAt("schema_version", "stage_relative_path", 1);
  }

  lemma SelectionFieldsAscend()
    ensures Ascending(SelectionFields())
  {
    hide Less;
    SelectionNamesOrdered();
    SchemaBeforeStage();
  }

  lemma ReadsSelection(s: Selection)
    ensures ReadSelection(SelectionValues(s)) == if ValidSelection(s) then Some(s) else None
  {
    hide SelectionType, ValidSelection, SelectionValues;
    var v := SelectionValues(s);
    assert v[3] == Str(SelectionType()) && v[4] == Num(1) && v[0] == Num(s.generation);
    assert v[1] == Str(s.nativeSha) && v[2] == Str(s.preparedSha) && v[5] == Str(s.stagePath);
    assert v[6] == SelectionValue(s, 6);
  }

  lemma SelectionBounds(raw: Bytes)
    requires ParseSelection(raw).Some?
    ensures 1 <= |raw| <= MAX_BYTES && ValidSelection(ParseSelection(raw).value)
    ensures SelectionBytes(ParseSelection(raw).value) == raw
  {
    hide SelectionFields, SelectionType, ValidSelection, SelectionBytes;
  }

  /** The parser accepts exactly what the printer writes, up to 8 KiB. */
  lemma ParsesExactlySelections(raw: Bytes, s: Selection)
    ensures ParseSelection(raw) == Some(s) <==>
            ValidSelection(s) && raw == SelectionBytes(s) && |raw| <= MAX_BYTES
  {
    hide ValidSelection, SelectionFields, SelectionValues, ReadSelection, ReadRecord;
    if ValidSelection(s) && raw == SelectionBytes(s) && |raw| <= MAX_BYTES {
      SelectionFieldsAscend();
      ReadsRecord(SelectionFields(), SelectionValues(s), MAX_BYTES);
      ReadsSelection(s);
    }
    if ParseSelection(raw).Some? { SelectionBounds(raw); }
  }

  // ---------------------------------------------------------------- recovery

  datatype Recovery = Recovery(
    transactionId: string, previous: Option<Bytes>, candidateSha: string, previousSha: Option<string>)

  predicate ValidRecovery(sha: Hash, r: Recovery) {
    && Token(r.transactionId) && Hex(r.candidateSha, 64)
    && (r.previous.Some? ==> ParseSelection(r.previous.value).Some?)
    && r.previousSha == if r.previous.None? then None else Some(sha(r.previous.value))
  }

  function RecoveryFields(): (names: seq<string>)
    ensures |names| == 6
  {
    ["candidate_sha256", "previous_selection_b64", "previous_sha256", "record_type", "schema_version", "transaction_id"]
  }

  function RecoveryType(): string { "pds_evergreen_pending_slot_recovery" }

  function RecoveryValue(r: Recovery, i: int): Json {
    match i
    case 0 => Str(r.candidateSha)
    case 1 => if r.previous.None? then Null else Str(Base64.Encode(r.previous.value))
    case 2 => Optional(r.previousSha)
    case 3 => Str(RecoveryType())
    case 4 => Num(1)
    case _ => Str(r.transactionId)
  }

  function RecoveryValues(r: Recovery): (values: seq<Json>)
    ensures |values| == 6
    ensures forall i | 0 <= i < 6 :: values[i] == RecoveryValue(r, i)
  {
    seq(6, i => RecoveryValue(r, i))
  }

  function RecoveryBytes(r: Recovery): Bytes {
    Dumps(Record(RecoveryFields(), RecoveryValues(r)))
  }

  /** The saved selection behind its base64 text; absent when the field is null. */
  function DecodePrevious(v: Json): Option<Option<Bytes>> {
    if v.Null? then Some(None)
    else if !v.Str? || |v.text| > 4 * ((MAX_BYTES + 2) / 3) then None
    else
      var data := Base64.DecodeCanonical(v.text);
      if data.None? || ParseSelection(data.value).None? then None else Some(data)
  }

  function ReadRecovery(sha: Hash, v: seq<Json>): Option<Recovery>
    requires |v| == 6
  {
    if !(v[3] == Str(RecoveryType()) && v[4] == Num(1) && v[0].Str? && v[5].Str?) then None
    else
      var previous, previousSha := DecodePrevious(v[1]), OptionalText(v[2]);
      if previous.None? || previousSha.None? then None
      else
        var r := Recovery(v[5].text, previous.value, v[0].text, previousSha.value);
        if ValidRecovery(sha, r) then Some(r) else None
  }

  function ParseRecovery(sha: Hash, raw: Bytes): Option<Recovery> {
    var v := ReadRecord(raw, MAX_BYTES, RecoveryFields());
    if v.None? then None
    else
      var r := ReadRecovery(sha, v.value);
      if r.Some? && RecoveryBytes(r.value) == raw then r else None
  }

  lemma RecoveryFieldsAscend()
    ensures Ascending(RecoveryFields())
  {
    LessAt("previous_selection_b64", "previous_sha256", 10);
  }

  lemma ReadsPrevious(previous: Option<Bytes>)
    requires previous.Some? ==> ParseSelection(previous.value).Some?
    ensures DecodePrevious(if previous.None? then Null else Str(Base64.Encode(previous.value))) == Some(previous)
  {
    hide ParseSelection, Base64.Encode, Base64.DecodeCanonical, SelectionBytes, ValidSelection;
    if previous.Some? {
      SelectionBounds(previous.value);
      Base64.AcceptsExactlyEncodings(Base64.Encode(previous.value), previous.value);
    }
  }

  lemma SavedParses(sha: Hash, r: Recovery)
    requires ValidRecovery(sha, r)
    ensures r.previous.Some? ==> ParseSelection(r.previous.value).Some?
  {
    hide ParseSelection;
  }

  lemma ReadsRecovery(sha: Hash, r: Recovery)
    requires ValidRecovery(sha, r)
    ensures ReadRecovery(sha, RecoveryValues(r)) == Some(r)
  {
    hide RecoveryType, ValidRecovery, RecoveryValues, DecodePrevious, OptionalText, Optional, ParseSelection,
         Base64.Encode;
    SavedParses(sha, r);
    ReadsPrevious(r.previous);
    ReadOptional(r.previousSha);
    var v := RecoveryValues(r);
    assert v[3] == Str(RecoveryType()) && v[4] == Num(1) && v[0] == Str(r.candidateSha);
    assert v[1] == if r.previous.None? then Null else Str(Base64.Encode(r.previous.value));
    assert v[2] == Optional(r.previousSha) && v[5] == Str(r.transactionId);
    hide RecoveryValue;
  }

  lemma RecoveryBounds(sha: Hash, raw: Bytes)
    requires ParseRecovery(sha, raw).Some?
    ensures 1 <= |raw| <= MAX_BYTES && ValidRecovery(sha, ParseRecovery(sha, raw).value)
    ensures RecoveryBytes(ParseRecovery(sha, raw).value) == raw
  {
    hide RecoveryFields, RecoveryType, ValidRecovery, RecoveryBytes;
  }

  /** The parser accepts exactly what the printer writes, up to 8 KiB. */
  lemma ParsesExactlyRecoveries(sha: Hash, raw: Bytes, r: Recovery)
    ensures ParseRecovery(sha, raw) == Some(r) <==>
            ValidRecovery(sha, r) && raw == RecoveryBytes(r) && |raw| <= MAX_BYTES
  {
    hide ValidRecovery, RecoveryFields, RecoveryValues, ReadRecovery, ReadRecord;
    if ValidRecovery(sha, r) && raw == RecoveryBytes(r) && |raw| <= MAX_BYTES {
      RecoveryFieldsAscend();
      ReadsRecord(RecoveryFields(), RecoveryValues(r), MAX_BYTES);
      ReadsRecovery(sha, r);
    }
    if ParseRecovery(sha, raw).Some? { RecoveryBounds(sha, raw); }
  }

  // ------------------------------------------------------------------- sizes

  /** The longest preimage whose base64 still leaves the capsule within 8 KiB. */
  const MAX_PREIMAGE: int := 5901

  lemma RecoveryNames()
    ensures forall i | 0 <= i < 6 :: Plain(RecoveryFields()[i])
    ensures |RecoveryFields()[0]| == 16 && |RecoveryFields()[1]| == 22 && |RecoveryFields()[2]| == 15
    ensures |RecoveryFields()[3]| == 11 && |RecoveryFields()[4]| == 14 && |RecoveryFields()[5]| == 14
  {
  }

  lemma RecoveryTypeWidth()
    ensures Plain(RecoveryType()) && |RecoveryType()| == 35
  {
  }

  lemma PairWidth(name: string, value: Json)
    requires Plain(name)
    ensures |PrintPair(name, value)| == |name| + 3 + |Print(value)|
  {
    QuotedWidth(name);
  }

  lemma ShaWidth(sha: string)
    requires Hex(sha, 64)
    ensures |Print(Str(sha))| == 66
  {
    QuotedWidth(sha);
  }

  lemma RecoveryValueWidths(sha: Hash, r: Recovery)
    requires ValidRecovery(sha, r) && r.previous.Some?
    ensures |Print(RecoveryValue(r, 0))| == 66 && |Print(RecoveryValue(r, 2))| == 66
    ensures |Print(RecoveryValue(r, 1))| == 4 * ((|r.previous.value| + 2) / 3) + 2
    ensures |Print(RecoveryValue(r, 3))| == 37 && |Print(RecoveryValue(r, 4))| == 1
            && |Print(RecoveryValue(r, 5))| == 34
  {
    hide Quoted, RecoveryType, Base64.Encode;
    ShaWidth(r.candidateSha);
    ShaWidth(r.previousSha.value);
    WitnessMessages.PlainBase64(r.previous.value);
    QuotedWidth(Base64.Encode(r.previous.value));
    RecoveryTypeWidth();
    QuotedWidth(RecoveryType());
    WitnessMessages.OneWidth();
    QuotedWidth(r.transactionId);
  }

  /** A document's length is two braces, its members and the commas between them. */
  lemma SixMembersWidth(doc: Doc)
    requires |doc| == 6
    ensures |Dumps(doc)| == 7 + |PrintPair(doc[0].0, doc[0].1)| + |PrintPair(doc[1].0, doc[1].1)|
              + |PrintPair(doc[2].0, doc[2].1)| + |PrintPair(doc[3].0, doc[3].1)|
              + |PrintPair(doc[4].0, doc[4].1)| + |PrintPair(doc[5].0, doc[5].1)|
  {
    hide PrintPair;
    LastMemberWidth(doc[5..]);
    FirstMemberWidth(doc[4..]);
    FirstMemberWidth(doc[3..]);
    FirstMemberWidth(doc[2..]);
    FirstMemberWidth(doc[1..]);
    FirstMemberWidth(doc);
    assert doc[1..][1..] == doc[2..] && doc[2..][1..] == doc[3..] && doc[3..][1..] == doc[4..]
           && doc[4..][1..] == doc[5..];
    hide PrintMembers;
  }

  lemma FirstMemberWidth(doc: Doc)
    requires |doc| > 1
    ensures |PrintMembers(doc)| == |PrintPair(doc[0].0, doc[0].1)| + 1 + |PrintMembers(doc[1..])|
  {
  }

  lemma LastMemberWidth(doc: Doc)
    requires |doc| == 1
    ensures |PrintMembers(doc)| == |PrintPair(doc[0].0, doc[0].1)|
  {
  }

  lemma RecoveryWidth(sha: Hash, r: Recovery)
    requires ValidRecovery(sha, r) && r.previous.Some?
    ensures |RecoveryBytes(r)| == 323 + 4 * ((|r.previous.value| + 2) / 3)
  {
    hide RecoveryFields, RecoveryValues, RecoveryValue, Plain, Print, Dumps, PrintPair, ValidRecovery;
    var names, values := RecoveryFields(), RecoveryValues(r);
    RecoveryNames();
    RecoveryValueWidths(sha, r);
    forall i | 0 <= i < 6 ensures |PrintPair(names[i], values[i])| == |names[i]| + 3 + |Print(values[i])| {
      PairWidth(names[i], values[i]);
    }
    var doc := Record(names, values);
    assert forall i | 0 <= i < 6 :: doc[i] == (names[i], values[i]);
    SixMembersWidth(doc);
  }

  /** A capsule can be read back if and only if its preimage is at most 5901 bytes,
      although a selection of up to 8192 bytes is accepted. */
  lemma CapsuleReadableExactly(sha: Hash, r: Recovery)
    requires ValidRecovery(sha, r) && r.previous.Some?
    ensures ParseRecovery(sha, RecoveryBytes(r)) == Some(r) <==> |r.previous.value| <= MAX_PREIMAGE
  {
    hide ValidRecovery, RecoveryBytes, ParseRecovery;
    RecoveryWidth(sha, r);
    ParsesExactlyRecoveries(sha, RecoveryBytes(r), r);
  }

  lemma EmptyCapsuleReadable(sha: Hash, r: Recovery)
    requires ValidRecovery(sha, r) && r.previous.None?
    ensures ParseRecovery(sha, RecoveryBytes(r)) == Some(r)
  {
    hide RecoveryFields, RecoveryValues, Plain, Print, ParseRecovery, RecoveryType;
    RecoveryNames();
    forall i | 0 <= i < 6 ensures |Print(RecoveryValues(r)[i])| <= 66 {
      EmptyCapsuleValue(r, i);
    }
    RecordWidth(RecoveryFields(), RecoveryValues(r), 22, 66);
    hide ValidRecovery, RecoveryValue;
    ParsesExactlyRecoveries(sha, RecoveryBytes(r), r);
  }

  lemma EmptyCapsuleValue(r: Recovery, i: int)
    requires Hex(r.candidateSha, 64) && Token(r.transactionId) && r.previous.None? && r.previousSha.None? && 0 <= i < 6
    ensures |Print(RecoveryValue(r, i))| <= 66
  {
    hide Quoted, RecoveryType;
    RecoveryTypeWidth();
    match i
    case 0 => ShaWidth(r.candidateSha);
    case 3 => QuotedWidth(RecoveryType());
    case 4 => WitnessMessages.OneWidth();
    case 5 => QuotedWidth(r.transactionId);
    case _ =>
  }

  lemma SelectionNames()
    ensures forall i | 0 <= i < 7 :: |SelectionFields()[i]| <= 22
  {
  }

  lemma SelectionTypeWidth()
    ensures Plain(SelectionType()) && |SelectionType()| == 33
  {
  }

  lemma SelectionValueWidth(s: Selection, i: int)
    requires Hex(s.nativeSha, 64) && Hex(s.preparedSha, 64) && Token(s.transactionId) && Positive(s.generation)
    requires |s.stagePath| <= 180 && 0 <= i < 7
    ensures |Print(SelectionValue(s, i))| <= if i == 5 then 2162 else 66
  {
    hide Quoted, SelectionType, Digits;
    match i
    case 0 => WitnessMessages.PositiveWidth(s.generation);
    case 1 => ShaWidth(s.nativeSha);
    case 2 => ShaWidth(s.preparedSha);
    case 3 => SelectionTypeWidth(); QuotedWidth(SelectionType());
    case 4 => WitnessMessages.OneWidth();
    case 5 => CrudeWidth(s.stagePath);
    case _ => QuotedWidth(s.transactionId);
  }

  lemma {:induction false} OneLongMember(doc: Doc, most: nat, k: nat, extra: nat)
    requires forall i | 0 <= i < |doc| :: |PrintPair(doc[i].0, doc[i].1)| <= most + if i == k then extra else 0
    ensures |PrintMembers(doc)| <= |doc| * (most + 1) + if k < |doc| then extra else 0
  {
    hide PrintPair;
    if doc != [] {
      if k == 0 { MembersWidth(doc[1..], most); } else { OneLongMember(doc[1..], most, k - 1, extra); }
      assert |doc| * (most + 1) == (|doc| - 1) * (most + 1) + (most + 1);
    }
  }

  /** A selection with a journal's stage path always leaves a readable capsule. */
  lemma SelectionWidth(s: Selection)
    requires Hex(s.nativeSha, 64) && Hex(s.preparedSha, 64) && Token(s.transactionId) && Positive(s.generation)
    requires |s.stagePath| <= 180
    ensures 1 <= |SelectionBytes(s)| <= MAX_PREIMAGE
  {
    hide SelectionFields, SelectionValues, SelectionValue, Print, Hex, Positive;
    var doc := Record(SelectionFields(), SelectionValues(s));
    SelectionNames();
    forall i | 0 <= i < 7
      ensures |PrintPair(doc[i].0, doc[i].1)| <= 333 + if i == 5 then 2096 else 0
    {
      SelectionValueWidth(s, i);
      CrudeWidth(SelectionFields()[i]);
      assert doc[i] == (SelectionFields()[i], SelectionValue(s, i));
    }
    OneLongMember(doc, 333, 5, 2096);
  }

  // ------------------------------------------------- a selection too long to save

  function Repeated(c: char, n: nat): string { seq(n, _ => c) }

  /** So many empty steps of a path. */
  function Dots(n: nat): (path: string)
    ensures |path| == 2 * n && Plain(path)
  {
    if n == 0 then "" else "/." + Dots(n - 1)
  }

  function DotParts(n: nat): seq<string> { seq(n, _ => ".") }

  /** A selection of 6190 bytes: its stage path is a directory's name and 2925 empty steps. */
  function LongSelection(): Selection {
    Selection(Repeated('0', 32), "a" + Dots(2925), Repeated('0', 64), Repeated('0', 64), 1)
  }

  lemma SplitStep(c: char, rest: string, mark: char)
    ensures Split([c] + rest, mark) ==
            if c == mark then [""] + Split(rest, mark)
            else [[c] + Split(rest, mark)[0]] + Split(rest, mark)[1..]
  {
    assert ([c] + rest)[1..] == rest;
  }

  lemma {:induction false} DotsSplit(n: nat)
    ensures Split(Dots(n), '/') == [""] + DotParts(n)
  {
    if n > 0 {
      hide Split;
      DotsSplit(n - 1);
      NamedSplit('.', n - 1);
      var rest := "." + Dots(n - 1);
      SplitStep('/', rest, '/');
      assert Dots(n) == ['/'] + rest;
      assert ["."] + DotParts(n - 1) == DotParts(n);
    } else {
      assert DotParts(0) == [];
    }
  }

  lemma NamedSplit(c: char, n: nat)
    requires c != '/' && Split(Dots(n), '/') == [""] + DotParts(n)
    ensures Split([c] + Dots(n), '/') == [[c]] + DotParts(n)
  {
    hide Split, Dots;
    SplitStep(c, Dots(n), '/');
    assert [c] + "" == [c] && ([""] + DotParts(n))[1..] == DotParts(n);
  }

  lemma NamedThenDots(n: nat)
    ensures Split("a" + Dots(n), '/') == ["a"] + DotParts(n)
  {
    DotsSplit(n);
    NamedSplit('a', n);
  }

  lemma LongSelectionValid()
    ensures ValidSelection(LongSelection())
  {
    hide Split, Dots;
    NamedThenDots(2925);
    assert PathPart("a") && PathPart(".");
  }

  lemma SelectionNameWidths()
    ensures forall i | 0 <= i < 7 :: Plain(SelectionFields()[i])
    ensures |SelectionFields()[0]| == 10 && |SelectionFields()[1]| == 22 && |SelectionFields()[2]| == 15
    ensures |SelectionFields()[3]| == 11 && |SelectionFields()[4]| == 14 && |SelectionFields()[5]| == 19
    ensures |SelectionFields()[6]| == 14
  {
    hide Plain;
    PlainSelectionNames();
  }

  lemma PlainSelectionNames()
    ensures Plain("generation") && Plain("native_envelope_sha256") && Plain("prepared_sha256") && Plain("record_type")
    ensures Plain("schema_version") && Plain("stage_relative_path") && Plain("transaction_id")
  {
  }

  lemma LongValueWidths()
    ensures |Print(SelectionValue(LongSelection(), 0))| == 1 && |Print(SelectionValue(LongSelection(), 1))| == 66
    ensures |Print(SelectionValue(LongSelection(), 2))| == 66 && |Print(SelectionValue(LongSelection(), 3))| == 35
    ensures |Print(SelectionValue(LongSelection(), 4))| == 1 && |Print(SelectionValue(LongSelection(), 5))| == 5853
    ensures |Print(SelectionValue(LongSelection(), 6))| == 34
  {
    hide Quoted, SelectionType;
    WitnessMessages.OneWidth();
    ShaWidth(Repeated('0', 64));
    SelectionTypeWidth();
    QuotedWidth(SelectionType());
    QuotedWidth("a" + Dots(2925));
    QuotedWidth(Repeated('0', 32));
  }

  lemma SevenMembersWidth(doc: Doc)
    requires |doc| == 7
    ensures |Dumps(doc)| == 8 + |PrintPair(doc[0].0, doc[0].1)| + |PrintPair(doc[1].0, doc[1].1)|
              + |PrintPair(doc[2].0, doc[2].1)| + |PrintPair(doc[3].0, doc[3].1)| + |PrintPair(doc[4].0, doc[4].1)|
              + |PrintPair(doc[5].0, doc[5].1)| + |PrintPair(doc[6].0, doc[6].1)|
  {
    hide PrintPair;
    FirstMemberWidth(doc);
    SixMembersWidth(doc[1..]);
    hide PrintMembers;
  }

  lemma LongSelectionWidth()
    ensures |SelectionBytes(LongSelection())| == 6190
  {
    hide SelectionFields, SelectionValues, SelectionValue, Plain, Print, Dumps, PrintPair, LongSelection;
    var names, values := SelectionFields(), SelectionValues(LongSelection());
    SelectionNameWidths();
    LongValueWidths();
    forall i | 0 <= i < 7 ensures |PrintPair(names[i], values[i])| == |names[i]| + 3 + |Print(values[i])| {
      PairWidth(names[i], values[i]);
    }
    var doc := Record(names, values);
    assert forall i | 0 <= i < 7 :: doc[i] == (names[i], values[i]);
    SevenMembersWidth(doc);
  }

  /** The selection reader accepts a selection whose capsule cannot be read. */
  lemma LongSelectionAccepted()
    ensures ParseSelection(SelectionBytes(LongSelection())) == Some(LongSelection())
    ensures MAX_PREIMAGE < |SelectionBytes(LongSelection())| <= MAX_BYTES
  {
    hide ValidSelection, ParseSelection, SelectionBytes, LongSelection;
    LongSelectionValid();
    LongSelectionWidth();
    ParsesExactlySelections(SelectionBytes(LongSelection()), LongSelection());
  }
}
