/** Active receipts: their canonical bytes, the strict parser, and the comparison
    with a head and predecessor pinned somewhere else. */
module ActiveReceipts {
  import opened Wrappers
  import opened CanonicalJson
  import opened Patterns
  import opened Timestamps

  const MAX_RECEIPT: int := 16 * 1024

  type Second = t: int | 0 <= t < EndOfTime()

  datatype Receipt = Receipt(
    generation: int,
    recordedAt: Second,
    transactionId: string,
    stagePath: string,
    wheelhousePath: string,
    preparedSha: string,
    registrySha: string,
    lockSha: string,
    nativeEnvelopeSha: string,
    nativePayloadSha: string,
    pipInventorySha: string,
    publisherDigests: seq<seq<string>>,
    consoleTargets: seq<seq<string>>,
    externalDistributions: seq<string>,
    previousSha: Option<string>)

  // ------------------------------------------------------------ row checking

  /** Tuple order of rows. */
  predicate RowLess(a: seq<string>, b: seq<string>) {
    b != [] && (a == [] || Less(a[0], b[0]) || (a[0] == b[0] && RowLess(a[1..], b[1..])))
  }

  /** Unique and sorted: exactly what sorting the set of rows gives back. */
  predicate RowsAscend(rows: seq<seq<string>>) {
    forall i | 0 < i < |rows| :: RowLess(rows[i - 1], rows[i])
  }

  predicate ColumnDistinct(rows: seq<seq<string>>, column: nat)
    requires forall row <- rows :: column < |row|
  {
    forall i, j | 0 <= i < j < |rows| :: rows[i][column] != rows[j][column]
  }

  predicate PublisherRows(rows: seq<seq<string>>) {
    && |rows| <= 32
    && (forall row <- rows :: |row| == 2 && ComponentName(row[0]) && Hex(row[1], 64))
    && RowsAscend(rows) && ColumnDistinct(rows, 0)
  }

  predicate ConsoleRows(rows: seq<seq<string>>) {
    && |rows| <= 32
    && (forall row <- rows :: |row| == 3 && Distribution(row[0]) && Console(row[1]) && Target(row[2]))
    && RowsAscend(rows) && ColumnDistinct(rows, 1)
  }

  predicate Externals(names: seq<string>) {
    && |names| <= 256 && (forall name <- names :: Distribution(name))
    && forall i | 0 < i < |names| :: Less(names[i - 1], names[i])
  }

  /** What the parser demands of every field. */
  predicate ValidReceipt(r: Receipt) {
    && Positive(r.generation)
    && (r.generation == 1 <==> r.previousSha.None?)
    && (r.previousSha.Some? ==> Hex(r.previousSha.value, 64))
    && PublisherRows(r.publisherDigests) && ConsoleRows(r.consoleTargets)
    && Token(r.transactionId) && SafeRelative(r.stagePath) && SafeRelative(r.wheelhousePath)
    && Hex(r.preparedSha, 64) && Hex(r.registrySha, 64) && Hex(r.lockSha, 64)
    && Hex(r.nativeEnvelopeSha, 64) && Hex(r.nativePayloadSha, 64) && Hex(r.pipInventorySha, 64)
    && Externals(r.externalDistributions)
  }

  // --------------------------------------------------------------- documents

  function ReceiptFields(): (names: seq<string>)
    ensures |names| == 17
  {
    ["external_distributions", "generation", "lock_sha256", "native_envelope_sha256",
     "native_payload_sha256", "pip_inventory_sha256", "prepared_sha256",
     "previous_receipt_sha256", "publisher_digests", "record_type", "recorded_at",
     "registry_sha256", "root_console_targets", "schema_version", "stage_relative_path",
     "transaction_id", "wheelhouse_relative_path"]
  }

  function ReceiptType(): string { "pds_evergreen_untrusted_active_receipt" }

  function TextRow(row: seq<string>): seq<Json> {
    seq(|row|, i requires 0 <= i < |row| => Str(row[i]))
  }

  function TextTable(rows: seq<seq<string>>): seq<Json> {
    seq(|rows|, i requires 0 <= i < |rows| => Arr(TextRow(rows[i])))
  }

  function Optional(text: Option<string>): Json {
    if text.None? then Null else Str(text.value)
  }

  /** The value printed under the i-th field name. */
  function ReceiptValue(r: Receipt, i: int): Json {
    match i
    case 0 => Arr(TextRow(r.externalDistributions))
    case 1 => Num(r.generation)
    case 2 => Str(r.lockSha)
    case 3 => Str(r.nativeEnvelopeSha)
    case 4 => Str(r.nativePayloadSha)
    case 5 => Str(r.pipInventorySha)
    case 6 => Str(r.preparedSha)
    case 7 => Optional(r.previousSha)
    case 8 => Arr(TextTable(r.publisherDigests))
    case 9 => Str(ReceiptType())
    case 10 => Str(Stamp(r.recordedAt))
    case 11 => Str(r.registrySha)
    case 12 => Arr(TextTable(r.consoleTargets))
    case 13 => Num(1)
    case 14 => Str(r.stagePath)
    case 15 => Str(r.transactionId)
    case _ => Str(r.wheelhousePath)
  }

  function ReceiptValues(r: Receipt): (values: seq<Json>)
    ensures |values| == 17
    ensures forall i | 0 <= i < 17 :: values[i] == ReceiptValue(r, i)
  {
    seq(17, i => ReceiptValue(r, i))
  }

  function EncodeReceipt(r: Receipt): Bytes {
    Dumps(Record(ReceiptFields(), ReceiptValues(r)))
  }

  function Texts(v: Json): Option<seq<string>> {
    if v.Arr? && forall item <- v.items :: item.Str? then
      Some(seq(|v.items|, i requires 0 <= i < |v.items| => v.items[i].text))
    else None
  }

  function Table(v: Json): Option<seq<seq<string>>> {
    if v.Arr? && forall row <- v.items :: Texts(row).Some? then
      Some(seq(|v.items|, i requires 0 <= i < |v.items| => Texts(v.items[i]).value))
    else None
  }

  function OptionalText(v: Json): Option<Option<string>> {
    if v.Null? then Some(None) else if v.Str? then Some(Some(v.text)) else None
  }

  predicate ReceiptShape(v: seq<Json>)
    requires |v| == 17
  {
    && v[9] == Str(ReceiptType()) && v[13] == Num(1) && v[1].Num?
    && v[2].Str? && v[3].Str? && v[4].Str? && v[5].Str? && v[6].Str?
    && v[10].Str? && v[11].Str? && v[14].Str? && v[15].Str? && v[16].Str?
  }

  function Assemble(v: seq<Json>): Option<Receipt>
    requires |v| == 17 && ReceiptShape(v)
  {
    var externals, previous := Texts(v[0]), OptionalText(v[7]);
    var publishers, consoles := Table(v[8]), Table(v[12]);
    var recorded := Unstamp(v[10].text);
    if externals.None? || previous.None? || publishers.None? || consoles.None? || recorded.None? then None
    else
      Some(Receipt(v[1].number, recorded.value, v[15].text, v[14].text, v[16].text, v[6].text,
                   v[11].text, v[2].text, v[3].text, v[4].text, v[5].text,
                   publishers.value, consoles.value, externals.value, previous.value))
  }

  function ReadReceipt(v: seq<Json>): Option<Receipt>
    requires |v| == 17
  {
    if !ReceiptShape(v) then None
    else
      var r := Assemble(v);
      if r.Some? && ValidReceipt(r.value) then r else None
  }

  function ParseReceipt(raw: Bytes): Option<Receipt> {
    var v := ReadRecord(raw, MAX_RECEIPT, ReceiptFields());
    if v.None? then None
    else
      var r := ReadReceipt(v.value);
      if r.Some? && EncodeReceipt(r.value) == raw then r else None
  }

  lemma EarlyFieldsAscend()
    ensures Less("external_distributions", "generation")
    ensures Less("generation", "lock_sha256")
    ensures Less("lock_sha256", "native_envelope_sha256")
    ensures Less("native_payload_sha256", "pip_inventory_sha256")
    ensures Less("pip_inventory_sha256", "prepared_sha256")
  {
    LessAt("pip_inventory_sha256", "prepared_sha256", 1);
  }

  lemma NativeFieldsAscend()
    ensures Less("native_envelope_sha256", "native_payload_sha256")
  {
    LessAt("native_envelope_sha256", "native_payload_sha256", 7);
  }

  lemma PreviousFieldsAscend()
    ensures Less("prepared_sha256", "previous_receipt_sha256")
  {
    LessAt("prepared_sha256", "previous_receipt_sha256", 3);
  }

  lemma LateFieldsAscend()
    ensures Less("previous_receipt_sha256", "publisher_digests")
    ensures Less("publisher_digests", "record_type")
    ensures Less("registry_sha256", "root_console_targets")
    ensures Less("root_console_targets", "schema_version")
    ensures Less("schema_version", "stage_relative_path")
    ensures Less("stage_relative_path", "transaction_id")
    ensures Less("transaction_id", "wheelhouse_relative_path")
  {
  }

  lemma RecordFieldsAscend()
    ensures Less("record_type", "recorded_at")
    ensures Less("recorded_at", "registry_sha256")
  {
    LessAt("record_type", "recorded_at", 6);
    LessAt("recorded_at", "registry_sha256", 2);
  }

  lemma ReceiptFieldsAscend()
    ensures Ascending(ReceiptFields())
  {
    hide Less;
    EarlyFieldsAscend();
    NativeFieldsAscend();
    PreviousFieldsAscend();
    RecordFieldsAscend();
    LateFieldsAscend();
  }

  lemma ReadTexts(row: seq<string>)
    ensures Texts(Arr(TextRow(row))) == Some(row)
  {
    assert Texts(Arr(TextRow(row))).value == row;
  }

  lemma ReadTable(rows: seq<seq<string>>)
    ensures Table(Arr(TextTable(rows))) == Some(rows)
  {
    forall i | 0 <= i < |rows| ensures Texts(TextTable(rows)[i]) == Some(rows[i]) {
      ReadTexts(rows[i]);
    }
    assert Table(Arr(TextTable(rows))).value == rows;
  }

  lemma ReadOptional(text: Option<string>)
    ensures OptionalText(Optional(text)) == Some(text)
  {
  }

  lemma ReceiptValuesShape(r: Receipt)
    ensures ReceiptShape(ReceiptValues(r))
  {
    hide ReceiptValues, TextRow, TextTable, Stamp, Optional, ReceiptType;
    var v := ReceiptValues(r);
    assert v[1].Num? && v[9] == Str(ReceiptType()) && v[13] == Num(1);
    assert v[2].Str? && v[3].Str? && v[4].Str? && v[5].Str? && v[6].Str?;
    assert v[10].Str? && v[11].Str? && v[14].Str? && v[15].Str? && v[16].Str?;
    hide ReceiptValue;
  }

  lemma ReadReceiptValues(r: Receipt)
    ensures ReceiptShape(ReceiptValues(r)) && Assemble(ReceiptValues(r)) == Some(r)
  {
    hide ReceiptValues, TextRow, TextTable, Texts, Table, Stamp, Unstamp, Optional, OptionalText, ReceiptShape,
         ReceiptType;
    ReceiptValuesShape(r);
    ReadOptional(r.previousSha);
    ReadTexts(r.externalDistributions);
    ReadTable(r.publisherDigests);
    ReadTable(r.consoleTargets);
    UnstampExactlyStamps(Stamp(r.recordedAt), r.recordedAt);
    var v := ReceiptValues(r);
    assert v[0] == Arr(TextRow(r.externalDistributions)) && v[7] == Optional(r.previousSha);
    assert v[8] == Arr(TextTable(r.publisherDigests)) && v[12] == Arr(TextTable(r.consoleTargets));
    assert v[1] == Num(r.generation) && v[10] == Str(Stamp(r.recordedAt));
    assert v[2] == Str(r.lockSha) && v[3] == Str(r.nativeEnvelopeSha) && v[4] == Str(r.nativePayloadSha);
    assert v[5] == Str(r.pipInventorySha) && v[6] == Str(r.preparedSha) && v[11] == Str(r.registrySha);
    assert v[14] == Str(r.stagePath) && v[15] == Str(r.transactionId) && v[16] == ReceiptValue(r, 16);
    hide ReceiptValue;
  }

  /** The parser accepts exactly the printer's output for well-formed receipts of
      the admitted size, and returns the receipt that was printed. */
  lemma ParsesExactlyEncodings(raw: Bytes, r: Receipt)
    ensures ParseReceipt(raw) == Some(r) <==>
            ValidReceipt(r) && raw == EncodeReceipt(r) && |raw| <= MAX_RECEIPT
  {
    hide ValidReceipt, ReceiptFields, ReceiptValues, ReceiptShape, Assemble, ReadRecord;
    if ValidReceipt(r) && raw == EncodeReceipt(r) && |raw| <= MAX_RECEIPT {
      ReceiptFieldsAscend();
      ReadsRecord(ReceiptFields(), ReceiptValues(r), MAX_RECEIPT);
      ReadReceiptValues(r);
    }
    if ParseReceipt(raw) == Some(r) {
      assert ReadRecord(raw, MAX_RECEIPT, ReceiptFields()).Some?;
      RecordBounds(raw);
    }
  }

  lemma RecordBounds(raw: Bytes)
    requires ReadRecord(raw, MAX_RECEIPT, ReceiptFields()).Some?
    ensures |raw| <= MAX_RECEIPT
  {
    hide ReceiptFields;
  }

  // -------------------------------------------------------------- continuity

  type Hash = Bytes -> Digest

  /** A checkpoint held somewhere other than beside the receipt. */
  datatype PinnedHead = PinnedHead(generation: int, sha: string)

  /** Local bytes against an independent head and its predecessor. */
  function VerifyPinned(sha: Hash, raw: Bytes, head: PinnedHead, predecessor: Option<PinnedHead>): Option<Receipt> {
    var r := ParseReceipt(raw);
    if r.None? || sha(raw) != head.sha || r.value.generation != head.generation then None
    else if predecessor.None? then
      if r.value.generation != 1 || r.value.previousSha.Some? then None else r
    else if predecessor.value.generation + 1 != head.generation
            || r.value.previousSha != Some(predecessor.value.sha) then None
    else r
  }
}
