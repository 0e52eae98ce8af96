/** The three documents a client and the checkpoint witness exchange. */
module WitnessMessages {
  import opened Wrappers
  import opened CanonicalJson
  import opened Patterns
  import opened Timestamps
  import opened ActiveReceipts
  import Base64

  const MAX_CHALLENGE: int := 1024
  const MAX_PAYLOAD: int := 4096
  const MAX_REPLY: int := 8192

  // --------------------------------------------------------------- challenge

  datatype Challenge = Challenge(installation: string, nonce: Bytes, issuedAt: Second)

  predicate ValidChallenge(c: Challenge) { Token(c.installation) && |c.nonce| == 32 }

  function ChallengeFields(): (names: seq<string>)
    ensures |names| == 5
  {
    ["installation_id", "issued_at", "nonce_b64", "record_type", "schema_version"]
  }

  function ChallengeType(): string { "pds_external_checkpoint_challenge" }

  function ChallengeValue(c: Challenge, i: int): Json {
    match i
    case 0 => Str(c.installation)
    case 1 => Str(Stamp(c.issuedAt))
    case 2 => Str(Base64.Encode(c.nonce))
    case 3 => Str(ChallengeType())
    case _ => Num(1)
  }

  function ChallengeValues(c: Challenge): (values: seq<Json>)
    ensures |values| == 5
    ensures forall i | 0 <= i < 5 :: values[i] == ChallengeValue(c, i)
  {
    seq(5, i => ChallengeValue(c, i))
  }

  function ChallengeText(c: Challenge): Bytes {
    Dumps(Record(ChallengeFields(), ChallengeValues(c)))
  }

  /** A fixed-length byte string behind a canonical base64 text. */
  function DecodeSized(v: Json, size: nat): Option<Bytes> {
    if !v.Str? then None
    else
      var data := Base64.DecodeCanonical(v.text);
      if data.Some? && |data.value| == size then data else None
  }

  /** A bounded byte string behind a canonical base64 text. */
  function DecodeBounded(v: Json, most: nat): Option<Bytes> {
    if !v.Str? || |v.text| > most * 2 then None
    else
      var data := Base64.DecodeCanonical(v.text);
      if data.Some? && 1 <= |data.value| <= most then data else None
  }

  function UnstampValue(v: Json): (r: Option<Second>) {
    if v.Str? then Unstamp(v.text) else None
  }

  /** A document that has exactly these keys and is its own canonical printing. */
  function LoadsExact(raw: Bytes, most: nat, names: seq<string>): (r: Option<seq<Json>>)
    ensures r.Some? ==> |r.value| == |names|
  {
    var v := ReadRecord(raw, most, names);
    if v.Some? && Dumps(Record(names, v.value)) == raw then v else None
  }

  function ReadChallengeValues(v: seq<Json>): Option<Challenge>
    requires |v| == 5
  {
    if v[3] != Str(ChallengeType()) || v[4] != Num(1) || !v[0].Str? || !Token(v[0].text) then None
    else
      var nonce, issued := DecodeSized(v[2], 32), UnstampValue(v[1]);
      if nonce.None? || issued.None? then None
      else Some(Challenge(v[0].text, nonce.value, issued.value))
  }

  /** The checks both ends make of challenge bytes before looking at the clock. */
  function ReadChallenge(raw: Bytes): Option<Challenge> {
    var v := LoadsExact(raw, MAX_CHALLENGE, ChallengeFields());
    if v.None? then None else ReadChallengeValues(v.value)
  }

  // --------------------------------------------------------------- statement

  datatype Statement = Statement(
    challengeSha: string,
    expiresAt: Second,
    generation: int,
    headSha: string,
    installation: string,
    issuedAt: Second,
    predecessor: Option<(int, string)>,
    witnessId: string,
    revision: int)

  predicate ValidStatement(s: Statement) {
    && Hex(s.challengeSha, 64) && Positive(s.generation) && Hex(s.headSha, 64)
    && Token(s.installation) && WitnessName(s.witnessId) && Positive(s.revision)
    && (s.predecessor.Some? ==> Positive(s.predecessor.value.0) && Hex(s.predecessor.value.1, 64))
  }

  function StatementFields(): (names: seq<string>)
    ensures |names| == 12
  {
    ["challenge_sha256", "expires_at", "head_generation", "head_sha256", "installation_id",
     "issued_at", "predecessor_generation", "predecessor_sha256", "record_type",
     "schema_version", "witness_id", "witness_revision"]
  }

  function StatementType(): string { "pds_external_checkpoint_statement" }

  function StatementValue(s: Statement, i: int): Json {
    match i
    case 0 => Str(s.challengeSha)
    case 1 => Str(Stamp(s.expiresAt))
    case 2 => Num(s.generation)
    case 3 => Str(s.headSha)
    case 4 => Str(s.installation)
    case 5 => Str(Stamp(s.issuedAt))
    case 6 => if s.predecessor.None? then Null else Num(s.predecessor.value.0)
    case 7 => if s.predecessor.None? then Null else Str(s.predecessor.value.1)
    case 8 => Str(StatementType())
    case 9 => Num(1)
    case 10 => Str(s.witnessId)
    case _ => Num(s.revision)
  }

  function StatementValues(s: Statement): (values: seq<Json>)
    ensures |values| == 12
    ensures forall i | 0 <= i < 12 :: values[i] == StatementValue(s, i)
  {
    seq(12, i => StatementValue(s, i))
  }

  function StatementText(s: Statement): Bytes {
    Dumps(Record(StatementFields(), StatementValues(s)))
  }

  predicate StatementShape(v: seq<Json>)
    requires |v| == 12
  {
    && v[8] == Str(StatementType()) && v[9] == Num(1)
    && v[0].Str? && v[2].Num? && v[3].Str? && v[4].Str? && v[10].Str? && v[11].Num?
    && (v[6].Null? <==> v[7].Null?) && (!v[6].Null? ==> v[6].Num? && v[7].Str?)
  }

  function ReadStatementValues(v: seq<Json>): Option<Statement>
    requires |v| == 12
  {
    if !StatementShape(v) then None
    else
      var expires, issued := UnstampValue(v[1]), UnstampValue(v[5]);
      if expires.None? || issued.None? then None
      else
        var s := Statement(v[0].text, expires.value, v[2].number, v[3].text, v[4].text, issued.value,
                           if v[6].Null? then None else Some((v[6].number, v[7].text)),
                           v[10].text, v[11].number);
        if ValidStatement(s) then Some(s) else None
  }

  function ReadStatement(raw: Bytes): Option<Statement> {
    var v := LoadsExact(raw, MAX_PAYLOAD, StatementFields());
    if v.None? then None else ReadStatementValues(v.value)
  }

  // ---------------------------------------------------------------- envelope

  datatype Envelope = Envelope(payload: Bytes, signature: Bytes)

  function EnvelopeFields(): (names: seq<string>)
    ensures |names| == 2
  {
    ["payload_b64", "signature_b64"]
  }

  function EnvelopeValues(e: Envelope): (values: seq<Json>)
    ensures |values| == 2
    ensures values[0] == Str(Base64.Encode(e.payload)) && values[1] == Str(Base64.Encode(e.signature))
  {
    [Str(Base64.Encode(e.payload)), Str(Base64.Encode(e.signature))]
  }

  function EnvelopeText(e: Envelope): Bytes {
    Dumps(Record(EnvelopeFields(), EnvelopeValues(e)))
  }

  function ReadEnvelope(raw: Bytes): Option<Envelope> {
    var v := LoadsExact(raw, MAX_REPLY, EnvelopeFields());
    if v.None? then None
    else
      var payload, signature := DecodeBounded(v.value[0], MAX_PAYLOAD), DecodeSized(v.value[1], 64);
      if payload.None? || signature.None? then None else Some(Envelope(payload.value, signature.value))
  }

  // ------------------------------------------------------------- field order

  lemma ChallengeFieldsAscend()
    ensures Ascending(ChallengeFields())
  {
    LessAt("installation_id", "issued_at", 1);
  }

  lemma StatementFieldsAscend()
    ensures Ascending(StatementFields())
  {
    hide Less;
    EarlyStatementFields();
    HeadStatementFields();
    PredecessorStatementFields();
    LateStatementFields();
  }

  lemma EarlyStatementFields()
    ensures Less("challenge_sha256", "expires_at") && Less("expires_at", "head_generation")
    ensures Less("head_sha256", "installation_id") && Less("installation_id", "issued_at")
    ensures Less("issued_at", "predecessor_generation")
  {
    LessAt("installation_id", "issued_at", 1);
  }

  lemma HeadStatementFields()
    ensures Less("head_generation", "head_sha256")
  {
    LessAt("head_generation", "head_sha256", 5);
  }

  lemma PredecessorStatementFields()
    ensures Less("predecessor_generation", "predecessor_sha256")
  {
    LessAt("predecessor_generation", "predecessor_sha256", 12);
  }

  lemma LateStatementFields()
    ensures Less("predecessor_sha256", "record_type") && Less("record_type", "schema_version")
    ensures Less("schema_version", "witness_id") && Less("witness_id", "witness_revision")
  {
    LessAt("witness_id", "witness_revision", 8);
  }

  lemma EnvelopeFieldsAscend()
    ensures Ascending(EnvelopeFields())
  {
  }

  // ------------------------------------------------------------------- sizes

  lemma {:induction false} PlainBase64(data: Bytes)
    ensures Plain(Base64.Encode(data))
  {
    if |data| >= 3 {
      PlainBase64(data[3..]);
    }
  }

  lemma PlainStamp(seconds: Second)
    ensures Plain(Stamp(seconds))
  {
    CivilOfSeconds(seconds);
    var c := CivilOf(seconds);
    PlainDate(c);
    PlainTime(c);
    hide DateText, TimeText;
  }

  lemma PlainDate(c: Civil)
    requires ValidCivil(c)
    ensures Plain(DateText(c))
  {
    hide Pad;
  }

  lemma PlainTime(c: Civil)
    requires ValidCivil(c)
    ensures Plain(TimeText(c))
  {
    hide Pad;
  }

  lemma HexWidth(s: string, length: nat)
    requires Hex(s, length)
    ensures |Print(Str(s))| == length + 2
  {
    QuotedWidth(s);
  }

  lemma StampWidth(seconds: Second)
    ensures |Print(Str(Stamp(seconds)))| == 22
  {
    PlainStamp(seconds);
    QuotedWidth(Stamp(seconds));
  }

  lemma Base64Width(data: Bytes)
    ensures |Print(Str(Base64.Encode(data)))| == |Base64.Encode(data)| + 2
  {
    PlainBase64(data);
    QuotedWidth(Base64.Encode(data));
  }

  lemma WitnessNameWidth(s: string)
    requires WitnessName(s)
    ensures |Print(Str(s))| <= 66
  {
    QuotedWidth(s);
  }

  lemma TypesPlain()
    ensures Plain(ChallengeType()) && |ChallengeType()| == 33
    ensures Plain(StatementType()) && |StatementType()| == 33
  {
  }

  lemma TypeWidths()
    ensures |Print(Str(ChallengeType()))| == 35
    ensures |Print(Str(StatementType()))| == 35
  {
    hide ChallengeType, StatementType;
    TypesPlain();
    QuotedWidth(ChallengeType());
    QuotedWidth(StatementType());
  }

  lemma PositiveWidth(n: int)
    requires Positive(n)
    ensures |Print(Num(n))| <= 16
  {
    assert Power10(4) == 10000;
    assert Power10(8) == 100000000;
    assert Power10(12) == 1000000000000;
    assert Power10(16) == 10000000000000000;
    DigitsWidth(n, 16);
  }

  // ------------------------------------------------------------- round trips

  /** An accepted document is the printing of the values it yields; and printed
      values come back. */
  lemma LoadsExactlyRecords(raw: Bytes, most: nat, names: seq<string>, values: seq<Json>)
    requires |names| == |values| && Ascending(names)
    ensures LoadsExact(raw, most, names) == Some(values) <==>
            raw == Dumps(Record(names, values)) && 1 <= |raw| <= most
  {
    hide Dumps, Loads;
    LoadsRecord(names, values);
  }

  lemma ReadsExactlyStamps(v: Json, seconds: Second)
    ensures UnstampValue(v) == Some(seconds) <==> v == Str(Stamp(seconds))
  {
    if v.Str? { UnstampExactlyStamps(v.text, seconds); }
  }

  lemma ReadsExactlySized(v: Json, size: nat, data: Bytes)
    ensures DecodeSized(v, size) == Some(data) <==> v == Str(Base64.Encode(data)) && |data| == size
  {
    if v.Str? { Base64.AcceptsExactlyEncodings(v.text, data); }
  }

  /** The bounded decoder accepts exactly the canonical encodings within its bound. */
  lemma ReadsExactlyBounded(v: Json, most: nat, data: Bytes)
    requires most >= 2
    ensures DecodeBounded(v, most) == Some(data) <==> v == Str(Base64.Encode(data)) && 1 <= |data| <= most
  {
    if v.Str? { Base64.AcceptsExactlyEncodings(v.text, data); }
  }

  lemma ChallengeValueWidth(c: Challenge, i: int)
    requires ValidChallenge(c) && 0 <= i < 5
    ensures |Print(ChallengeValue(c, i))| <= 46
  {
    hide Print, Stamp, Base64.Encode, ChallengeType, Hex;
    match i
    case 0 => HexWidth(c.installation, 32);
    case 1 => StampWidth(c.issuedAt);
    case 2 => Base64Width(c.nonce);
    case 3 => TypeWidths();
    case _ => PositiveWidth(1);
  }

  lemma ChallengeNamesPlain()
    ensures forall i | 0 <= i < 5 :: Plain(ChallengeFields()[i]) && |ChallengeFields()[i]| <= 15
  {
  }

  lemma ChallengeWidth(c: Challenge)
    requires ValidChallenge(c)
    ensures 1 <= |ChallengeText(c)| <= MAX_CHALLENGE
  {
    hide ChallengeValue, ChallengeValues, ChallengeFields, Plain, Print, ValidChallenge;
    forall i | 0 <= i < 5 ensures |Print(ChallengeValues(c)[i])| <= 46 {
      ChallengeValueWidth(c, i);
    }
    ChallengeNamesPlain();
    RecordWidth(ChallengeFields(), ChallengeValues(c), 15, 46);
  }

  lemma ReadsChallengeValues(v: seq<Json>, c: Challenge)
    requires |v| == 5
    ensures ReadChallengeValues(v) == Some(c) <==> ValidChallenge(c) && v == ChallengeValues(c)
  {
    hide ChallengeType, DecodeSized, UnstampValue, Stamp, Base64.Encode, ChallengeValues;
    ReadsExactlyStamps(v[1], c.issuedAt);
    ReadsExactlySized(v[2], 32, c.nonce);
    if ReadChallengeValues(v) == Some(c) {
      assert v == ChallengeValues(c);
    }
  }

  /** Both ends read exactly the challenges the client writes. */
  lemma ReadsExactlyChallenges(raw: Bytes, c: Challenge)
    ensures ReadChallenge(raw) == Some(c) <==> ValidChallenge(c) && raw == ChallengeText(c)
  {
    hide ChallengeFields, ChallengeValues, ReadChallengeValues, LoadsExact, ValidChallenge;
    ChallengeFieldsAscend();
    LoadsExactlyRecords(raw, MAX_CHALLENGE, ChallengeFields(), ChallengeValues(c));
    ReadsChallengeValues(ChallengeValues(c), c);
    if ValidChallenge(c) { ChallengeWidth(c); }
    if ReadChallenge(raw) == Some(c) {
      ReadsChallengeValues(LoadsExact(raw, MAX_CHALLENGE, ChallengeFields()).value, c);
    }
  }

  lemma StatementNamesShort()
    ensures forall i | 0 <= i < 12 :: |StatementFields()[i]| <= 22
  {
  }

  lemma StatementValueWidth(s: Statement, i: int)
    requires ValidStatement(s) && 0 <= i < 12
    ensures |Print(StatementValue(s, i))| <= 66
  {
    assert |Print(Null)| == 4;
    hide Print, Stamp, StatementType, Hex, Positive, WitnessName;
    match i
    case 0 => HexWidth(s.challengeSha, 64);
    case 1 => StampWidth(s.expiresAt);
    case 2 => PositiveWidth(s.generation);
    case 3 => HexWidth(s.headSha, 64);
    case 4 => HexWidth(s.installation, 32);
    case 5 => StampWidth(s.issuedAt);
    case 6 => if s.predecessor.Some? { PositiveWidth(s.predecessor.value.0); }
    case 7 => if s.predecessor.Some? { HexWidth(s.predecessor.value.1, 64); }
    case 8 => TypeWidths();
    case 9 => OneWidth();
    case 10 => WitnessNameWidth(s.witnessId);
    case _ => PositiveWidth(s.revision);
  }

  lemma OneWidth()
    ensures |Print(Num(1))| == 1
  {
  }

  /** A statement always fits the witness's own payload limit. */
  lemma StatementWidth(s: Statement)
    requires ValidStatement(s)
    ensures 1 <= |StatementText(s)| <= MAX_PAYLOAD
  {
    hide StatementValue, StatementValues, StatementFields, Print, ValidStatement;
    forall i | 0 <= i < 12 ensures |Print(StatementValues(s)[i])| <= 66 {
      StatementValueWidth(s, i);
    }
    StatementNamesShort();
    RecordWidthCrude(StatementFields(), StatementValues(s), 22, 66);
  }

  lemma StatementShapeHolds(s: Statement)
    ensures StatementShape(StatementValues(s))
  {
    hide Stamp, StatementType, StatementValues;
    var v := StatementValues(s);
    assert v[8] == Str(StatementType()) && v[9] == Num(1);
    assert v[0].Str? && v[2].Num? && v[3].Str? && v[4].Str? && v[10].Str? && v[11].Num?;
    assert v[6] == StatementValue(s, 6) && v[7] == StatementValue(s, 7);
  }

  lemma ReadsStatementValues(s: Statement)
    requires ValidStatement(s)
    ensures ReadStatementValues(StatementValues(s)) == Some(s)
  {
    hide Stamp, StatementShape, ValidStatement, UnstampValue, StatementType, StatementValues;
    var v := StatementValues(s);
    StatementShapeHolds(s);
    assert v[1] == Str(Stamp(s.expiresAt)) && v[5] == Str(Stamp(s.issuedAt));
    assert v[0] == Str(s.challengeSha) && v[2] == Num(s.generation) && v[3] == Str(s.headSha);
    assert v[4] == Str(s.installation) && v[10] == Str(s.witnessId) && v[11] == Num(s.revision);
    assert s.predecessor.Some? ==> v[6] == Num(s.predecessor.value.0) && v[7] == Str(s.predecessor.value.1);
    assert v[6].Null? <==> s.predecessor.None?;
    hide StatementValue;
    ReadsExactlyStamps(Str(Stamp(s.expiresAt)), s.expiresAt);
    ReadsExactlyStamps(Str(Stamp(s.issuedAt)), s.issuedAt);
  }

  lemma StatementValueRead(v: seq<Json>, s: Statement, i: int)
    requires |v| == 12 && ReadStatementValues(v) == Some(s) && 0 <= i < 12
    ensures v[i] == StatementValue(s, i)
  {
    hide Stamp, ValidStatement, UnstampValue, StatementType;
    ReadsExactlyStamps(v[1], s.expiresAt);
    ReadsExactlyStamps(v[5], s.issuedAt);
  }

  lemma StatementValuesRead(v: seq<Json>, s: Statement)
    requires |v| == 12 && ReadStatementValues(v) == Some(s)
    ensures ValidStatement(s) && v == StatementValues(s)
  {
    hide ValidStatement, StatementValues, StatementValue, StatementShape, UnstampValue;
    forall i | 0 <= i < 12 ensures v[i] == StatementValue(s, i) {
      StatementValueRead(v, s, i);
    }
  }

  /** A statement is read exactly when it was printed. */
  lemma ReadsExactlyStatements(raw: Bytes, s: Statement)
    ensures ReadStatement(raw) == Some(s) <==> ValidStatement(s) && raw == StatementText(s)
  {
    hide StatementFields, StatementValues, ReadStatementValues, LoadsExact, ValidStatement;
    StatementFieldsAscend();
    LoadsExactlyRecords(raw, MAX_PAYLOAD, StatementFields(), StatementValues(s));
    if ValidStatement(s) {
      StatementWidth(s);
      ReadsStatementValues(s);
    }
    if ReadStatement(raw) == Some(s) {
      StatementValuesRead(LoadsExact(raw, MAX_PAYLOAD, StatementFields()).value, s);
    }
  }

  lemma EnvelopeNamesShort()
    ensures forall i | 0 <= i < 2 :: |EnvelopeFields()[i]| <= 13
  {
  }

  lemma EnvelopeWidth(e: Envelope)
    requires |e.signature| == 64 && 1 <= |e.payload| <= MAX_PAYLOAD
    ensures 1 <= |EnvelopeText(e)| <= MAX_REPLY
  {
    hide EnvelopeFields, EnvelopeValues, Print, Base64.Encode;
    EnvelopeNamesShort();
    Base64Width(e.payload);
    Base64Width(e.signature);
    PairWidths(EnvelopeFields(), EnvelopeValues(e));
  }

  lemma PairWidths(names: seq<string>, values: seq<Json>)
    requires |names| == |values| == 2 && |names[0]| <= 13 && |names[1]| <= 13
    ensures |Dumps(Record(names, values))| <= |Print(values[0])| + |Print(values[1])| + 323
  {
    var doc := Record(names, values);
    CrudeWidth(names[0]);
    CrudeWidth(names[1]);
    hide Quoted, Print;
    assert |PrintMembers(doc[1..])| == |PrintPair(names[1], values[1])|;
  }

  /** An envelope is read exactly when it was printed. */
  lemma ReadsExactlyEnvelopes(raw: Bytes, e: Envelope)
    ensures ReadEnvelope(raw) == Some(e) <==>
            |e.signature| == 64 && 1 <= |e.payload| <= MAX_PAYLOAD && raw == EnvelopeText(e)
  {
    hide LoadsExact, DecodeBounded, DecodeSized, EnvelopeFields, EnvelopeValues, Base64.Encode;
    var values := EnvelopeValues(e);
    EnvelopeFieldsAscend();
    LoadsExactlyRecords(raw, MAX_REPLY, EnvelopeFields(), values);
    ReadsExactlyBounded(values[0], MAX_PAYLOAD, e.payload);
    ReadsExactlySized(values[1], 64, e.signature);
    if |e.signature| == 64 && 1 <= |e.payload| <= MAX_PAYLOAD { EnvelopeWidth(e); }
    if ReadEnvelope(raw) == Some(e) {
      var v := LoadsExact(raw, MAX_REPLY, EnvelopeFields()).value;
      ReadsExactlyBounded(v[0], MAX_PAYLOAD, e.payload);
      ReadsExactlySized(v[1], 64, e.signature);
      assert v == values;
    }
  }
}
