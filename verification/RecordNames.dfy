/** Which value stands under which name in every record that is read. */
module RecordNames {
  import opened Wrappers
  import opened CanonicalJson
  import opened Timestamps
  import opened ActiveReceipts
  import opened WitnessMessages
  import opened SlotRecords
  import opened SuccessorProposals
  import opened CatalogState
  import opened Patterns
  import Base64

  /** The value under this name in a document; null if there is none. */
  function At(doc: Doc, name: string): Json {
    if doc == [] then Null else if doc[0].0 == name then doc[0].1 else At(doc[1..], name)
  }

  lemma {:induction false} AtFirst(doc: Doc, i: nat)
    requires i < |doc| && forall j | 0 <= j < i :: doc[j].0 != doc[i].0
    ensures At(doc, doc[i].0) == doc[i].1
  {
    if i > 0 {
      forall j | 0 <= j < i - 1 ensures doc[1..][j].0 != doc[1..][i - 1].0 { assert doc[j + 1].0 != doc[i].0; }
      AtFirst(doc[1..], i - 1);
    }
  }

  lemma RecordAt(names: seq<string>, values: seq<Json>)
    requires |names| == |values| && Ascending(names)
    ensures |Record(names, values)| == |names|
    ensures forall i | 0 <= i < |names| :: At(Record(names, values), names[i]) == values[i]
  {
    hide At, Less;
    var doc := Record(names, values);
    assert |Names(doc)| == |doc|;
    forall i | 0 <= i < |names| ensures At(doc, names[i]) == values[i] {
      assert Names(doc)[i] == doc[i].0 && Values(doc)[i] == doc[i].1;
      forall j | 0 <= j < i ensures doc[j].0 != doc[i].0 {
        NamesApart(names, j, i);
        assert Names(doc)[j] == doc[j].0;
      }
      AtFirst(doc, i);
    }
  }

  lemma NamesApart(names: seq<string>, j: nat, i: nat)
    requires Ascending(names) && j < i < |names|
    ensures names[j] != names[i]
  {
    AscendingApart(names, j, i);
    LessAsymmetric(names[j], names[i]);
  }

  /** The texts of a list, in order. */
  predicate IsTexts(v: Json, texts: seq<string>) {
    v.Arr? && |v.items| == |texts| && forall i | 0 <= i < |texts| :: v.items[i] == Str(texts[i])
  }

  predicate IsTable(v: Json, rows: seq<seq<string>>) {
    v.Arr? && |v.items| == |rows| && forall i | 0 <= i < |rows| :: IsTexts(v.items[i], rows[i])
  }

  lemma RowIsTexts(row: seq<string>)
    ensures IsTexts(Arr(TextRow(row)), row)
  {
  }

  lemma TableIsTable(rows: seq<seq<string>>)
    ensures IsTable(Arr(TextTable(rows)), rows)
  {
    hide IsTexts;
    forall i | 0 <= i < |rows| ensures IsTexts(Arr(TextRow(rows[i])), rows[i]) { RowIsTexts(rows[i]); }
  }

  // ----------------------------------------------------------------------- receipts

  lemma ReceiptDocument(raw: Bytes, r: Receipt)
    requires ParseReceipt(raw) == Some(r)
    ensures Loads(raw) == Some(Record(ReceiptFields(), ReceiptValues(r)))
  {
    hide ParseReceipt, ReceiptFields, ReceiptValues, ValidReceipt, Less;
    ParsesExactlyEncodings(raw, r);
    ReceiptFieldsAscend();
    LoadsRecord(ReceiptFields(), ReceiptValues(r));
  }

  lemma DigestNames()
    ensures ReceiptFields()[2] == "lock_sha256" && ReceiptFields()[3] == "native_envelope_sha256"
    ensures ReceiptFields()[4] == "native_payload_sha256" && ReceiptFields()[5] == "pip_inventory_sha256"
    ensures ReceiptFields()[6] == "prepared_sha256" && ReceiptFields()[11] == "registry_sha256"
  {
  }

  lemma IdentityNames()
    ensures ReceiptFields()[1] == "generation" && ReceiptFields()[7] == "previous_receipt_sha256"
    ensures ReceiptFields()[9] == "record_type" && ReceiptFields()[10] == "recorded_at"
    ensures ReceiptFields()[13] == "schema_version" && ReceiptFields()[15] == "transaction_id"
  {
  }

  lemma ContentNames()
    ensures ReceiptFields()[0] == "external_distributions" && ReceiptFields()[8] == "publisher_digests"
    ensures ReceiptFields()[12] == "root_console_targets" && ReceiptFields()[14] == "stage_relative_path"
    ensures ReceiptFields()[16] == "wheelhouse_relative_path"
  {
  }

  /** A read receipt's document, by the positions of its names. */
  ghost predicate ReceiptPlaces(doc: Doc, r: Receipt) {
    forall i | 0 <= i < 17 :: At(doc, ReceiptFields()[i]) == ReceiptValue(r, i)
  }

  lemma ReceiptPlaced(raw: Bytes, r: Receipt)
    requires ParseReceipt(raw) == Some(r)
    ensures Loads(raw).Some? && |Loads(raw).value| == 17 && ReceiptPlaces(Loads(raw).value, r)
  {
    hide ParseReceipt, ReceiptFields, ReceiptValues, At, Record, ReceiptValue, Less;
    ReceiptDocument(raw, r);
    ReceiptFieldsAscend();
    RecordAt(ReceiptFields(), ReceiptValues(r));
  }

  lemma DigestValues(doc: Doc, r: Receipt)
    requires ReceiptPlaces(doc, r)
    ensures At(doc, "prepared_sha256") == Str(r.preparedSha) && At(doc, "registry_sha256") == Str(r.registrySha)
    ensures At(doc, "lock_sha256") == Str(r.lockSha) && At(doc, "pip_inventory_sha256") == Str(r.pipInventorySha)
    ensures At(doc, "native_envelope_sha256") == Str(r.nativeEnvelopeSha)
    ensures At(doc, "native_payload_sha256") == Str(r.nativePayloadSha)
  {
    hide ReceiptFields, At, TextRow, TextTable, Stamp, ReceiptType;
    DigestNames();
    assert At(doc, ReceiptFields()[2]) == ReceiptValue(r, 2) && At(doc, ReceiptFields()[3]) == ReceiptValue(r, 3);
    assert At(doc, ReceiptFields()[4]) == ReceiptValue(r, 4) && At(doc, ReceiptFields()[5]) == ReceiptValue(r, 5);
    assert At(doc, ReceiptFields()[6]) == ReceiptValue(r, 6) && At(doc, ReceiptFields()[11]) == ReceiptValue(r, 11);
  }

  lemma IdentityValues(doc: Doc, r: Receipt)
    requires ReceiptPlaces(doc, r)
    ensures At(doc, "record_type") == Str("pds_evergreen_untrusted_active_receipt")
    ensures At(doc, "schema_version") == Num(1) && At(doc, "generation") == Num(r.generation)
    ensures At(doc, "transaction_id") == Str(r.transactionId) && At(doc, "recorded_at") == Str(Stamp(r.recordedAt))
    ensures At(doc, "previous_receipt_sha256") == if r.previousSha.None? then Null else Str(r.previousSha.value)
  {
    hide ReceiptFields, At, TextRow, TextTable, Stamp;
    IdentityNames();
    assert At(doc, ReceiptFields()[1]) == ReceiptValue(r, 1) && At(doc, ReceiptFields()[7]) == ReceiptValue(r, 7);
    assert At(doc, ReceiptFields()[9]) == ReceiptValue(r, 9) && At(doc, ReceiptFields()[10]) == ReceiptValue(r, 10);
    assert At(doc, ReceiptFields()[13]) == ReceiptValue(r, 13) && At(doc, ReceiptFields()[15]) == ReceiptValue(r, 15);
  }

  lemma ContentValues(doc: Doc, r: Receipt)
    requires ReceiptPlaces(doc, r)
    ensures At(doc, "stage_relative_path") == Str(r.stagePath)
    ensures At(doc, "wheelhouse_relative_path") == Str(r.wheelhousePath)
    ensures IsTexts(At(doc, "external_distributions"), r.externalDistributions)
    ensures IsTable(At(doc, "publisher_digests"), r.publisherDigests)
    ensures IsTable(At(doc, "root_console_targets"), r.consoleTargets)
  {
    hide ReceiptFields, At, TextRow, TextTable, Stamp, ReceiptType, IsTexts, IsTable;
    ContentNames();
    RowIsTexts(r.externalDistributions);
    TableIsTable(r.publisherDigests);
    TableIsTable(r.consoleTargets);
    assert At(doc, ReceiptFields()[0]) == ReceiptValue(r, 0) && At(doc, ReceiptFields()[8]) == ReceiptValue(r, 8);
    assert At(doc, ReceiptFields()[12]) == ReceiptValue(r, 12) && At(doc, ReceiptFields()[14]) == ReceiptValue(r, 14);
    assert At(doc, ReceiptFields()[16]) == ReceiptValue(r, 16);
  }

  /** Every part of a receipt that is read stands under its own name, and there are no
      other names. */
  lemma ReceiptByName(raw: Bytes, r: Receipt)
    requires ParseReceipt(raw) == Some(r)
    ensures Loads(raw).Some? && |Loads(raw).value| == 17
    ensures var doc := Loads(raw).value;
            && At(doc, "record_type") == Str("pds_evergreen_untrusted_active_receipt")
            && At(doc, "schema_version") == Num(1) && At(doc, "generation") == Num(r.generation)
            && At(doc, "transaction_id") == Str(r.transactionId) && At(doc, "recorded_at") == Str(Stamp(r.recordedAt))
            && At(doc, "previous_receipt_sha256") == (if r.previousSha.None? then Null else Str(r.previousSha.value))
    ensures var doc := Loads(raw).value;
            && At(doc, "prepared_sha256") == Str(r.preparedSha) && At(doc, "registry_sha256") == Str(r.registrySha)
            && At(doc, "lock_sha256") == Str(r.lockSha) && At(doc, "pip_inventory_sha256") == Str(r.pipInventorySha)
            && At(doc, "native_envelope_sha256") == Str(r.nativeEnvelopeSha)
            && At(doc, "native_payload_sha256") == Str(r.nativePayloadSha)
    ensures var doc := Loads(raw).value;
            && At(doc, "stage_relative_path") == Str(r.stagePath)
            && At(doc, "wheelhouse_relative_path") == Str(r.wheelhousePath)
            && IsTexts(At(doc, "external_distributions"), r.externalDistributions)
            && IsTable(At(doc, "publisher_digests"), r.publisherDigests)
            && IsTable(At(doc, "root_console_targets"), r.consoleTargets)
  {
    hide *;
    ReceiptPlaced(raw, r);
    DigestValues(Loads(raw).value, r);
    IdentityValues(Loads(raw).value, r);
    ContentValues(Loads(raw).value, r);
  }

  // ------------------------------------------------------------ challenge

  lemma ChallengePlaced(raw: Bytes, c: Challenge)
    requires ReadChallenge(raw) == Some(c)
    ensures Loads(raw).Some? && |Loads(raw).value| == 5
    ensures forall i | 0 <= i < 5 :: At(Loads(raw).value, ChallengeFields()[i]) == ChallengeValue(c, i)
  {
    hide ReadChallenge, ValidChallenge, ChallengeFields, ChallengeValues, ChallengeValue, At, Record, Less;
    ReadsExactlyChallenges(raw, c);
    ChallengeFieldsAscend();
    LoadsRecord(ChallengeFields(), ChallengeValues(c));
    RecordAt(ChallengeFields(), ChallengeValues(c));
  }

  lemma ChallengeNames()
    ensures ChallengeFields()[0] == "installation_id"
    ensures ChallengeFields()[1] == "issued_at"
    ensures ChallengeFields()[2] == "nonce_b64"
    ensures ChallengeFields()[3] == "record_type"
    ensures ChallengeFields()[4] == "schema_version"
  {
  }

  lemma ChallengeParts(doc: Doc, c: Challenge)
    requires forall i | 0 <= i < 5 :: At(doc, ChallengeFields()[i]) == ChallengeValue(c, i)
    ensures At(doc, "installation_id") == Str(c.installation)
    ensures At(doc, "issued_at") == Str(Stamp(c.issuedAt))
    ensures At(doc, "nonce_b64") == Str(Base64.Encode(c.nonce))
    ensures At(doc, "record_type") == Str("pds_external_checkpoint_challenge")
    ensures At(doc, "schema_version") == Num(1)
  {
    hide ChallengeFields, At, Stamp, Base64.Encode;
    ChallengeNames();
    assert At(doc, ChallengeFields()[0]) == ChallengeValue(c, 0);
    assert At(doc, ChallengeFields()[1]) == ChallengeValue(c, 1);
    assert At(doc, ChallengeFields()[2]) == ChallengeValue(c, 2);
    assert At(doc, ChallengeFields()[3]) == ChallengeValue(c, 3);
    assert At(doc, ChallengeFields()[4]) == ChallengeValue(c, 4);
  }

  /** Every part of a challenge that is read stands under its own name, and there are no
      other names. */
  lemma ChallengeByName(raw: Bytes, c: Challenge)
    requires ReadChallenge(raw) == Some(c)
    ensures Loads(raw).Some? && |Loads(raw).value| == 5
    ensures var doc := Loads(raw).value;
            && At(doc, "installation_id") == Str(c.installation)
            && At(doc, "issued_at") == Str(Stamp(c.issuedAt))
            && At(doc, "nonce_b64") == Str(Base64.Encode(c.nonce))
            && At(doc, "record_type") == Str("pds_external_checkpoint_challenge")
            && At(doc, "schema_version") == Num(1)
  {
    hide *;
    ChallengePlaced(raw, c);
    ChallengeParts(Loads(raw).value, c);
  }

  // ------------------------------------------------------------ statement

  lemma StatementPlaced(raw: Bytes, s: Statement)
    requires ReadStatement(raw) == Some(s)
    ensures Loads(raw).Some? && |Loads(raw).value| == 12
    ensures forall i | 0 <= i < 12 :: At(Loads(raw).value, StatementFields()[i]) == StatementValue(s, i)
  {
    hide ReadStatement, ValidStatement, StatementFields, StatementValues, StatementValue, At, Record, Less;
    ReadsExactlyStatements(raw, s);
    StatementFieldsAscend();
    LoadsRecord(StatementFields(), StatementValues(s));
    RecordAt(StatementFields(), StatementValues(s));
  }

  lemma StatementEarlyNames()
    ensures StatementFields()[0] == "challenge_sha256"
    ensures StatementFields()[1] == "expires_at"
    ensures StatementFields()[2] == "head_generation"
    ensures StatementFields()[3] == "head_sha256"
    ensures StatementFields()[4] == "installation_id"
    ensures StatementFields()[5] == "issued_at"
  {
  }

  lemma StatementEarlyParts(doc: Doc, s: Statement)
    requires forall i | 0 <= i < 12 :: At(doc, StatementFields()[i]) == StatementValue(s, i)
    ensures At(doc, "challenge_sha256") == Str(s.challengeSha)
    ensures At(doc, "expires_at") == Str(Stamp(s.expiresAt))
    ensures At(doc, "head_generation") == Num(s.generation)
    ensures At(doc, "head_sha256") == Str(s.headSha)
    ensures At(doc, "installation_id") == Str(s.installation)
    ensures At(doc, "issued_at") == Str(Stamp(s.issuedAt))
  {
    hide StatementFields, At, Stamp, Base64.Encode;
    StatementEarlyNames();
    assert At(doc, StatementFields()[0]) == StatementValue(s, 0);
    assert At(doc, StatementFields()[1]) == StatementValue(s, 1);
    assert At(doc, StatementFields()[2]) == StatementValue(s, 2);
    assert At(doc, StatementFields()[3]) == StatementValue(s, 3);
    assert At(doc, StatementFields()[4]) == StatementValue(s, 4);
    assert At(doc, StatementFields()[5]) == StatementValue(s, 5);
  }

  lemma StatementLateNames()
    ensures StatementFields()[6] == "predecessor_generation"
    ensures StatementFields()[7] == "predecessor_sha256"
    ensures StatementFields()[8] == "record_type"
    ensures StatementFields()[9] == "schema_version"
    ensures StatementFields()[10] == "witness_id"
    ensures StatementFields()[11] == "witness_revision"
  {
  }

  lemma StatementLateParts(doc: Doc, s: Statement)
    requires forall i | 0 <= i < 12 :: At(doc, StatementFields()[i]) == StatementValue(s, i)
    ensures At(doc, "predecessor_generation") == if s.predecessor.None? then Null else Num(s.predecessor.value.0)
    ensures At(doc, "predecessor_sha256") == if s.predecessor.None? then Null else Str(s.predecessor.value.1)
    ensures At(doc, "record_type") == Str("pds_external_checkpoint_statement")
    ensures At(doc, "schema_version") == Num(1)
    ensures At(doc, "witness_id") == Str(s.witnessId)
    ensures At(doc, "witness_revision") == Num(s.revision)
  {
    hide StatementFields, At, Stamp, Base64.Encode;
    StatementLateNames();
    assert At(doc, StatementFields()[6]) == StatementValue(s, 6);
    assert At(doc, StatementFields()[7]) == StatementValue(s, 7);
    assert At(doc, StatementFields()[8]) == StatementValue(s, 8);
    assert At(doc, StatementFields()[9]) == StatementValue(s, 9);
    assert At(doc, StatementFields()[10]) == StatementValue(s, 10);
    assert At(doc, StatementFields()[11]) == StatementValue(s, 11);
  }

  /** Every part of a statement that is read stands under its own name, and there are no
      other names. */
  lemma StatementByName(raw: Bytes, s: Statement)
    requires ReadStatement(raw) == Some(s)
    ensures Loads(raw).Some? && |Loads(raw).value| == 12
    ensures var doc := Loads(raw).value;
            && At(doc, "challenge_sha256") == Str(s.challengeSha)
            && At(doc, "expires_at") == Str(Stamp(s.expiresAt))
            && At(doc, "head_generation") == Num(s.generation) && At(doc, "head_sha256") == Str(s.headSha)
            && At(doc, "installation_id") == Str(s.installation)
            && At(doc, "issued_at") == Str(Stamp(s.issuedAt))
    ensures var doc := Loads(raw).value;
            && At(doc, "predecessor_generation") == (if s.predecessor.None? then Null else Num(s.predecessor.value.0))
            && At(doc, "predecessor_sha256") == (if s.predecessor.None? then Null else Str(s.predecessor.value.1))
            && At(doc, "record_type") == Str("pds_external_checkpoint_statement")
            && At(doc, "schema_version") == Num(1) && At(doc, "witness_id") == Str(s.witnessId)
            && At(doc, "witness_revision") == Num(s.revision)
  {
    hide *;
    StatementPlaced(raw, s);
    StatementEarlyParts(Loads(raw).value, s);
    StatementLateParts(Loads(raw).value, s);
  }

  // ------------------------------------------------------------ slot selection

  lemma SelectionPlaced(raw: Bytes, s: Selection)
    requires ParseSelection(raw) == Some(s)
    ensures Loads(raw).Some? && |Loads(raw).value| == 7
    ensures forall i | 0 <= i < 7 :: At(Loads(raw).value, SelectionFields()[i]) == SelectionValue(s, i)
  {
    hide ParseSelection, ValidSelection, SelectionFields, SelectionValues, SelectionValue, At, Record, Less;
    ParsesExactlySelections(raw, s);
    SelectionFieldsAscend();
    LoadsRecord(SelectionFields(), SelectionValues(s));
    RecordAt(SelectionFields(), SelectionValues(s));
  }

  lemma SelectionNames()
    ensures SelectionFields()[0] == "generation"
    ensures SelectionFields()[1] == "native_envelope_sha256"
    ensures SelectionFields()[2] == "prepared_sha256"
    ensures SelectionFields()[3] == "record_type"
    ensures SelectionFields()[4] == "schema_version"
    ensures SelectionFields()[5] == "stage_relative_path"
    ensures SelectionFields()[6] == "transaction_id"
  {
  }

  lemma SelectionParts(doc: Doc, s: Selection)
    requires forall i | 0 <= i < 7 :: At(doc, SelectionFields()[i]) == SelectionValue(s, i)
    ensures At(doc, "generation") == Num(s.generation)
    ensures At(doc, "native_envelope_sha256") == Str(s.nativeSha)
    ensures At(doc, "prepared_sha256") == Str(s.preparedSha)
    ensures At(doc, "record_type") == Str("pds_evergreen_candidate_selection")
    ensures At(doc, "schema_version") == Num(1)
    ensures At(doc, "stage_relative_path") == Str(s.stagePath)
    ensures At(doc, "transaction_id") == Str(s.transactionId)
  {
    hide SelectionFields, At, Stamp, Base64.Encode;
    SelectionNames();
    assert At(doc, SelectionFields()[0]) == SelectionValue(s, 0);
    assert At(doc, SelectionFields()[1]) == SelectionValue(s, 1);
    assert At(doc, SelectionFields()[2]) == SelectionValue(s, 2);
    assert At(doc, SelectionFields()[3]) == SelectionValue(s, 3);
    assert At(doc, SelectionFields()[4]) == SelectionValue(s, 4);
    assert At(doc, SelectionFields()[5]) == SelectionValue(s, 5);
    assert At(doc, SelectionFields()[6]) == SelectionValue(s, 6);
  }

  /** Every part of a slot selection that is read stands under its own name, and there are no
      other names. */
  lemma SelectionByName(raw: Bytes, s: Selection)
    requires ParseSelection(raw) == Some(s)
    ensures Loads(raw).Some? && |Loads(raw).value| == 7
    ensures var doc := Loads(raw).value;
            && At(doc, "generation") == Num(s.generation)
            && At(doc, "native_envelope_sha256") == Str(s.nativeSha)
            && At(doc, "prepared_sha256") == Str(s.preparedSha)
            && At(doc, "record_type") == Str("pds_evergreen_candidate_selection")
            && At(doc, "schema_version") == Num(1) && At(doc, "stage_relative_path") == Str(s.stagePath)
            && At(doc, "transaction_id") == Str(s.transactionId)
  {
    hide *;
    SelectionPlaced(raw, s);
    SelectionParts(Loads(raw).value, s);
  }

  // ------------------------------------------------------------ recovery capsule

  lemma RecoveryPlaced(sha: Hash, raw: Bytes, r: Recovery)
    requires ParseRecovery(sha, raw) == Some(r)
    ensures Loads(raw).Some? && |Loads(raw).value| == 6
    ensures forall i | 0 <= i < 6 :: At(Loads(raw).value, RecoveryFields()[i]) == RecoveryValue(r, i)
  {
    hide ParseRecovery, ValidRecovery, RecoveryFields, RecoveryValues, RecoveryValue, At, Record, Less;
    ParsesExactlyRecoveries(sha, raw, r);
    RecoveryFieldsAscend();
    LoadsRecord(RecoveryFields(), RecoveryValues(r));
    RecordAt(RecoveryFields(), RecoveryValues(r));
  }

  lemma RecoveryNames()
    ensures RecoveryFields()[0] == "candidate_sha256"
    ensures RecoveryFields()[1] == "previous_selection_b64"
    ensures RecoveryFields()[2] == "previous_sha256"
    ensures RecoveryFields()[3] == "record_type"
    ensures RecoveryFields()[4] == "schema_version"
    ensures RecoveryFields()[5] == "transaction_id"
  {
  }

  lemma RecoveryParts(doc: Doc, r: Recovery)
    requires forall i | 0 <= i < 6 :: At(doc, RecoveryFields()[i]) == RecoveryValue(r, i)
    ensures At(doc, "candidate_sha256") == Str(r.candidateSha)
    ensures At(doc, "previous_selection_b64") == if r.previous.None? then Null else Str(Base64.Encode(r.previous.value))
    ensures At(doc, "previous_sha256") == if r.previousSha.None? then Null else Str(r.previousSha.value)
    ensures At(doc, "record_type") == Str("pds_evergreen_pending_slot_recovery")
    ensures At(doc, "schema_version") == Num(1)
    ensures At(doc, "transaction_id") == Str(r.transactionId)
  {
    hide RecoveryFields, At, Stamp, Base64.Encode;
    RecoveryNames();
    assert At(doc, RecoveryFields()[0]) == RecoveryValue(r, 0);
    assert At(doc, RecoveryFields()[1]) == RecoveryValue(r, 1);
    assert At(doc, RecoveryFields()[2]) == RecoveryValue(r, 2);
    assert At(doc, RecoveryFields()[3]) == RecoveryValue(r, 3);
    assert At(doc, RecoveryFields()[4]) == RecoveryValue(r, 4);
    assert At(doc, RecoveryFields()[5]) == RecoveryValue(r, 5);
  }

  /** Every part of a recovery capsule that is read stands under its own name, and there are no
      other names. */
  lemma RecoveryByName(sha: Hash, raw: Bytes, r: Recovery)
    requires ParseRecovery(sha, raw) == Some(r)
    ensures Loads(raw).Some? && |Loads(raw).value| == 6
    ensures var doc := Loads(raw).value;
            && At(doc, "candidate_sha256") == Str(r.candidateSha)
            && At(doc, "previous_selection_b64")
               == (if r.previous.None? then Null else Str(Base64.Encode(r.previous.value)))
            && At(doc, "previous_sha256") == (if r.previousSha.None? then Null else Str(r.previousSha.value))
            && At(doc, "record_type") == Str("pds_evergreen_pending_slot_recovery")
            && At(doc, "schema_version") == Num(1) && At(doc, "transaction_id") == Str(r.transactionId)
  {
    hide *;
    RecoveryPlaced(sha, raw, r);
    RecoveryParts(Loads(raw).value, r);
  }

  // ------------------------------------------------------------ commit request

  lemma RequestPlaced(sha: Hash, raw: Bytes, q: Request)
    requires ParseRequest(sha, raw) == Some(q)
    ensures Loads(raw).Some? && |Loads(raw).value| == 9
    ensures forall i | 0 <= i < 9 :: At(Loads(raw).value, RequestFields()[i]) == RequestValue(sha, q, i)
  {
    hide ParseRequest, ValidRequest, RequestFields, RequestValues, RequestValue, At, Record, Less;
    ParsesExactlyRequests(sha, raw, q);
    RequestFieldsAscend();
    LoadsRecord(RequestFields(), RequestValues(sha, q));
    RecordAt(RequestFields(), RequestValues(sha, q));
  }

  lemma RequestEarlyNames()
    ensures RequestFields()[0] == "expected_witness_revision"
    ensures RequestFields()[1] == "installation_id"
    ensures RequestFields()[2] == "predecessor_b64"
    ensures RequestFields()[3] == "predecessor_sha256"
    ensures RequestFields()[4] == "record_type"
  {
  }

  lemma RequestEarlyParts(doc: Doc, sha: Hash, q: Request)
    requires forall i | 0 <= i < 9 :: At(doc, RequestFields()[i]) == RequestValue(sha, q, i)
    ensures At(doc, "expected_witness_revision") == Num(q.revision)
    ensures At(doc, "installation_id") == Str(q.installation)
    ensures At(doc, "predecessor_b64") == Str(Base64.Encode(q.previous))
    ensures At(doc, "predecessor_sha256") == Str(sha(q.previous))
    ensures At(doc, "record_type") == Str("pds_witness_successor_commit_request")
  {
    hide RequestFields, At, Stamp, Base64.Encode;
    RequestEarlyNames();
    assert At(doc, RequestFields()[0]) == RequestValue(sha, q, 0);
    assert At(doc, RequestFields()[1]) == RequestValue(sha, q, 1);
    assert At(doc, RequestFields()[2]) == RequestValue(sha, q, 2);
    assert At(doc, RequestFields()[3]) == RequestValue(sha, q, 3);
    assert At(doc, RequestFields()[4]) == RequestValue(sha, q, 4);
  }

  lemma RequestLateNames()
    ensures RequestFields()[5] == "schema_version"
    ensures RequestFields()[6] == "successor_b64"
    ensures RequestFields()[7] == "successor_sha256"
    ensures RequestFields()[8] == "witness_id"
  {
  }

  lemma RequestLateParts(doc: Doc, sha: Hash, q: Request)
    requires forall i | 0 <= i < 9 :: At(doc, RequestFields()[i]) == RequestValue(sha, q, i)
    ensures At(doc, "schema_version") == Num(1)
    ensures At(doc, "successor_b64") == Str(Base64.Encode(q.successor))
    ensures At(doc, "successor_sha256") == Str(sha(q.successor))
    ensures At(doc, "witness_id") == Str(q.witnessId)
  {
    hide RequestFields, At, Stamp, Base64.Encode;
    RequestLateNames();
    assert At(doc, RequestFields()[5]) == RequestValue(sha, q, 5);
    assert At(doc, RequestFields()[6]) == RequestValue(sha, q, 6);
    assert At(doc, RequestFields()[7]) == RequestValue(sha, q, 7);
    assert At(doc, RequestFields()[8]) == RequestValue(sha, q, 8);
  }

  /** Every part of a commit request that is read stands under its own name, and there are no
      other names. */
  lemma RequestByName(sha: Hash, raw: Bytes, q: Request)
    requires ParseRequest(sha, raw) == Some(q)
    ensures Loads(raw).Some? && |Loads(raw).value| == 9
    ensures var doc := Loads(raw).value;
            && At(doc, "expected_witness_revision") == Num(q.revision)
            && At(doc, "installation_id") == Str(q.installation)
            && At(doc, "predecessor_b64") == Str(Base64.Encode(q.previous))
            && At(doc, "predecessor_sha256") == Str(sha(q.previous))
            && At(doc, "record_type") == Str("pds_witness_successor_commit_request")
    ensures var doc := Loads(raw).value;
            && At(doc, "schema_version") == Num(1)
            && At(doc, "successor_b64") == Str(Base64.Encode(q.successor))
            && At(doc, "successor_sha256") == Str(sha(q.successor)) && At(doc, "witness_id") == Str(q.witnessId)
  {
    hide *;
    RequestPlaced(sha, raw, q);
    RequestEarlyParts(Loads(raw).value, sha, q);
    RequestLateParts(Loads(raw).value, sha, q);
  }

  // ------------------------------------------------------------ envelope

  /** A witness reply that is read has its payload and its signature under their own
      names, and no other names. */
  lemma EnvelopeByName(raw: Bytes, e: Envelope)
    requires ReadEnvelope(raw) == Some(e)
    ensures Loads(raw).Some? && |Loads(raw).value| == 2
    ensures var doc := Loads(raw).value;
            && At(doc, "payload_b64") == Str(Base64.Encode(e.payload))
            && At(doc, "signature_b64") == Str(Base64.Encode(e.signature))
  {
    hide ReadEnvelope, EnvelopeValues, Base64.Encode, At, Record, Less;
    ReadsExactlyEnvelopes(raw, e);
    EnvelopeFieldsAscend();
    LoadsRecord(EnvelopeFields(), EnvelopeValues(e));
    RecordAt(EnvelopeFields(), EnvelopeValues(e));
    assert EnvelopeFields()[0] == "payload_b64" && EnvelopeFields()[1] == "signature_b64";
  }

  // ------------------------------------------------------------ proposal

  lemma ProposalPlaced(sha: Hash, raw: Bytes, s: SuccessorProposals.Snapshot, now: Second)
    requires ParseProposal(sha, raw) == Some((s, now))
    ensures Loads(raw).Some? && |Loads(raw).value| == 10
    ensures forall i | 0 <= i < 10 ::
              At(Loads(raw).value, ProposalFields()[i])
              == ProposalValue(s, sha(RequestText(sha, s.request)), RequestText(sha, s.request), now, i)
  {
    hide ParseProposal, ValidSnapshot, ProposalFields, ProposalValues, ProposalValue, ValidRequest, RequestText, At,
         Record, Less;
    ParsesExactlyProposals(sha, raw, s, now);
    ProposalFieldsAscend();
    LoadsRecord(ProposalFields(), ProposalValues(sha, s, RequestText(sha, s.request), now));
    RecordAt(ProposalFields(), ProposalValues(sha, s, RequestText(sha, s.request), now));
  }

  lemma ProposalEarlyNames()
    ensures ProposalFields()[0] == "journal_sha256"
    ensures ProposalFields()[1] == "record_type"
    ensures ProposalFields()[2] == "recorded_at"
    ensures ProposalFields()[3] == "recovery_sha256"
    ensures ProposalFields()[4] == "request_b64"
  {
  }

  lemma ProposalLateNames()
    ensures ProposalFields()[5] == "request_sha256"
    ensures ProposalFields()[6] == "schema_version"
    ensures ProposalFields()[7] == "selection_sha256"
    ensures ProposalFields()[8] == "status"
    ensures ProposalFields()[9] == "transaction_id"
  {
  }

  lemma ProposalEarlyParts(doc: Doc, s: SuccessorProposals.Snapshot, digest: string, request: Bytes, now: Second)
    requires forall i | 0 <= i < 10 :: At(doc, ProposalFields()[i]) == ProposalValue(s, digest, request, now, i)
    ensures At(doc, "journal_sha256") == Str(s.journalSha)
    ensures At(doc, "record_type") == Str("pds_untrusted_successor_receipt_proposal")
    ensures At(doc, "recorded_at") == Str(Stamp(now))
    ensures At(doc, "recovery_sha256") == Str(s.recoverySha)
    ensures At(doc, "request_b64") == Str(Base64.Encode(request))
  {
    hide ProposalFields, At, Stamp, Base64.Encode;
    ProposalEarlyNames();
    assert At(doc, ProposalFields()[0]) == ProposalValue(s, digest, request, now, 0);
    assert At(doc, ProposalFields()[1]) == ProposalValue(s, digest, request, now, 1);
    assert At(doc, ProposalFields()[2]) == ProposalValue(s, digest, request, now, 2);
    assert At(doc, ProposalFields()[3]) == ProposalValue(s, digest, request, now, 3);
    assert At(doc, ProposalFields()[4]) == ProposalValue(s, digest, request, now, 4);
  }

  lemma ProposalLateParts(doc: Doc, s: SuccessorProposals.Snapshot, digest: string, request: Bytes, now: Second)
    requires forall i | 0 <= i < 10 :: At(doc, ProposalFields()[i]) == ProposalValue(s, digest, request, now, i)
    ensures At(doc, "request_sha256") == Str(digest)
    ensures At(doc, "schema_version") == Num(1)
    ensures At(doc, "selection_sha256") == Str(s.selectionSha)
    ensures At(doc, "status") == Str("proposal_only_not_active")
    ensures At(doc, "transaction_id") == Str(s.transactionId)
  {
    hide ProposalFields, At, Stamp, Base64.Encode;
    ProposalLateNames();
    assert At(doc, ProposalFields()[5]) == ProposalValue(s, digest, request, now, 5);
    assert At(doc, ProposalFields()[6]) == ProposalValue(s, digest, request, now, 6);
    assert At(doc, ProposalFields()[7]) == ProposalValue(s, digest, request, now, 7);
    assert At(doc, ProposalFields()[8]) == ProposalValue(s, digest, request, now, 8);
    assert At(doc, ProposalFields()[9]) == ProposalValue(s, digest, request, now, 9);
  }

  /** Every part of a proposal that is read stands under its own name, and there are no
      other names. */
  lemma ProposalByName(sha: Hash, raw: Bytes, s: SuccessorProposals.Snapshot, now: Second)
    requires ParseProposal(sha, raw) == Some((s, now))
    ensures Loads(raw).Some? && |Loads(raw).value| == 10
    ensures var doc := Loads(raw).value;
            && At(doc, "journal_sha256") == Str(s.journalSha) && At(doc, "selection_sha256") == Str(s.selectionSha)
            && At(doc, "recovery_sha256") == Str(s.recoverySha) && At(doc, "transaction_id") == Str(s.transactionId)
            && At(doc, "recorded_at") == Str(Stamp(now)) && At(doc, "schema_version") == Num(1)
    ensures var doc := Loads(raw).value;
            && At(doc, "request_b64") == Str(Base64.Encode(RequestText(sha, s.request)))
            && At(doc, "request_sha256") == Str(sha(RequestText(sha, s.request)))
            && At(doc, "record_type") == Str("pds_untrusted_successor_receipt_proposal")
            && At(doc, "status") == Str("proposal_only_not_active")
  {
    hide *;
    ProposalPlaced(sha, raw, s, now);
    var request := RequestText(sha, s.request);
    ProposalEarlyParts(Loads(raw).value, s, sha(request), request, now);
    ProposalLateParts(Loads(raw).value, s, sha(request), request, now);
  }

  // ------------------------------------------------------------ catalog cache

  /** The base64 texts of a list of byte strings, in order. */
  predicate IsEncoded(v: Json, raws: seq<Bytes>) {
    v.Arr? && |v.items| == |raws| && forall i | 0 <= i < |raws| :: v.items[i] == Str(Base64.Encode(raws[i]))
  }

  lemma DecodedEnvelope(v: Json, raw: Bytes)
    ensures DecodeEnvelope(v) == Some(raw) ==> v == Str(Base64.Encode(raw))
  {
    hide Base64.Encode, Base64.DecodeCanonical;
    if v.Str? { Base64.AcceptsExactlyEncodings(v.text, raw); }
  }

  lemma DecodedEnvelopes(items: seq<Json>, raws: seq<Bytes>)
    requires DecodeAll(items) == Some(raws)
    ensures IsEncoded(Arr(items), raws)
  {
    hide Base64.Encode, DecodeEnvelope;
    forall i | 0 <= i < |raws| ensures items[i] == Str(Base64.Encode(raws[i])) { DecodedEnvelope(items[i], raws[i]); }
  }

  lemma CacheValuesRead(v: seq<Json>, c: Cached)
    requires |v| == 7 && ReadCache(v) == Some(c)
    ensures v[0] == Str(Stamp(c.acceptedAt)) && IsEncoded(v[1], c.envelopes.integrations)
    ensures IsEncoded(v[2], c.envelopes.modules) && v[3] == Str("pds_evergreen_signed_catalog_cache")
    ensures v[4] == Str(Base64.Encode(c.envelopes.registry)) && v[5] == Num(1) && v[6] == Str(c.fingerprint)
  {
    hide DecodeEnvelope, DecodeAll, Base64.Encode, Stamp, Unstamp, Hex, IsEncoded;
    UnstampExactlyStamps(v[0].text, c.acceptedAt);
    DecodedEnvelope(v[4], c.envelopes.registry);
    DecodedEnvelopes(v[1].items, c.envelopes.integrations);
    DecodedEnvelopes(v[2].items, c.envelopes.modules);
  }

  lemma CachePlaced(raw: Bytes, c: Cached) returns (v: seq<Json>)
    requires ParseCache(raw) == Some(c)
    ensures |v| == 7 && ReadCache(v) == Some(c) && Loads(raw).Some? && |Loads(raw).value| == 7
    ensures forall i | 0 <= i < 7 :: At(Loads(raw).value, CacheFields()[i]) == v[i]
  {
    hide CacheFields, ReadCache, At, Record, Less, Loads;
    CacheFieldsAscend();
    v := ReadRecord(raw, MAX_SNAPSHOT, CacheFields()).value;
    RecordAt(CacheFields(), v);
    DocumentOfParts(Loads(raw).value, CacheFields(), v);
  }

  lemma DocumentOfParts(doc: Doc, names: seq<string>, values: seq<Json>)
    requires |names| == |values| && Names(doc) == names && Values(doc) == values
    ensures doc == Record(names, values)
  {
    var other := Record(names, values);
    assert |doc| == |names| && |other| == |Names(other)|;
    forall i | 0 <= i < |doc| ensures doc[i] == other[i] {
      assert Names(doc)[i] == doc[i].0 && Values(doc)[i] == doc[i].1;
      assert Names(other)[i] == other[i].0 && Values(other)[i] == other[i].1;
    }
  }

  lemma CacheNames()
    ensures CacheFields()[0] == "accepted_at"
    ensures CacheFields()[1] == "integration_envelopes_b64"
    ensures CacheFields()[2] == "module_envelopes_b64"
    ensures CacheFields()[3] == "record_type"
    ensures CacheFields()[4] == "registry_envelope_b64"
    ensures CacheFields()[5] == "schema_version"
    ensures CacheFields()[6] == "trust_fingerprint"
  {
  }

  /** Every part of a cache file that is read stands under its own name, and there are no
      other names. */
  lemma CacheByName(raw: Bytes, c: Cached)
    requires ParseCache(raw) == Some(c)
    ensures Loads(raw).Some? && |Loads(raw).value| == 7
    ensures var doc := Loads(raw).value;
            && At(doc, "accepted_at") == Str(Stamp(c.acceptedAt)) && At(doc, "trust_fingerprint") == Str(c.fingerprint)
            && At(doc, "registry_envelope_b64") == Str(Base64.Encode(c.envelopes.registry))
            && IsEncoded(At(doc, "module_envelopes_b64"), c.envelopes.modules)
            && IsEncoded(At(doc, "integration_envelopes_b64"), c.envelopes.integrations)
            && At(doc, "record_type") == Str("pds_evergreen_signed_catalog_cache")
            && At(doc, "schema_version") == Num(1)
  {
    hide ParseCache, ReadCache, CacheFields, At, Stamp, Base64.Encode, IsEncoded, Loads;
    var v := CachePlaced(raw, c);
    CacheValuesRead(v, c);
    CacheNames();
    var doc := Loads(raw).value;
    assert At(doc, CacheFields()[0]) == v[0] && At(doc, CacheFields()[1]) == v[1] && At(doc, CacheFields()[2]) == v[2];
    assert At(doc, CacheFields()[3]) == v[3] && At(doc, CacheFields()[4]) == v[4] && At(doc, CacheFields()[5]) == v[5];
    assert At(doc, CacheFields()[6]) == v[6];
  }
}
