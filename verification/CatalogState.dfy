/** The cached signed catalog: what a save writes, what the two ways of reading it
    accept, and the file itself. */
module CatalogState {
  import opened Wrappers
  import opened CanonicalJson
  import opened Patterns
  import opened Timestamps
  import opened ActiveReceipts
  import opened CatalogVerification
  import Base64

  const MAX_SNAPSHOT: int := 4 * 1024 * 1024
  const MAX_DOCUMENTS: int := 32

  datatype Envelopes = Envelopes(registry: Bytes, modules: seq<Bytes>, integrations: seq<Bytes>)

  datatype Snapshot = Snapshot(
    registry: RegistryDocument, modules: seq<Document>, integrations: seq<Document>, acceptedAt: Second)

  // ------------------------------------------------------------ authenticate

  /** What a module or integration document is about. */
  function Subject(claims: Claims): string {
    match claims
    case Registry(_, _, _) => ""
    case Module(_, component, _, _) => component
    case Integration(_, feature) => feature
  }

  function Subjects(documents: seq<Document>): seq<string> {
    seq(|documents|, i requires 0 <= i < |documents| => Subject(documents[i].claims))
  }

  /** The remembered checkpoint of this subject. */
  function Remembered(documents: seq<Document>, subject: string): Option<Checkpoint> {
    if documents == [] then None
    else if Subject(documents[0].claims) == subject then Some(documents[0].checkpoint)
    else Remembered(documents[1..], subject)
  }

  datatype Kind = Modules | Integrations

  predicate OfKind(claims: Claims, kind: Kind) { if kind == Modules then claims.Module? else claims.Integration? }

  /** One document of a kind, against what was remembered of its subject. */
  function VerifyOne(rules: Rules, raw: Bytes, kind: Kind, registry: RegistryDocument, ring: Keyring, now: Moment,
                     remembered: seq<Document>): (d: Option<Document>)
    requires registry.claims.Registry?
    ensures d.Some? ==> OfKind(d.value.claims, kind)
  {
    var e := rules.parse(raw);
    if e.None? || !OfKind(e.value.claims, kind) then None
    else VerifyDelegated(rules, raw, registry, ring, now, Remembered(remembered, Subject(e.value.claims)))
  }

  function VerifyAll(rules: Rules, raws: seq<Bytes>, kind: Kind, registry: RegistryDocument, ring: Keyring, now: Moment,
                     remembered: seq<Document>): (ds: Option<seq<Document>>)
    requires registry.claims.Registry?
    ensures ds.Some? ==> |ds.value| == |raws|
  {
    if raws == [] then Some([])
    else
      var earlier := VerifyAll(rules, raws[..|raws| - 1], kind, registry, ring, now, remembered);
      var last := VerifyOne(rules, raws[|raws| - 1], kind, registry, ring, now, remembered);
      if earlier.None? || last.None? then None else Some(earlier.value + [last.value])
  }

  /** No subject twice, and none of the remembered ones left out. */
  predicate KeepsHistory(documents: seq<Document>, remembered: seq<Document>) {
    Distinct(Subjects(documents)) && forall s <- Subjects(remembered) :: s in Subjects(documents)
  }

  function ModulesOf(previous: Option<Snapshot>): seq<Document> {
    if previous.None? then [] else previous.value.modules
  }

  function IntegrationsOf(previous: Option<Snapshot>): seq<Document> {
    if previous.None? then [] else previous.value.integrations
  }

  function RegistryCheckpoint(previous: Option<Snapshot>): Option<Checkpoint> {
    if previous.None? then None else Some(previous.value.registry.checkpoint)
  }

  function Authenticate(rules: Rules, es: Envelopes, ring: Keyring, now: Moment, acceptedAt: Second,
                        previous: Option<Snapshot>): Option<Snapshot> {
    if |es.modules| > MAX_DOCUMENTS || |es.integrations| > MAX_DOCUMENTS then None
    else
      var registry := VerifyRegistry(rules, es.registry, ring, now, RegistryCheckpoint(previous));
      if registry.None? then None
      else
        var modules := VerifyAll(rules, es.modules, Modules, registry.value, ring, now, ModulesOf(previous));
        var integrations := VerifyAll(rules, es.integrations, Integrations, registry.value, ring, now,
            IntegrationsOf(previous));
        if modules.None? || integrations.None? || !KeepsHistory(modules.value, ModulesOf(previous))
           || !KeepsHistory(integrations.value, IntegrationsOf(previous)) then None
        else Some(Snapshot(registry.value, modules.value, integrations.value, acceptedAt))
  }

  method VerifyEach(rules: Rules, raws: seq<Bytes>, kind: Kind, registry: RegistryDocument, ring: Keyring, now: Moment,
                    remembered: seq<Document>) returns (documents: Option<seq<Document>>)
    requires registry.claims.Registry?
    ensures documents == VerifyAll(rules, raws, kind, registry, ring, now, remembered)
  {
    hide VerifyOne;
    var found: seq<Document>, i := [], 0;
    while i < |raws|
      invariant 0 <= i <= |raws| && VerifyAll(rules, raws[..i], kind, registry, ring, now, remembered) == Some(found)
    {
      var d := VerifyOne(rules, raws[i], kind, registry, ring, now, remembered);
      assert raws[..i + 1][..i] == raws[..i];
      if d.None? {
        OneFails(rules, raws, i, kind, registry, ring, now, remembered);
        return None;
      }
      found, i := found + [d.value], i + 1;
    }
    assert raws[..i] == raws;
    documents := Some(found);
  }

  lemma {:induction false} OneFails(rules: Rules, raws: seq<Bytes>, i: nat, kind: Kind, registry: RegistryDocument,
                                    ring: Keyring,
                                    now: Moment, remembered: seq<Document>)
    requires registry.claims.Registry? && i < |raws|
    requires VerifyOne(rules, raws[i], kind, registry, ring, now, remembered).None?
    ensures VerifyAll(rules, raws, kind, registry, ring, now, remembered).None?
    decreases |raws|
  {
    hide VerifyOne;
    if i < |raws| - 1 {
      OneFails(rules, raws[..|raws| - 1], i, kind, registry, ring, now, remembered);
    }
  }

  // ------------------------------------------------------------------- bytes

  function CacheFields(): (names: seq<string>)
    ensures |names| == 7
  {
    ["accepted_at", "integration_envelopes_b64", "module_envelopes_b64", "record_type", "registry_envelope_b64",
     "schema_version", "trust_fingerprint"]
  }

  function CacheType(): string { "pds_evergreen_signed_catalog_cache" }

  function EncodeAll(raws: seq<Bytes>): seq<Json> {
    seq(|raws|, i requires 0 <= i < |raws| => Str(Base64.Encode(raws[i])))
  }

  datatype Cached = Cached(envelopes: Envelopes, acceptedAt: Second, fingerprint: string)

  function CacheValue(c: Cached, i: int): Json {
    match i
    case 0 => Str(Stamp(c.acceptedAt))
    case 1 => Arr(EncodeAll(c.envelopes.integrations))
    case 2 => Arr(EncodeAll(c.envelopes.modules))
    case 3 => Str(CacheType())
    case 4 => Str(Base64.Encode(c.envelopes.registry))
    case 5 => Num(1)
    case _ => Str(c.fingerprint)
  }

  function CacheValues(c: Cached): (values: seq<Json>)
    ensures |values| == 7
    ensures forall i | 0 <= i < 7 :: values[i] == CacheValue(c, i)
  {
    seq(7, i => CacheValue(c, i))
  }

  function CacheText(c: Cached): Bytes {
    hide Dumps, CacheFields, CacheValues;
    var line: Bytes := ['\n'];
    Dumps(Record(CacheFields(), CacheValues(c))) + line
  }

  predicate EnvelopeSized(raw: Bytes) { 1 <= |raw| <= MAX_ENVELOPE }

  function DecodeEnvelope(v: Json): Option<Bytes> {
    if !v.Str? || |v.text| > 4 * ((MAX_ENVELOPE + 2) / 3) then None
    else
      var data := Base64.DecodeCanonical(v.text);
      if data.Some? && EnvelopeSized(data.value) then data else None
  }

  function DecodeAll(items: seq<Json>): Option<seq<Bytes>> {
    if forall v <- items :: DecodeEnvelope(v).Some? then
      Some(seq(|items|, i requires 0 <= i < |items| => DecodeEnvelope(items[i]).value))
    else None
  }

  function ReadCache(v: seq<Json>): Option<Cached>
    requires |v| == 7
  {
    if !(v[3] == Str(CacheType()) && v[5] == Num(1) && v[0].Str? && v[1].Arr? && v[2].Arr? && v[6].Str?
         && |v[1].items| <= MAX_DOCUMENTS && |v[2].items| <= MAX_DOCUMENTS && Hex(v[6].text, 64)) then None
    else
      var at, registry := Unstamp(v[0].text), DecodeEnvelope(v[4]);
      var modules, integrations := DecodeAll(v[2].items), DecodeAll(v[1].items);
      if at.None? || registry.None? || modules.None? || integrations.None? then None
      else Some(Cached(Envelopes(registry.value, modules.value, integrations.value), at.value, v[6].text))
  }

  function ParseCache(raw: Bytes): Option<Cached> {
    var v := ReadRecord(raw, MAX_SNAPSHOT, CacheFields());
    if v.None? then None else ReadCache(v.value)
  }

  lemma EarlyCacheFields()
    ensures Less("accepted_at", "integration_envelopes_b64")
            && Less("integration_envelopes_b64", "module_envelopes_b64")
    ensures Less("module_envelopes_b64", "record_type")
  {
  }

  lemma RegistryField()
    ensures Less("record_type", "registry_envelope_b64")
  {
    LessAt("record_type", "registry_envelope_b64", 2);
  }

  lemma LateCacheFields()
    ensures Less("registry_envelope_b64", "schema_version") && Less("schema_version", "trust_fingerprint")
  {
  }

  lemma CacheFieldsAscend()
    ensures Ascending(CacheFields())
  {
    hide Less;
    EarlyCacheFields();
    RegistryField();
    LateCacheFields();
  }

  lemma ReadsEnvelope(raw: Bytes)
    requires EnvelopeSized(raw)
    ensures DecodeEnvelope(Str(Base64.Encode(raw))) == Some(raw)
  {
    hide Base64.Encode, Base64.DecodeCanonical;
    Base64.AcceptsExactlyEncodings(Base64.Encode(raw), raw);
  }

  lemma ReadsEnvelopes(raws: seq<Bytes>)
    requires forall raw <- raws :: EnvelopeSized(raw)
    ensures DecodeAll(EncodeAll(raws)) == Some(raws)
  {
    hide Base64.Encode, DecodeEnvelope;
    var items := EncodeAll(raws);
    forall i | 0 <= i < |raws| ensures DecodeEnvelope(items[i]) == Some(raws[i]) { ReadsEnvelope(raws[i]); }
    assert DecodeAll(items).value == raws;
  }

  predicate Storable(c: Cached) {
    && |c.envelopes.modules| <= MAX_DOCUMENTS && |c.envelopes.integrations| <= MAX_DOCUMENTS
    && EnvelopeSized(c.envelopes.registry) && (forall raw <- c.envelopes.modules :: EnvelopeSized(raw))
    && (forall raw <- c.envelopes.integrations :: EnvelopeSized(raw)) && Hex(c.fingerprint, 64)
  }

  lemma ReadsCache(c: Cached)
    requires Storable(c)
    ensures ReadCache(CacheValues(c)) == Some(c)
  {
    hide CacheType, CacheValues, DecodeEnvelope, DecodeAll, EncodeAll, Base64.Encode, Stamp, Unstamp, Hex;
    UnstampExactlyStamps(Stamp(c.acceptedAt), c.acceptedAt);
    ReadsEnvelope(c.envelopes.registry);
    ReadsEnvelopes(c.envelopes.modules);
    ReadsEnvelopes(c.envelopes.integrations);
    EncodedCount(c.envelopes.modules);
    EncodedCount(c.envelopes.integrations);
    var v := CacheValues(c);
    assert v[3] == Str(CacheType()) && v[5] == Num(1) && v[0] == Str(Stamp(c.acceptedAt));
    assert v[1] == Arr(EncodeAll(c.envelopes.integrations)) && v[2] == Arr(EncodeAll(c.envelopes.modules));
    assert v[4] == Str(Base64.Encode(c.envelopes.registry)) && v[6] == CacheValue(c, 6);
    hide EnvelopeSized;
  }

  lemma EncodedCount(raws: seq<Bytes>)
    ensures |EncodeAll(raws)| == |raws|
  {
  }

  /** A cache file within its size limit is read back as what was written. */
  lemma ParsesWritten(c: Cached)
    requires Storable(c) && |CacheText(c)| <= MAX_SNAPSHOT
    ensures ParseCache(CacheText(c)) == Some(c)
  {
    hide CacheFields, CacheValues, ReadCache, Storable, ReadRecord, Dumps, Loads;
    CacheFieldsAscend();
    ReadsLine(CacheFields(), CacheValues(c), MAX_SNAPSHOT);
    ReadsCache(c);
  }
}
