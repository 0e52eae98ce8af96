/** The catalog cache over time: saves, loads, and what no sequence of saves undoes. */
module CatalogCache {
  import opened Wrappers
  import opened Timestamps
  import opened ActiveReceipts
  import opened CatalogVerification
  import opened CatalogState
  import Patterns

  function Floor(now: Moment): (s: Second)
    ensures s * SECOND <= now < (s + 1) * SECOND
  {
    now / SECOND
  }

  function Instant(s: Second): (m: Moment)
    ensures m == s * SECOND
  {
    s * SECOND
  }

  // ----------------------------------------------------------------- reading

  function AllRaw(es: Envelopes): (raws: seq<Bytes>)
    ensures raws != []
  {
    [es.registry] + es.modules + es.integrations
  }

  function LatestIssue(rules: Rules, raws: seq<Bytes>): Second
    requires raws != [] && forall raw <- raws :: rules.parse(raw).Some?
  {
    var last := rules.parse(raws[|raws| - 1]).value.claims.window.issuedAt;
    if |raws| == 1 then last
    else
      var earlier := LatestIssue(rules, raws[..|raws| - 1]);
      if last > earlier then last else earlier
  }

  function EarliestExpiry(rules: Rules, raws: seq<Bytes>): Second
    requires raws != [] && forall raw <- raws :: rules.parse(raw).Some?
  {
    var last := rules.parse(raws[|raws| - 1]).value.claims.window.expiresAt;
    if |raws| == 1 then last
    else
      var earlier := EarliestExpiry(rules, raws[..|raws| - 1]);
      if last < earlier then last else earlier
  }

  /** The moment old history is checked at: the start of the windows' overlap. */
  function HistoricalTime(rules: Rules, raws: seq<Bytes>): Option<Second>
    requires raws != []
  {
    if exists raw <- raws :: rules.parse(raw).None? then None
    else if LatestIssue(rules, raws) >= EarliestExpiry(rules, raws) then None
    else Some(LatestIssue(rules, raws))
  }

  /** Read back a cache file: at the present time, or, with none, as history. */
  function Deserialize(rules: Rules, raw: Bytes, ring: Keyring, now: Option<Moment>): Option<Snapshot> {
    var c := ParseCache(raw);
    if c.None? then None
    else
      var raws := AllRaw(c.value.envelopes);
      var past := HistoricalTime(rules, raws);
      if now.None? && (past.None? || !(past.value <= c.value.acceptedAt < EarliestExpiry(rules, raws))) then None
      else
        var at: Moment := if now.Some? then now.value else Instant(past.value);
        var s := Authenticate(rules, c.value.envelopes, ring, at, c.value.acceptedAt, None);
        if s.None? || s.value.registry.fingerprint != c.value.fingerprint then None
        else if now.Some? && at < c.value.acceptedAt * SECOND then None
        else s
  }

  // ------------------------------------------------------------------ saving

  datatype SaveCall = SaveCall(envelopes: Envelopes, ring: Keyring, now: Moment)

  function FileText(call: SaveCall, s: Snapshot): Bytes {
    CacheText(Cached(call.envelopes, s.acceptedAt, s.registry.fingerprint))
  }

  /** The snapshot a save accepts over this file, and the file it leaves; or nothing. */
  function SaveResult(rules: Rules, file: Option<Bytes>, call: SaveCall): Option<(Snapshot, Bytes)> {
    var previous := if file.None? then None else Deserialize(rules, file.value, call.ring, None);
    if file.Some? && (previous.None? || call.now < previous.value.acceptedAt * SECOND) then None
    else
      var s := Authenticate(rules, call.envelopes, call.ring, call.now, Floor(call.now), previous);
      if s.None? || |FileText(call, s.value)| > MAX_SNAPSHOT then None else Some((s.value, FileText(call, s.value)))
  }

  // ------------------------------------------------------------------ window

  predicate Within(rules: Rules, raw: Bytes, at: Moment) {
    var e := rules.parse(raw);
    e.Some? && e.value.claims.window.issuedAt * SECOND <= at < e.value.claims.window.expiresAt * SECOND
  }

  predicate AllWithin(rules: Rules, raws: seq<Bytes>, at: Moment) { forall raw <- raws :: Within(rules, raw, at) }

  lemma WithinSplits(rules: Rules, raws: seq<Bytes>, at: Moment)
    requires raws != []
    ensures var init, last := raws[..|raws| - 1], raws[|raws| - 1];
            AllWithin(rules, raws, at) <==> AllWithin(rules, init, at) && Within(rules, last, at)
  {
    hide Within;
    assert raws == raws[..|raws| - 1] + [raws[|raws| - 1]];
  }

  lemma {:induction false} OverlapBounds(rules: Rules, raws: seq<Bytes>, at: Moment)
    requires raws != [] && forall raw <- raws :: rules.parse(raw).Some?
    ensures AllWithin(rules, raws, at)
            <==> LatestIssue(rules, raws) * SECOND <= at < EarliestExpiry(rules, raws) * SECOND
    decreases |raws|
  {
    WithinSplits(rules, raws, at);
    if |raws| > 1 {
      hide AllWithin;
      OverlapBounds(rules, raws[..|raws| - 1], at);
    } else {
      assert AllWithin(rules, raws[..0], at);
    }
  }

  // ------------------------------------------- verification at another moment

  /** A document's fields other than those its keyring and registry fix. */
  function DocumentOf(rules: Rules, raw: Bytes, registryDigest: string): Document
    requires rules.parse(raw).Some?
  {
    var e := rules.parse(raw).value;
    var digest := rules.sha(e.payload);
    Document(e.claims, registryDigest, digest, SignerIds(e), Checkpoint(e.claims.window.revision, digest))
  }

  function RegistryOf(rules: Rules, raw: Bytes, fingerprint: string): RegistryDocument
    requires rules.parse(raw).Some?
  {
    var e := rules.parse(raw).value;
    var digest := rules.sha(e.payload);
    RegistryDocument(e.claims, digest, SignerIds(e), Checkpoint(e.claims.window.revision, digest), fingerprint)
  }

  /** A registry once accepted is accepted, as the same document, whenever it is current. */
  lemma RegistryAgain(rules: Rules, raw: Bytes, ring: Keyring, now: Moment, checkpoint: Option<Checkpoint>, at: Moment)
    requires VerifyRegistry(rules, raw, ring, now, checkpoint).Some?
    ensures Within(rules, raw, now) && VerifyRegistry(rules, raw, ring, now, checkpoint).value.claims.Registry?
    ensures VerifyRegistry(rules, raw, ring, now, checkpoint).value == RegistryOf(rules, raw, rules.fingerprint(ring))
    ensures Within(rules, raw, at) ==>
              VerifyRegistry(rules, raw, ring, at, None) == VerifyRegistry(rules, raw, ring, now, checkpoint)
              && RegistryCurrent(rules, VerifyRegistry(rules, raw, ring, now, checkpoint).value, at, ring)
  {
    hide Authorized, SeparateKeys;
  }

  lemma OneAgain(rules: Rules, raw: Bytes, kind: Kind, registry: RegistryDocument, ring: Keyring, now: Moment,
                 remembered: seq<Document>, at: Moment)
    requires registry.claims.Registry? && VerifyOne(rules, raw, kind, registry, ring, now, remembered).Some?
    ensures Within(rules, raw, now)
    ensures VerifyOne(rules, raw, kind, registry, ring, now, remembered).value
            == DocumentOf(rules, raw, registry.digest)
    ensures Within(rules, raw, at) && RegistryCurrent(rules, registry, at, ring) ==>
              VerifyOne(rules, raw, kind, registry, ring, at, [])
                  == VerifyOne(rules, raw, kind, registry, ring, now, remembered)
  {
    hide Authorized, AllowedKeys, RegistryCurrent;
  }

  lemma {:induction false} AllAgain(rules: Rules, raws: seq<Bytes>, kind: Kind, registry: RegistryDocument,
                                    ring: Keyring,
                                    now: Moment, remembered: seq<Document>, at: Moment)
    requires registry.claims.Registry? && VerifyAll(rules, raws, kind, registry, ring, now, remembered).Some?
    ensures AllWithin(rules, raws, now)
    ensures var ds := VerifyAll(rules, raws, kind, registry, ring, now, remembered).value;
            forall i | 0 <= i < |raws| :: rules.parse(raws[i]).Some?
              && ds[i] == DocumentOf(rules, raws[i], registry.digest)
    ensures AllWithin(rules, raws, at) && RegistryCurrent(rules, registry, at, ring) ==>
              VerifyAll(rules, raws, kind, registry, ring, at, [])
                  == VerifyAll(rules, raws, kind, registry, ring, now, remembered)
    decreases |raws|
  {
    hide VerifyOne, Within, RegistryCurrent, DocumentOf, AllWithin;
    NoneWithin(rules, now);
    if raws != [] {
      var init, last := raws[..|raws| - 1], raws[|raws| - 1];
      AllAgain(rules, init, kind, registry, ring, now, remembered, at);
      OneAgain(rules, last, kind, registry, ring, now, remembered, at);
      ParsedIfWithin(rules, last, now);
      WithinSplits(rules, raws, now);
      WithinSplits(rules, raws, at);
    }
  }

  lemma NoneWithin(rules: Rules, at: Moment)
    ensures AllWithin(rules, [], at)
  {
  }

  lemma ParsedIfWithin(rules: Rules, raw: Bytes, at: Moment)
    requires Within(rules, raw, at)
    ensures rules.parse(raw).Some?
  {
  }

  lemma WithinParts(rules: Rules, es: Envelopes, at: Moment)
    ensures AllWithin(rules, AllRaw(es), at) <==>
            Within(rules, es.registry, at) && AllWithin(rules, es.modules, at) && AllWithin(rules, es.integrations, at)
  {
    hide Within;
    var raws := AllRaw(es);
    assert raws[0] == es.registry && es.registry in raws;
    forall raw <- es.modules ensures raw in raws {}
    forall raw <- es.integrations ensures raw in raws {}
  }

  lemma NoHistory(documents: seq<Document>, remembered: seq<Document>)
    requires KeepsHistory(documents, remembered)
    ensures KeepsHistory(documents, [])
  {
  }

  /** What an accepted snapshot owes to its envelopes alone. */
  ghost predicate Determined(rules: Rules, es: Envelopes, fingerprint: string, acceptedAt: Second, s: Snapshot) {
    && rules.parse(es.registry).Some? && s.registry == RegistryOf(rules, es.registry, fingerprint)
    && s.acceptedAt == acceptedAt
    && |s.modules| == |es.modules| && |s.integrations| == |es.integrations|
    && (forall i | 0 <= i < |es.modules| ::
          rules.parse(es.modules[i]).Some? && s.modules[i] == DocumentOf(rules, es.modules[i], s.registry.digest))
    && (forall i | 0 <= i < |es.integrations| ::
          rules.parse(es.integrations[i]).Some?
              && s.integrations[i] == DocumentOf(rules, es.integrations[i], s.registry.digest))
  }

  lemma DeterminedOnce(rules: Rules, es: Envelopes, fingerprint: string, acceptedAt: Second, s: Snapshot, s': Snapshot)
    requires Determined(rules, es, fingerprint, acceptedAt, s) && Determined(rules, es, fingerprint, acceptedAt, s')
    ensures s == s'
  {
    hide DocumentOf, RegistryOf;
    assert s.modules == s'.modules && s.integrations == s'.integrations;
  }

  /** Envelopes once accepted, at any moment and against any history, are accepted as the
      same snapshot, without history, at exactly the moments within all their windows. */
  lemma AcceptedAgain(rules: Rules, es: Envelopes, ring: Keyring, now: Moment, acceptedAt: Second,
                      previous: Option<Snapshot>, at: Moment)
    requires Authenticate(rules, es, ring, now, acceptedAt, previous).Some?
    ensures AllWithin(rules, AllRaw(es), now)
    ensures Determined(rules, es, rules.fingerprint(ring), acceptedAt,
                       Authenticate(rules, es, ring, now, acceptedAt, previous).value)
    ensures AllWithin(rules, AllRaw(es), at) ==>
              Authenticate(rules, es, ring, at, acceptedAt, None)
                  == Authenticate(rules, es, ring, now, acceptedAt, previous)
  {
    hide VerifyRegistry, VerifyAll, KeepsHistory, Within, AllWithin, RegistryOf, DocumentOf, RegistryCurrent, AllRaw;
    var registry := VerifyRegistry(rules, es.registry, ring, now, RegistryCheckpoint(previous)).value;
    WithinParts(rules, es, now);
    WithinParts(rules, es, at);
    RegistryAgain(rules, es.registry, ring, now, RegistryCheckpoint(previous), at);
    ParsedIfWithin(rules, es.registry, now);
    AllAgain(rules, es.modules, Modules, registry, ring, now, ModulesOf(previous), at);
    AllAgain(rules, es.integrations, Integrations, registry, ring, now, IntegrationsOf(previous), at);
    NoHistory(VerifyAll(rules, es.modules, Modules, registry, ring, now, ModulesOf(previous)).value,
        ModulesOf(previous));
    NoHistory(VerifyAll(rules, es.integrations, Integrations, registry, ring, now, IntegrationsOf(previous)).value,
              IntegrationsOf(previous));
  }

  // ------------------------------------------------------------ never wedged

  /** These envelopes, accepted at some moment, are the content of this file. */
  ghost predicate Saved(rules: Rules, call: SaveCall, previous: Option<Snapshot>, s: Snapshot) {
    && Authenticate(rules, call.envelopes, call.ring, call.now, Floor(call.now), previous) == Some(s)
    && |FileText(call, s)| <= MAX_SNAPSHOT
  }

  lemma AcceptedSizes(rules: Rules, raws: seq<Bytes>, at: Moment)
    requires Parses(rules) && AllWithin(rules, raws, at)
    ensures forall raw <- raws :: EnvelopeSized(raw)
  {
    forall raw <- raws ensures EnvelopeSized(raw) {
      assert Within(rules, raw, at) && Contract(raw, rules.parse(raw).value);
    }
  }

  lemma AcceptedCounts(rules: Rules, es: Envelopes, ring: Keyring, now: Moment, acceptedAt: Second,
                       previous: Option<Snapshot>)
    requires Authenticate(rules, es, ring, now, acceptedAt, previous).Some?
    ensures |es.modules| <= MAX_DOCUMENTS && |es.integrations| <= MAX_DOCUMENTS
  {
    hide VerifyRegistry, VerifyAll, KeepsHistory;
  }

  lemma DeterminedParts(rules: Rules, es: Envelopes, fingerprint: string, acceptedAt: Second, s: Snapshot)
    requires Determined(rules, es, fingerprint, acceptedAt, s)
    ensures s.acceptedAt == acceptedAt && s.registry.fingerprint == fingerprint
  {
    hide DocumentOf;
  }

  lemma SavedFacts(rules: Rules, call: SaveCall, previous: Option<Snapshot>, s: Snapshot)
    requires Saved(rules, call, previous, s)
    ensures s.acceptedAt == Floor(call.now) && s.registry.fingerprint == rules.fingerprint(call.ring)
    ensures AllWithin(rules, AllRaw(call.envelopes), call.now)
    ensures |call.envelopes.modules| <= MAX_DOCUMENTS && |call.envelopes.integrations| <= MAX_DOCUMENTS
    ensures Determined(rules, call.envelopes, s.registry.fingerprint, s.acceptedAt, s)
  {
    hide Authenticate, AllWithin, AllRaw, Determined;
    AcceptedAgain(rules, call.envelopes, call.ring, call.now, Floor(call.now), previous, call.now);
    AcceptedCounts(rules, call.envelopes, call.ring, call.now, Floor(call.now), previous);
    DeterminedParts(rules, call.envelopes, rules.fingerprint(call.ring), Floor(call.now), s);
  }

  lemma SavedSize(rules: Rules, call: SaveCall, previous: Option<Snapshot>, s: Snapshot)
    requires Saved(rules, call, previous, s)
    ensures |CacheText(Cached(call.envelopes, s.acceptedAt, s.registry.fingerprint))| <= MAX_SNAPSHOT
  {
    hide Authenticate, CacheText;
  }

  lemma SavedParses(rules: Rules, call: SaveCall, previous: Option<Snapshot>, s: Snapshot)
    requires Parses(rules) && Saved(rules, call, previous, s)
    ensures ParseCache(FileText(call, s)) == Some(Cached(call.envelopes, s.acceptedAt, s.registry.fingerprint))
  {
    hide Authenticate, ParseCache, CacheText, AllWithin, EnvelopeSized, AllRaw, Determined, Parses, Saved, Floor,
         Patterns.Hex;
    SavedSize(rules, call, previous, s);
    SavedFacts(rules, call, previous, s);
    AcceptedSizes(rules, AllRaw(call.envelopes), call.now);
    SizedParts(call.envelopes);
    FingerprintHex(rules, call.ring);
    ParsesWritten(Cached(call.envelopes, s.acceptedAt, s.registry.fingerprint));
  }

  lemma SizedParts(es: Envelopes)
    requires forall raw <- AllRaw(es) :: EnvelopeSized(raw)
    ensures EnvelopeSized(es.registry) && (forall raw <- es.modules :: EnvelopeSized(raw))
            && forall raw <- es.integrations :: EnvelopeSized(raw)
  {
    hide EnvelopeSized;
    assert AllRaw(es)[0] == es.registry;
    forall raw <- es.modules ensures raw in AllRaw(es) {}
    forall raw <- es.integrations ensures raw in AllRaw(es) {}
  }

  lemma FingerprintHex(rules: Rules, ring: Keyring)
    ensures Patterns.Hex(rules.fingerprint(ring), 64)
  {
  }

  /** The overlap of the windows starts no later than the floored acceptance and ends after it. */
  lemma OverlapHoldsAcceptance(rules: Rules, es: Envelopes, now: Moment)
    requires AllWithin(rules, AllRaw(es), now)
    ensures forall raw <- AllRaw(es) :: rules.parse(raw).Some?
    ensures HistoricalTime(rules, AllRaw(es)) == Some(LatestIssue(rules, AllRaw(es)))
    ensures LatestIssue(rules, AllRaw(es)) <= Floor(now) < EarliestExpiry(rules, AllRaw(es))
    ensures AllWithin(rules, AllRaw(es), Instant(LatestIssue(rules, AllRaw(es))))
  {
    forall raw <- AllRaw(es) ensures rules.parse(raw).Some? { assert Within(rules, raw, now); }
    hide Within, AllRaw, LatestIssue, EarliestExpiry, AllWithin;
    OverlapBounds(rules, AllRaw(es), now);
    OverlapBounds(rules, AllRaw(es), Instant(LatestIssue(rules, AllRaw(es))));
  }

  /** What a save wrote is accepted back as history, by the same keyring, as exactly the
      snapshot it returned: the cache never refuses its own content. */
  lemma HistoryAcceptsSaved(rules: Rules, call: SaveCall, previous: Option<Snapshot>, s: Snapshot)
    requires Parses(rules) && Saved(rules, call, previous, s)
    ensures Deserialize(rules, FileText(call, s), call.ring, None) == Some(s)
  {
    hide Authenticate, ParseCache, FileText, AllWithin, AllRaw, LatestIssue, EarliestExpiry, HistoricalTime,
         Determined, Parses;
    SavedFacts(rules, call, previous, s);
    SavedParses(rules, call, previous, s);
    OverlapHoldsAcceptance(rules, call.envelopes, call.now);
    AcceptedAgain(rules, call.envelopes, call.ring, call.now, s.acceptedAt, previous,
                  Instant(LatestIssue(rules, AllRaw(call.envelopes))));
  }

  /** A load at any moment accepts what was saved, as the same snapshot, exactly from the
      acceptance until the earliest expiry. */
  lemma LoadsExactlyUntilExpiry(rules: Rules, call: SaveCall, previous: Option<Snapshot>, s: Snapshot, at: Moment)
    requires Parses(rules) && Saved(rules, call, previous, s)
    ensures forall raw <- AllRaw(call.envelopes) :: rules.parse(raw).Some?
    ensures Deserialize(rules, FileText(call, s), call.ring, Some(at)) ==
            if s.acceptedAt * SECOND <= at < EarliestExpiry(rules, AllRaw(call.envelopes)) * SECOND
            then Some(s) else None
  {
    hide Authenticate, ParseCache, FileText, AllWithin, AllRaw, LatestIssue, EarliestExpiry, HistoricalTime,
         Determined, Parses;
    SavedFacts(rules, call, previous, s);
    SavedParses(rules, call, previous, s);
    OverlapHoldsAcceptance(rules, call.envelopes, call.now);
    OverlapBounds(rules, AllRaw(call.envelopes), at);
    AcceptedAgain(rules, call.envelopes, call.ring, call.now, s.acceptedAt, previous, at);
    if Authenticate(rules, call.envelopes, call.ring, at, s.acceptedAt, None).Some? {
      AcceptedAgain(rules, call.envelopes, call.ring, at, s.acceptedAt, None, at);
    }
  }

  /** Under any keyring and at any moment, reading the file gives that snapshot or nothing. */
  lemma NothingElseIsRead(rules: Rules, call: SaveCall, previous: Option<Snapshot>, s: Snapshot, ring: Keyring,
                          now: Option<Moment>)
    requires Parses(rules) && Saved(rules, call, previous, s)
    ensures var r := Deserialize(rules, FileText(call, s), ring, now); r.None? || r == Some(s)
  {
    hide Authenticate, ParseCache, FileText, AllWithin, AllRaw, LatestIssue, EarliestExpiry, HistoricalTime,
         Determined, Parses;
    SavedFacts(rules, call, previous, s);
    SavedParses(rules, call, previous, s);
    var r := Deserialize(rules, FileText(call, s), ring, now);
    if r.Some? {
      var at: Moment := if now.Some? then now.value else Instant(HistoricalTime(rules, AllRaw(call.envelopes)).value);
      AcceptedAgain(rules, call.envelopes, ring, at, s.acceptedAt, None, at);
      DeterminedParts(rules, call.envelopes, rules.fingerprint(ring), s.acceptedAt, r.value);
      DeterminedOnce(rules, call.envelopes, s.registry.fingerprint, s.acceptedAt, s, r.value);
    }
  }
}
