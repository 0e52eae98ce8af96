/** What it takes for a signed document to be accepted, in the words of keys, signatures,
    windows and revisions, and that every document of a saved catalog had it. */
module CatalogTrust {
  import opened Wrappers
  import opened Timestamps
  import opened ActiveReceipts
  import opened CatalogVerification
  import opened CatalogState
  import opened CatalogCache
  import opened CatalogRuns

  // ------------------------------------------------------------------- pinned keys

  lemma {:induction false} KeyOfExactly(ring: Keyring, id: string, key: PublicKey)
    requires forall i, j | 0 <= i < j < |ring.keys| :: ring.keys[i].id != ring.keys[j].id
    ensures KeyOf(ring, id) == Some(key) <==> key in ring.keys && key.id == id
    decreases |ring.keys|
  {
    if ring.keys != [] {
      var rest := ring.(keys := ring.keys[1..]);
      assert ring.keys == [ring.keys[0]] + rest.keys;
      KeyOfExactly(rest, id, key);
      if ring.keys[0].id == id && key in rest.keys {
        var j :| 0 <= j < |rest.keys| && rest.keys[j] == key;
        assert ring.keys[j + 1] == key;
      }
    }
  }

  /** A pinned key of the signer's name made this signature over these very bytes. */
  predicate Vouched(rules: Rules, ring: Keyring, s: Signature, payload: Bytes) {
    exists key <- ring.keys :: key.id == s.keyId && rules.signed(key.raw, payload, s.raw)
  }

  predicate Pinned(ring: Keyring, id: string) { exists key <- ring.keys :: key.id == id }

  lemma PinnedExactly(ring: Keyring, id: string)
    requires ValidKeyring(ring)
    ensures KeyOf(ring, id).Some? <==> Pinned(ring, id)
  {
    if key :| key in ring.keys && key.id == id { KeyOfExactly(ring, id, key); }
  }

  lemma SignedByExactly(rules: Rules, ring: Keyring, allowed: seq<string>, payload: Bytes, s: Signature)
    requires ValidKeyring(ring)
    ensures SignedBy(rules, ring, allowed, payload, s) <==> s.keyId in allowed && Vouched(rules, ring, s, payload)
  {
    hide KeyOf;
    forall key ensures KeyOf(ring, s.keyId) == Some(key) <==> key in ring.keys && key.id == s.keyId {
      KeyOfExactly(ring, s.keyId, key);
    }
  }

  // --------------------------------------------------------------------- delegation

  lemma DistinctJoin(a: seq<string>, b: seq<string>)
    ensures Distinct(a + b) <==> Distinct(a) && Distinct(b) && forall k <- a :: k !in b
  {
    var all := a + b;
    if Distinct(all) {
      forall i, j | 0 <= i < j < |a| ensures a[i] != a[j] { assert all[i] != all[j]; }
      forall i, j | 0 <= i < j < |b| ensures b[i] != b[j] { assert all[|a| + i] != all[|a| + j]; }
      forall k <- a ensures k !in b {
        var i :| 0 <= i < |a| && a[i] == k;
        forall j | 0 <= j < |b| ensures b[j] != k { assert all[i] != all[|a| + j]; }
      }
    }
    if Distinct(a) && Distinct(b) && forall k <- a :: k !in b {
      forall i, j | 0 <= i < j < |all| ensures all[i] != all[j] {
        if i < |a| <= j { assert all[i] in a && all[j] in b; }
      }
    }
  }

  /** No key stands at two places in the modules' key lists. */
  ghost predicate OncePerModule(modules: seq<Authority>) {
    forall i, j, a, b | 0 <= i < |modules| && 0 <= j < |modules| && 0 <= a < |modules[i].keys|
                        && 0 <= b < |modules[j].keys| && (i != j || a != b) :: modules[i].keys[a] != modules[j].keys[b]
  }

  lemma {:induction false} ModuleKeysMembers(modules: seq<Authority>, key: string)
    ensures key in ModuleKeys(modules) <==> exists m <- modules :: key in m.keys
    decreases |modules|
  {
    if modules != [] {
      var init := modules[..|modules| - 1];
      assert modules == init + [modules[|modules| - 1]];
      ModuleKeysMembers(init, key);
    }
  }

  lemma NotInLater(modules: seq<Authority>, i: nat, a: nat, j: nat)
    requires OncePerModule(modules) && i < j < |modules| && a < |modules[i].keys|
    ensures modules[i].keys[a] !in modules[j].keys
  {
    forall b | 0 <= b < |modules[j].keys| ensures modules[j].keys[b] != modules[i].keys[a] {}
  }

  lemma OnceStep(modules: seq<Authority>, last: Authority)
    ensures OncePerModule(modules + [last]) <==>
            OncePerModule(modules) && Distinct(last.keys) && forall m <- modules, k <- m.keys :: k !in last.keys
  {
    var all := modules + [last];
    if OncePerModule(all) {
      forall i, j, a, b | 0 <= i < |modules| && 0 <= j < |modules| && 0 <= a < |modules[i].keys|
                          && 0 <= b < |modules[j].keys| && (i != j || a != b)
        ensures modules[i].keys[a] != modules[j].keys[b]
      {
        assert all[i].keys[a] != all[j].keys[b];
      }
      forall a, b | 0 <= a < b < |last.keys| ensures last.keys[a] != last.keys[b] {
        assert all[|modules|].keys[a] != all[|modules|].keys[b];
      }
      forall m <- modules, k <- m.keys ensures k !in last.keys {
        var i :| 0 <= i < |modules| && modules[i] == m;
        var a :| 0 <= a < |m.keys| && m.keys[a] == k;
        NotInLater(all, i, a, |modules|);
      }
    }
    if OncePerModule(modules) && Distinct(last.keys) && forall m <- modules, k <- m.keys :: k !in last.keys {
      forall i, j, a, b | 0 <= i < |all| && 0 <= j < |all| && 0 <= a < |all[i].keys| && 0 <= b < |all[j].keys|
                          && (i != j || a != b)
        ensures all[i].keys[a] != all[j].keys[b]
      {
        if i < |modules| && j < |modules| {
          assert modules[i].keys[a] != modules[j].keys[b];
        } else if i < |modules| {
          assert modules[i] in modules && modules[i].keys[a] in modules[i].keys && last.keys[b] in last.keys;
        } else if j < |modules| {
          assert modules[j] in modules && modules[j].keys[b] in modules[j].keys && last.keys[a] in last.keys;
        } else if a < b {
          assert last.keys[a] != last.keys[b];
        } else {
          assert last.keys[b] != last.keys[a];
        }
      }
    }
  }

  lemma {:induction false} ModuleKeysDistinct(modules: seq<Authority>)
    ensures Distinct(ModuleKeys(modules)) <==> OncePerModule(modules)
    decreases |modules|
  {
    hide Distinct, OncePerModule;
    if modules == [] {
      NoModuleKeys();
    } else {
      var init, last := modules[..|modules| - 1], modules[|modules| - 1];
      assert modules == init + [last];
      ModuleKeysDistinct(init);
      OnceStep(init, last);
      DistinctJoin(ModuleKeys(init), last.keys);
      forall k ensures k in ModuleKeys(init) <==> exists m <- init :: k in m.keys { ModuleKeysMembers(init, k); }
    }
  }

  lemma NoModuleKeys()
    ensures Distinct(ModuleKeys([])) && OncePerModule([])
  {
  }

  /** Every delegated key is pinned, is no root, and is delegated in one place only. */
  ghost predicate DelegatedOnce(ring: Keyring, modules: seq<Authority>, others: seq<string>) {
    && (forall m <- modules, k <- m.keys :: Pinned(ring, k) && k !in ring.roots && k !in others)
    && (forall k <- others :: Pinned(ring, k) && k !in ring.roots)
    && OncePerModule(modules) && forall a, b | 0 <= a < b < |others| :: others[a] != others[b]
  }

  lemma SeparateExactly(ring: Keyring, modules: seq<Authority>, others: seq<string>)
    requires ValidKeyring(ring)
    ensures SeparateKeys(ring, Delegated(modules, others)) <==> DelegatedOnce(ring, modules, others)
  {
    hide ValidKeyring, KeyOf, OncePerModule, Pinned, ModuleKeys;
    ModuleKeysDistinct(modules);
    DistinctJoin(ModuleKeys(modules), others);
    forall k ensures k in ModuleKeys(modules) <==> exists m <- modules :: k in m.keys { ModuleKeysMembers(modules, k); }
    forall k ensures KeyOf(ring, k).Some? <==> Pinned(ring, k) { PinnedExactly(ring, k); }
  }

  // --------------------------------------------------------------------- acceptance

  /** The document is in its window, and neither older than the remembered revision nor
      different at the same one. */
  predicate Timely(w: Window, now: Moment, checkpoint: Option<Checkpoint>, digest: string) {
    && w.issuedAt * 1_000_000 <= now < w.expiresAt * 1_000_000
    && (checkpoint.Some? ==>
          w.revision > checkpoint.value.revision
          || (w.revision == checkpoint.value.revision && digest == checkpoint.value.digest))
  }

  /** A registry is accepted if and only if enough roots, and nobody else, signed its very
      payload, every delegation in it is apart from the roots and from the others, and it
      is timely. */
  lemma RegistryAcceptedExactly(rules: Rules, raw: Bytes, ring: Keyring, now: Moment, checkpoint: Option<Checkpoint>)
    requires ValidKeyring(ring)
    ensures VerifyRegistry(rules, raw, ring, now, checkpoint).Some? <==>
            rules.parse(raw).Some? && rules.parse(raw).value.claims.Registry?
            && var e := rules.parse(raw).value;
               && |e.signatures| >= ring.threshold
               && (forall s <- e.signatures :: s.keyId in ring.roots && Vouched(rules, ring, s, e.payload))
               && DelegatedOnce(ring, e.claims.modules, e.claims.integrationKeys)
               && Timely(e.claims.window, now, checkpoint, rules.sha(e.payload))
    ensures var d := VerifyRegistry(rules, raw, ring, now, checkpoint);
            d.Some? ==>
              var e := rules.parse(raw).value;
              && d.value.claims == e.claims && d.value.digest == rules.sha(e.payload)
              && |d.value.signers| == |e.signatures|
              && (forall i | 0 <= i < |e.signatures| :: d.value.signers[i] == e.signatures[i].keyId)
              && d.value.checkpoint == Checkpoint(e.claims.window.revision, rules.sha(e.payload))
              && d.value.fingerprint == rules.fingerprint(ring)
  {
    hide ValidKeyring, KeyOf, SeparateKeys, Delegated, DelegatedOnce, Vouched, SignedBy;
    if rules.parse(raw).Some? {
      var e := rules.parse(raw).value;
      forall s <- e.signatures
        ensures SignedBy(rules, ring, ring.roots, e.payload, s) <==>
                s.keyId in ring.roots && Vouched(rules, ring, s, e.payload)
      {
        SignedByExactly(rules, ring, ring.roots, e.payload, s);
      }
      if e.claims.Registry? { SeparateExactly(ring, e.claims.modules, e.claims.integrationKeys); }
    }
  }

  /** The keys that may sign these claims: the one registered module's with this very
      repository and distribution, or the integrators'. */
  ghost predicate MaySign(registry: Claims, claims: Claims, key: string)
    requires registry.Registry?
  {
    match claims
    case Registry(_, _, _) => false
    case Module(_, component, repository, distribution) =>
      exists i | 0 <= i < |registry.modules| ::
        && registry.modules[i].component == component && key in registry.modules[i].keys
        && registry.modules[i].repository == repository && registry.modules[i].distribution == distribution
        && forall j | 0 <= j < |registry.modules| && j != i :: registry.modules[j].component != component
    case Integration(_, _) => key in registry.integrationKeys
  }

  lemma {:induction false} AuthoritiesExactly(modules: seq<Authority>, component: string)
    ensures |Authorities(modules, component)| == 1 <==>
            exists i :: OnlyOne(modules, component, i)
    ensures forall i | OnlyOne(modules, component, i) :: Authorities(modules, component) == [modules[i]]
  {
    if modules != [] {
      AuthoritiesExactly(modules[1..], component);
      NoAuthority(modules[1..], component);
      if modules[0].component == component {
        if Authorities(modules[1..], component) == [] {
          assert OnlyOne(modules, component, 0);
        }
        forall i | OnlyOne(modules, component, i) ensures i == 0 && Authorities(modules[1..], component) == [] {
          assert i == 0;
          forall a <- modules[1..] ensures a.component != component {
            var k :| 0 <= k < |modules| - 1 && modules[1..][k] == a;
            assert modules[k + 1].component != component;
          }
        }
      } else {
        forall i ensures OnlyOne(modules, component, i) <==> OnlyOne(modules[1..], component, i - 1) {
          if OnlyOne(modules, component, i) {
            forall j | 0 <= j < |modules| - 1 && j != i - 1 ensures modules[1..][j].component != component {
              assert modules[j + 1].component != component;
            }
          }
        }
        if i :| OnlyOne(modules[1..], component, i) { assert OnlyOne(modules, component, i + 1); }
        if i :| OnlyOne(modules, component, i) { assert OnlyOne(modules[1..], component, i - 1); }
      }
    }
  }

  ghost predicate OnlyOne(modules: seq<Authority>, component: string, i: int) {
    && 0 <= i < |modules| && modules[i].component == component
    && forall j | 0 <= j < |modules| && j != i :: modules[j].component != component
  }

  lemma {:induction false} NoAuthority(modules: seq<Authority>, component: string)
    ensures Authorities(modules, component) == [] <==> forall a <- modules :: a.component != component
  {
    if modules != [] {
      assert modules == [modules[0]] + modules[1..];
      NoAuthority(modules[1..], component);
    }
  }

  lemma MaySignExactly(registry: Claims, claims: Claims, key: string)
    requires registry.Registry?
    ensures MaySign(registry, claims, key) <==>
            AllowedKeys(registry, claims).Some? && key in AllowedKeys(registry, claims).value
  {
    hide Authorities;
    match claims
    case Module(_, component, repository, distribution) =>
      AuthoritiesExactly(registry.modules, component);
      if i :| OnlyOne(registry.modules, component, i) {}
      if MaySign(registry, claims, key) {
        var i :| 0 <= i < |registry.modules| && registry.modules[i].component == component
                 && forall j | 0 <= j < |registry.modules| && j != i :: registry.modules[j].component != component;
        assert OnlyOne(registry.modules, component, i);
      }
    case _ =>
  }

  /** A module or integration document is accepted if and only if its registry was verified
      under this very keyring and is still timely, at least one key that may sign it did,
      nobody else, over its very payload, and it is timely. */
  lemma DocumentAcceptedExactly(rules: Rules, raw: Bytes, registry: RegistryDocument, ring: Keyring, now: Moment,
                                checkpoint: Option<Checkpoint>)
    requires ValidKeyring(ring) && registry.claims.Registry?
    ensures VerifyDelegated(rules, raw, registry, ring, now, checkpoint).Some? <==>
            && registry.fingerprint == rules.fingerprint(ring)
            && Timely(registry.claims.window, now, Some(registry.checkpoint), registry.digest)
            && rules.parse(raw).Some?
            && var e := rules.parse(raw).value;
               && |e.signatures| >= 1
               && (forall s <- e.signatures ::
                     MaySign(registry.claims, e.claims, s.keyId) && Vouched(rules, ring, s, e.payload))
               && Timely(e.claims.window, now, checkpoint, rules.sha(e.payload))
    ensures var d := VerifyDelegated(rules, raw, registry, ring, now, checkpoint);
            d.Some? ==>
              var e := rules.parse(raw).value;
              && d.value.claims == e.claims && d.value.digest == rules.sha(e.payload)
              && d.value.registryDigest == registry.digest && |d.value.signers| == |e.signatures|
              && (forall i | 0 <= i < |e.signatures| :: d.value.signers[i] == e.signatures[i].keyId)
              && d.value.checkpoint == Checkpoint(e.claims.window.revision, rules.sha(e.payload))
  {
    hide ValidKeyring, KeyOf, AllowedKeys, MaySign, Vouched, SignedBy;
    if rules.parse(raw).Some? {
      var e := rules.parse(raw).value;
      var allowed := AllowedKeys(registry.claims, e.claims);
      if e.signatures != [] { assert e.signatures[0] in e.signatures; }
      forall s <- e.signatures
        ensures MaySign(registry.claims, e.claims, s.keyId) <==> allowed.Some? && s.keyId in allowed.value
        ensures allowed.Some? ==>
                  (SignedBy(rules, ring, allowed.value, e.payload, s) <==>
                   s.keyId in allowed.value && Vouched(rules, ring, s, e.payload))
      {
        MaySignExactly(registry.claims, e.claims, s.keyId);
        if allowed.Some? { SignedByExactly(rules, ring, allowed.value, e.payload, s); }
      }
    }
  }

  // ---------------------------------------------------------------- whole snapshots

  /** The document is what these bytes claim, and keys that may sign it, at least one and
      nobody else, signed their payload. */
  ghost predicate Genuine(rules: Rules, ring: Keyring, registry: RegistryDocument, raw: Bytes, d: Document)
    requires registry.claims.Registry?
  {
    var e := rules.parse(raw);
    && e.Some? && d.claims == e.value.claims && d.digest == rules.sha(e.value.payload)
    && d.registryDigest == registry.digest && |e.value.signatures| >= 1
    && forall s <- e.value.signatures ::
         MaySign(registry.claims, e.value.claims, s.keyId) && Vouched(rules, ring, s, e.value.payload)
  }

  /** The registry is what these bytes claim, and enough roots, and nobody else, signed it. */
  ghost predicate GenuineRegistry(rules: Rules, ring: Keyring, raw: Bytes, d: RegistryDocument) {
    var e := rules.parse(raw);
    && e.Some? && d.claims == e.value.claims && d.claims.Registry? && d.digest == rules.sha(e.value.payload)
    && |e.value.signatures| >= ring.threshold
    && forall s <- e.value.signatures :: s.keyId in ring.roots && Vouched(rules, ring, s, e.value.payload)
  }

  ghost predicate GenuineSnapshot(rules: Rules, ring: Keyring, es: Envelopes, s: Snapshot) {
    && GenuineRegistry(rules, ring, es.registry, s.registry)
    && |s.modules| == |es.modules| && |s.integrations| == |es.integrations|
    && (forall i | 0 <= i < |s.modules| ::
          s.modules[i].claims.Module? && Genuine(rules, ring, s.registry, es.modules[i], s.modules[i]))
    && forall i | 0 <= i < |s.integrations| ::
         s.integrations[i].claims.Integration?
         && Genuine(rules, ring, s.registry, es.integrations[i], s.integrations[i])
  }

  lemma DelegatedIsGenuine(rules: Rules, raw: Bytes, kind: Kind, registry: RegistryDocument, ring: Keyring,
                           now: Moment, remembered: seq<Document>)
    requires ValidKeyring(ring) && registry.claims.Registry?
    ensures var d := VerifyOne(rules, raw, kind, registry, ring, now, remembered);
            d.Some? ==> Genuine(rules, ring, registry, raw, d.value)
  {
    hide ValidKeyring, VerifyDelegated, MaySign, Vouched, Timely, Remembered;
    if VerifyOne(rules, raw, kind, registry, ring, now, remembered).Some? {
      var checkpoint := Remembered(remembered, Subject(rules.parse(raw).value.claims));
      DocumentAcceptedExactly(rules, raw, registry, ring, now, checkpoint);
    }
  }

  /** Whatever an authentication accepts was signed so, document by document. */
  lemma AuthenticatedIsGenuine(rules: Rules, es: Envelopes, ring: Keyring, now: Moment, at: Second,
                               previous: Option<Snapshot>)
    requires ValidKeyring(ring) && Authenticate(rules, es, ring, now, at, previous).Some?
    ensures GenuineSnapshot(rules, ring, es, Authenticate(rules, es, ring, now, at, previous).value)
  {
    hide ValidKeyring, Authenticate, VerifyRegistry, VerifyAll, VerifyOne, KeepsHistory, Genuine, Vouched, Timely,
         DelegatedOnce;
    SnapshotParts(rules, es, ring, now, at, previous);
    var s := Authenticate(rules, es, ring, now, at, previous).value;
    RegistryAcceptedExactly(rules, es.registry, ring, now, RegistryCheckpoint(previous));
    forall i | 0 <= i < |es.modules|
      ensures s.modules[i].claims.Module? && Genuine(rules, ring, s.registry, es.modules[i], s.modules[i])
    {
      EachVerified(rules, es.modules, Modules, s.registry, ring, now, ModulesOf(previous), i);
      DelegatedIsGenuine(rules, es.modules[i], Modules, s.registry, ring, now, ModulesOf(previous));
    }
    forall i | 0 <= i < |es.integrations|
      ensures s.integrations[i].claims.Integration?
              && Genuine(rules, ring, s.registry, es.integrations[i], s.integrations[i])
    {
      EachVerified(rules, es.integrations, Integrations, s.registry, ring, now, IntegrationsOf(previous), i);
      DelegatedIsGenuine(rules, es.integrations[i], Integrations, s.registry, ring, now, IntegrationsOf(previous));
    }
  }

  /** Every document of a snapshot a save returns was signed so, over every run of saves. */
  lemma SavedIsGenuine(rules: Rules, calls: seq<SaveCall>, k: nat)
    requires k < |calls| && ValidKeyring(calls[k].ring) && SavedAt(rules, calls, k).Some?
    ensures GenuineSnapshot(rules, calls[k].ring, calls[k].envelopes, SavedAt(rules, calls, k).value)
  {
    hide ValidKeyring, Authenticate, Deserialize, FileText, GenuineSnapshot, FileAfter;
    var file, call := FileAfter(rules, calls[..k]), calls[k];
    var previous := if file.None? then None else Deserialize(rules, file.value, call.ring, None);
    AuthenticatedIsGenuine(rules, call.envelopes, call.ring, call.now, Floor(call.now), previous);
  }

  /** And so was every document of whatever file is read, now or as history. */
  lemma ReadIsGenuine(rules: Rules, raw: Bytes, ring: Keyring, now: Option<Moment>)
    requires ValidKeyring(ring) && Deserialize(rules, raw, ring, now).Some?
    ensures ParseCache(raw).Some?
    ensures GenuineSnapshot(rules, ring, ParseCache(raw).value.envelopes, Deserialize(rules, raw, ring, now).value)
  {
    hide ValidKeyring, Authenticate, ParseCache, GenuineSnapshot, HistoricalTime, EarliestExpiry;
    var c := ParseCache(raw).value;
    var at: Moment := if now.Some? then now.value else Instant(HistoricalTime(rules, AllRaw(c.envelopes)).value);
    AuthenticatedIsGenuine(rules, c.envelopes, ring, at, c.acceptedAt, None);
  }

  // -------------------------------------------------------- acceptance of a snapshot

  /** What is remembered of a subject: the checkpoint of its one document, if it has one. */
  lemma {:induction false} RememberedExactly(documents: seq<Document>, subject: string, c: Checkpoint)
    requires forall i, j | 0 <= i < j < |documents| :: Subject(documents[i].claims) != Subject(documents[j].claims)
    ensures Remembered(documents, subject) == Some(c) <==>
            exists d <- documents :: Subject(d.claims) == subject && d.checkpoint == c
  {
    if documents != [] {
      assert documents == [documents[0]] + documents[1..];
      RememberedExactly(documents[1..], subject, c);
      if Subject(documents[0].claims) == subject {
        forall d <- documents[1..] ensures Subject(d.claims) != subject {
          var j :| 0 <= j < |documents| - 1 && documents[1..][j] == d;
          assert documents[j + 1] == d;
        }
      }
    }
  }

  lemma {:induction false} AllVerified(rules: Rules, raws: seq<Bytes>, kind: Kind, registry: RegistryDocument,
                                       ring: Keyring, now: Moment, remembered: seq<Document>)
    requires registry.claims.Registry?
    ensures VerifyAll(rules, raws, kind, registry, ring, now, remembered).Some? <==>
            forall raw <- raws :: VerifyOne(rules, raw, kind, registry, ring, now, remembered).Some?
    decreases |raws|
  {
    hide VerifyOne;
    if raws != [] {
      var init := raws[..|raws| - 1];
      assert raws == init + [raws[|raws| - 1]];
      AllVerified(rules, init, kind, registry, ring, now, remembered);
    }
  }

  /** No identity twice, and none that was remembered left out. */
  ghost predicate CarriesOn(names: seq<string>, remembered: seq<string>) {
    && (forall i, j | 0 <= i < j < |names| :: names[i] != names[j]) && forall n <- remembered :: n in names
  }

  /** The identity a document's bytes claim: a component or a feature. */
  function Claimed(rules: Rules, raw: Bytes): string {
    var e := rules.parse(raw);
    if e.None? then ""
    else
      match e.value.claims
      case Registry(_, _, _) => ""
      case Module(_, component, _, _) => component
      case Integration(_, feature) => feature
  }

  function ClaimedAll(rules: Rules, raws: seq<Bytes>): seq<string> {
    seq(|raws|, i requires 0 <= i < |raws| => Claimed(rules, raws[i]))
  }

  function Identities(documents: seq<Document>): seq<string> {
    seq(|documents|, i requires 0 <= i < |documents| =>
      match documents[i].claims
      case Registry(_, _, _) => ""
      case Module(_, component, _, _) => component
      case Integration(_, feature) => feature)
  }

  lemma KeepsExactly(rules: Rules, raws: seq<Bytes>, kind: Kind, registry: RegistryDocument, ring: Keyring, now: Moment,
                     remembered: seq<Document>)
    requires registry.claims.Registry? && VerifyAll(rules, raws, kind, registry, ring, now, remembered).Some?
    ensures KeepsHistory(VerifyAll(rules, raws, kind, registry, ring, now, remembered).value, remembered) <==>
            CarriesOn(ClaimedAll(rules, raws), Identities(remembered))
  {
    hide VerifyAll, VerifyOne;
    var documents := VerifyAll(rules, raws, kind, registry, ring, now, remembered).value;
    forall i | 0 <= i < |raws| ensures Subjects(documents)[i] == ClaimedAll(rules, raws)[i] {
      EachVerified(rules, raws, kind, registry, ring, now, remembered, i);
      SubjectClaimed(rules, raws[i], kind, registry, ring, now, remembered);
    }
    assert Subjects(documents) == ClaimedAll(rules, raws);
    assert Subjects(remembered) == Identities(remembered);
  }

  lemma SubjectClaimed(rules: Rules, raw: Bytes, kind: Kind, registry: RegistryDocument, ring: Keyring, now: Moment,
                       remembered: seq<Document>)
    requires registry.claims.Registry? && VerifyOne(rules, raw, kind, registry, ring, now, remembered).Some?
    ensures Subject(VerifyOne(rules, raw, kind, registry, ring, now, remembered).value.claims) == Claimed(rules, raw)
  {
    hide RegistryCurrent, AllowedKeys, Authorized, Validity, Remembered;
  }

  /** Envelopes are accepted as a snapshot if and only if there are at most 32 of each kind,
      the registry is accepted against its remembered checkpoint, every document is of its
      kind and accepted under that registry against what is remembered of its identity, no
      identity comes twice and none that was remembered is left out. */
  lemma SnapshotAcceptedExactly(rules: Rules, es: Envelopes, ring: Keyring, now: Moment, at: Second,
                                previous: Option<Snapshot>)
    ensures Authenticate(rules, es, ring, now, at, previous).Some? <==>
            var checkpoint := if previous.None? then None else Some(previous.value.registry.checkpoint);
            var modules := if previous.None? then [] else previous.value.modules;
            var integrations := if previous.None? then [] else previous.value.integrations;
            var registry := VerifyRegistry(rules, es.registry, ring, now, checkpoint);
            && |es.modules| <= 32 && |es.integrations| <= 32
            && registry.Some? && registry.value.claims.Registry?
            && (forall raw <- es.modules ::
                  rules.parse(raw).Some? && rules.parse(raw).value.claims.Module?
                  && VerifyDelegated(rules, raw, registry.value, ring, now,
                                     Remembered(modules, Claimed(rules, raw))).Some?)
            && (forall raw <- es.integrations ::
                  rules.parse(raw).Some? && rules.parse(raw).value.claims.Integration?
                  && VerifyDelegated(rules, raw, registry.value, ring, now,
                                     Remembered(integrations, Claimed(rules, raw))).Some?)
            && CarriesOn(ClaimedAll(rules, es.modules), Identities(modules))
            && CarriesOn(ClaimedAll(rules, es.integrations), Identities(integrations))
  {
    hide VerifyRegistry, VerifyDelegated, VerifyAll, KeepsHistory, CarriesOn, ClaimedAll, Identities, Remembered;
    IsRegistry(rules, es.registry, ring, now, RegistryCheckpoint(previous));
    var registry := VerifyRegistry(rules, es.registry, ring, now, RegistryCheckpoint(previous));
    if registry.Some? {
      AllVerified(rules, es.modules, Modules, registry.value, ring, now, ModulesOf(previous));
      AllVerified(rules, es.integrations, Integrations, registry.value, ring, now, IntegrationsOf(previous));
      if VerifyAll(rules, es.modules, Modules, registry.value, ring, now, ModulesOf(previous)).Some? {
        KeepsExactly(rules, es.modules, Modules, registry.value, ring, now, ModulesOf(previous));
      }
      if VerifyAll(rules, es.integrations, Integrations, registry.value, ring, now, IntegrationsOf(previous)).Some? {
        KeepsExactly(rules, es.integrations, Integrations, registry.value, ring, now, IntegrationsOf(previous));
      }
    }
  }

  // -------------------------------------------------------------- reading and saving

  /** A file is read now if and only if it parses, was accepted no later than now under
      this very keyring, and is accepted again now, without history. */
  lemma ReadNowExactly(rules: Rules, raw: Bytes, ring: Keyring, now: Moment)
    ensures Deserialize(rules, raw, ring, Some(now)).Some? <==>
            ParseCache(raw).Some?
            && var c := ParseCache(raw).value;
               && c.fingerprint == rules.fingerprint(ring) && c.acceptedAt * 1_000_000 <= now
               && Authenticate(rules, c.envelopes, ring, now, c.acceptedAt, None).Some?
  {
    hide ParseCache, Authenticate, VerifyRegistry, VerifyAll, KeepsHistory, AllRaw, HistoricalTime, EarliestExpiry;
    if ParseCache(raw).Some? {
      FingerprintKept(rules, ParseCache(raw).value.envelopes, ring, now, ParseCache(raw).value.acceptedAt, None);
    }
  }

  lemma FingerprintKept(rules: Rules, es: Envelopes, ring: Keyring, now: Moment, at: Second, previous: Option<Snapshot>)
    ensures var s := Authenticate(rules, es, ring, now, at, previous);
            s.Some? ==> s.value.registry.fingerprint == rules.fingerprint(ring) && s.value.acceptedAt == at
  {
    hide VerifyAll, KeepsHistory, Authorized, SeparateKeys, Validity, VerifyDelegated;
  }

  /** A file is read as history if and only if it parses, was accepted under this very
      keyring at a time inside the windows of all its envelopes, and is accepted again at
      the latest issue among them. */
  lemma ReadHistoryExactly(rules: Rules, raw: Bytes, ring: Keyring)
    ensures Deserialize(rules, raw, ring, None).Some? <==>
            ParseCache(raw).Some?
            && var c := ParseCache(raw).value;
               && c.fingerprint == rules.fingerprint(ring)
               && (forall e <- AllRaw(c.envelopes) ::
                     rules.parse(e).Some?
                     && rules.parse(e).value.claims.window.issuedAt <= c.acceptedAt
                     && c.acceptedAt < rules.parse(e).value.claims.window.expiresAt)
               && Authenticate(rules, c.envelopes, ring, Instant(LatestIssue(rules, AllRaw(c.envelopes))),
                               c.acceptedAt, None).Some?
  {
    hide ParseCache, Authenticate, VerifyRegistry, VerifyAll, KeepsHistory, AllRaw, LatestIssue, EarliestExpiry;
    if ParseCache(raw).Some? {
      var c := ParseCache(raw).value;
      var raws := AllRaw(c.envelopes);
      if forall e <- raws :: rules.parse(e).Some? {
        OverlapBounds(rules, raws, Instant(c.acceptedAt));
        AllWithinAt(rules, raws, c.acceptedAt);
        FingerprintKept(rules, c.envelopes, ring, Instant(LatestIssue(rules, raws)), c.acceptedAt, None);
      }
    }
  }

  lemma AllWithinAt(rules: Rules, raws: seq<Bytes>, at: Second)
    requires forall e <- raws :: rules.parse(e).Some?
    ensures AllWithin(rules, raws, Instant(at)) <==>
            forall e <- raws ::
              rules.parse(e).value.claims.window.issuedAt <= at < rules.parse(e).value.claims.window.expiresAt
  {
    forall e <- raws
      ensures Within(rules, e, Instant(at)) <==>
              rules.parse(e).value.claims.window.issuedAt <= at < rules.parse(e).value.claims.window.expiresAt
    {
    }
    hide Within;
  }

  /** A save goes through if and only if the file is absent, or reads as history accepted no
      later than now, the envelopes are accepted over it, and the new file is at most 4 MiB. */
  lemma SavedExactly(rules: Rules, file: Option<Bytes>, call: SaveCall)
    ensures var previous := if file.None? then None else Deserialize(rules, file.value, call.ring, None);
            var s := Authenticate(rules, call.envelopes, call.ring, call.now, Floor(call.now), previous);
            SaveResult(rules, file, call) ==
            if && (file.Some? ==> previous.Some? && previous.value.acceptedAt * 1_000_000 <= call.now)
               && s.Some?
               && |CacheText(Cached(call.envelopes, s.value.acceptedAt, s.value.registry.fingerprint))| <= 4_194_304
            then Some((s.value, CacheText(Cached(call.envelopes, s.value.acceptedAt, s.value.registry.fingerprint))))
            else None
  {
    hide Deserialize, Authenticate, CacheText;
  }
}
