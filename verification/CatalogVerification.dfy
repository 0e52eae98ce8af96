/** Authorization of signed catalog documents under a pinned keyring: who may sign
    what, within which window, and never below a remembered revision.

    Envelope parsing and Ed25519 are given functions; Contract lists what parsing
    guarantees about every envelope it accepts. */
module CatalogVerification {
  import opened Wrappers
  import opened Timestamps
  import opened ActiveReceipts
  import opened Patterns

  datatype Window = Window(revision: int, issuedAt: Second, expiresAt: Second)

  datatype Authority = Authority(component: string, repository: string, distribution: string, keys: seq<string>)

  datatype Claims =
    | Registry(window: Window, modules: seq<Authority>, integrationKeys: seq<string>)
    | Module(window: Window, component: string, repository: string, distribution: string)
    | Integration(window: Window, feature: string)

  datatype Signature = Signature(keyId: string, raw: Bytes)

  datatype Envelope = Envelope(payload: Bytes, claims: Claims, signatures: seq<Signature>)

  datatype PublicKey = PublicKey(id: string, raw: Bytes)

  datatype Keyring = Keyring(keys: seq<PublicKey>, roots: seq<string>, threshold: int)

  datatype Rules = Rules(
    parse: Bytes -> Option<Envelope>,
    sha: Hash,
    signed: (Bytes, Bytes, Bytes) -> bool,  // public key, message, signature
    fingerprint: Keyring -> Digest)

  const MAX_ENVELOPE: int := 192 * 1024

  predicate Distinct(names: seq<string>) {
    forall i, j | 0 <= i < j < |names| :: names[i] != names[j]
  }

  function SignerIds(e: Envelope): seq<string> {
    seq(|e.signatures|, i requires 0 <= i < |e.signatures| => e.signatures[i].keyId)
  }

  /** What the envelope parser guarantees. */
  predicate Contract(raw: Bytes, e: Envelope) {
    && 1 <= |raw| <= MAX_ENVELOPE && Distinct(SignerIds(e))
    && e.claims.window.issuedAt < e.claims.window.expiresAt && Positive(e.claims.window.revision)
  }

  ghost predicate Parses(rules: Rules) {
    forall raw | rules.parse(raw).Some? :: Contract(raw, rules.parse(raw).value)
  }

  predicate ValidKeyring(ring: Keyring) {
    && 1 <= |ring.keys| <= 64
    && (forall i, j | 0 <= i < j < |ring.keys| ::
        ring.keys[i].id != ring.keys[j].id && ring.keys[i].raw != ring.keys[j].raw)
    && ring.roots != [] && Distinct(ring.roots) && (forall id <- ring.roots :: KeyOf(ring, id).Some?)
    && 1 <= ring.threshold <= |ring.roots|
  }

  function KeyOf(ring: Keyring, id: string): (key: Option<PublicKey>)
    ensures key.Some? ==> key.value in ring.keys && key.value.id == id
    decreases |ring.keys|
  {
    if ring.keys == [] then None
    else if ring.keys[0].id == id then Some(ring.keys[0]) else KeyOf(ring.(keys := ring.keys[1..]), id)
  }

  // ---------------------------------------------------------------- validity

  datatype Checkpoint = Checkpoint(revision: int, digest: string)

  /** The checkpoint a document leaves, when it is current and neither older than the
      remembered revision nor different at the same one. */
  function Validity(w: Window, now: Moment, checkpoint: Option<Checkpoint>, digest: string): Option<Checkpoint> {
    if !(w.issuedAt * SECOND <= now < w.expiresAt * SECOND) then None
    else if checkpoint.Some? && (w.revision < checkpoint.value.revision
                                 || (w.revision == checkpoint.value.revision && digest != checkpoint.value.digest))
    then None
    else Some(Checkpoint(w.revision, digest))
  }

  // ----------------------------------------------------------------- signers

  predicate SignedBy(rules: Rules, ring: Keyring, allowed: seq<string>, payload: Bytes, s: Signature) {
    && s.keyId in allowed && KeyOf(ring, s.keyId).Some?
    && rules.signed(KeyOf(ring, s.keyId).value.raw, payload, s.raw)
  }

  /** Every signature is by an allowed, pinned key over the payload, and there are enough. */
  predicate Authorized(rules: Rules, e: Envelope, ring: Keyring, allowed: seq<string>, required: int) {
    (forall s <- e.signatures :: SignedBy(rules, ring, allowed, e.payload, s)) && |e.signatures| >= required
  }

  method AuthorizedSigners(rules: Rules, e: Envelope, ring: Keyring, allowed: seq<string>, required: int)
    returns (approved: Option<seq<string>>)
    ensures approved == if Authorized(rules, e, ring, allowed, required) then Some(SignerIds(e)) else None
  {
    hide KeyOf;
    var ids: seq<string>, i := [], 0;
    while i < |e.signatures|
      invariant 0 <= i <= |e.signatures| && ids == SignerIds(e)[..i]
      invariant forall k | 0 <= k < i :: SignedBy(rules, ring, allowed, e.payload, e.signatures[k])
    {
      var s := e.signatures[i];
      assert s in e.signatures;
      if s.keyId !in allowed {
        assert !SignedBy(rules, ring, allowed, e.payload, s);
        return None;
      }
      var key := KeyOf(ring, s.keyId);
      if key.None? || !rules.signed(key.value.raw, e.payload, s.raw) { return None; }
      ids, i := ids + [s.keyId], i + 1;
    }
    assert ids == SignerIds(e);
    if |ids| < required { return None; }
    approved := Some(ids);
  }

  // ------------------------------------------------------------- delegations

  function ModuleKeys(modules: seq<Authority>): seq<string> {
    if modules == [] then [] else ModuleKeys(modules[..|modules| - 1]) + modules[|modules| - 1].keys
  }

  function Delegated(modules: seq<Authority>, integrationKeys: seq<string>): seq<string> {
    ModuleKeys(modules) + integrationKeys
  }

  /** No key is a root or delegated twice, and each is pinned. */
  predicate SeparateKeys(ring: Keyring, keys: seq<string>) {
    Distinct(keys) && forall k <- keys :: k !in ring.roots && KeyOf(ring, k).Some?
  }

  method EnsureSeparate(modules: seq<Authority>, integrationKeys: seq<string>, ring: Keyring) returns (ok: bool)
    ensures ok == SeparateKeys(ring, Delegated(modules, integrationKeys))
  {
    var roles: set<string> := set k <- ring.roots;
    var i := 0;
    while i < |modules|
      invariant 0 <= i <= |modules| && SeparateKeys(ring, ModuleKeys(modules[..i]))
      invariant roles == (set k <- ring.roots) + (set k <- ModuleKeys(modules[..i]))
    {
      assert modules[..i + 1][..i] == modules[..i];
      ok, roles := TakeRole(ring, ModuleKeys(modules[..i]), modules[i].keys, roles);
      if !ok {
        ModuleKeysPrefix(modules, i + 1);
        NotSeparatePrefix(ring, ModuleKeys(modules[..i + 1]), Delegated(modules, integrationKeys));
        return;
      }
      i := i + 1;
    }
    assert modules[..i] == modules;
    ok, roles := TakeRole(ring, ModuleKeys(modules), integrationKeys, roles);
  }

  /** Give these keys a role, unless one is unknown or already has one. */
  method TakeRole(ring: Keyring, ghost earlier: seq<string>, keys: seq<string>, roles0: set<string>)
    returns (ok: bool, roles: set<string>)
    requires SeparateKeys(ring, earlier) && roles0 == (set k <- ring.roots) + (set k <- earlier)
    ensures ok == SeparateKeys(ring, earlier + keys)
    ensures ok ==> roles == (set k <- ring.roots) + (set k <- earlier + keys)
  {
    hide KeyOf;
    roles := roles0;
    assert earlier + keys[..0] == earlier;
    var j := 0;
    while j < |keys|
      invariant 0 <= j <= |keys| && SeparateKeys(ring, earlier + keys[..j])
      invariant roles == (set k <- ring.roots) + (set k <- earlier + keys[..j])
    {
      assert earlier + keys[..j + 1] == earlier + keys[..j] + [keys[j]];
      if KeyOf(ring, keys[j]).None? || keys[j] in roles {
        NotSeparateNext(ring, earlier, keys, j);
        return false, roles;
      }
      roles, j := roles + {keys[j]}, j + 1;
    }
    assert earlier + keys[..j] == earlier + keys;
    ok := true;
  }

  lemma NotSeparateNext(ring: Keyring, earlier: seq<string>, keys: seq<string>, j: nat)
    requires j < |keys|
    requires KeyOf(ring, keys[j]).None? || keys[j] in ring.roots || keys[j] in earlier + keys[..j]
    ensures !SeparateKeys(ring, earlier + keys)
  {
    hide KeyOf;
    var all := earlier + keys;
    assert all[|earlier| + j] == keys[j];
    if keys[j] in earlier + keys[..j] {
      var i :| 0 <= i < |earlier| + j && (earlier + keys[..j])[i] == keys[j];
      assert all[i] == keys[j];
    }
  }

  lemma SeparatePrefix(ring: Keyring, some: seq<string>, all: seq<string>)
    requires some <= all && SeparateKeys(ring, all)
    ensures SeparateKeys(ring, some)
  {
    hide KeyOf;
    forall k <- some ensures k in all {
      var i :| 0 <= i < |some| && some[i] == k;
      assert all[i] == k;
    }
    assert forall i | 0 <= i < |some| :: some[i] == all[i];
  }

  lemma NotSeparatePrefix(ring: Keyring, some: seq<string>, all: seq<string>)
    requires some <= all && !SeparateKeys(ring, some)
    ensures !SeparateKeys(ring, all)
  {
    hide SeparateKeys;
    if SeparateKeys(ring, all) { SeparatePrefix(ring, some, all); }
  }

  lemma {:induction false} ModuleKeysPrefix(modules: seq<Authority>, i: nat)
    requires i <= |modules|
    ensures ModuleKeys(modules[..i]) <= ModuleKeys(modules)
    decreases |modules|
  {
    if i < |modules| {
      var shorter := modules[..|modules| - 1];
      assert shorter[..i] == modules[..i];
      ModuleKeysPrefix(shorter, i);
    } else {
      assert modules[..i] == modules;
    }
  }

  // --------------------------------------------------------------- documents

  datatype RegistryDocument = RegistryDocument(
    claims: Claims, digest: string, signers: seq<string>, checkpoint: Checkpoint, fingerprint: string)

  datatype Document = Document(
    claims: Claims, registryDigest: string, digest: string, signers: seq<string>, checkpoint: Checkpoint)

  function VerifyRegistry(rules: Rules, raw: Bytes, ring: Keyring, now: Moment, checkpoint: Option<Checkpoint>)
    : Option<RegistryDocument>
  {
    var e := rules.parse(raw);
    if e.None? || !e.value.claims.Registry? || !Authorized(rules, e.value, ring, ring.roots, ring.threshold)
       || !SeparateKeys(ring, Delegated(e.value.claims.modules, e.value.claims.integrationKeys)) then None
    else
      var digest := rules.sha(e.value.payload);
      var next := Validity(e.value.claims.window, now, checkpoint, digest);
      if next.None? then None
      else Some(RegistryDocument(e.value.claims, digest, SignerIds(e.value), next.value, rules.fingerprint(ring)))
  }

  /** The registry was verified under this very keyring and is still current. */
  predicate RegistryCurrent(rules: Rules, registry: RegistryDocument, now: Moment, ring: Keyring) {
    && registry.fingerprint == rules.fingerprint(ring)
    && Validity(registry.claims.window, now, Some(registry.checkpoint), registry.digest).Some?
  }

  function Authorities(modules: seq<Authority>, component: string): (found: seq<Authority>)
    ensures forall a <- found :: a in modules && a.component == component
  {
    if modules == [] then []
    else (if modules[0].component == component then [modules[0]] else []) + Authorities(modules[1..], component)
  }

  /** The keys a registry lets sign these claims; None when it names no such document. */
  function AllowedKeys(registry: Claims, claims: Claims): Option<seq<string>>
    requires registry.Registry?
  {
    match claims
    case Registry(_, _, _) => None
    case Module(_, component, repository, distribution) =>
      var matches := Authorities(registry.modules, component);
      if |matches| != 1 || matches[0].repository != repository || matches[0].distribution != distribution then None
      else Some(matches[0].keys)
    case Integration(_, _) => Some(registry.integrationKeys)
  }

  /** A module or integration document under a verified registry. */
  function VerifyDelegated(rules: Rules, raw: Bytes, registry: RegistryDocument, ring: Keyring, now: Moment,
                           checkpoint: Option<Checkpoint>): Option<Document>
    requires registry.claims.Registry?
  {
    var e := rules.parse(raw);
    if !RegistryCurrent(rules, registry, now, ring) || e.None? then None
    else
      var allowed := AllowedKeys(registry.claims, e.value.claims);
      if allowed.None? || !Authorized(rules, e.value, ring, allowed.value, 1) then None
      else
        var digest := rules.sha(e.value.payload);
        var next := Validity(e.value.claims.window, now, checkpoint, digest);
        if next.None? then None
        else Some(Document(e.value.claims, registry.digest, digest, SignerIds(e.value), next.value))
  }

  // --------------------------------------------------------------- key roles

  datatype Role = Root | Publisher(component: string) | Integrator

  /** What the pinned roots and a registry make of a key. */
  ghost predicate Holds(ring: Keyring, registry: Claims, key: string, role: Role)
    requires registry.Registry?
  {
    match role
    case Root => key in ring.roots
    case Publisher(component) => exists m <- registry.modules :: m.component == component && key in m.keys
    case Integrator => key in registry.integrationKeys
  }

  function RoleFor(claims: Claims): Role {
    match claims
    case Registry(_, _, _) => Root
    case Module(_, component, _, _) => Publisher(component)
    case Integration(_, _) => Integrator
  }

  /** Where a module's key stands among all module keys. */
  lemma {:induction false} KeyPosition(modules: seq<Authority>, i: nat, key: string) returns (at: nat)
    requires i < |modules| && key in modules[i].keys
    ensures |ModuleKeys(modules[..i])| <= at < |ModuleKeys(modules[..i + 1])| <= |ModuleKeys(modules)|
    ensures at < |ModuleKeys(modules)| && ModuleKeys(modules)[at] == key
  {
    var before, upTo := ModuleKeys(modules[..i]), ModuleKeys(modules[..i + 1]);
    assert modules[..i + 1][..i] == modules[..i];
    assert upTo == before + modules[i].keys;
    var j :| 0 <= j < |modules[i].keys| && modules[i].keys[j] == key;
    at := |before| + j;
    ModuleKeysPrefix(modules, i + 1);
    assert upTo[at] == key;
  }

  lemma {:induction false} ModuleKeysGrow(modules: seq<Authority>, i: nat, j: nat)
    requires i <= j <= |modules|
    ensures |ModuleKeys(modules[..i])| <= |ModuleKeys(modules[..j])|
  {
    assert modules[..j][..i] == modules[..i];
    ModuleKeysPrefix(modules[..j], i);
  }

  /** With separate delegations, a key is a publisher for at most one module. */
  lemma OnePublisher(modules: seq<Authority>, i: nat, j: nat, key: string)
    requires i < j < |modules| && key in modules[i].keys && key in modules[j].keys
    ensures !Distinct(ModuleKeys(modules))
  {
    var a := KeyPosition(modules, i, key);
    var b := KeyPosition(modules, j, key);
    ModuleKeysGrow(modules, i + 1, j);
    assert a < b;
  }

  lemma PublisherIsDelegated(modules: seq<Authority>, integrationKeys: seq<string>, component: string, key: string)
    returns (i: nat, at: nat)
    requires exists m <- modules :: m.component == component && key in m.keys
    ensures i < |modules| && modules[i].component == component && key in modules[i].keys
    ensures at < |ModuleKeys(modules)| && Delegated(modules, integrationKeys)[at] == key
  {
    var m :| m in modules && m.component == component && key in m.keys;
    i :| 0 <= i < |modules| && modules[i] == m;
    at := KeyPosition(modules, i, key);
  }

  /** Under one verified registry a key holds at most one role. */
  lemma OneRole(ring: Keyring, registry: Claims, key: string, a: Role, b: Role)
    requires registry.Registry? && SeparateKeys(ring, Delegated(registry.modules, registry.integrationKeys))
    requires Holds(ring, registry, key, a) && Holds(ring, registry, key, b)
    ensures a == b
  {
    var modules, others := registry.modules, registry.integrationKeys;
    var all := Delegated(modules, others);
    if a.Publisher? && b.Publisher? {
      var i, p := PublisherIsDelegated(modules, others, a.component, key);
      var j, q := PublisherIsDelegated(modules, others, b.component, key);
      DistinctPrefix(ModuleKeys(modules), all);
      if i < j { OnePublisher(modules, i, j, key); }
      if j < i { OnePublisher(modules, j, i, key); }
    } else if a.Publisher? {
      var i, p := PublisherIsDelegated(modules, others, a.component, key);
      NotBoth(ring, all, ModuleKeys(modules), others, p, key);
    } else if b.Publisher? {
      var j, q := PublisherIsDelegated(modules, others, b.component, key);
      NotBoth(ring, all, ModuleKeys(modules), others, q, key);
    } else if key in others {
      var k :| 0 <= k < |others| && others[k] == key;
      assert all[|ModuleKeys(modules)| + k] == key;
    }
  }

  lemma DistinctPrefix(some: seq<string>, all: seq<string>)
    requires some <= all && Distinct(all)
    ensures Distinct(some)
  {
    assert forall i | 0 <= i < |some| :: some[i] == all[i];
  }

  lemma NotBoth(ring: Keyring, all: seq<string>, published: seq<string>, others: seq<string>, at: nat, key: string)
    requires all == published + others && SeparateKeys(ring, all) && at < |published| && all[at] == key
    ensures key !in ring.roots && key !in others
  {
    assert key in all;
    if key in others { var later := AmongOthers(published, others, key); }
  }

  lemma AmongOthers(published: seq<string>, others: seq<string>, key: string) returns (at: nat)
    requires key in others
    ensures |published| <= at < |published + others| && (published + others)[at] == key
  {
    var k :| 0 <= k < |others| && others[k] == key;
    at := |published| + k;
  }

  /** Every signer of a verified document holds that document's role and signed its payload. */
  lemma RegistrySignersAreRoots(rules: Rules, raw: Bytes, ring: Keyring, now: Moment, checkpoint: Option<Checkpoint>)
    requires Parses(rules) && ValidKeyring(ring) && VerifyRegistry(rules, raw, ring, now, checkpoint).Some?
    ensures var d := VerifyRegistry(rules, raw, ring, now, checkpoint).value;
            && d.claims.Registry? && SeparateKeys(ring, Delegated(d.claims.modules, d.claims.integrationKeys))
            && (forall id <- d.signers :: Holds(ring, d.claims, id, Root))
            && |(set id <- d.signers)| >= ring.threshold
  {
    var e := rules.parse(raw).value;
    assert Contract(raw, e);
    hide SeparateKeys, KeyOf, ValidKeyring;
    forall id <- SignerIds(e) ensures id in ring.roots {
      var i :| 0 <= i < |e.signatures| && SignerIds(e)[i] == id;
      assert SignedBy(rules, ring, ring.roots, e.payload, e.signatures[i]);
    }
    DistinctCount(SignerIds(e));
  }

  lemma {:induction false} DistinctCount(names: seq<string>)
    requires Distinct(names)
    ensures |(set id <- names)| == |names|
  {
    if names != [] {
      var init, last := names[..|names| - 1], names[|names| - 1];
      DistinctCount(init);
      assert names == init + [last];
      assert (set id <- names) == (set id <- init) + {last};
      assert last !in init;
    }
  }

  lemma DelegatedSignersHold(rules: Rules, raw: Bytes, registry: RegistryDocument, ring: Keyring, now: Moment,
                             checkpoint: Option<Checkpoint>)
    requires registry.claims.Registry? && VerifyDelegated(rules, raw, registry, ring, now, checkpoint).Some?
    ensures var d := VerifyDelegated(rules, raw, registry, ring, now, checkpoint).value;
            d.signers != []
            && forall id <- d.signers :: Holds(ring, registry.claims, id, RoleFor(d.claims)) && KeyOf(ring, id).Some?
  {
    hide KeyOf, Validity;
    var e := rules.parse(raw).value;
    var allowed := AllowedKeys(registry.claims, e.claims).value;
    forall id <- SignerIds(e) ensures id in allowed && KeyOf(ring, id).Some? {
      var i :| 0 <= i < |e.signatures| && SignerIds(e)[i] == id;
      assert SignedBy(rules, ring, allowed, e.payload, e.signatures[i]);
    }
  }

  function PublicKeys(ring: Keyring, ids: seq<string>): set<Bytes> {
    set id <- ids | KeyOf(ring, id).Some? :: KeyOf(ring, id).value.raw
  }

  /** Documents of different roles under one registry, verified at any two moments, never
      share a signer, nor a public key behind two signer names. */
  lemma SignersNeverOverlap(rules: Rules, ring: Keyring, registry: RegistryDocument,
                            now: Moment, raw: Bytes, checkpoint: Option<Checkpoint>, d: Document,
                            now': Moment, raw': Bytes, checkpoint': Option<Checkpoint>, d': Document)
    requires registry.claims.Registry? && ValidKeyring(ring)
    requires SeparateKeys(ring, Delegated(registry.claims.modules, registry.claims.integrationKeys))
    requires VerifyDelegated(rules, raw, registry, ring, now, checkpoint) == Some(d)
    requires VerifyDelegated(rules, raw', registry, ring, now', checkpoint') == Some(d')
    requires RoleFor(d.claims) != RoleFor(d'.claims)
    ensures (set a <- d.signers) !! (set b <- d'.signers)
    ensures PublicKeys(ring, d.signers) !! PublicKeys(ring, d'.signers)
  {
    hide SeparateKeys, VerifyDelegated, KeyOf, ValidKeyring;
    DelegatedSignersHold(rules, raw, registry, ring, now, checkpoint);
    DelegatedSignersHold(rules, raw', registry, ring, now', checkpoint');
    forall a <- d.signers, b <- d'.signers ensures a != b && KeyOf(ring, a).value.raw != KeyOf(ring, b).value.raw {
      if a == b { OneRole(ring, registry.claims, a, RoleFor(d.claims), RoleFor(d'.claims)); }
      DifferentKeys(ring, a, b);
    }
  }

  /** A root never signs as a publisher or integrator. */
  lemma DelegatesAreNotRoots(rules: Rules, ring: Keyring, registry: RegistryDocument, now: Moment,
                             raw: Bytes, checkpoint: Option<Checkpoint>, d: Document)
    requires registry.claims.Registry? && ValidKeyring(ring)
    requires SeparateKeys(ring, Delegated(registry.claims.modules, registry.claims.integrationKeys))
    requires VerifyDelegated(rules, raw, registry, ring, now, checkpoint) == Some(d)
    ensures (set a <- d.signers) !! (set b <- ring.roots)
    ensures PublicKeys(ring, d.signers) !! PublicKeys(ring, ring.roots)
  {
    assert RoleFor(d.claims) != Root;
    hide SeparateKeys, VerifyDelegated, KeyOf;
    DelegatedSignersHold(rules, raw, registry, ring, now, checkpoint);
    forall a <- d.signers, b <- ring.roots ensures a != b && KeyOf(ring, a).value.raw != KeyOf(ring, b).value.raw {
      if a == b { OneRole(ring, registry.claims, a, RoleFor(d.claims), Root); }
      DifferentKeys(ring, a, b);
    }
  }

  lemma DifferentKeys(ring: Keyring, a: string, b: string)
    requires ValidKeyring(ring) && a != b && KeyOf(ring, a).Some? && KeyOf(ring, b).Some?
    ensures KeyOf(ring, a).value.raw != KeyOf(ring, b).value.raw
  {
    var x, y := KeyOf(ring, a).value, KeyOf(ring, b).value;
    var i :| 0 <= i < |ring.keys| && ring.keys[i] == x;
    var j :| 0 <= j < |ring.keys| && ring.keys[j] == y;
  }
}
