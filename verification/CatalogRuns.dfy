/** The cache file under any sequence of saves, each under its own keyring. */
module CatalogRuns {
  import opened Wrappers
  import opened Timestamps
  import opened ActiveReceipts
  import opened CatalogVerification
  import opened CatalogState
  import opened CatalogCache

  class CacheFile {
    var file: Option<Bytes>
    var locked: bool

    constructor ()
      ensures file.None? && !locked
    {
      file, locked := None, false;
    }

    /** Verify the envelopes against the cached history and replace the file with them. */
    method Save(rules: Rules, call: SaveCall) returns (saved: Option<Snapshot>)
      modifies this
      ensures locked == old(locked)
      ensures var r := SaveResult(rules, old(file), call);
              if old(locked) || r.None? then saved.None? && file == old(file)
              else saved == Some(r.value.0) && file == Some(r.value.1)
    {
      hide Deserialize, Authenticate, VerifyRegistry, FileText, RegistryCheckpoint, ModulesOf, IntegrationsOf;
      if locked { return None; }
      locked := true;
      saved := Accept(rules, call);
      if saved.Some? && |FileText(call, saved.value)| > MAX_SNAPSHOT { saved := None; }
      if saved.Some? { file := Some(FileText(call, saved.value)); }
      locked := false;
    }

    method Accept(rules: Rules, call: SaveCall) returns (s: Option<Snapshot>)
      ensures var previous := if file.None? then None else Deserialize(rules, file.value, call.ring, None);
              s == if file.Some? && (previous.None? || call.now < previous.value.acceptedAt * SECOND) then None
                   else Authenticate(rules, call.envelopes, call.ring, call.now, Floor(call.now), previous)
    {
      hide Deserialize, VerifyRegistry, VerifyAll, KeepsHistory, Floor;
      var previous := if file.None? then None else Deserialize(rules, file.value, call.ring, None);
      if file.Some? && (previous.None? || call.now < previous.value.acceptedAt * SECOND) { return None; }
      var es := call.envelopes;
      if |es.modules| > MAX_DOCUMENTS || |es.integrations| > MAX_DOCUMENTS { return None; }
      var registry := VerifyRegistry(rules, es.registry, call.ring, call.now, RegistryCheckpoint(previous));
      if registry.None? { return None; }
      IsRegistry(rules, es.registry, call.ring, call.now, RegistryCheckpoint(previous));
      var modules := VerifyEach(rules, es.modules, Modules, registry.value, call.ring, call.now, ModulesOf(previous));
      if modules.None? { return None; }
      var integrations := VerifyEach(rules, es.integrations, Integrations, registry.value, call.ring, call.now,
                                     IntegrationsOf(previous));
      if integrations.None? || !KeepsHistory(modules.value, ModulesOf(previous))
         || !KeepsHistory(integrations.value, IntegrationsOf(previous)) { return None; }
      s := Some(Snapshot(registry.value, modules.value, integrations.value, Floor(call.now)));
    }
  }

  lemma IsRegistry(rules: Rules, raw: Bytes, ring: Keyring, now: Moment, checkpoint: Option<Checkpoint>)
    ensures VerifyRegistry(rules, raw, ring, now, checkpoint).Some? ==>
              VerifyRegistry(rules, raw, ring, now, checkpoint).value.claims.Registry?
  {
    hide Authorized, SeparateKeys, Validity;
  }

  // -------------------------------------------------------------------- runs

  function FileAfter(rules: Rules, calls: seq<SaveCall>): Option<Bytes> {
    if calls == [] then None
    else
      var file := FileAfter(rules, calls[..|calls| - 1]);
      var r := SaveResult(rules, file, calls[|calls| - 1]);
      if r.None? then file else Some(r.value.1)
  }

  /** What the k-th save of a run accepted, if it did. */
  function SavedAt(rules: Rules, calls: seq<SaveCall>, k: nat): Option<Snapshot>
    requires k < |calls|
  {
    var r := SaveResult(rules, FileAfter(rules, calls[..k]), calls[k]);
    if r.None? then None else Some(r.value.0)
  }

  // --------------------------------------------------------------- extension

  predicate NotOlder(a: Checkpoint, b: Checkpoint) {
    a.revision <= b.revision && (a.revision == b.revision ==> a.digest == b.digest)
  }

  predicate Carried(d: Document, later: seq<Document>) {
    exists e <- later :: Subject(e.claims) == Subject(d.claims) && NotOlder(d.checkpoint, e.checkpoint)
  }

  predicate AllCarried(earlier: seq<Document>, later: seq<Document>) {
    forall d <- earlier :: Carried(d, later)
  }

  /** Nothing remembered was lost, lowered or replaced at the same revision. */
  predicate Extends(s: Snapshot, t: Snapshot) {
    && s.acceptedAt <= t.acceptedAt && NotOlder(s.registry.checkpoint, t.registry.checkpoint)
    && AllCarried(s.modules, t.modules) && AllCarried(s.integrations, t.integrations)
  }

  lemma CarriedOn(a: seq<Document>, b: seq<Document>, c: seq<Document>)
    requires AllCarried(a, b) && AllCarried(b, c)
    ensures AllCarried(a, c)
  {
    forall d <- a ensures Carried(d, c) {
      assert Carried(d, b);
      var e :| e in b && Subject(e.claims) == Subject(d.claims) && NotOlder(d.checkpoint, e.checkpoint);
      assert Carried(e, c);
    }
  }

  lemma ExtendsOn(s: Snapshot, t: Snapshot, u: Snapshot)
    requires Extends(s, t) && Extends(t, u)
    ensures Extends(s, u)
  {
    hide AllCarried;
    CarriedOn(s.modules, t.modules, u.modules);
    CarriedOn(s.integrations, t.integrations, u.integrations);
  }

  lemma {:induction false} RememberedOne(documents: seq<Document>, i: nat)
    requires i < |documents| && Distinct(Subjects(documents))
    ensures Remembered(documents, Subject(documents[i].claims)) == Some(documents[i].checkpoint)
  {
    if i > 0 {
      assert Subjects(documents)[0] != Subjects(documents)[i];
      assert Distinct(Subjects(documents[1..])) by {
        forall j, k | 0 <= j < k < |documents| - 1 ensures Subjects(documents[1..])[j] != Subjects(documents[1..])[k] {
          assert Subjects(documents)[j + 1] != Subjects(documents)[k + 1];
        }
      }
      RememberedOne(documents[1..], i - 1);
    }
  }

  lemma {:induction false} EachVerified(rules: Rules, raws: seq<Bytes>, kind: Kind, registry: RegistryDocument,
                                        ring: Keyring,
                                        now: Moment, remembered: seq<Document>, i: nat)
    requires registry.claims.Registry? && VerifyAll(rules, raws, kind, registry, ring, now, remembered).Some?
             && i < |raws|
    ensures VerifyOne(rules, raws[i], kind, registry, ring, now, remembered)
            == Some(VerifyAll(rules, raws, kind, registry, ring, now, remembered).value[i])
    decreases |raws|
  {
    hide VerifyOne;
    if i < |raws| - 1 { EachVerified(rules, raws[..|raws| - 1], kind, registry, ring, now, remembered, i); }
  }

  /** A document accepted against a remembered checkpoint is not older than it. */
  lemma VerifiedNotOlder(rules: Rules, raw: Bytes, kind: Kind, registry: RegistryDocument, ring: Keyring, now: Moment,
                         remembered: seq<Document>, d: Document, c: Checkpoint)
    requires registry.claims.Registry? && VerifyOne(rules, raw, kind, registry, ring, now, remembered) == Some(d)
    requires Remembered(remembered, Subject(d.claims)) == Some(c)
    ensures NotOlder(c, d.checkpoint)
  {
    hide Authorized, RegistryCurrent, AllowedKeys, Remembered;
  }

  lemma HistoryCarried(rules: Rules, raws: seq<Bytes>, kind: Kind, registry: RegistryDocument, ring: Keyring,
                       now: Moment,
                       remembered: seq<Document>)
    requires registry.claims.Registry? && VerifyAll(rules, raws, kind, registry, ring, now, remembered).Some?
    requires KeepsHistory(VerifyAll(rules, raws, kind, registry, ring, now, remembered).value, remembered)
    requires Distinct(Subjects(remembered))
    ensures AllCarried(remembered, VerifyAll(rules, raws, kind, registry, ring, now, remembered).value)
  {
    hide VerifyAll, VerifyOne, NotOlder;
    var later := VerifyAll(rules, raws, kind, registry, ring, now, remembered).value;
    forall d <- remembered ensures Carried(d, later) {
      var j :| 0 <= j < |remembered| && remembered[j] == d;
      assert Subjects(remembered)[j] == Subject(d.claims);
      assert Subject(d.claims) in Subjects(remembered) && Subject(d.claims) in Subjects(later);
      var i :| 0 <= i < |later| && Subjects(later)[i] == Subject(d.claims);
      EachVerified(rules, raws, kind, registry, ring, now, remembered, i);
      RememberedOne(remembered, j);
      VerifiedNotOlder(rules, raws[i], kind, registry, ring, now, remembered, later[i], d.checkpoint);
      assert later[i] in later;
    }
  }

  lemma SnapshotParts(rules: Rules, es: Envelopes, ring: Keyring, now: Moment, at: Second, previous: Option<Snapshot>)
    requires Authenticate(rules, es, ring, now, at, previous).Some?
    ensures var s := Authenticate(rules, es, ring, now, at, previous).value;
            && VerifyRegistry(rules, es.registry, ring, now, RegistryCheckpoint(previous)) == Some(s.registry)
            && s.registry.claims.Registry?
            && VerifyAll(rules, es.modules, Modules, s.registry, ring, now, ModulesOf(previous)) == Some(s.modules)
            && VerifyAll(rules, es.integrations, Integrations, s.registry, ring, now, IntegrationsOf(previous))
                == Some(s.integrations)
            && KeepsHistory(s.modules, ModulesOf(previous)) && KeepsHistory(s.integrations, IntegrationsOf(previous))
            && s.acceptedAt == at
  {
    hide VerifyRegistry, VerifyAll, KeepsHistory;
    IsRegistry(rules, es.registry, ring, now, RegistryCheckpoint(previous));
  }

  predicate DistinctSubjects(s: Snapshot) { Distinct(Subjects(s.modules)) && Distinct(Subjects(s.integrations)) }

  lemma AcceptedDistinct(rules: Rules, es: Envelopes, ring: Keyring, now: Moment, at: Second,
                         previous: Option<Snapshot>)
    requires Authenticate(rules, es, ring, now, at, previous).Some?
    ensures DistinctSubjects(Authenticate(rules, es, ring, now, at, previous).value)
  {
    hide Authenticate, Distinct;
    SnapshotParts(rules, es, ring, now, at, previous);
  }

  lemma RegistryNotOlder(rules: Rules, raw: Bytes, ring: Keyring, now: Moment, c: Checkpoint)
    ensures VerifyRegistry(rules, raw, ring, now, Some(c)).Some? ==>
              NotOlder(c, VerifyRegistry(rules, raw, ring, now, Some(c)).value.checkpoint)
  {
    hide Authorized, SeparateKeys;
  }

  /** A snapshot accepted over another carries everything that one remembered. */
  lemma AcceptedExtends(rules: Rules, es: Envelopes, ring: Keyring, now: Moment, at: Second, s: Snapshot)
    requires Authenticate(rules, es, ring, now, at, Some(s)).Some? && DistinctSubjects(s) && s.acceptedAt <= at
    ensures Extends(s, Authenticate(rules, es, ring, now, at, Some(s)).value)
  {
    hide Authenticate, VerifyRegistry, VerifyAll, KeepsHistory, AllCarried, NotOlder, Distinct;
    SnapshotParts(rules, es, ring, now, at, Some(s));
    var t := Authenticate(rules, es, ring, now, at, Some(s)).value;
    RegistryNotOlder(rules, es.registry, ring, now, s.registry.checkpoint);
    HistoryCarried(rules, es.modules, Modules, t.registry, ring, now, s.modules);
    HistoryCarried(rules, es.integrations, Integrations, t.registry, ring, now, s.integrations);
  }

  /** The file is what this call wrote when it accepted this snapshot. */
  ghost predicate Content(rules: Rules, file: Option<Bytes>, call: SaveCall, s: Snapshot) {
    file == Some(FileText(call, s)) && exists previous :: Saved(rules, call, previous, s)
  }

  lemma ContentDistinct(rules: Rules, file: Option<Bytes>, call: SaveCall, s: Snapshot)
    requires Content(rules, file, call, s)
    ensures DistinctSubjects(s)
  {
    hide Authenticate, DistinctSubjects, FileText;
    var previous :| Saved(rules, call, previous, s);
    AcceptedDistinct(rules, call.envelopes, call.ring, call.now, Floor(call.now), previous);
  }

  /** One save over a saved file: it carries on what the file held, under whatever keyring. */
  lemma SaveExtends(rules: Rules, file: Option<Bytes>, first: SaveCall, s: Snapshot, call: SaveCall)
    requires Parses(rules) && Content(rules, file, first, s) && SaveResult(rules, file, call).Some?
    ensures Extends(s, SaveResult(rules, file, call).value.0)
  {
    hide Authenticate, DistinctSubjects, FileText, Extends, Deserialize;
    var before :| Saved(rules, first, before, s);
    NothingElseIsRead(rules, first, before, s, call.ring, None);
    ContentDistinct(rules, file, first, s);
    FloorKeeps(s.acceptedAt, call.now);
    AcceptedExtends(rules, call.envelopes, call.ring, call.now, Floor(call.now), s);
  }

  lemma FloorKeeps(s: Second, now: Moment)
    ensures now >= s * SECOND ==> Floor(now) >= s
  {
  }

  lemma SaveLeaves(rules: Rules, file: Option<Bytes>, call: SaveCall)
    requires SaveResult(rules, file, call).Some?
    ensures var r := SaveResult(rules, file, call).value; Content(rules, Some(r.1), call, r.0)
  {
    hide Authenticate, FileText, Deserialize;
    var r := SaveResult(rules, file, call).value;
    var previous := if file.None? then None else Deserialize(rules, file.value, call.ring, None);
    assert Saved(rules, call, previous, r.0) by { AcceptedAtFloor(rules, call, previous, r.0); }
  }

  lemma AcceptedAtFloor(rules: Rules, call: SaveCall, previous: Option<Snapshot>, s: Snapshot)
    requires Authenticate(rules, call.envelopes, call.ring, call.now, Floor(call.now), previous) == Some(s)
    ensures s.acceptedAt == Floor(call.now)
  {
    hide Authenticate, VerifyRegistry, VerifyAll, KeepsHistory;
    SnapshotParts(rules, call.envelopes, call.ring, call.now, Floor(call.now), previous);
  }

  /** The last save that succeeded among the first n calls, and that it is the file's content. */
  lemma {:induction false} LastSave(rules: Rules, calls: seq<SaveCall>, n: nat) returns (k: int)
    requires n <= |calls|
    ensures -1 <= k < n
    ensures forall m | k < m < n :: SavedAt(rules, calls, m).None?
    ensures k < 0 ==> FileAfter(rules, calls[..n]).None?
    ensures k >= 0 ==> SavedAt(rules, calls, k).Some?
                       && Content(rules, FileAfter(rules, calls[..n]), calls[k], SavedAt(rules, calls, k).value)
    decreases n
  {
    hide SaveResult, Content;
    if n == 0 {
      k := -1;
    } else {
      assert calls[..n][..n - 1] == calls[..n - 1] && calls[..n][n - 1] == calls[n - 1];
      if SavedAt(rules, calls, n - 1).Some? {
        k := n - 1;
        SaveLeaves(rules, FileAfter(rules, calls[..n - 1]), calls[n - 1]);
      } else {
        k := LastSave(rules, calls, n - 1);
      }
    }
  }

  /** Of any two successful saves of a run, the later carries everything of the earlier. */
  lemma {:induction false} LaterExtends(rules: Rules, calls: seq<SaveCall>, i: nat, j: nat)
    requires Parses(rules) && i < j < |calls| && SavedAt(rules, calls, i).Some? && SavedAt(rules, calls, j).Some?
    ensures Extends(SavedAt(rules, calls, i).value, SavedAt(rules, calls, j).value)
    decreases j
  {
    hide SaveResult, Content, Extends, Parses;
    var k := LastSave(rules, calls, j);
    assert k >= i;
    SaveExtends(rules, FileAfter(rules, calls[..j]), calls[k], SavedAt(rules, calls, k).value, calls[j]);
    if i < k {
      LaterExtends(rules, calls, i, k);
      ExtendsOn(SavedAt(rules, calls, i).value, SavedAt(rules, calls, k).value, SavedAt(rules, calls, j).value);
    }
  }

  /** Two saves of a run that agree on an identity's revision agree on its digest, and the
      identity of the earlier is still there in the later, never at a lower revision. */
  lemma NoEquivocation(rules: Rules, calls: seq<SaveCall>, i: nat, j: nat, d: Document, e: Document)
    requires Parses(rules) && i < j < |calls| && SavedAt(rules, calls, i).Some? && SavedAt(rules, calls, j).Some?
    requires var s, t := SavedAt(rules, calls, i).value, SavedAt(rules, calls, j).value;
             (d in s.modules && e in t.modules) || (d in s.integrations && e in t.integrations)
    requires Subject(d.claims) == Subject(e.claims)
    ensures d.checkpoint.revision <= e.checkpoint.revision
    ensures d.checkpoint.revision == e.checkpoint.revision ==> d.checkpoint.digest == e.checkpoint.digest
  {
    hide SaveResult, Parses, Content;
    var s, t := SavedAt(rules, calls, i).value, SavedAt(rules, calls, j).value;
    LaterExtends(rules, calls, i, j);
    SaveLeaves(rules, FileAfter(rules, calls[..j]), calls[j]);
    ContentDistinct(rules, Some(SaveResult(rules, FileAfter(rules, calls[..j]), calls[j]).value.1), calls[j], t);
    if d in s.modules && e in t.modules { CarriedTo(s.modules, t.modules, d, e); }
    else { CarriedTo(s.integrations, t.integrations, d, e); }
  }

  lemma CarriedTo(earlier: seq<Document>, later: seq<Document>, d: Document, e: Document)
    requires AllCarried(earlier, later) && Distinct(Subjects(later)) && d in earlier && e in later
    requires Subject(d.claims) == Subject(e.claims)
    ensures NotOlder(d.checkpoint, e.checkpoint)
  {
    assert Carried(d, later);
    var f :| f in later && Subject(f.claims) == Subject(d.claims) && NotOlder(d.checkpoint, f.checkpoint);
    var a :| 0 <= a < |later| && later[a] == e;
    var b :| 0 <= b < |later| && later[b] == f;
    assert Subjects(later)[a] == Subjects(later)[b];
  }

  /** Whatever a run has saved, a save by the last writer's keyring never fails on history:
      the file reads back as the last snapshot. */
  lemma NeverWedged(rules: Rules, calls: seq<SaveCall>, k: nat)
    requires Parses(rules) && k < |calls| && SavedAt(rules, calls, k).Some?
    requires forall m | k < m < |calls| :: SavedAt(rules, calls, m).None?
    ensures var file := FileAfter(rules, calls);
            file.Some? && Deserialize(rules, file.value, calls[k].ring, None) == SavedAt(rules, calls, k)
  {
    hide SaveResult, Deserialize, Parses, Saved, FileText;
    var last := LastSave(rules, calls, |calls|);
    assert calls[..|calls|] == calls && last == k;
    var previous :| Saved(rules, calls[k], previous, SavedAt(rules, calls, k).value);
    HistoryAcceptsSaved(rules, calls[k], previous, SavedAt(rules, calls, k).value);
  }
}
