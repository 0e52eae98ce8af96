/** The planning procedure, from the signed snapshot and the observed baseline to the
    rows of the plan, with its loops. */
module CompositionReview {
  import opened Wrappers
  import opened Patterns
  import opened CompositionPlan
  import opened PlanProperties

  datatype Registration = Registration(component: string, distribution: string)

  datatype Document = Document(
    component: string, distribution: string, registrySha: string, payloadSha: string, releases: seq<Release>)

  datatype Snapshot = Snapshot(registrySha: string, modules: seq<Registration>, documents: seq<Document>)

  datatype Observed = Observed(component: string, distribution: string, version: string, sha: string,
                               publisherSha: string)

  type Targets = map<string, Option<string>>

  datatype Review = Review(rows: map<string, Change>, external: set<string>)

  predicate ComponentId(s: string) { Identifier(s, 2, 48) }

  predicate GoodTargets(targets: Targets) {
    && 1 <= |targets| <= MAX_MODULES
    && forall k <- targets.Keys :: ComponentId(k) && targets[k] != Some("")
  }

  // ----------------------------------------------------------------- catalog

  /** No component and no normalized distribution name is registered twice. */
  predicate DistinctModules(rules: Packaging, modules: seq<Registration>) {
    forall i, j | 0 <= i < j < |modules| ::
      modules[i].component != modules[j].component
      && rules.canonical(modules[i].distribution) != rules.canonical(modules[j].distribution)
  }

  function DistributionsOf(rules: Packaging, modules: seq<Registration>): map<string, string>
    requires DistinctModules(rules, modules)
  {
    map m <- modules :: rules.canonical(m.distribution) := m.component
  }

  function Registered(modules: seq<Registration>): set<string> { set m <- modules :: m.component }

  predicate SoundDocument(s: Snapshot, d: Document) {
    d.registrySha == s.registrySha && Registration(d.component, d.distribution) in s.modules
  }

  predicate SoundDocuments(s: Snapshot) {
    && (forall d <- s.documents :: SoundDocument(s, d))
    && forall i, j | 0 <= i < j < |s.documents| :: s.documents[i].component != s.documents[j].component
  }

  function DocumentsOf(s: Snapshot): map<string, seq<Release>>
    requires SoundDocuments(s)
  {
    map d <- s.documents :: d.component := d.releases
  }

  // ---------------------------------------------------------------- baseline

  function Matching(releases: seq<Release>, version: string, sha: string): (found: seq<Release>)
    ensures forall r <- found :: r in releases && r.version == version && r.sha == sha
  {
    if releases == [] then []
    else (if releases[0].version == version && releases[0].sha == sha then [releases[0]] else [])
         + Matching(releases[1..], version, sha)
  }

  function FindDocument(documents: seq<Document>, component: string): Option<Document> {
    if documents == [] then None
    else if documents[0].component == component then Some(documents[0]) else FindDocument(documents[1..], component)
  }

  /** Exactly one signed release is what was observed, in the document it was observed from. */
  predicate Published(s: Snapshot, o: Observed) {
    var d := FindDocument(s.documents, o.component);
    d.Some? && d.value.payloadSha == o.publisherSha && |Matching(d.value.releases, o.version, o.sha)| == 1
  }

  function Claim(s: Snapshot, o: Observed): (r: Release)
    requires Published(s, o)
    ensures r.version == o.version && r.sha == o.sha
  {
    Matching(FindDocument(s.documents, o.component).value.releases, o.version, o.sha)[0]
  }

  predicate GoodObserved(rules: Packaging, s: Snapshot, o: Observed) {
    && (exists m <- s.modules ::
          m.component == o.component && rules.canonical(m.distribution) == rules.canonical(o.distribution))
    && Published(s, o)
  }

  predicate Holdable(s: Snapshot, observed: seq<Observed>) {
    && (forall o <- observed :: Published(s, o))
    && forall i, j | 0 <= i < j < |observed| :: observed[i].component != observed[j].component
  }

  predicate GoodBaseline(rules: Packaging, s: Snapshot, observed: seq<Observed>)
    ensures GoodBaseline(rules, s, observed) ==> Holdable(s, observed)
  {
    && (forall o <- observed :: GoodObserved(rules, s, o))
    && forall i, j | 0 <= i < j < |observed| :: observed[i].component != observed[j].component
  }

  function BaselineOf(s: Snapshot, observed: seq<Observed>): Composition
    requires Holdable(s, observed)
  {
    map o <- observed :: o.component := Claim(s, o)
  }

  // -------------------------------------------------------------------- plan

  function ProblemOf(rules: Packaging, s: Snapshot, observed: seq<Observed>, targets: Targets): Result<Problem> {
    if !GoodTargets(targets) then Refused(Inputs)
    else if !DistinctModules(rules, s.modules) || !(targets.Keys <= Registered(s.modules)) then Refused(Unregistered)
    else if !SoundDocuments(s) then Refused(BadCatalog)
    else if !GoodBaseline(rules, s, observed) then Refused(BadBaseline)
    else Ok(Problem(rules, DistributionsOf(rules, s.modules), DocumentsOf(s), BaselineOf(s, observed), targets))
  }

  function ReviewOf(rules: Packaging, s: Snapshot, observed: seq<Observed>, targets: Targets): Result<Review> {
    var p := ProblemOf(rules, s, observed, targets);
    if p.Refused? then Refused(p.why)
    else
      var c := Solve(p.value);
      if c.Refused? then Refused(c.why) else Ok(Review(Rows(p.value, c.value), ForeignOf(p.value, c.value)))
  }

  // ------------------------------------------------------------- procedures

  /** Group the dependencies of every selected release. */
  method ReadRequirements(p: Problem, c: Composition)
    returns (demands: Option<map<string, set<string>>>, external: set<string>)
    ensures demands == if Readable(p, c) then Some(Grouped(EdgesOf(p, c))) else None
    ensures demands.Some? ==> external == ForeignOf(p, c)
  {
    hide Grouped, EdgesOf, ForeignOf, EdgesIn, ForeignIn;
    var found: map<string, set<string>>, owners := map[], c.Keys;
    ghost var done := {};
    external := {};
    NothingRead(p, c);
    while owners != {}
      invariant owners <= c.Keys && done == c.Keys - owners
      invariant forall owner <- done :: TextsReadable(p, c[owner].requiresDist)
      invariant external == ForeignOf(p, Only(c, done))
      invariant found == Grouped(EdgesOf(p, Only(c, done)))
      decreases owners
    {
      var owner :| owner in owners;
      var readable;
      readable, found, external := ReadOwner(p, c[owner].requiresDist, found, external, EdgesOf(p, Only(c, done)));
      if !readable {
        UnreadableOwner(p, c, owner);
        return None, external;
      }
      OneOwner(p, c, done, owner);
      owners, done := owners - {owner}, done + {owner};
    }
    assert Only(c, done) == c;
    AllReadable(p, c);
    demands := Some(found);
  }

  method ReadOwner(p: Problem, texts: seq<string>, found0: map<string, set<string>>, external0: set<string>,
                   ghost edges: Edges)
    returns (readable: bool, found: map<string, set<string>>, external: set<string>)
    requires found0 == Grouped(edges)
    ensures readable == TextsReadable(p, texts)
    ensures readable ==> found == Grouped(edges + EdgesIn(p, texts)) && external == external0 + ForeignIn(p, texts)
  {
    hide Grouped, EdgesIn, ForeignIn;
    found, external := found0, external0;
    NoTexts(p, edges);
    var i := 0;
    while i < |texts|
      invariant 0 <= i <= |texts|
      invariant forall k | 0 <= k < i :: p.rules.demand(texts[k]) != Unusable
      invariant external == external0 + ForeignIn(p, texts[..i])
      invariant found == Grouped(edges + EdgesIn(p, texts[..i]))
    {
      var d := p.rules.demand(texts[i]);
      if d == Unusable { return false, found, external; }
      InOneMore(p, texts, i);
      if d.Demand? {
        if d.name in p.distributions {
          var component := p.distributions[d.name];
          GroupMore(edges + EdgesIn(p, texts[..i]), (component, d.spec));
          Joined(edges, EdgesIn(p, texts[..i]), {(component, d.spec)});
          found := found[component := (if component in found then found[component] else {}) + {d.spec}];
        } else {
          assert external0 + (ForeignIn(p, texts[..i]) + {d.text}) == external + {d.text};
          external := external + {d.text};
        }
      }
      i := i + 1;
    }
    assert texts[..i] == texts;
    readable := true;
  }

  predicate TextsReadable(p: Problem, texts: seq<string>) { forall raw <- texts :: p.rules.demand(raw) != Unusable }

  lemma UnreadableOwner(p: Problem, c: Composition, owner: string)
    requires owner in c && !TextsReadable(p, c[owner].requiresDist)
    ensures !Readable(p, c)
  {
  }

  lemma AllReadable(p: Problem, c: Composition)
    requires forall owner <- c.Keys :: TextsReadable(p, c[owner].requiresDist)
    ensures Readable(p, c)
  {
    forall owner <- c.Keys, raw <- c[owner].requiresDist ensures p.rules.demand(raw) != Unusable {
      assert TextsReadable(p, c[owner].requiresDist);
    }
  }

  lemma NothingRead(p: Problem, c: Composition)
    ensures ForeignOf(p, Only(c, {})) == {} && Grouped(EdgesOf(p, Only(c, {}))) == map[]
  {
    assert EdgesOf(p, Only(c, {})) == {};
  }

  lemma NoTexts(p: Problem, edges: Edges)
    ensures ForeignIn(p, []) == {} && edges + EdgesIn(p, []) == edges
  {
  }

  lemma Joined(a: Edges, b: Edges, c: Edges)
    ensures a + b + c == a + (b + c)
  {
  }

  function Only(c: Composition, keys: set<string>): Composition { map k <- c.Keys | k in keys :: c[k] }

  function EdgesIn(p: Problem, texts: seq<string>): Edges { set raw <- texts | Internal(p, raw) :: Edge(p, raw) }

  function ForeignIn(p: Problem, texts: seq<string>): set<string> {
    set raw <- texts | Foreign(p, raw) :: p.rules.demand(raw).text
  }

  lemma InOneMore(p: Problem, texts: seq<string>, i: nat)
    requires i < |texts|
    ensures EdgesIn(p, texts[..i + 1]) ==
            if Internal(p, texts[i]) then EdgesIn(p, texts[..i]) + {Edge(p, texts[i])} else EdgesIn(p, texts[..i])
    ensures ForeignIn(p, texts[..i + 1]) ==
            if Foreign(p, texts[i]) then ForeignIn(p, texts[..i]) + {p.rules.demand(texts[i]).text}
            else ForeignIn(p, texts[..i])
  {
    assert texts[..i + 1] == texts[..i] + [texts[i]];
  }

  lemma OneOwner(p: Problem, c: Composition, done: set<string>, owner: string)
    requires owner in c
    ensures EdgesOf(p, Only(c, done + {owner})) == EdgesOf(p, Only(c, done)) + EdgesIn(p, c[owner].requiresDist)
    ensures ForeignOf(p, Only(c, done + {owner})) == ForeignOf(p, Only(c, done)) + ForeignIn(p, c[owner].requiresDist)
  {
    var less, more, texts := Only(c, done), Only(c, done + {owner}), c[owner].requiresDist;
    forall e | e in EdgesOf(p, more) ensures e in EdgesOf(p, less) || e in EdgesIn(p, texts) {
      var k, raw :| k in more && raw in more[k].requiresDist && Internal(p, raw) && Edge(p, raw) == e;
      assert k in less || k == owner;
    }
    forall e | e in EdgesOf(p, less) ensures e in EdgesOf(p, more) {
      var k, raw :| k in less && raw in less[k].requiresDist && Internal(p, raw) && Edge(p, raw) == e;
      assert k in more && more[k] == less[k];
    }
    forall e | e in EdgesIn(p, texts) ensures e in EdgesOf(p, more) {
      var raw :| raw in texts && Internal(p, raw) && Edge(p, raw) == e;
      assert owner in more && more[owner] == c[owner];
    }
    forall t | t in ForeignOf(p, more) ensures t in ForeignOf(p, less) || t in ForeignIn(p, texts) {
      var k, raw :| k in more && raw in more[k].requiresDist && Foreign(p, raw) && p.rules.demand(raw).text == t;
      assert k in less || k == owner;
    }
    forall t | t in ForeignOf(p, less) ensures t in ForeignOf(p, more) {
      var k, raw :| k in less && raw in less[k].requiresDist && Foreign(p, raw) && p.rules.demand(raw).text == t;
      assert k in more && more[k] == less[k];
    }
    forall t | t in ForeignIn(p, texts) ensures t in ForeignOf(p, more) {
      var raw :| raw in texts && Foreign(p, raw) && p.rules.demand(raw).text == t;
      assert owner in more && more[owner] == c[owner];
    }
  }

  lemma GroupMore(edges: Edges, e: (string, string))
    ensures var g := Grouped(edges);
            Grouped(edges + {e}) == g[e.0 := (if e.0 in g then g[e.0] else {}) + {e.1}]
  {
    var g, more := Grouped(edges), Grouped(edges + {e});
    assert Ends(edges + {e}) == Ends(edges) + {e.0};
    SpecsMore(edges, e);
    hide Ends, SpecsOn;
  }

  lemma SpecsMore(edges: Edges, e: (string, string))
    ensures forall k :: SpecsOn(edges + {e}, k) == if k == e.0 then SpecsOn(edges, k) + {e.1} else SpecsOn(edges, k)
    ensures e.0 !in Ends(edges) ==> SpecsOn(edges, e.0) == {}
  {
    forall k ensures SpecsOn(edges + {e}, k) == if k == e.0 then SpecsOn(edges, k) + {e.1} else SpecsOn(edges, k) {
      assert e in edges + {e};
      forall spec | spec in SpecsOn(edges, k) ensures spec in SpecsOn(edges + {e}, k) {
        var f :| f in edges && f.0 == k && f.1 == spec;
        assert f in edges + {e};
      }
    }
    forall f | f in edges ensures f.0 in Ends(edges) {}
  }

  /** One round in place: each constrained component is settled in turn, in any order,
      and what it reads is what the round started from. */
  method RunRound(p: Problem, c: Composition) returns (out: Result<Composition>, changes: bool)
    ensures out == Round(p, c)
    ensures out.Ok? ==> (changes <==> out.value != c)
  {
    hide Grouped, EdgesOf, Choose, Readable, ForeignOf, Partly, Simultaneous, Settles;
    var demands, external := ReadRequirements(p, c);
    if demands.None? { return Refused(BadRequirement), false; }
    var next, todo := c, demands.value.Keys;
    changes := false;
    NoneSettled(p, c, demands.value);
    while todo != {}
      invariant todo <= demands.value.Keys && Partly(p, c, demands.value, todo, next)
      invariant changes <==> !AllMetIn(p, c, demands.value, demands.value.Keys - todo)
      decreases todo
    {
      var k :| k in todo;
      var specs := demands.value[k];
      PartlyReads(p, c, demands.value, todo, next, k);
      if k in p.targets && p.targets[k].None? {
        NotSettled(p, c, demands.value, k);
        return Refused(NoClosure), false;
      }
      if Met(p, next, k, specs) {
        KeepOne(p, c, demands.value, todo, next, k);
      } else {
        NotSettledIf(p, c, demands.value, k);
        if k in p.targets { return Refused(NoClosure), false; }
        var r := Choose(p, k, specs);
        if r.None? { return Refused(NoClosure), false; }
        ReplaceOne(p, c, demands.value, todo, next, k, r.value);
        next, changes := next[k := r.value], true;
      }
      todo := todo - {k};
    }
    AllSettled(p, c, demands.value, next);
    out := Ok(next);
  }

  type Demands = map<string, set<string>>

  /** The round with the components in todo still to be settled. */
  ghost predicate Partly(p: Problem, c: Composition, demands: Demands, todo: set<string>, next: Composition) {
    && next.Keys == c.Keys + (demands.Keys - todo)
    && (forall k | k in demands.Keys - todo :: Settled(p, c, k, demands[k]) == Some(next[k]))
    && (forall k | k in next.Keys && k !in demands.Keys - todo :: k in c && next[k] == c[k])
  }

  predicate AllMetIn(p: Problem, c: Composition, demands: Demands, done: set<string>) {
    forall k <- done :: k in demands ==> Met(p, c, k, demands[k])
  }

  lemma NoneSettled(p: Problem, c: Composition, demands: Demands)
    ensures Partly(p, c, demands, demands.Keys, c) && AllMetIn(p, c, demands, {})
    ensures demands.Keys - demands.Keys == {}
  {
  }

  /** What the in-place round reads of a component is what the round started from. */
  lemma PartlyReads(p: Problem, c: Composition, demands: Demands, todo: set<string>, next: Composition, k: string)
    requires Partly(p, c, demands, todo, next) && k in todo && k in demands
    ensures Met(p, next, k, demands[k]) == Met(p, c, k, demands[k])
  {
  }

  lemma NotSettled(p: Problem, c: Composition, demands: Demands, k: string)
    requires k in demands && Settled(p, c, k, demands[k]).None?
    ensures !Settles(p, c, demands)
  {
  }

  lemma NotSettledIf(p: Problem, c: Composition, demands: Demands, k: string)
    requires k in demands && !Met(p, c, k, demands[k])
    ensures k in p.targets || Choose(p, k, demands[k]).None? ==> !Settles(p, c, demands)
  {
    hide Choose, Met;
  }

  lemma KeepOne(p: Problem, c: Composition, demands: Demands, todo: set<string>, next: Composition, k: string)
    requires Partly(p, c, demands, todo, next) && k in todo && k in demands
    requires Met(p, c, k, demands[k]) && !(k in p.targets && p.targets[k].None?)
    ensures Partly(p, c, demands, todo - {k}, next)
    ensures AllMetIn(p, c, demands, demands.Keys - (todo - {k})) == AllMetIn(p, c, demands, demands.Keys - todo)
  {
    assert demands.Keys - (todo - {k}) == demands.Keys - todo + {k};
    hide Choose;
  }

  lemma ReplaceOne(p: Problem, c: Composition, demands: Demands, todo: set<string>, next: Composition, k: string,
                   r: Release)
    requires Partly(p, c, demands, todo, next) && k in todo && k in demands
    requires !Met(p, c, k, demands[k]) && k !in p.targets && Choose(p, k, demands[k]) == Some(r)
    ensures Partly(p, c, demands, todo - {k}, next[k := r])
    ensures !AllMetIn(p, c, demands, demands.Keys - (todo - {k}))
  {
    hide Choose, Met, Settled, Partly, AllMetIn;
    SettledByChoice(p, c, k, demands[k]);
    PartlyReplaced(p, c, demands, todo, next, k, r);
    OneUnmet(p, c, demands, demands.Keys - (todo - {k}), k);
  }

  lemma PartlyReplaced(p: Problem, c: Composition, demands: Demands, todo: set<string>, next: Composition, k: string,
                       r: Release)
    requires Partly(p, c, demands, todo, next) && k in todo && k in demands
    requires Settled(p, c, k, demands[k]) == Some(r)
    ensures Partly(p, c, demands, todo - {k}, next[k := r])
  {
    hide Settled;
    assert demands.Keys - (todo - {k}) == demands.Keys - todo + {k};
  }

  lemma OneUnmet(p: Problem, c: Composition, demands: Demands, done: set<string>, k: string)
    requires k in done && k in demands && !Met(p, c, k, demands[k])
    ensures !AllMetIn(p, c, demands, done)
  {
    hide Met;
  }

  lemma SettledByChoice(p: Problem, c: Composition, k: string, specs: set<string>)
    requires !Met(p, c, k, specs) && k !in p.targets
    ensures Settled(p, c, k, specs) == Choose(p, k, specs)
  {
  }

  lemma AllSettled(p: Problem, c: Composition, demands: Demands, next: Composition)
    requires Partly(p, c, demands, {}, next)
    ensures Settles(p, c, demands) && Simultaneous(p, c, demands) == next
    ensures next != c <==> !AllMetIn(p, c, demands, demands.Keys - {})
  {
    hide Choose, Admits, Met, Settled;
    assert Simultaneous(p, c, demands) == next;
    if AllMetIn(p, c, demands, demands.Keys - {}) {
      AllMetNoChange(p, c, demands);
    } else {
      var k :| k in demands && !Met(p, c, k, demands[k]);
      assert Settled(p, c, k, demands[k]) == Some(next[k]);
      ReplacementAdmitted(p, c, k, demands[k]);
      if next == c { AdmittedIsMet(p, c, k, demands[k], next[k]); }
    }
  }

  lemma AdmittedIsMet(p: Problem, c: Composition, k: string, specs: set<string>, r: Release)
    requires Admits(p, specs, r.version) && k in c && c[k] == r
    ensures Met(p, c, k, specs)
  {
  }

  /** Rounds until one changes nothing. Each non-final round adds a state to those seen. */
  method Converge(p: Problem, start: Composition) returns (out: Result<Composition>)
    ensures out == Close(p, start, {}, MAX_ROUNDS)
  {
    hide Round, StateOf;
    var c, seen: set<State>, round := start, {}, 0;
    while round < MAX_ROUNDS
      invariant 0 <= round <= MAX_ROUNDS && |seen| == round
      invariant Close(p, start, {}, MAX_ROUNDS) == Close(p, c, seen, MAX_ROUNDS - round)
    {
      if StateOf(c) in seen { return Refused(Oscillates); }
      var next, changes := RunRound(p, c);
      if next.Refused? || !changes { return next; }
      seen, c, round := seen + {StateOf(c)}, next.value, round + 1;
    }
    out := Refused(TooManyRounds);
  }

  /** Apply the explicit targets to the baseline, in any order. */
  method ApplyTargets(p: Problem) returns (start: Option<Composition>)
    ensures start == if TargetsAsked(p) then Some(Start(p)) else None
  {
    hide Asked, OfVersion, Signed, Targeted, AskedIn, Start;
    var c, todo := p.before, p.targets.Keys;
    ghost var done := {};
    NoneTargeted(p);
    while todo != {}
      invariant todo <= p.targets.Keys && done == p.targets.Keys - todo
      invariant AskedIn(p, done) && Targeted(p, done, c)
      decreases todo
    {
      var k :| k in todo;
      AskedMeans(p, k);
      if p.targets[k].None? {
        PresentMeans(p, done, c, k);
        if k !in c { return None; }
        TargetRemoved(p, done, c, k);
        c := c - {k};
      } else {
        var release := OfVersion(Signed(p, k), p.targets[k].value);
        if release.None? || !Usable(p, release.value) { return None; }
        TargetSet(p, done, c, k, release.value);
        c := c[k := release.value];
      }
      OneMoreAsked(p, done, k);
      todo, done := todo - {k}, done + {k};
    }
    AllTargeted(p, done, c);
    start := Some(c);
  }

  predicate AskedIn(p: Problem, done: set<string>) { forall k <- done :: k in p.targets && Asked(p, k) }

  /** The baseline with these of the targets applied. */
  ghost predicate Targeted(p: Problem, done: set<string>, c: Composition) {
    forall k | k in c || k in p.before || k in done :: TargetedAt(p, done, c, k)
  }

  predicate TargetedAt(p: Problem, done: set<string>, c: Composition, k: string) {
    if k in done && k in p.targets then
      if p.targets[k].None? then k !in c
      else k in c && OfVersion(Signed(p, k), p.targets[k].value) == Some(c[k])
    else k in c <==> k in p.before && (k in c ==> c[k] == p.before[k])
  }

  lemma NoneTargeted(p: Problem)
    ensures Targeted(p, {}, p.before) && AskedIn(p, {})
  {
  }

  lemma OneMoreAsked(p: Problem, done: set<string>, k: string)
    requires AskedIn(p, done) && k in p.targets && Asked(p, k)
    ensures AskedIn(p, done + {k})
  {
    hide Asked;
  }

  lemma PresentMeans(p: Problem, done: set<string>, c: Composition, k: string)
    requires Targeted(p, done, c) && k !in done
    ensures k in c <==> k in p.before
  {
    assert k in c || k in p.before ==> TargetedAt(p, done, c, k);
  }

  lemma TargetRemoved(p: Problem, done: set<string>, c: Composition, k: string)
    requires Targeted(p, done, c) && k in p.targets && p.targets[k].None?
    ensures Targeted(p, done + {k}, c - {k})
  {
    hide OfVersion, Signed;
    forall j | j in c - {k} || j in p.before || j in done + {k} ensures TargetedAt(p, done + {k}, c - {k}, j) {
      if j != k { assert TargetedAt(p, done, c, j); }
    }
  }

  lemma TargetSet(p: Problem, done: set<string>, c: Composition, k: string, r: Release)
    requires Targeted(p, done, c) && k in p.targets && p.targets[k].Some?
    requires OfVersion(Signed(p, k), p.targets[k].value) == Some(r)
    ensures Targeted(p, done + {k}, c[k := r])
  {
    hide OfVersion, Signed;
    forall j | j in c[k := r] || j in p.before || j in done + {k} ensures TargetedAt(p, done + {k}, c[k := r], j) {
      if j != k { assert TargetedAt(p, done, c, j); }
    }
  }

  lemma AllTargeted(p: Problem, done: set<string>, c: Composition)
    requires Targeted(p, done, c) && AskedIn(p, done) && done == p.targets.Keys
    ensures TargetsAsked(p) && c == Start(p)
  {
    hide OfVersion, Signed, Usable;
    var start := Start(p);
    forall k ensures k in c <==> k in start {
      if k in c || k in p.before || k in done { assert TargetedAt(p, done, c, k); }
    }
    forall k | k in c ensures c[k] == start[k] { assert TargetedAt(p, done, c, k); }
  }

  lemma AskedMeans(p: Problem, k: string)
    requires k in p.targets
    ensures p.targets[k].None? ==> (Asked(p, k) <==> k in p.before)
    ensures p.targets[k].Some? ==>
              var r := OfVersion(Signed(p, k), p.targets[k].value);
              Asked(p, k) <==> r.Some? && Usable(p, r.value)
  {
  }

  method ReadRegistrations(rules: Packaging, modules: seq<Registration>)
    returns (distributions: Option<map<string, string>>, components: set<string>)
    ensures distributions.Some? <==> DistinctModules(rules, modules)
    ensures distributions.Some? ==>
              distributions.value == DistributionsOf(rules, modules) && components == Registered(modules)
  {
    hide DistinctModules, DistributionsOf, Registered;
    var found: map<string, string>, i := map[], 0;
    components := {};
    NoModules(rules);
    while i < |modules|
      invariant 0 <= i <= |modules| && DistinctModules(rules, modules[..i])
      invariant components == Registered(modules[..i]) && found == DistributionsOf(rules, modules[..i])
    {
      var m := modules[i];
      if m.component in components || rules.canonical(m.distribution) in found {
        RepeatedModule(rules, modules, i);
        return None, components;
      }
      OneMoreModule(rules, modules, i);
      components, found, i := components + {m.component}, found[rules.canonical(m.distribution) := m.component], i + 1;
    }
    assert modules[..i] == modules;
    distributions := Some(found);
  }

  lemma NoModules(rules: Packaging)
    ensures DistinctModules(rules, []) && DistributionsOf(rules, []) == map[] && Registered([]) == {}
  {
  }

  lemma OneMoreModule(rules: Packaging, modules: seq<Registration>, i: nat)
    requires i < |modules| && DistinctModules(rules, modules[..i])
    requires modules[i].component !in Registered(modules[..i])
    requires rules.canonical(modules[i].distribution) !in DistributionsOf(rules, modules[..i])
    ensures DistinctModules(rules, modules[..i + 1])
    ensures Registered(modules[..i + 1]) == Registered(modules[..i]) + {modules[i].component}
    ensures DistributionsOf(rules, modules[..i + 1]) ==
            DistributionsOf(rules, modules[..i])[rules.canonical(modules[i].distribution) := modules[i].component]
  {
    var m := modules[i];
    assert modules[..i + 1] == modules[..i] + [m];
    forall j | 0 <= j < i
      ensures modules[j].component != m.component
              && rules.canonical(modules[j].distribution) != rules.canonical(m.distribution)
    {
      assert modules[j] in modules[..i];
    }
  }

  lemma RepeatedModule(rules: Packaging, modules: seq<Registration>, i: nat)
    requires i < |modules| && DistinctModules(rules, modules[..i])
    requires modules[i].component in Registered(modules[..i])
             || rules.canonical(modules[i].distribution) in DistributionsOf(rules, modules[..i])
    ensures !DistinctModules(rules, modules)
  {
    var m :| m in modules[..i] && (m.component == modules[i].component
                                   || rules.canonical(m.distribution) == rules.canonical(modules[i].distribution));
    var j :| 0 <= j < i && modules[j] == m;
    assert modules[j].component == modules[i].component
           || rules.canonical(modules[j].distribution) == rules.canonical(modules[i].distribution);
  }

  function FirstDocuments(s: Snapshot, i: nat): Snapshot
    requires i <= |s.documents|
  {
    s.(documents := s.documents[..i])
  }

  method ReadDocuments(s: Snapshot) returns (documents: Option<map<string, seq<Release>>>)
    ensures documents == if SoundDocuments(s) then Some(DocumentsOf(s)) else None
  {
    hide SoundDocuments, SoundDocument, DocumentsOf, FirstDocuments;
    var found: map<string, seq<Release>>, i := map[], 0;
    NoDocuments(s);
    while i < |s.documents|
      invariant 0 <= i <= |s.documents| && SoundDocuments(FirstDocuments(s, i))
      invariant found == DocumentsOf(FirstDocuments(s, i))
    {
      var d := s.documents[i];
      if d.component in found || !SoundDocument(s, d) {
        UnsoundDocument(s, i);
        return None;
      }
      OneMoreDocument(s, i);
      found, i := found[d.component := d.releases], i + 1;
    }
    EveryDocument(s);
    documents := Some(found);
  }

  lemma NoDocuments(s: Snapshot)
    ensures SoundDocuments(FirstDocuments(s, 0)) && DocumentsOf(FirstDocuments(s, 0)) == map[]
  {
  }

  lemma EveryDocument(s: Snapshot)
    ensures FirstDocuments(s, |s.documents|) == s
  {
    assert s.documents[..|s.documents|] == s.documents;
  }

  lemma OneMoreSound(s: Snapshot, i: nat)
    requires i < |s.documents| && SoundDocuments(FirstDocuments(s, i)) && SoundDocument(s, s.documents[i])
    requires forall j | 0 <= j < i :: s.documents[j].component != s.documents[i].component
    ensures SoundDocuments(FirstDocuments(s, i + 1))
  {
    hide SoundDocument;
    SoundAnywhere(s, s.documents[i], i + 1);
    forall j | 0 <= j < i ensures SoundDocument(FirstDocuments(s, i + 1), s.documents[j]) {
      assert s.documents[j] in s.documents[..i];
      SoundAnywhere(s, s.documents[j], i);
      SoundAnywhere(s, s.documents[j], i + 1);
    }
  }

  lemma SoundAnywhere(s: Snapshot, d: Document, i: nat)
    requires i <= |s.documents|
    ensures SoundDocument(FirstDocuments(s, i), d) <==> SoundDocument(s, d)
  {
  }

  lemma OneMoreDocument(s: Snapshot, i: nat)
    requires i < |s.documents| && SoundDocuments(FirstDocuments(s, i)) && SoundDocument(s, s.documents[i])
    requires s.documents[i].component !in DocumentsOf(FirstDocuments(s, i))
    ensures SoundDocuments(FirstDocuments(s, i + 1))
    ensures DocumentsOf(FirstDocuments(s, i + 1)) ==
            DocumentsOf(FirstDocuments(s, i))[s.documents[i].component := s.documents[i].releases]
  {
    hide SoundDocument, SoundDocuments;
    var d := s.documents[i];
    forall j | 0 <= j < i ensures s.documents[j].component != d.component {
      assert s.documents[j] in s.documents[..i];
    }
    OneMoreSound(s, i);
    assert s.documents[..i + 1] == s.documents[..i] + [d];
  }

  lemma UnsoundDocument(s: Snapshot, i: nat)
    requires i < |s.documents| && SoundDocuments(FirstDocuments(s, i))
    requires s.documents[i].component in DocumentsOf(FirstDocuments(s, i)) || !SoundDocument(s, s.documents[i])
    ensures !SoundDocuments(s)
  {
    hide SoundDocument;
    if SoundDocument(s, s.documents[i]) {
      var d :| d in s.documents[..i] && d.component == s.documents[i].component;
      var j :| 0 <= j < i && s.documents[j] == d;
    }
  }

  method ReadBaseline(rules: Packaging, s: Snapshot, observed: seq<Observed>) returns (baseline: Option<Composition>)
    ensures baseline == if GoodBaseline(rules, s, observed) then Some(BaselineOf(s, observed)) else None
  {
    hide GoodBaseline, GoodObserved, BaselineOf, Claim;
    var found: Composition, i := map[], 0;
    NoneObserved(rules, s);
    while i < |observed|
      invariant 0 <= i <= |observed| && GoodBaseline(rules, s, observed[..i])
      invariant found == BaselineOf(s, observed[..i])
    {
      var o := observed[i];
      if o.component in found || !GoodObserved(rules, s, o) {
        BadObserved(rules, s, observed, i);
        return None;
      }
      OneMoreObserved(rules, s, observed, i);
      found, i := found[o.component := Claim(s, o)], i + 1;
    }
    assert observed[..i] == observed;
    baseline := Some(found);
  }

  lemma NoneObserved(rules: Packaging, s: Snapshot)
    ensures GoodBaseline(rules, s, []) && BaselineOf(s, []) == map[]
  {
  }

  lemma OneMoreObserved(rules: Packaging, s: Snapshot, observed: seq<Observed>, i: nat)
    requires i < |observed| && GoodBaseline(rules, s, observed[..i]) && GoodObserved(rules, s, observed[i])
    requires observed[i].component !in BaselineOf(s, observed[..i])
    ensures Published(s, observed[i]) && GoodBaseline(rules, s, observed[..i + 1])
    ensures BaselineOf(s, observed[..i + 1])
            == BaselineOf(s, observed[..i])[observed[i].component := Claim(s, observed[i])]
  {
    hide Claim, Published;
    var o := observed[i];
    assert observed[..i + 1] == observed[..i] + [o];
    forall j | 0 <= j < i ensures observed[j].component != o.component {
      assert observed[j] in observed[..i];
    }
  }

  lemma BadObserved(rules: Packaging, s: Snapshot, observed: seq<Observed>, i: nat)
    requires i < |observed| && GoodBaseline(rules, s, observed[..i])
    requires observed[i].component in BaselineOf(s, observed[..i]) || !GoodObserved(rules, s, observed[i])
    ensures !GoodBaseline(rules, s, observed)
  {
    hide GoodObserved, Claim;
    if GoodObserved(rules, s, observed[i]) {
      var o :| o in observed[..i] && o.component == observed[i].component;
      var j :| 0 <= j < i && observed[j] == o;
    }
  }

  /** One row for every component before or after. */
  method BuildRows(p: Problem, c: Composition) returns (rows: map<string, Change>)
    ensures rows == Rows(p, c)
  {
    hide ActionOf, IdentityAt;
    var todo := p.before.Keys + c.Keys;
    rows := map[];
    while todo != {}
      invariant todo <= p.before.Keys + c.Keys && rows.Keys == p.before.Keys + c.Keys - todo
      invariant forall k <- rows.Keys :: rows[k] == Rows(p, c)[k]
      decreases todo
    {
      var k :| k in todo;
      var prior, next := IdentityAt(p.before, k), IdentityAt(c, k);
      rows, todo := rows[k := Change(ActionOf(p, prior, next), prior, next)], todo - {k};
    }
  }

  /** Plan the requested changes and their closure, or refuse. */
  method PlanReview(rules: Packaging, s: Snapshot, observed: seq<Observed>, targets: Targets)
    returns (out: Result<Review>)
    ensures out == ReviewOf(rules, s, observed, targets)
  {
    hide DistinctModules, DistributionsOf, SoundDocuments, DocumentsOf, GoodBaseline, BaselineOf, GoodTargets,
         Start, TargetsAsked, Close, Rows, ForeignOf, Readable, Grouped, EdgesOf, Safe, AllMet;
    if !GoodTargets(targets) { return Refused(Inputs); }
    var distributions, components := ReadRegistrations(rules, s.modules);
    if distributions.None? || !(targets.Keys <= components) { return Refused(Unregistered); }
    var documents := ReadDocuments(s);
    if documents.None? { return Refused(BadCatalog); }
    var before := ReadBaseline(rules, s, observed);
    if before.None? { return Refused(BadBaseline); }
    var p := Problem(rules, distributions.value, documents.value, before.value, targets);
    if before.value == map[] { return Refused(EmptyBaseline); }
    var start := ApplyTargets(p);
    if start.None? { return Refused(BadTarget); }
    if start.value == map[] { return Refused(EmptyComposition); }
    var closed := Converge(p, start.value);
    if closed.Refused? { return Refused(closed.why); }
    var demands, external := ReadRequirements(p, closed.value);
    FinalCheckPasses(p);
    var resolved := demands.Some? && AllMet(p, closed.value, demands.value);
    if !Safe(p, closed.value) { return Refused(if resolved then RevokedOrIncompatible else Unresolved); }
    var rows := BuildRows(p, closed.value);
    out := if resolved then Ok(Review(rows, external)) else Refused(Unresolved);
  }

  // --------------------------------------------------------------- soundness

  /** The explicit versions exactly, none of the removals, all other observed components. */
  predicate Honours(targets: Targets, before: Composition, c: Composition) {
    && (forall k <- targets.Keys | targets[k].Some? :: k in c && c[k].version == targets[k].value)
    && (forall k <- targets.Keys | targets[k].None? :: k !in c)
    && (forall k <- before.Keys | k !in targets :: k in c)
  }

  /** The baseline is exactly what was observed. */
  predicate IsBaseline(observed: seq<Observed>, base: map<string, Identity>) {
    && base.Keys == (set o <- observed :: o.component)
    && forall o <- observed :: o.component in base && base[o.component] == Identity(o.version, o.sha)
  }

  lemma HonoursTargets(p: Problem, c: Composition)
    requires Faithful(p, c) && forall k | k in Exact(p) :: c[k].version == p.targets[k].value
    ensures Honours(p.targets, p.before, c)
  {
    hide OfVersion, Signed;
    forall k <- p.targets.Keys | p.targets[k].Some? ensures k in Exact(p) {}
    forall k <- p.targets.Keys | p.targets[k].None? ensures k in Removed(p) {}
  }

  lemma BaselineObserved(s: Snapshot, observed: seq<Observed>)
    requires Holdable(s, observed)
    ensures IsBaseline(observed, Identities(BaselineOf(s, observed)))
  {
    hide Published, Claim;
  }

  /** Applied to what was observed, the rows of a plan give a composition that meets every
      applicable dependency on a managed component, has no revoked or incompatible release,
      and honours the request. */
  lemma ReviewSound(rules: Packaging, s: Snapshot, observed: seq<Observed>, targets: Targets)
    requires ReviewOf(rules, s, observed, targets).Ok?
    ensures var p := ProblemOf(rules, s, observed, targets).value;
            var c := Solve(p).value;
            && IsBaseline(observed, Identities(p.before))
            && ApplyRows(Identities(p.before), ReviewOf(rules, s, observed, targets).value.rows) == Identities(c)
            && Closed(p, c) && (forall k | k in c :: Usable(p, c[k]))
            && Honours(targets, p.before, c)
  {
    var p := ProblemOf(rules, s, observed, targets).value;
    assert Holdable(s, observed) && p.before == BaselineOf(s, observed) && p.targets == targets;
    hide ProblemOf, Solve, Closed, Readable, ApplyRows, Rows, Faithful, Honours, IsBaseline, BaselineOf, Holdable;
    PlanSound(p);
    RowsRebuild(p, Solve(p).value);
    HonoursTargets(p, Solve(p).value);
    BaselineObserved(s, observed);
  }

  // ------------------------------------------------------------- idempotence

  ghost predicate DistinctVersions(s: Snapshot) {
    forall d <- s.documents, i, j | 0 <= i < j < |d.releases| :: d.releases[i].version != d.releases[j].version
  }

  /** These observations show exactly this composition, each from its own signed document. */
  ghost predicate Shows(rules: Packaging, s: Snapshot, observed: seq<Observed>, c: Composition) {
    && (forall i, j | 0 <= i < j < |observed| :: observed[i].component != observed[j].component)
    && (set o <- observed :: o.component) == c.Keys
    && forall o <- observed :: ShowsOne(rules, s, o, c)
  }

  ghost predicate ShowsOne(rules: Packaging, s: Snapshot, o: Observed, c: Composition) {
    var d := FindDocument(s.documents, o.component);
    && d.Some? && d.value.payloadSha == o.publisherSha
        && rules.canonical(d.value.distribution) == rules.canonical(o.distribution)
    && o.component in c && o.version == c[o.component].version && o.sha == c[o.component].sha
  }

  function ExactOnly(targets: Targets): Targets { map k <- targets.Keys | targets[k].Some? :: targets[k] }

  lemma {:induction false} NoneMatching(releases: seq<Release>, version: string, sha: string)
    requires forall x <- releases :: x.version != version
    ensures Matching(releases, version, sha) == []
  {
    if releases != [] { NoneMatching(releases[1..], version, sha); }
  }

  lemma {:induction false} MatchingOnly(releases: seq<Release>, r: Release)
    requires r in releases && forall i, j | 0 <= i < j < |releases| :: releases[i].version != releases[j].version
    ensures Matching(releases, r.version, r.sha) == [r]
    decreases |releases|
  {
    var rest := releases[1..];
    if releases[0] == r {
      forall x <- rest ensures x.version != r.version {
        var i :| 0 <= i < |rest| && rest[i] == x;
        assert releases[0].version != releases[i + 1].version;
      }
      NoneMatching(rest, r.version, r.sha);
    } else {
      assert r in rest;
      MatchingOnly(rest, r);
    }
  }

  lemma {:induction false} Found(documents: seq<Document>, i: nat)
    requires i < |documents|
    requires forall j, k | 0 <= j < k < |documents| :: documents[j].component != documents[k].component
    ensures FindDocument(documents, documents[i].component) == Some(documents[i])
  {
    if i > 0 {
      assert documents[0].component != documents[i].component;
      Found(documents[1..], i - 1);
    }
  }

  lemma {:induction false} FoundIn(documents: seq<Document>, component: string)
    ensures FindDocument(documents, component).Some? ==>
              FindDocument(documents, component).value in documents
              && FindDocument(documents, component).value.component == component
  {
    if documents != [] && documents[0].component != component { FoundIn(documents[1..], component); }
  }

  lemma SignedFound(s: Snapshot, p: Problem, component: string)
    requires SoundDocuments(s) && p.documents == DocumentsOf(s)
    ensures component in p.documents ==>
              var d := FindDocument(s.documents, component); d.Some? && d.value.releases == p.documents[component]
  {
    if component in p.documents {
      var d :| d in s.documents && d.component == component && p.documents[component] == d.releases;
      var i :| 0 <= i < |s.documents| && s.documents[i] == d;
      Found(s.documents, i);
    }
  }

  /** Everything the planner selects is a release of the component's signed document. */
  lemma SelectedIsSigned(s: Snapshot, observed: seq<Observed>, p: Problem, c: Composition, k: string)
    requires SoundDocuments(s) && Holdable(s, observed)
    requires p.documents == DocumentsOf(s) && p.before == BaselineOf(s, observed) && Faithful(p, c) && k in c
    ensures var d := FindDocument(s.documents, k);
            d.Some? && d.value in s.documents && c[k] in d.value.releases
  {
    hide SoundDocuments, DocumentsOf, Matching;
    SignedFound(s, p, k);
    FoundIn(s.documents, k);
    if c[k] !in Signed(p, k) {
      var o :| o in observed && o.component == k && p.before[k] == Claim(s, o);
      var d := FindDocument(s.documents, k).value;
      assert Matching(d.releases, o.version, o.sha)[0] in Matching(d.releases, o.version, o.sha);
      MatchingIn(d.releases, o.version, o.sha);
    }
  }

  lemma MatchingIn(releases: seq<Release>, version: string, sha: string)
    ensures forall r <- Matching(releases, version, sha) :: r in releases
  {
  }

  lemma ShownBaseline(rules: Packaging, s: Snapshot, observed: seq<Observed>, p: Problem, c: Composition,
                      again: seq<Observed>)
    requires SoundDocuments(s) && DistinctVersions(s) && Holdable(s, observed)
    requires p.documents == DocumentsOf(s) && p.before == BaselineOf(s, observed) && Faithful(p, c)
    requires Shows(rules, s, again, c)
    ensures GoodBaseline(rules, s, again) && BaselineOf(s, again) == c
  {
    hide Faithful, Matching, DocumentsOf, SoundDocuments, DistinctVersions, ShowsOne, GoodObserved, BaselineOf,
         Claim, Published;
    forall o <- again ensures GoodObserved(rules, s, o) && ClaimsIn(s, o, c) {
      ShownComponent(rules, s, o, c);
      SelectedIsSigned(s, observed, p, c, o.component);
      ShownOne(rules, s, o, c);
    }
    hide ClaimsIn;
    BaselineIs(s, again, c);
  }

  predicate ClaimsIn(s: Snapshot, o: Observed, c: Composition) {
    Published(s, o) && o.component in c && Claim(s, o) == c[o.component]
  }

  lemma BaselineIs(s: Snapshot, observed: seq<Observed>, c: Composition)
    requires forall i, j | 0 <= i < j < |observed| :: observed[i].component != observed[j].component
    requires (set o <- observed :: o.component) == c.Keys && forall o <- observed :: ClaimsIn(s, o, c)
    ensures Holdable(s, observed) && BaselineOf(s, observed) == c
  {
    hide Published, Claim;
    assert forall o <- observed :: ClaimsIn(s, o, c);
    assert BaselineOf(s, observed).Keys == (set o <- observed :: o.component);
  }

  lemma ShownComponent(rules: Packaging, s: Snapshot, o: Observed, c: Composition)
    requires ShowsOne(rules, s, o, c)
    ensures o.component in c
  {
  }

  lemma ShownOne(rules: Packaging, s: Snapshot, o: Observed, c: Composition)
    requires SoundDocuments(s) && DistinctVersions(s) && ShowsOne(rules, s, o, c)
    requires var d := FindDocument(s.documents, o.component);
             d.Some? && d.value in s.documents && c[o.component] in d.value.releases
    ensures GoodObserved(rules, s, o) && ClaimsIn(s, o, c)
  {
    hide Matching;
    var d := FindDocument(s.documents, o.component).value;
    FoundIn(s.documents, o.component);
    MatchingOnly(d.releases, c[o.component]);
    assert SoundDocument(s, d);
    var m := Registration(d.component, d.distribution);
    assert m in s.modules && m.component == o.component;
  }

  lemma SubsetSize(a: set<string>, b: set<string>)
    requires a <= b
    ensures |a| <= |b|
  {
    assert b == a + (b - a);
  }

  /** Planning again from what a plan proposes, with the same exact versions, is accepted
      and proposes no change at all. */
  lemma ReviewIdempotent(rules: Packaging, s: Snapshot, observed: seq<Observed>, targets: Targets, again: seq<Observed>)
    requires DistinctVersions(s) && ReviewOf(rules, s, observed, targets).Ok? && ExactOnly(targets) != map[]
    requires Shows(rules, s, again, Solve(ProblemOf(rules, s, observed, targets).value).value)
    ensures var r := ReviewOf(rules, s, again, ExactOnly(targets));
            r.Ok? && forall k | k in r.value.rows :: r.value.rows[k].action == Unchanged
  {
    var p := ProblemOf(rules, s, observed, targets).value;
    hide ProblemOf, Solve, Shows, DistinctVersions, Rows, ForeignOf, ExactOnly;
    PlanIdempotent(p);
    ProblemAgain(rules, s, observed, targets, again, p, Solve(p).value);
  }

  lemma ProblemAgain(rules: Packaging, s: Snapshot, observed: seq<Observed>, targets: Targets, again: seq<Observed>,
                     p: Problem, c: Composition)
    requires DistinctVersions(s) && ExactOnly(targets) != map[]
    requires ProblemOf(rules, s, observed, targets) == Ok(p) && Solve(p) == Ok(c) && Shows(rules, s, again, c)
    ensures ProblemOf(rules, s, again, ExactOnly(targets)) == Ok(Again(p, c))
  {
    hide Shows, DistinctVersions, SoundDocuments, GoodBaseline, BaselineOf, DocumentsOf, DistinctModules,
         DistributionsOf,
         Solve, Faithful, GoodTargets, ExactOnly, Registered, Holdable;
    PlanSound(p);
    ShownBaseline(rules, s, observed, p, c, again);
    SameTargets(p, c, targets);
    ExactTargets(targets);
  }

  lemma SameTargets(p: Problem, c: Composition, targets: Targets)
    requires p.targets == targets
    ensures Again(p, c) == p.(before := c, targets := ExactOnly(targets))
  {
  }

  lemma ExactTargets(targets: Targets)
    requires GoodTargets(targets) && ExactOnly(targets) != map[]
    ensures GoodTargets(ExactOnly(targets)) && ExactOnly(targets).Keys <= targets.Keys
  {
    var exact := ExactOnly(targets);
    SubsetSize(exact.Keys, targets.Keys);
    var k :| k in exact;
    assert k in exact.Keys;
  }
}
