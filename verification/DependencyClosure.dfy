/** The dependency check of one installed package: a worklist over package states,
    where a state is a normalized name with the extras an edge asked for.

    Requirement texts, markers, specifiers and versions are the packaging library's,
    taken as given functions for one interpreter. */
module DependencyClosure {
  import opened Wrappers

  const MAX_REQUIRES := 256
  const MAX_NODES := 4000

  datatype Package = Package(
    distribution: string, version: string, requiresPython: Option<string>, needs: seq<string>, inside: bool)

  datatype Requirement = Requirement(
    name: string, marker: Option<string>, url: bool, extras: seq<string>, spec: string)

  datatype Library = Library(
    normal: string -> string,
    parse: string -> Option<Requirement>,           // None when the text is invalid; extras sorted
    marker: (string, string) -> Option<bool>,       // a marker under one extra; None when it cannot be evaluated
    satisfies: (string, string) -> bool,            // a specifier and an installed version
    python: Option<string> -> bool)

  /** One question: the root package, and what is installed. */
  datatype Graph = Graph(lib: Library, root: Package, installed: map<string, Package>, duplicates: set<string>)

  datatype State = State(name: string, extras: seq<string>)

  /** Installed packages are filed under their own normalized names, the root among them. */
  predicate Filed(g: Graph) {
    && (forall n <- g.installed.Keys :: g.lib.normal(g.installed[n].distribution) == n)
    && g.lib.normal(g.root.distribution) in g.installed && g.installed[g.lib.normal(g.root.distribution)] == g.root
  }

  datatype Outcome = Skipped | Problem(code: string) | Leads(state: State)

  /** Whether a marker applies for any of the extras, tried in order. */
  function Applies(g: Graph, marker: Option<string>, extras: seq<string>): Option<bool> {
    if marker.None? then Some(true)
    else if extras == [] then Some(false)
    else
      var first := g.lib.marker(marker.value, extras[0]);
      if first == Some(false) then Applies(g, marker, extras[1..]) else first
  }

  function OutcomeOf(g: Graph, raw: string, extras: seq<string>): Outcome {
    var r := g.lib.parse(raw);
    if r.None? then Problem("dependency_requirement_invalid")
    else
      var applies, name := Applies(g, r.value.marker, extras), g.lib.normal(r.value.name);
      if applies.None? then Problem("dependency_marker_invalid")
      else if !applies.value then Skipped
      else if r.value.url then Problem("direct_url_dependency_unsupported")
      else if name in g.duplicates then Problem("dependency_ambiguous")
      else if name !in g.installed then Problem("dependency_missing")
      else
        var d := g.installed[name];
        if !d.inside then Problem("dependency_outside_environment")
        else if !g.lib.satisfies(r.value.spec, d.version) then Problem("dependency_version_incompatible")
        else if !g.lib.python(d.requiresPython) then Problem("dependency_python_incompatible")
        else Leads(State(name, if r.value.extras == [] then [""] else r.value.extras))
  }

  // ----------------------------------------------------- what an edge stands for

  /** The marker is absent, or true under an extra before which it is plainly false. */
  ghost predicate MarkerHolds(g: Graph, marker: Option<string>, extras: seq<string>) {
    marker.Some? ==> exists k | 0 <= k < |extras| :: FirstTrue(g, marker.value, extras, k)
  }

  predicate FirstTrue(g: Graph, marker: string, extras: seq<string>, k: nat)
    requires k < |extras|
  {
    && g.lib.marker(marker, extras[k]) == Some(true)
    && forall j | 0 <= j < k :: g.lib.marker(marker, extras[j]) == Some(false)
  }

  predicate MarkerFails(g: Graph, marker: Option<string>, extras: seq<string>) {
    marker.Some? && forall extra <- extras :: g.lib.marker(marker.value, extra) == Some(false)
  }

  /** An installed package, the only one of its name and inside the environment, is what
      was asked for. */
  predicate Supplied(g: Graph, r: Requirement) {
    var name := g.lib.normal(r.name);
    && !r.url && name !in g.duplicates && name in g.installed && g.installed[name].inside
    && g.lib.satisfies(r.spec, g.installed[name].version) && g.lib.python(g.installed[name].requiresPython)
  }

  /** A readable text that does not apply here, or applies and is supplied. */
  ghost predicate Met(g: Graph, raw: string, extras: seq<string>) {
    var r := g.lib.parse(raw);
    && r.Some?
    && (MarkerFails(g, r.value.marker, extras) || (MarkerHolds(g, r.value.marker, extras) && Supplied(g, r.value)))
  }

  /** The text asks, under these extras, for this installed package with these extras. */
  ghost predicate AsksFor(g: Graph, raw: string, extras: seq<string>, t: State) {
    var r := g.lib.parse(raw);
    && r.Some? && MarkerHolds(g, r.value.marker, extras) && Supplied(g, r.value)
    && t == State(g.lib.normal(r.value.name), if r.value.extras == [] then [""] else r.value.extras)
  }

  predicate Listed(g: Graph, s: State) { s.name in g.installed && |g.installed[s.name].needs| <= MAX_REQUIRES }

  /** One requirement of a listed state's package leads to t. */
  ghost predicate Edge(g: Graph, s: State, t: State) {
    Listed(g, s) && exists raw <- g.installed[s.name].needs :: AsksFor(g, raw, s.extras, t)
  }

  /** An installed package with at most 256 requirements, all of them met. */
  ghost predicate Clean(g: Graph, s: State) {
    Listed(g, s) && forall raw <- g.installed[s.name].needs :: Met(g, raw, s.extras)
  }

  lemma {:induction false} AppliesExactly(g: Graph, marker: Option<string>, extras: seq<string>)
    ensures Applies(g, marker, extras) == Some(true) <==> MarkerHolds(g, marker, extras)
    ensures Applies(g, marker, extras) == Some(false) <==> MarkerFails(g, marker, extras)
  {
    if marker.Some? && extras != [] {
      AppliesExactly(g, marker, extras[1..]);
      if FirstTrue(g, marker.value, extras, 0) {
      } else if g.lib.marker(marker.value, extras[0]) == Some(false) {
        forall k | 0 < k < |extras|
          ensures FirstTrue(g, marker.value, extras, k) <==> FirstTrue(g, marker.value, extras[1..], k - 1)
        {
          if FirstTrue(g, marker.value, extras[1..], k - 1) {
            forall j | 0 <= j < k ensures g.lib.marker(marker.value, extras[j]) == Some(false) {
              if j > 0 { assert extras[j] == extras[1..][j - 1]; }
            }
          }
          if FirstTrue(g, marker.value, extras, k) {
            forall j | 0 <= j < k - 1 ensures g.lib.marker(marker.value, extras[1..][j]) == Some(false) {
              assert extras[1..][j] == extras[j + 1];
            }
          }
        }
        if k :| 0 <= k < |extras[1..]| && FirstTrue(g, marker.value, extras[1..], k) {
          assert FirstTrue(g, marker.value, extras, k + 1);
        }
      }
    }
  }

  lemma OutcomeExactly(g: Graph, raw: string, extras: seq<string>, t: State)
    ensures OutcomeOf(g, raw, extras).Problem? <==> !Met(g, raw, extras)
    ensures OutcomeOf(g, raw, extras) == Leads(t) <==> AsksFor(g, raw, extras, t)
  {
    hide MarkerHolds, MarkerFails, Applies;
    if g.lib.parse(raw).Some? { AppliesExactly(g, g.lib.parse(raw).value.marker, extras); }
  }

  // ------------------------------------------------------------ reachability

  function Requires(g: Graph, s: State): seq<string> {
    if s.name in g.installed && |g.installed[s.name].needs| <= MAX_REQUIRES then g.installed[s.name].needs else []
  }

  function Successors(g: Graph, s: State): set<State> {
    set raw <- Requires(g, s) | OutcomeOf(g, raw, s.extras).Leads? :: OutcomeOf(g, raw, s.extras).state
  }

  function ProblemsAt(g: Graph, s: State): set<string> {
    (if s.name in g.installed && |g.installed[s.name].needs| > MAX_REQUIRES
     then {"dependency_metadata_too_large"} else {})
    + set raw <- Requires(g, s) | OutcomeOf(g, raw, s.extras).Problem? :: OutcomeOf(g, raw, s.extras).code
  }

  function RootState(g: Graph): State { State(g.lib.normal(g.root.distribution), [""]) }

  ghost predicate IsPath(g: Graph, path: seq<State>) {
    && path != [] && path[0] == RootState(g)
    && forall i | 0 < i < |path| :: Edge(g, path[i - 1], path[i])
  }

  ghost predicate Reachable(g: Graph, s: State) {
    exists path: seq<State> :: IsPath(g, path) && path[|path| - 1] == s
  }

  /** Exactly the reachable states. */
  ghost predicate Reaches(g: Graph, states: set<State>) { forall s :: s in states <==> Reachable(g, s) }

  function AllProblems(g: Graph, states: set<State>): set<string> {
    set s, code | s in states && code in ProblemsAt(g, s) :: code
  }

  lemma RootReachable(g: Graph)
    ensures Reachable(g, RootState(g))
  {
    assert IsPath(g, [RootState(g)]);
  }

  /** The texts the worklist follows are the edges. */
  lemma EdgeExactly(g: Graph, s: State, t: State)
    ensures t in Successors(g, s) <==> Edge(g, s, t)
  {
    hide OutcomeOf, AsksFor, Met;
    forall raw <- Requires(g, s) ensures OutcomeOf(g, raw, s.extras) == Leads(t) <==> AsksFor(g, raw, s.extras, t) {
      OutcomeExactly(g, raw, s.extras, t);
    }
  }

  lemma SuccessorReachable(g: Graph, s: State, t: State)
    requires Reachable(g, s) && t in Successors(g, s)
    ensures Reachable(g, t)
  {
    hide Successors, RootState, Edge;
    EdgeExactly(g, s, t);
    var path :| IsPath(g, path) && path[|path| - 1] == s;
    var longer := path + [t];
    forall i | 0 < i < |longer| ensures Edge(g, longer[i - 1], longer[i]) {
      if i < |path| { assert Edge(g, path[i - 1], path[i]); }
    }
    assert IsPath(g, longer) && longer[|longer| - 1] == t;
  }

  /** A set that has the root and all successors of its members has every reachable state. */
  lemma {:induction false} ClosedHasPath(g: Graph, states: set<State>, path: seq<State>)
    requires RootState(g) in states && forall s <- states :: Successors(g, s) <= states
    requires IsPath(g, path)
    ensures path[|path| - 1] in states
    decreases |path|
  {
    hide Successors, RootState, Edge;
    if |path| > 1 {
      var shorter := path[..|path| - 1];
      ClosedHasPath(g, states, shorter);
      EdgeExactly(g, path[|path| - 2], path[|path| - 1]);
    }
  }

  lemma ClosedReaches(g: Graph, states: set<State>)
    requires RootState(g) in states && forall s <- states :: Successors(g, s) <= states
    requires forall s <- states :: Reachable(g, s)
    ensures Reaches(g, states)
  {
    hide Successors, RootState;
    forall s | Reachable(g, s) ensures s in states {
      var path :| IsPath(g, path) && path[|path| - 1] == s;
      ClosedHasPath(g, states, path);
    }
  }

  // ---------------------------------------------------------------- worklist

  type Item = (Package, seq<string>)

  function ItemState(g: Graph, item: Item): State { State(g.lib.normal(item.0.distribution), item.1) }

  /** The item holds the package filed under its state's name, and the state is reachable. */
  ghost predicate Due(g: Graph, item: Item) {
    && ItemState(g, item).name in g.installed && g.installed[ItemState(g, item).name] == item.0
    && Reachable(g, ItemState(g, item))
  }

  function States(g: Graph, pending: seq<Item>): set<State> { set item <- pending :: ItemState(g, item) }

  /** Look at every dependency text of one state. */
  method Expand(g: Graph, package: Package, s: State, problems0: set<string>, pending0: seq<Item>)
    returns (problems: set<string>, pending: seq<Item>)
    requires Filed(g) && Reachable(g, s) && s.name in g.installed && g.installed[s.name] == package
    requires forall item <- pending0 :: Due(g, item)
    ensures problems == problems0 + ProblemsAt(g, s)
    ensures States(g, pending) == States(g, pending0) + Successors(g, s)
    ensures forall item <- pending :: Due(g, item)
  {
    hide OutcomeOf, Reachable, States, Filed;
    problems, pending := problems0, pending0;
    if |package.needs| > MAX_REQUIRES {
      problems := problems + {"dependency_metadata_too_large"};
      TooLarge(g, s);
      return;
    }
    var i := 0;
    NoTexts(g, s);
    while i < |package.needs|
      invariant 0 <= i <= |package.needs|
      invariant problems == problems0 + CodesIn(g, s, package.needs[..i])
      invariant States(g, pending) == States(g, pending0) + LeadsIn(g, s, package.needs[..i])
      invariant forall item <- pending :: Due(g, item)
    {
      OneMoreText(g, s, package.needs, i);
      var o := OutcomeOf(g, package.needs[i], s.extras);
      match o {
        case Skipped =>
        case Problem(code) => problems := problems + {code};
        case Leads(t) =>
          LedTo(g, s, package.needs[i], t);
          StatesGrow(g, pending, (g.installed[t.name], t.extras));
          pending := pending + [(g.installed[t.name], t.extras)];
      }
      i := i + 1;
    }
    assert package.needs[..i] == package.needs;
    AllTexts(g, s);
  }

  function CodesIn(g: Graph, s: State, texts: seq<string>): set<string> {
    set raw <- texts | OutcomeOf(g, raw, s.extras).Problem? :: OutcomeOf(g, raw, s.extras).code
  }

  function LeadsIn(g: Graph, s: State, texts: seq<string>): set<State> {
    set raw <- texts | OutcomeOf(g, raw, s.extras).Leads? :: OutcomeOf(g, raw, s.extras).state
  }

  lemma NoTexts(g: Graph, s: State)
    ensures CodesIn(g, s, []) == {} && LeadsIn(g, s, []) == {}
  {
  }

  lemma OneMoreText(g: Graph, s: State, texts: seq<string>, i: nat)
    requires i < |texts|
    ensures var o := OutcomeOf(g, texts[i], s.extras);
            var codes, leads := CodesIn(g, s, texts[..i]), LeadsIn(g, s, texts[..i]);
            && CodesIn(g, s, texts[..i + 1]) == (if o.Problem? then codes + {o.code} else codes)
            && LeadsIn(g, s, texts[..i + 1]) == (if o.Leads? then leads + {o.state} else leads)
  {
    hide OutcomeOf;
    assert texts[..i + 1] == texts[..i] + [texts[i]];
  }

  lemma TooLarge(g: Graph, s: State)
    requires s.name in g.installed && |g.installed[s.name].needs| > MAX_REQUIRES
    ensures ProblemsAt(g, s) == {"dependency_metadata_too_large"} && Successors(g, s) == {}
  {
  }

  lemma AllTexts(g: Graph, s: State)
    requires s.name in g.installed && |g.installed[s.name].needs| <= MAX_REQUIRES
    ensures ProblemsAt(g, s) == CodesIn(g, s, g.installed[s.name].needs)
    ensures Successors(g, s) == LeadsIn(g, s, g.installed[s.name].needs)
  {
    hide OutcomeOf;
  }

  lemma LedTo(g: Graph, s: State, raw: string, t: State)
    requires Filed(g) && Reachable(g, s) && raw in Requires(g, s) && OutcomeOf(g, raw, s.extras) == Leads(t)
    ensures t.name in g.installed && Due(g, (g.installed[t.name], t.extras))
            && ItemState(g, (g.installed[t.name], t.extras)) == t
  {
    hide Reachable, Applies;
    assert t in Successors(g, s);
    SuccessorReachable(g, s, t);
  }

  lemma StatesGrow(g: Graph, pending: seq<Item>, item: Item)
    ensures States(g, pending + [item]) == States(g, pending) + {ItemState(g, item)}
  {
  }

  /** Check the whole closure of the root. */
  method Closure(g: Graph) returns (problems: set<string>, ghost done: set<State>)
    requires Filed(g)
    ensures forall s <- done :: Reachable(g, s)
    ensures |done| <= MAX_NODES + 1
    ensures |done| <= MAX_NODES ==> Reaches(g, done) && problems == AllProblems(g, done)
    ensures |done| > MAX_NODES ==> "dependency_graph_too_large" in problems
    ensures problems <= AllProblems(g, done) + {"dependency_graph_too_large"}
  {
    hide Reachable, States, ProblemsAt, Successors;
    var seen: set<State>, pending: seq<Item> := {}, [(g.root, [""])];
    problems := {};
    RootDue(g);
    while pending != []
      invariant |seen| <= MAX_NODES && problems == AllProblems(g, seen)
      invariant forall item <- pending :: Due(g, item)
      invariant forall s <- seen :: Reachable(g, s)
      invariant RootState(g) in seen + States(g, pending)
      invariant forall s <- seen :: Successors(g, s) <= seen + States(g, pending)
      decreases MAX_NODES - |seen|, |pending|
    {
      var item := pending[|pending| - 1];
      assert Due(g, item);
      StatesGrow(g, pending[..|pending| - 1], item);
      assert pending == pending[..|pending| - 1] + [item];
      pending := pending[..|pending| - 1];
      var s := ItemState(g, item);
      if s !in seen {
        var more := seen + {s};
        if |more| > MAX_NODES {
          ProblemsGrow(g, seen, s);
          return problems + {"dependency_graph_too_large"}, more;
        }
        problems, pending := Expand(g, item.0, s, problems, pending);
        ProblemsGrow(g, seen, s);
        seen := more;
      }
    }
    NoneDue(g);
    ClosedReaches(g, seen);
    done := seen;
  }

  lemma RootDue(g: Graph)
    requires Filed(g)
    ensures Due(g, (g.root, [""])) && RootState(g) in States(g, [(g.root, [""])]) && AllProblems(g, {}) == {}
  {
    hide Reachable;
    RootReachable(g);
    assert ItemState(g, (g.root, [""])) == RootState(g);
    assert (g.root, [""]) in [(g.root, [""])];
  }

  lemma NoneDue(g: Graph)
    ensures States(g, []) == {}
  {
  }

  lemma ProblemsGrow(g: Graph, seen: set<State>, s: State)
    ensures AllProblems(g, seen + {s}) == AllProblems(g, seen) + ProblemsAt(g, s)
  {
    hide ProblemsAt;
  }

  // ------------------------------------------------------------------- codes

  /** A readable text whose marker applies and that names no file to fetch. */
  ghost predicate Asked(g: Graph, raw: string, extras: seq<string>) {
    var r := g.lib.parse(raw);
    r.Some? && MarkerHolds(g, r.value.marker, extras) && !r.value.url
  }

  /** What is wrong with one dependency text, by the code it is reported under. */
  ghost predicate Wrong(g: Graph, raw: string, extras: seq<string>, code: string) {
    var r := g.lib.parse(raw);
    var name := if r.None? then "" else g.lib.normal(r.value.name);
    match code
    case "dependency_requirement_invalid" => r.None?
    case "dependency_marker_invalid" =>
      r.Some? && !MarkerHolds(g, r.value.marker, extras) && !MarkerFails(g, r.value.marker, extras)
    case "direct_url_dependency_unsupported" =>
      r.Some? && MarkerHolds(g, r.value.marker, extras) && r.value.url
    case "dependency_ambiguous" => Asked(g, raw, extras) && name in g.duplicates
    case "dependency_missing" => Asked(g, raw, extras) && name !in g.duplicates && name !in g.installed
    case "dependency_outside_environment" =>
      Asked(g, raw, extras) && name !in g.duplicates && name in g.installed && !g.installed[name].inside
    case "dependency_version_incompatible" =>
      && Asked(g, raw, extras) && name !in g.duplicates && name in g.installed && g.installed[name].inside
      && !g.lib.satisfies(r.value.spec, g.installed[name].version)
    case "dependency_python_incompatible" =>
      && Asked(g, raw, extras) && name !in g.duplicates && name in g.installed && g.installed[name].inside
      && g.lib.satisfies(r.value.spec, g.installed[name].version) && !g.lib.python(g.installed[name].requiresPython)
    case _ => false
  }

  /** A text is reported under a code exactly when that is what is wrong with it. */
  lemma WrongExactly(g: Graph, raw: string, extras: seq<string>, code: string)
    ensures OutcomeOf(g, raw, extras) == Problem(code) <==> Wrong(g, raw, extras, code)
  {
    hide MarkerHolds, MarkerFails, Applies;
    if g.lib.parse(raw).Some? { AppliesExactly(g, g.lib.parse(raw).value.marker, extras); }
  }

  /** A code is among the problems of some states exactly when one of them is installed and
      states more than 256 requirements, under the code for that, or else states one that is
      wrong in this way. */
  lemma CodesExactly(g: Graph, states: set<State>, code: string)
    ensures code in AllProblems(g, states) <==> exists s <- states :: Faulty(g, s, code)
  {
    hide Wrong, OutcomeOf;
    forall s <- states ensures code in ProblemsAt(g, s) <==> Faulty(g, s, code) { FaultyExactly(g, s, code); }
    hide Faulty, ProblemsAt;
  }

  ghost predicate Faulty(g: Graph, s: State, code: string) {
    && s.name in g.installed
    && var needs := g.installed[s.name].needs;
    if |needs| > 256 then code == "dependency_metadata_too_large"
    else exists raw <- needs :: Wrong(g, raw, s.extras, code)
  }

  lemma FaultyExactly(g: Graph, s: State, code: string)
    ensures code in ProblemsAt(g, s) <==> Faulty(g, s, code)
  {
    hide Wrong, OutcomeOf;
    forall raw <- Requires(g, s)
      ensures OutcomeOf(g, raw, s.extras) == Problem(code) <==> Wrong(g, raw, s.extras, code)
    {
      WrongExactly(g, raw, s.extras, code);
    }
  }

  /** No state is reported for the size of the whole graph. */
  lemma SizeIsNoStatesFault(g: Graph, states: set<State>)
    ensures "dependency_graph_too_large" !in AllProblems(g, states)
  {
    hide AllProblems, Asked, MarkerHolds, MarkerFails;
    CodesExactly(g, states, "dependency_graph_too_large");
  }

  // ---------------------------------------------------------------- verdicts

  /** At most 4000 reachable states, each an installed package whose requirements are met. */
  ghost predicate Sound(g: Graph) {
    exists states: set<State> :: Reaches(g, states) && |states| <= MAX_NODES && forall s <- states :: Clean(g, s)
  }

  /** The check reports nothing exactly for sound graphs. For at most 4000 reachable states
      it reports exactly what is wrong with them, and otherwise that there are more, beside
      nothing that is not wrong with one of them. */
  method CheckDependencies(g: Graph) returns (problems: set<string>)
    requires Filed(g)
    ensures problems == {} <==> Sound(g)
    ensures forall states: set<State> | Reaches(g, states) ::
              |states| <= MAX_NODES ==> problems == AllProblems(g, states)
    ensures "dependency_graph_too_large" in problems
            <==> !exists states: set<State> :: Reaches(g, states) && |states| <= 4000
    ensures forall code <- problems ::
              code == "dependency_graph_too_large" || exists s :: Reachable(g, s) && Faulty(g, s, code)
    ensures "dependency_graph_too_large" !in problems ==>
              forall s, code | Reachable(g, s) && Faulty(g, s, code) :: code in problems
  {
    ghost var done;
    problems, done := Closure(g);
    ClosureVerdict(g, problems, done);
    ClosureReports(g, problems, done);
  }

  lemma ClosureReports(g: Graph, problems: set<string>, done: set<State>)
    requires forall s <- done :: Reachable(g, s)
    requires |done| <= MAX_NODES ==> Reaches(g, done) && problems == AllProblems(g, done)
    requires |done| > MAX_NODES ==> "dependency_graph_too_large" in problems
    requires problems <= AllProblems(g, done) + {"dependency_graph_too_large"}
    ensures "dependency_graph_too_large" in problems
            <==> !exists states: set<State> :: Reaches(g, states) && |states| <= 4000
    ensures forall code <- problems ::
              code == "dependency_graph_too_large" || exists s :: Reachable(g, s) && Faulty(g, s, code)
    ensures "dependency_graph_too_large" !in problems ==>
              forall s, code | Reachable(g, s) && Faulty(g, s, code) :: code in problems
  {
    hide Reachable, Faulty, AllProblems;
    SizeIsNoStatesFault(g, done);
    forall code ensures code in AllProblems(g, done) <==> exists s <- done :: Faulty(g, s, code) {
      CodesExactly(g, done, code);
    }
    if states: set<State> :| Reaches(g, states) && |states| <= 4000 { Fewer(done, states); }
  }

  lemma ClosureVerdict(g: Graph, problems: set<string>, done: set<State>)
    requires Filed(g)
    requires forall s <- done :: Reachable(g, s)
    requires |done| <= MAX_NODES ==> Reaches(g, done) && problems == AllProblems(g, done)
    requires |done| > MAX_NODES ==> "dependency_graph_too_large" in problems
    ensures problems == {} <==> Sound(g)
    ensures forall states: set<State> | Reaches(g, states) ::
              |states| <= MAX_NODES ==> problems == AllProblems(g, states)
  {
    hide Reachable, ProblemsAt, Clean;
    forall s <- done ensures ProblemsAt(g, s) == {} <==> Clean(g, s) {
      ReachableInstalled(g, s);
      CleanExactly(g, s);
    }
    forall states: set<State> | Reaches(g, states)
      ensures |done| <= |states| && (|done| <= MAX_NODES ==> states == done)
    {
      Fewer(done, states);
      if |done| <= MAX_NODES { assert states == done; }
    }
    if |done| <= MAX_NODES {
      assert Reaches(g, done);
      if problems == {} {
        forall s <- done ensures ProblemsAt(g, s) == {} { NoProblemsAt(g, done, s); }
      }
    }
  }

  lemma NoProblemsAt(g: Graph, states: set<State>, s: State)
    requires s in states && AllProblems(g, states) == {}
    ensures ProblemsAt(g, s) == {}
  {
    hide ProblemsAt;
    forall code | code in ProblemsAt(g, s) ensures code in AllProblems(g, states) {}
  }

  lemma Fewer(a: set<State>, b: set<State>)
    requires a <= b
    ensures |a| <= |b|
  {
    assert b == a + (b - a);
  }

  lemma ReachableInstalled(g: Graph, s: State)
    requires Filed(g) && Reachable(g, s)
    ensures s.name in g.installed
  {
    hide Edge;
    var path :| IsPath(g, path) && path[|path| - 1] == s;
    if |path| > 1 { EdgeInstalled(g, path[|path| - 2], s); }
  }

  lemma EdgeInstalled(g: Graph, s: State, t: State)
    requires Edge(g, s, t)
    ensures t.name in g.installed
  {
    hide MarkerHolds;
  }

  /** An installed state has no problem exactly when its package states at most 256
      requirements and each is met. */
  lemma CleanExactly(g: Graph, s: State)
    requires s.name in g.installed
    ensures ProblemsAt(g, s) == {} <==> Clean(g, s)
  {
    hide OutcomeOf, Met, AsksFor;
    var needs := g.installed[s.name].needs;
    forall raw <- needs ensures OutcomeOf(g, raw, s.extras).Problem? <==> !Met(g, raw, s.extras) {
      OutcomeExactly(g, raw, s.extras, s);
    }
    if |needs| <= MAX_REQUIRES {
      AllTexts(g, s);
      if raw :| raw in needs && OutcomeOf(g, raw, s.extras).Problem? {
        assert OutcomeOf(g, raw, s.extras).code in CodesIn(g, s, needs);
      }
    } else {
      TooLarge(g, s);
    }
  }

  // --------------------------------------------------------------- inventory

  function NamesOf(lib: Library, packages: seq<Package>): seq<string> {
    seq(|packages|, i requires 0 <= i < |packages| => lib.normal(packages[i].distribution))
  }

  predicate FirstOf(lib: Library, packages: seq<Package>, name: string, i: nat) {
    i < |packages| && NamesOf(lib, packages)[i] == name && name !in NamesOf(lib, packages)[..i]
  }

  ghost predicate Twice(names: seq<string>, name: string) {
    exists i, j :: 0 <= i < j < |names| && names[i] == name && names[j] == name
  }

  ghost predicate HeldByFirst(lib: Library, packages: seq<Package>, name: string, held: Package) {
    lib.normal(held.distribution) == name && exists i: nat :: FirstOf(lib, packages, name, i) && held == packages[i]
  }

  /** File each package under its normalized name; the first of a name stays. */
  method Inventory(lib: Library, packages: seq<Package>)
    returns (installed: map<string, Package>, duplicates: set<string>)
    ensures installed.Keys == set n <- NamesOf(lib, packages)
    ensures forall n <- installed.Keys :: HeldByFirst(lib, packages, n, installed[n])
    ensures forall n :: n in duplicates <==> Twice(NamesOf(lib, packages), n)
  {
    hide Twice, HeldByFirst;
    installed, duplicates := map[], {};
    var names, k := NamesOf(lib, packages), 0;
    NotTwice();
    while k < |packages|
      invariant 0 <= k <= |packages| && installed.Keys == set n <- names[..k]
      invariant forall n <- installed.Keys :: HeldByFirst(lib, packages, n, installed[n])
      invariant forall n :: n in duplicates <==> Twice(names[..k], n)
    {
      var name := names[k];
      assert names[..k + 1] == names[..k] + [name];
      TwiceGrows(names, k);
      if name in installed {
        duplicates := duplicates + {name};
      } else {
        FirstHeld(lib, packages, k);
        installed := installed[name := packages[k]];
      }
      k := k + 1;
    }
    assert names[..k] == names;
  }

  lemma NotTwice()
    ensures forall n :: !Twice([], n)
  {
  }

  lemma FirstHeld(lib: Library, packages: seq<Package>, k: nat)
    requires k < |packages| && NamesOf(lib, packages)[k] !in NamesOf(lib, packages)[..k]
    ensures HeldByFirst(lib, packages, NamesOf(lib, packages)[k], packages[k])
  {
    assert FirstOf(lib, packages, NamesOf(lib, packages)[k], k);
  }

  lemma TwiceGrows(names: seq<string>, k: nat)
    requires k < |names|
    ensures forall n :: Twice(names[..k + 1], n) <==> Twice(names[..k], n) || (n == names[k] && n in names[..k])
  {
    forall n ensures Twice(names[..k + 1], n) <==> Twice(names[..k], n) || (n == names[k] && n in names[..k]) {
      if Twice(names[..k], n) {
        var i, j :| 0 <= i < j < k && names[..k][i] == n && names[..k][j] == n;
        assert names[..k + 1][i] == n && names[..k + 1][j] == n;
      }
      if n == names[k] && n in names[..k] {
        var i :| 0 <= i < k && names[..k][i] == n;
        assert names[..k + 1][i] == n && names[..k + 1][k] == n;
      }
      if Twice(names[..k + 1], n) {
        var i, j :| 0 <= i < j < k + 1 && names[..k + 1][i] == n && names[..k + 1][j] == n;
        assert names[..k][i] == n && (j < k ==> names[..k][j] == n);
      }
    }
  }
}
