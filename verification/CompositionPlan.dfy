/** The read-only planner of a signed composition: explicit targets, then the closure
    of declared dependencies over signed releases.

    Version order, specifiers, requirement texts and environment markers are the
    packaging library's, taken as given functions for one Python and one platform. */
module CompositionPlan {
  import opened Wrappers

  datatype Release = Release(
    version: string, sha: string, requiresPython: string, requiresDist: seq<string>, revoked: bool)

  /** What one dependency text says in the planned environment. */
  datatype Demand = Inapplicable | Unusable | Demand(name: string, spec: string, text: string)

  datatype Packaging = Packaging(
    python: string -> Option<bool>,        // whether the planned Python is allowed; None if malformed
    demand: string -> Demand,
    contains: (string, string) -> bool,    // whether a specifier admits a version
    rank: string -> int,                   // version order
    canonical: string -> string)           // normalized distribution name

  type Composition = map<string, Release>

  /** Components by normalized distribution name, signed releases by component, the
      observed baseline, and the requested version or removal of some components. */
  datatype Problem = Problem(
    rules: Packaging,
    distributions: map<string, string>,
    documents: map<string, seq<Release>>,
    before: Composition,
    targets: map<string, Option<string>>)

  datatype Refusal =
    | Inputs | Unregistered | BadCatalog | BadBaseline | EmptyBaseline | BadTarget | EmptyComposition
    | BadRequirement | Oscillates | NoClosure | TooManyRounds | Unresolved | RevokedOrIncompatible

  datatype Result<+T> = Ok(value: T) | Refused(why: Refusal)

  const MAX_ROUNDS := 64
  const MAX_MODULES := 32

  // ------------------------------------------------------------ requirements

  predicate Usable(p: Problem, r: Release) {
    !r.revoked && p.rules.python(r.requiresPython) == Some(true)
  }

  predicate Readable(p: Problem, c: Composition) {
    forall owner <- c.Keys, raw <- c[owner].requiresDist :: p.rules.demand(raw) != Unusable
  }

  predicate Internal(p: Problem, raw: string) {
    p.rules.demand(raw).Demand? && p.rules.demand(raw).name in p.distributions
  }

  predicate Foreign(p: Problem, raw: string) {
    p.rules.demand(raw).Demand? && p.rules.demand(raw).name !in p.distributions
  }

  /** The component a dependency names, and the specifier it puts on it. */
  function Edge(p: Problem, raw: string): (string, string)
    requires Internal(p, raw)
  {
    (p.distributions[p.rules.demand(raw).name], p.rules.demand(raw).spec)
  }

  type Edges = set<(string, string)>

  function EdgesOf(p: Problem, c: Composition): Edges {
    set owner, raw | owner in c.Keys && raw in c[owner].requiresDist && Internal(p, raw) :: Edge(p, raw)
  }

  function ForeignOf(p: Problem, c: Composition): set<string> {
    set owner, raw | owner in c.Keys && raw in c[owner].requiresDist && Foreign(p, raw) :: p.rules.demand(raw).text
  }

  function Ends(edges: Edges): set<string> { set e <- edges :: e.0 }

  function SpecsOn(edges: Edges, component: string): set<string> { set e <- edges | e.0 == component :: e.1 }

  /** The specifiers put on each component. */
  function Grouped(edges: Edges): map<string, set<string>> {
    map k <- Ends(edges) :: SpecsOn(edges, k)
  }

  predicate Met(p: Problem, c: Composition, component: string, specs: set<string>) {
    component in c && forall spec <- specs :: p.rules.contains(spec, c[component].version)
  }

  // ------------------------------------------------------------------ choice

  predicate Admits(p: Problem, specs: set<string>, version: string) {
    forall spec <- specs :: p.rules.contains(spec, version)
  }

  /** The admissible releases, in catalog order; None when a Python bound is malformed. */
  function Choices(p: Problem, releases: seq<Release>, specs: set<string>): (choices: Option<seq<Release>>)
    ensures choices.Some? ==> forall r <- choices.value :: r in releases && Usable(p, r) && Admits(p, specs, r.version)
  {
    if releases == [] then Some([])
    else
      var r, rest := releases[0], Choices(p, releases[1..], specs);
      if rest.None? || (!r.revoked && p.rules.python(r.requiresPython).None?) then None
      else if Usable(p, r) && Admits(p, specs, r.version) then Some([r] + rest.value) else rest
  }

  function Newest(p: Problem, choices: seq<Release>): (best: Release)
    requires choices != []
    ensures best in choices && forall r <- choices :: p.rules.rank(r.version) <= p.rules.rank(best.version)
  {
    if |choices| == 1 then choices[0]
    else
      var rest := Newest(p, choices[1..]);
      if p.rules.rank(choices[0].version) >= p.rules.rank(rest.version) then choices[0] else rest
  }

  /** The first release of this version. */
  function OfVersion(releases: seq<Release>, version: string): (found: Option<Release>)
    ensures found.Some? ==> found.value in releases && found.value.version == version
    ensures found.None? ==> forall r <- releases :: r.version != version
  {
    if releases == [] then None
    else if releases[0].version == version then Some(releases[0]) else OfVersion(releases[1..], version)
  }

  function Signed(p: Problem, component: string): seq<Release> {
    if component in p.documents then p.documents[component] else []
  }

  /** The observed version if it is still admissible, else the newest admissible one. */
  function Choose(p: Problem, component: string, specs: set<string>): (r: Option<Release>)
    ensures r.Some? ==> r.value in Signed(p, component) && Usable(p, r.value) && Admits(p, specs, r.value.version)
  {
    var choices := Choices(p, Signed(p, component), specs);
    if choices.None? then None
    else
      var kept := if component in p.before then OfVersion(choices.value, p.before[component].version) else None;
      if kept.Some? then kept
      else if choices.value != [] then Some(Newest(p, choices.value)) else None
  }

  // ------------------------------------------------------------------- round

  /** What becomes of one constrained component, from the round's starting composition
      alone; None when the round must refuse. */
  function Settled(p: Problem, c: Composition, component: string, specs: set<string>): Option<Release> {
    if component in p.targets && p.targets[component].None? then None
    else if Met(p, c, component, specs) then Some(c[component])
    else if component in p.targets then None
    else Choose(p, component, specs)
  }

  predicate Settles(p: Problem, c: Composition, demands: map<string, set<string>>) {
    forall k <- demands.Keys :: Settled(p, c, k, demands[k]).Some?
  }

  /** Every constrained component updated at once. */
  function Simultaneous(p: Problem, c: Composition, demands: map<string, set<string>>): Composition
    requires Settles(p, c, demands)
  {
    map k | k in c.Keys + demands.Keys :: if k in demands then Settled(p, c, k, demands[k]).value else c[k]
  }

  predicate AllMet(p: Problem, c: Composition, demands: map<string, set<string>>) {
    forall k <- demands.Keys :: Met(p, c, k, demands[k])
  }

  function Round(p: Problem, c: Composition): Result<Composition> {
    var demands := Grouped(EdgesOf(p, c));
    if !Readable(p, c) then Refused(BadRequirement)
    else if !Settles(p, c, demands) then Refused(NoClosure)
    else Ok(Simultaneous(p, c, demands))
  }

  type State = map<string, string>

  function StateOf(c: Composition): State { map k <- c.Keys :: c[k].version }

  /** Rounds until nothing changes; at most so many, and never the same state twice. */
  function Close(p: Problem, c: Composition, seen: set<State>, rounds: nat): Result<Composition>
    decreases rounds
  {
    if rounds == 0 then Refused(TooManyRounds)
    else if StateOf(c) in seen then Refused(Oscillates)
    else
      var next := Round(p, c);
      if next.Refused? || next.value == c then next else Close(p, next.value, seen + {StateOf(c)}, rounds - 1)
  }

  // -------------------------------------------------------------------- plan

  /** A removal of something observed, or a version that is signed and usable. */
  predicate Asked(p: Problem, component: string)
    requires component in p.targets
  {
    var version := p.targets[component];
    if version.None? then component in p.before
    else
      var r := OfVersion(Signed(p, component), version.value);
      r.Some? && Usable(p, r.value)
  }

  predicate TargetsAsked(p: Problem) { forall k <- p.targets.Keys :: Asked(p, k) }

  function Exact(p: Problem): set<string> { set k <- p.targets.Keys | p.targets[k].Some? }

  function Removed(p: Problem): set<string> { set k <- p.targets.Keys | p.targets[k].None? }

  /** The baseline with the explicit targets applied. */
  function Start(p: Problem): Composition
    requires TargetsAsked(p)
  {
    map k | k in p.before.Keys - Removed(p) + Exact(p) ::
      if k in p.targets then OfVersion(Signed(p, k), p.targets[k].value).value else p.before[k]
  }

  predicate Safe(p: Problem, c: Composition) { forall k <- c.Keys :: Usable(p, c[k]) }

  /** The composition the planner settles on. */
  function Solve(p: Problem): Result<Composition> {
    if p.before == map[] then Refused(EmptyBaseline)
    else if !TargetsAsked(p) then Refused(BadTarget)
    else if Start(p) == map[] then Refused(EmptyComposition)
    else
      var closed := Close(p, Start(p), {}, MAX_ROUNDS);
      if closed.Refused? then closed
      else if !Safe(p, closed.value) then Refused(RevokedOrIncompatible)
      else closed
  }

  datatype Action = Add | Upgrade | Downgrade | Remove | Unchanged

  datatype Identity = Identity(version: string, sha: string)

  datatype Change = Change(action: Action, prior: Option<Identity>, next: Option<Identity>)

  function IdentityAt(c: Composition, k: string): Option<Identity> {
    if k in c then Some(Identity(c[k].version, c[k].sha)) else None
  }

  function ActionOf(p: Problem, prior: Option<Identity>, next: Option<Identity>): Action {
    if prior.None? then Add
    else if next.None? then Remove
    else if prior == next then Unchanged
    else if p.rules.rank(next.value.version) > p.rules.rank(prior.value.version) then Upgrade
    else Downgrade
  }

  /** One row for every component before or after. */
  function Rows(p: Problem, c: Composition): map<string, Change> {
    map k | k in p.before.Keys + c.Keys ::
      Change(ActionOf(p, IdentityAt(p.before, k), IdentityAt(c, k)), IdentityAt(p.before, k), IdentityAt(c, k))
  }
}
