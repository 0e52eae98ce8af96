/** What the planner guarantees about every plan it returns. */
module PlanProperties {
  import opened Wrappers
  import opened CompositionPlan

  // --------------------------------------------------------------- soundness

  /** Every applicable dependency on a managed component is met by what was selected. */
  ghost predicate Closed(p: Problem, c: Composition) {
    forall owner, raw | owner in c && raw in c[owner].requiresDist && Internal(p, raw) ::
      var edge := Edge(p, raw);
      edge.0 in c && p.rules.contains(edge.1, c[edge.0].version)
  }

  lemma EdgesMet(p: Problem, c: Composition)
    ensures AllMet(p, c, Grouped(EdgesOf(p, c))) <==> Closed(p, c)
  {
    var edges := EdgesOf(p, c);
    if AllMet(p, c, Grouped(edges)) {
      forall owner, raw | owner in c && raw in c[owner].requiresDist && Internal(p, raw)
        ensures var edge := Edge(p, raw); edge.0 in c && p.rules.contains(edge.1, c[edge.0].version)
      {
        assert Edge(p, raw) in edges;
        assert Edge(p, raw).0 in Grouped(edges) && Edge(p, raw).1 in SpecsOn(edges, Edge(p, raw).0);
      }
    }
    if Closed(p, c) {
      forall k <- Grouped(edges).Keys ensures Met(p, c, k, Grouped(edges)[k]) {
        forall spec <- SpecsOn(edges, k) ensures k in c && p.rules.contains(spec, c[k].version) {
          assert (k, spec) in edges;
        }
        assert exists e :: e in edges && e.0 == k;
      }
    }
  }

  /** A composition that a round leaves alone has every dependency met. */
  lemma FixedMeansMet(p: Problem, c: Composition)
    requires Round(p, c) == Ok(c)
    ensures Closed(p, c) && Readable(p, c)
    ensures forall owner, raw | owner in c && raw in c[owner].requiresDist && Internal(p, raw) ::
              Edge(p, raw).0 !in Removed(p)
  {
    var edges := EdgesOf(p, c);
    var demands := Grouped(edges);
    forall k <- demands.Keys ensures Met(p, c, k, demands[k]) {
      assert Simultaneous(p, c, demands)[k] == Settled(p, c, k, demands[k]).value;
    }
    EdgesMet(p, c);
    forall owner, raw | owner in c && raw in c[owner].requiresDist && Internal(p, raw)
      ensures Edge(p, raw).0 !in Removed(p)
    {
      assert Edge(p, raw) in edges;
      assert Edge(p, raw).0 in demands && Settled(p, c, Edge(p, raw).0, demands[Edge(p, raw).0]).Some?;
    }
  }

  /** What every round keeps: explicit versions exactly, removals out, the rest of the
      baseline in, and only observed or signed releases. */
  ghost predicate Faithful(p: Problem, c: Composition) {
    && (forall k | k in Exact(p) :: k in c && Some(c[k]) == OfVersion(Signed(p, k), p.targets[k].value))
    && (forall k | k in Removed(p) :: k !in c)
    && (forall k | k in p.before && k !in Removed(p) :: k in c)
    && (forall k | k in c :: c[k] in Signed(p, k) || (k in p.before && c[k] == p.before[k]))
  }

  lemma StartFaithful(p: Problem)
    requires TargetsAsked(p)
    ensures Faithful(p, Start(p))
  {
    forall k | k in Exact(p) ensures k in Start(p) && Some(Start(p)[k]) == OfVersion(Signed(p, k), p.targets[k].value) {
      assert Asked(p, k);
    }
    forall k | k in Start(p) ensures Start(p)[k] in Signed(p, k) || (k in p.before && Start(p)[k] == p.before[k]) {
      if k in p.targets { assert Asked(p, k); }
    }
  }

  lemma RoundFaithful(p: Problem, c: Composition)
    requires Faithful(p, c) && Round(p, c).Ok?
    ensures Faithful(p, Round(p, c).value)
  {
    var demands := Grouped(EdgesOf(p, c));
    hide Grouped, EdgesOf, Choose, Met;
    var d := Simultaneous(p, c, demands);
    forall k | k in Exact(p) ensures k in d && d[k] == c[k] {
      if k in demands { assert Settled(p, c, k, demands[k]).Some?; }
    }
    forall k | k in Removed(p) ensures k !in d {
      assert k in demands ==> Settled(p, c, k, demands[k]).Some?;
    }
    forall k | k in d ensures d[k] in Signed(p, k) || (k in p.before && d[k] == p.before[k]) {
      if k in demands { ChosenSigned(p, c, k, demands[k]); }
    }
  }

  lemma ChosenSigned(p: Problem, c: Composition, k: string, specs: set<string>)
    requires Settled(p, c, k, specs).Some?
    ensures Settled(p, c, k, specs).value in Signed(p, k) || (k in c && Settled(p, c, k, specs).value == c[k])
  {
  }

  lemma {:induction false} CloseFixed(p: Problem, c: Composition, seen: set<State>, rounds: nat)
    requires Faithful(p, c) && Close(p, c, seen, rounds).Ok?
    ensures var d := Close(p, c, seen, rounds).value;
            Faithful(p, d) && Round(p, d) == Ok(d)
    decreases rounds
  {
    hide Faithful, Round;
    RoundFaithfulIf(p, c);
    if Round(p, c) != Ok(c) { CloseFixed(p, Round(p, c).value, seen + {StateOf(c)}, rounds - 1); }
  }

  lemma RoundFaithfulIf(p: Problem, c: Composition)
    requires Faithful(p, c)
    ensures Round(p, c).Ok? ==> Faithful(p, Round(p, c).value)
  {
    if Round(p, c).Ok? { RoundFaithful(p, c); }
  }

  /** Whatever the planner settles on meets every applicable dependency, contains no
      revoked or Python-incompatible release, selects each explicit version exactly,
      leaves out each removal, and keeps every other observed component. */
  lemma PlanSound(p: Problem)
    requires Solve(p).Ok?
    ensures var c := Solve(p).value;
            && Closed(p, c) && Faithful(p, c) && Readable(p, c)
            && (forall k | k in c :: Usable(p, c[k]))
            && (forall k | k in Exact(p) :: c[k].version == p.targets[k].value)
  {
    hide Close, Start, Closed, Round, OfVersion;
    StartFaithful(p);
    CloseFixed(p, Start(p), {}, MAX_ROUNDS);
    FixedMeansMet(p, Solve(p).value);
    forall k | k in Exact(p) ensures Solve(p).value[k].version == p.targets[k].value {
      VersionOf(Signed(p, k), p.targets[k].value);
    }
  }

  /** Once the rounds converge, checking the final graph anew finds nothing unresolved. */
  lemma FinalCheckPasses(p: Problem)
    requires TargetsAsked(p) && Close(p, Start(p), {}, MAX_ROUNDS).Ok?
    ensures var c := Close(p, Start(p), {}, MAX_ROUNDS).value;
            Readable(p, c) && AllMet(p, c, Grouped(EdgesOf(p, c)))
  {
    hide Close, Start, Closed, Round, AllMet, Grouped, EdgesOf;
    StartFaithful(p);
    CloseFixed(p, Start(p), {}, MAX_ROUNDS);
    FixedMeansMet(p, Close(p, Start(p), {}, MAX_ROUNDS).value);
    EdgesMet(p, Close(p, Start(p), {}, MAX_ROUNDS).value);
  }

  lemma VersionOf(releases: seq<Release>, version: string)
    ensures OfVersion(releases, version).Some? ==> OfVersion(releases, version).value.version == version
  {
  }

  /** Applied to the observed identities, the rows of a plan give the composition's. */
  function Identities(c: Composition): map<string, Identity> { map k <- c.Keys :: Identity(c[k].version, c[k].sha) }

  function ApplyRows(base: map<string, Identity>, rows: map<string, Change>): map<string, Identity> {
    map k | k in base.Keys + rows.Keys && (k in rows ==> rows[k].next.Some?) ::
      if k in rows then rows[k].next.value else base[k]
  }

  lemma RowsRebuild(p: Problem, c: Composition)
    ensures ApplyRows(Identities(p.before), Rows(p, c)) == Identities(c)
    ensures forall k | k in Rows(p, c) ::
              var row := Rows(p, c)[k];
              && (row.action == Remove <==> k in p.before && k !in c)
              && (row.action == Add <==> k !in p.before && k in c)
              && (row.action == Unchanged <==> k in p.before && k in c && Identities(p.before)[k] == Identities(c)[k])
              && (row.action == Upgrade ==> p.rules.rank(p.before[k].version) < p.rules.rank(c[k].version))
              && (row.action == Downgrade ==> p.rules.rank(c[k].version) <= p.rules.rank(p.before[k].version))
  {
    hide ActionOf;
    forall k ensures k in ApplyRows(Identities(p.before), Rows(p, c)) <==> k in c {}
    forall k | k in Rows(p, c) ensures
        var row := Rows(p, c)[k];
        && (row.action == Remove <==> k in p.before && k !in c)
        && (row.action == Add <==> k !in p.before && k in c)
        && (row.action == Unchanged <==> k in p.before && k in c && Identities(p.before)[k] == Identities(c)[k])
        && (row.action == Upgrade ==> p.rules.rank(p.before[k].version) < p.rules.rank(c[k].version))
        && (row.action == Downgrade ==> p.rules.rank(c[k].version) <= p.rules.rank(p.before[k].version))
    {
      ActionMeans(p, IdentityAt(p.before, k), IdentityAt(c, k));
    }
  }

  lemma ActionMeans(p: Problem, prior: Option<Identity>, next: Option<Identity>)
    requires prior.Some? || next.Some?
    ensures ActionOf(p, prior, next) == Remove <==> prior.Some? && next.None?
    ensures ActionOf(p, prior, next) == Add <==> prior.None?
    ensures ActionOf(p, prior, next) == Unchanged <==> prior.Some? && next.Some? && prior == next
    ensures prior.Some? && next.Some? && ActionOf(p, prior, next) == Upgrade ==>
              p.rules.rank(prior.value.version) < p.rules.rank(next.value.version)
    ensures prior.Some? && next.Some? && ActionOf(p, prior, next) == Downgrade ==>
              p.rules.rank(next.value.version) <= p.rules.rank(prior.value.version)
  {
  }

  // ------------------------------------------------------------------ choice

  predicate Admissible(p: Problem, k: string, specs: set<string>, r: Release) {
    r in Signed(p, k) && Usable(p, r) && Admits(p, specs, r.version)
  }

  lemma {:induction false} ChoicesComplete(p: Problem, releases: seq<Release>, specs: set<string>)
    ensures Choices(p, releases, specs).None?
            <==> exists r <- releases :: !r.revoked && p.rules.python(r.requiresPython).None?
    ensures Choices(p, releases, specs).Some? ==>
              forall r <- releases | Usable(p, r) && Admits(p, specs, r.version) ::
                r in Choices(p, releases, specs).value
  {
    hide Admits;
    if releases != [] { ChoicesComplete(p, releases[1..], specs); }
  }

  /** A replacement is an admissible signed release: the observed version if that is still
      admissible, otherwise one no admissible release is newer than; and there is none only
      when nothing is admissible or a Python bound cannot be read. */
  lemma ChosenExactly(p: Problem, k: string, specs: set<string>)
    ensures var r := Choose(p, k, specs);
            && (r.None? <==> (exists x <- Signed(p, k) :: !x.revoked && p.rules.python(x.requiresPython).None?)
                             || forall x <- Signed(p, k) :: !Admissible(p, k, specs, x))
            && (r.Some? ==> Admissible(p, k, specs, r.value))
            && (r.Some? && k in p.before && r.value.version != p.before[k].version ==>
                  forall x <- Signed(p, k) | Admissible(p, k, specs, x) :: x.version != p.before[k].version)
            && (r.Some? && !(k in p.before && r.value.version == p.before[k].version) ==>
                  forall x <- Signed(p, k) | Admissible(p, k, specs, x) ::
                    p.rules.rank(x.version) <= p.rules.rank(r.value.version))
  {
    hide Choices, Admits, Usable, OfVersion, Newest;
    ChoicesComplete(p, Signed(p, k), specs);
    var choices := Choices(p, Signed(p, k), specs);
    if choices.Some? {
      forall x <- Signed(p, k) | Admissible(p, k, specs, x) ensures x in choices.value {}
      if choices.value != [] { assert Admissible(p, k, specs, choices.value[0]); }
    }
  }

  // ------------------------------------------------------------- idempotence

  /** The same problem from a composition as baseline, asking only for the exact versions. */
  function Again(p: Problem, c: Composition): Problem {
    p.(before := c, targets := map k | k in p.targets && p.targets[k].Some? :: p.targets[k])
  }

  lemma AgainDemands(p: Problem, c: Composition)
    ensures EdgesOf(Again(p, c), c) == EdgesOf(p, c) && Readable(Again(p, c), c) == Readable(p, c)
    ensures Closed(Again(p, c), c) == Closed(p, c)
  {
    var q := Again(p, c);
    assert forall raw :: Internal(q, raw) == Internal(p, raw);
    assert forall raw | Internal(p, raw) :: Edge(q, raw) == Edge(p, raw);
  }

  lemma AgainRound(p: Problem, c: Composition)
    requires Closed(p, c) && Readable(p, c)
    ensures Round(Again(p, c), c) == Ok(c)
  {
    var q := Again(p, c);
    AgainDemands(p, c);
    EdgesMet(q, c);
    var demands := Grouped(EdgesOf(q, c));
    hide Grouped, EdgesOf, Choose, Closed, Readable;
    forall k <- demands.Keys ensures Settled(q, c, k, demands[k]) == Some(c[k]) {
      assert Met(q, c, k, demands[k]);
    }
    assert Simultaneous(q, c, demands) == c;
  }

  lemma AgainStart(p: Problem, c: Composition)
    requires TargetsAsked(p) && Faithful(p, c)
    ensures TargetsAsked(Again(p, c)) && Start(Again(p, c)) == c
  {
    var q := Again(p, c);
    hide Usable, OfVersion;
    forall k <- q.targets.Keys ensures Asked(q, k) {
      assert Asked(p, k) && k in Exact(p) && Signed(q, k) == Signed(p, k);
      SameUsable(p, c);
    }
    assert Removed(q) == {};
    assert Start(q).Keys == c.Keys;
    hide Asked;
    forall k | k in c ensures Start(q)[k] == c[k] {
      assert Signed(q, k) == Signed(p, k);
    }
  }

  lemma SameUsable(p: Problem, c: Composition)
    ensures forall r: Release :: Usable(Again(p, c), r) == Usable(p, r)
  {
  }

  /** Planning again from a plan's own composition with the same exact versions changes
      nothing: every row is UNCHANGED. */
  lemma PlanIdempotent(p: Problem)
    requires Solve(p).Ok?
    ensures var c := Solve(p).value;
            && Solve(Again(p, c)) == Ok(c)
            && forall k | k in Rows(Again(p, c), c) :: Rows(Again(p, c), c)[k].action == Unchanged
  {
    var c := Solve(p).value;
    var q := Again(p, c);
    PlanSound(p);
    NeverEmpty(p, c);
    AgainRound(p, c);
    AgainStart(p, c);
    RowsRebuild(q, c);
    hide Closed, Faithful, Readable, Round, Start, TargetsAsked, Rows;
    assert Close(q, c, {}, MAX_ROUNDS) == Ok(c);
    assert Safe(q, c);
    hide Close;
    RowKeys(q, c);
  }

  lemma NeverEmpty(p: Problem, c: Composition)
    requires TargetsAsked(p) && Start(p) != map[] && Faithful(p, c)
    ensures c != map[]
  {
    hide OfVersion, Signed;
    var k :| k in Start(p);
    assert k in Exact(p) || (k in p.before && k !in Removed(p));
    assert k in c;
  }

  lemma RowKeys(p: Problem, c: Composition)
    ensures Rows(p, c).Keys == p.before.Keys + c.Keys
  {
  }

  // ------------------------------------------------------------------ rounds

  /** A round that changes the composition changes its state. */
  lemma ChangeIsVisible(p: Problem, c: Composition)
    requires Round(p, c).Ok? && Round(p, c).value != c
    ensures StateOf(Round(p, c).value) != StateOf(c)
  {
    var demands := Grouped(EdgesOf(p, c));
    var d := Simultaneous(p, c, demands);
    hide EdgesOf, Readable;
    if forall k <- demands.Keys :: Met(p, c, k, demands[k]) {
      AllMetNoChange(p, c, demands);
    } else {
      var k :| k in demands.Keys && !Met(p, c, k, demands[k]);
      assert Settled(p, c, k, demands[k]).Some?;
      ReplacementAdmitted(p, c, k, demands[k]);
      assert k in d && d[k] == Settled(p, c, k, demands[k]).value;
      if k in c { assert StateOf(d)[k] != StateOf(c)[k]; } else { assert k in StateOf(d) && k !in StateOf(c); }
    }
  }

  lemma AllMetNoChange(p: Problem, c: Composition, demands: map<string, set<string>>)
    requires Settles(p, c, demands) && AllMet(p, c, demands)
    ensures Simultaneous(p, c, demands) == c
  {
    forall k <- demands.Keys ensures Settled(p, c, k, demands[k]) == Some(c[k]) {
      assert Met(p, c, k, demands[k]);
    }
  }

  lemma ReplacementAdmitted(p: Problem, c: Composition, k: string, specs: set<string>)
    requires Settled(p, c, k, specs).Some? && !Met(p, c, k, specs)
    ensures Admits(p, specs, Settled(p, c, k, specs).value.version)
  {
  }

  /** The compositions of the rounds that were started, first to last. */
  function Visited(p: Problem, c: Composition, rounds: nat): seq<Composition>
    decreases rounds
  {
    if rounds == 0 then []
    else
      var next := Round(p, c);
      [c] + if next.Refused? || next.value == c then [] else Visited(p, next.value, rounds - 1)
  }

  ghost predicate FreshStates(visited: seq<Composition>, seen: set<State>) {
    && (forall i | 0 <= i < |visited| :: StateOf(visited[i]) !in seen)
    && forall i, j | 0 <= i < j < |visited| :: StateOf(visited[i]) != StateOf(visited[j])
  }

  lemma FreshPrepend(c: Composition, rest: seq<Composition>, seen: set<State>)
    requires FreshStates(rest, seen + {StateOf(c)}) && StateOf(c) !in seen
    ensures FreshStates([c] + rest, seen)
  {
    var all := [c] + rest;
    forall i, j | 0 <= i < j < |all| ensures StateOf(all[i]) != StateOf(all[j]) {
      if i > 0 { assert all[i] == rest[i - 1]; }
      assert all[j] == rest[j - 1];
      assert StateOf(rest[j - 1]) !in seen + {StateOf(c)};
    }
    forall i | 0 <= i < |all| ensures StateOf(all[i]) !in seen {
      if i > 0 { assert StateOf(rest[i - 1]) !in seen + {StateOf(c)}; }
    }
  }

  /** Unless the planner reports an oscillation, each of its rounds starts from a state
      no earlier round started from; running out of rounds means 64 such states. */
  lemma {:induction false} RoundsAreFresh(p: Problem, c: Composition, seen: set<State>, rounds: nat)
    requires Close(p, c, seen, rounds) != Refused(Oscillates)
    ensures FreshStates(Visited(p, c, rounds), seen)
    ensures Close(p, c, seen, rounds) == Refused(TooManyRounds) ==> |Visited(p, c, rounds)| == rounds
    decreases rounds
  {
    hide Round, FreshStates, StateOf;
    if rounds == 0 {
      NoneFresh(seen);
    } else {
      var next := Round(p, c);
      NoneFresh(seen + {StateOf(c)});
      if next.Ok? && next.value != c { RoundsAreFresh(p, next.value, seen + {StateOf(c)}, rounds - 1); }
      FreshPrepend(c, if next.Refused? || next.value == c then [] else Visited(p, next.value, rounds - 1), seen);
      if next.Refused? { RoundRefusal(p, c); }
    }
  }

  lemma NoneFresh(seen: set<State>)
    ensures FreshStates([], seen)
  {
  }

  lemma RoundRefusal(p: Problem, c: Composition)
    ensures Round(p, c) != Refused(TooManyRounds) && Round(p, c) != Refused(Oscillates)
  {
  }

  // ------------------------------------------------------------ release space

  /** Versions a component can ever be selected at. */
  function Versions(p: Problem, k: string): set<string> {
    (set r <- Signed(p, k) :: r.version) + if k in p.before then {p.before[k].version} else {}
  }

  predicate InSpace(p: Problem, s: State) { forall k <- s.Keys :: s[k] in Versions(p, k) }

  lemma FaithfulInSpace(p: Problem, c: Composition)
    requires Faithful(p, c)
    ensures InSpace(p, StateOf(c))
  {
    forall k <- StateOf(c).Keys ensures StateOf(c)[k] in Versions(p, k) {
      assert c[k] in Signed(p, k) || (k in p.before && c[k] == p.before[k]);
    }
  }

  lemma {:induction false} VisitedFaithful(p: Problem, c: Composition, rounds: nat)
    requires Faithful(p, c)
    ensures forall v <- Visited(p, c, rounds) :: Faithful(p, v)
    decreases rounds
  {
    hide Faithful, Round;
    RoundFaithfulIf(p, c);
    if rounds > 0 && Round(p, c).Ok? && Round(p, c).value != c { VisitedFaithful(p, Round(p, c).value, rounds - 1); }
  }

  lemma {:induction false} FreshCount(visited: seq<Composition>, space: set<State>)
    requires FreshStates(visited, {}) && forall v <- visited :: StateOf(v) in space
    ensures |visited| <= |space|
    decreases |visited|
  {
    if visited != [] {
      var first, rest := StateOf(visited[0]), visited[1..];
      forall i | 0 <= i < |rest| ensures StateOf(rest[i]) in space - {first} {
        assert StateOf(visited[0]) != StateOf(visited[i + 1]);
      }
      forall i, j | 0 <= i < j < |rest| ensures StateOf(rest[i]) != StateOf(rest[j]) {
        assert StateOf(visited[i + 1]) != StateOf(visited[j + 1]);
      }
      FreshCount(rest, space - {first});
    }
  }

  /** With fewer than 64 states to visit, the round limit is never the reason to refuse. */
  lemma SmallSpaceConverges(p: Problem, space: set<State>)
    requires forall s: State | InSpace(p, s) :: s in space
    requires |space| < MAX_ROUNDS
    ensures Solve(p) != Refused(TooManyRounds)
  {
    if TargetsAsked(p) && Close(p, Start(p), {}, MAX_ROUNDS) == Refused(TooManyRounds) {
      var visited := Visited(p, Start(p), MAX_ROUNDS);
      hide Close, Visited, Start, Faithful, InSpace, StateOf, FreshStates;
      StartFaithful(p);
      VisitedFaithful(p, Start(p), MAX_ROUNDS);
      RoundsAreFresh(p, Start(p), {}, MAX_ROUNDS);
      forall v <- visited ensures StateOf(v) in space { FaithfulInSpace(p, v); }
      FreshCount(visited, space);
    }
  }
}
