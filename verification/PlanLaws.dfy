/** When the planner accepts, refuses, gives up or reports an oscillation, in terms of what
    is requested, signed and required, and of the iterates of one round. */
module PlanLaws {
  import opened Wrappers
  import opened CompositionPlan
  import opened PlanProperties
  import opened CompositionReview

  // ---------------------------------------------------------------------- one round

  /** Some selected release requires, of this component, this specifier. */
  ghost predicate Requires(p: Problem, c: Composition, k: string, spec: string) {
    exists owner, raw | owner in c && raw in c[owner].requiresDist ::
      var d := p.rules.demand(raw);
      d.Demand? && d.name in p.distributions && p.distributions[d.name] == k && d.spec == spec
  }

  ghost predicate Required(p: Problem, c: Composition, k: string) { exists spec :: Requires(p, c, k, spec) }

  /** The component is selected at a version that every requirement on it admits. */
  ghost predicate Satisfied(p: Problem, c: Composition, k: string) {
    k in c && forall spec | Requires(p, c, k, spec) :: p.rules.contains(spec, c[k].version)
  }

  ghost function SpecsRequired(p: Problem, c: Composition, k: string): set<string> { SpecsOn(EdgesOf(p, c), k) }

  lemma SpecsAre(p: Problem, c: Composition, k: string, spec: string)
    ensures spec in SpecsRequired(p, c, k) <==> Requires(p, c, k, spec)
  {
    if Requires(p, c, k, spec) {
      var owner, raw :| owner in c && raw in c[owner].requiresDist
                        && var d := p.rules.demand(raw);
                           d.Demand? && d.name in p.distributions && p.distributions[d.name] == k && d.spec == spec;
      assert Internal(p, raw) && Edge(p, raw) == (k, spec);
      assert (k, spec) in EdgesOf(p, c);
    }
    if spec in SpecsRequired(p, c, k) {
      assert (k, spec) in EdgesOf(p, c);
      var owner, raw :| owner in c.Keys && raw in c[owner].requiresDist && Internal(p, raw)
                        && Edge(p, raw) == (k, spec);
    }
  }

  lemma DemandsAre(p: Problem, c: Composition, k: string)
    ensures k in Grouped(EdgesOf(p, c)) <==> Required(p, c, k)
    ensures k in Grouped(EdgesOf(p, c)) ==> Grouped(EdgesOf(p, c))[k] == SpecsRequired(p, c, k)
    ensures Met(p, c, k, SpecsRequired(p, c, k)) <==> Satisfied(p, c, k)
  {
    hide EdgesOf, Requires;
    forall spec ensures spec in SpecsRequired(p, c, k) <==> Requires(p, c, k, spec) { SpecsAre(p, c, k, spec); }
    assert k in Ends(EdgesOf(p, c)) <==> exists spec :: (k, spec) in EdgesOf(p, c);
    assert forall spec :: (k, spec) in EdgesOf(p, c) <==> spec in SpecsRequired(p, c, k);
  }

  /** What one round makes of one component: unrequired or satisfied it stays; otherwise it
      may be no target, and becomes the chosen release. */
  ghost predicate StepAt(p: Problem, c: Composition, d: Composition, k: string) {
    if !Required(p, c, k) then (k in d <==> k in c) && (k in c ==> d[k] == c[k])
    else if Satisfied(p, c, k) then
      k in d && d[k] == c[k] && (k in p.targets ==> p.targets[k].Some?)
    else k !in p.targets && k in d && Choose(p, k, SpecsRequired(p, c, k)) == Some(d[k])
  }

  lemma StepIsSettled(p: Problem, c: Composition, d: Composition, k: string)
    ensures var demands := Grouped(EdgesOf(p, c));
            StepAt(p, c, d, k) <==>
            if k in demands then k in d && Settled(p, c, k, demands[k]) == Some(d[k])
            else (k in d <==> k in c) && (k in c ==> d[k] == c[k])
  {
    hide Grouped, EdgesOf, Choose, Required, Satisfied, Met, SpecsRequired;
    DemandsAre(p, c, k);
    SatisfiedIsIn(p, c, k);
  }

  lemma SatisfiedIsIn(p: Problem, c: Composition, k: string)
    ensures Satisfied(p, c, k) ==> k in c
  {
  }

  lemma StepsGive(p: Problem, c: Composition, d: Composition)
    requires Readable(p, c)
    ensures Round(p, c) == Ok(d) <==> forall k :: StepAt(p, c, d, k)
  {
    hide Grouped, EdgesOf, StepAt, Settled, Readable;
    var demands := Grouped(EdgesOf(p, c));
    forall k
      ensures StepAt(p, c, d, k) <==>
              if k in demands then k in d && Settled(p, c, k, demands[k]) == Some(d[k])
              else (k in d <==> k in c) && (k in c ==> d[k] == c[k])
    {
      StepIsSettled(p, c, d, k);
    }
    if forall k :: StepAt(p, c, d, k) {
      forall k <- demands.Keys ensures k in d && Settled(p, c, k, demands[k]) == Some(d[k]) {
        assert StepAt(p, c, d, k);
      }
      forall k ensures k in d <==> k in c.Keys + demands.Keys { assert StepAt(p, c, d, k); }
      forall k <- d.Keys ensures Simultaneous(p, c, demands)[k] == d[k] { assert StepAt(p, c, d, k); }
      assert Simultaneous(p, c, demands) == d;
    }
  }

  /** A round gives d exactly when every requirement can be used and every component is
      stepped so. Otherwise it refuses, over the requirements exactly if one cannot be used. */
  lemma RoundExactly(p: Problem, c: Composition, d: Composition)
    ensures Round(p, c) == Ok(d) <==>
            (forall owner, raw | owner in c && raw in c[owner].requiresDist :: p.rules.demand(raw) != Unusable)
            && forall k :: StepAt(p, c, d, k)
    ensures Round(p, c) == Refused(BadRequirement) <==>
            exists owner, raw | owner in c && raw in c[owner].requiresDist :: p.rules.demand(raw) == Unusable
    ensures Round(p, c).Refused? ==> Round(p, c).why in {BadRequirement, NoClosure}
  {
    hide Grouped, EdgesOf, StepAt, Settles;
    if Readable(p, c) { StepsGive(p, c, d); }
  }

  // ------------------------------------------------------------------- choice

  /** Neither revoked nor incompatible, and admitted by every specifier. */
  predicate Fit(p: Problem, specs: set<string>, r: Release) {
    !r.revoked && p.rules.python(r.requiresPython) == Some(true) && forall s <- specs :: p.rules.contains(s, r.version)
  }

  function ReleasesOf(p: Problem, k: string): seq<Release> { if k in p.documents then p.documents[k] else [] }

  /** The first fit release of this version is at i. */
  predicate FirstVersionAt(p: Problem, specs: set<string>, releases: seq<Release>, version: string, i: nat) {
    && i < |releases| && Fit(p, specs, releases[i]) && releases[i].version == version
    && forall j | 0 <= j < i :: !(Fit(p, specs, releases[j]) && releases[j].version == version)
  }

  /** The first of the newest fit releases is at i. */
  predicate NewestAt(p: Problem, specs: set<string>, releases: seq<Release>, i: nat) {
    && i < |releases| && Fit(p, specs, releases[i])
    && (forall j | 0 <= j < |releases| && Fit(p, specs, releases[j]) ::
          p.rules.rank(releases[j].version) <= p.rules.rank(releases[i].version))
    && forall j | 0 <= j < i && Fit(p, specs, releases[j]) ::
         p.rules.rank(releases[j].version) < p.rules.rank(releases[i].version)
  }

  /** The observed version is published in a fit release. */
  ghost predicate StillFit(p: Problem, k: string, specs: set<string>) {
    k in p.before && exists r <- ReleasesOf(p, k) :: Fit(p, specs, r) && r.version == p.before[k].version
  }

  ghost predicate ChosenAt(p: Problem, k: string, specs: set<string>, i: nat) {
    if StillFit(p, k, specs) then FirstVersionAt(p, specs, ReleasesOf(p, k), p.before[k].version, i)
    else NewestAt(p, specs, ReleasesOf(p, k), i)
  }

  /** A replacement is chosen exactly when the Python bound of every release not revoked can
      be read: the first fit release of the observed version if there is one, and otherwise
      the first of the newest fit ones. */
  lemma ChoiceExactly(p: Problem, k: string, specs: set<string>, r: Release)
    ensures Choose(p, k, specs) == Some(r) <==>
            && (forall x <- ReleasesOf(p, k) :: x.revoked || p.rules.python(x.requiresPython).Some?)
            && exists i: nat :: ChosenAt(p, k, specs, i) && ReleasesOf(p, k)[i] == r
  {
    hide Choices, OfVersion, Newest, Admits, Usable, FirstVersionAt, NewestAt, Fit;
    var releases := ReleasesOf(p, k);
    ChoicesComplete(p, releases, specs);
    forall x: Release ensures Fit(p, specs, x) <==> Usable(p, x) && Admits(p, specs, x.version) {
      FitExactly(p, specs, x);
    }
    var choices := Choices(p, releases, specs);
    if choices.Some? {
      if StillFit(p, k, specs) {
        var at := VersionChosen(p, releases, specs, p.before[k].version);
        forall i: nat | ChosenAt(p, k, specs, i) ensures i == at {
          OneFirstVersion(p, specs, releases, p.before[k].version, i, at);
        }
      } else if choices.value != [] {
        var at := NewestChosen(p, releases, specs);
        forall i: nat | ChosenAt(p, k, specs, i) ensures i == at { OneNewest(p, specs, releases, i, at); }
      } else {
        forall i: nat ensures !ChosenAt(p, k, specs, i) { NewestMeansFit(p, specs, releases, i); }
      }
    }
  }

  lemma FitExactly(p: Problem, specs: set<string>, x: Release)
    ensures Fit(p, specs, x) <==> Usable(p, x) && Admits(p, specs, x.version)
  {
  }

  lemma NewestMeansFit(p: Problem, specs: set<string>, releases: seq<Release>, i: nat)
    ensures NewestAt(p, specs, releases, i) ==> i < |releases| && Fit(p, specs, releases[i])
  {
  }

  lemma OneFirstVersion(p: Problem, specs: set<string>, releases: seq<Release>, version: string, i: nat, j: nat)
    requires FirstVersionAt(p, specs, releases, version, i) && FirstVersionAt(p, specs, releases, version, j)
    ensures i == j
  {
  }

  lemma OneNewest(p: Problem, specs: set<string>, releases: seq<Release>, i: nat, j: nat)
    requires NewestAt(p, specs, releases, i) && NewestAt(p, specs, releases, j)
    ensures i == j
  {
  }

  /** The first release is among the choices exactly when it is fit. */
  lemma ChoicesStep(p: Problem, releases: seq<Release>, specs: set<string>)
    requires releases != [] && Choices(p, releases, specs).Some?
    ensures Choices(p, releases[1..], specs).Some?
    ensures var rest := Choices(p, releases[1..], specs).value;
            Choices(p, releases, specs).value == if Fit(p, specs, releases[0]) then [releases[0]] + rest else rest
  {
    FitExactly(p, specs, releases[0]);
    hide Fit, Usable, Admits;
  }

  lemma LaterVersion(p: Problem, specs: set<string>, releases: seq<Release>, version: string, i: nat)
    requires releases != [] && FirstVersionAt(p, specs, releases[1..], version, i)
    requires !(Fit(p, specs, releases[0]) && releases[0].version == version)
    ensures FirstVersionAt(p, specs, releases, version, i + 1) && releases[i + 1] == releases[1..][i]
  {
    hide Fit;
    forall j | 0 < j <= i ensures releases[j] == releases[1..][j - 1] {}
  }

  lemma {:induction false} VersionChosen(p: Problem, releases: seq<Release>, specs: set<string>, version: string)
    returns (i: nat)
    requires Choices(p, releases, specs).Some?
    requires exists r <- releases :: Fit(p, specs, r) && r.version == version
    ensures FirstVersionAt(p, specs, releases, version, i)
    ensures OfVersion(Choices(p, releases, specs).value, version) == Some(releases[i])
    decreases |releases|
  {
    ChoicesStep(p, releases, specs);
    hide Fit, Choices;
    var rest := Choices(p, releases[1..], specs).value;
    if Fit(p, specs, releases[0]) && releases[0].version == version {
      i := 0;
    } else {
      hide FirstVersionAt;
      var j := VersionChosen(p, releases[1..], specs, version);
      LaterVersion(p, specs, releases, version, j);
      assert ([releases[0]] + rest)[1..] == rest;
      i := j + 1;
    }
  }

  /** The first release is the first of the newest when it is fit and no later one is newer. */
  lemma FirstNewest(p: Problem, specs: set<string>, releases: seq<Release>)
    requires releases != [] && Fit(p, specs, releases[0])
    requires forall x <- releases[1..] | Fit(p, specs, x) ::
               p.rules.rank(x.version) <= p.rules.rank(releases[0].version)
    ensures NewestAt(p, specs, releases, 0)
  {
    hide Fit;
    forall j | 0 < j < |releases| ensures releases[j] in releases[1..] { assert releases[1..][j - 1] == releases[j]; }
  }

  lemma LaterNewest(p: Problem, specs: set<string>, releases: seq<Release>, i: nat)
    requires releases != [] && NewestAt(p, specs, releases[1..], i)
    requires Fit(p, specs, releases[0]) ==>
               p.rules.rank(releases[0].version) < p.rules.rank(releases[1..][i].version)
    ensures NewestAt(p, specs, releases, i + 1) && releases[i + 1] == releases[1..][i]
  {
    hide Fit;
    forall j | 0 < j < |releases| ensures releases[j] == releases[1..][j - 1] {}
  }

  lemma RanksBelow(p: Problem, specs: set<string>, releases: seq<Release>, i: nat, rank: int)
    requires NewestAt(p, specs, releases, i) && p.rules.rank(releases[i].version) <= rank
    ensures forall x <- releases | Fit(p, specs, x) :: p.rules.rank(x.version) <= rank
  {
    hide Fit;
  }

  lemma {:induction false} NewestChosen(p: Problem, releases: seq<Release>, specs: set<string>) returns (i: nat)
    requires Choices(p, releases, specs).Some? && Choices(p, releases, specs).value != []
    ensures NewestAt(p, specs, releases, i) && Newest(p, Choices(p, releases, specs).value) == releases[i]
    decreases |releases|
  {
    assert releases != [];
    ChoicesStep(p, releases, specs);
    var rest := Choices(p, releases[1..], specs).value;
    var head := releases[0];
    assert ([head] + rest)[1..] == rest;
    hide Fit, Choices, NewestAt;
    if rest == [] {
      NoneFit(p, releases[1..], specs);
      FirstNewest(p, specs, releases);
      i := 0;
    } else {
      var j := NewestChosen(p, releases[1..], specs);
      NewestMeansFit(p, specs, releases[1..], j);
      if Fit(p, specs, head) && p.rules.rank(head.version) >= p.rules.rank(releases[1..][j].version) {
        RanksBelow(p, specs, releases[1..], j, p.rules.rank(head.version));
        FirstNewest(p, specs, releases);
        i := 0;
      } else {
        LaterNewest(p, specs, releases, j);
        i := j + 1;
      }
    }
  }

  lemma NoneFit(p: Problem, releases: seq<Release>, specs: set<string>)
    requires Choices(p, releases, specs) == Some([])
    ensures forall x <- releases :: !Fit(p, specs, x)
  {
    ChoicesComplete(p, releases, specs);
    forall x <- releases ensures !Fit(p, specs, x) { FitExactly(p, specs, x); }
  }

  // ------------------------------------------------------------------------ iterates

  /** The composition after n rounds, if none of them refused. */
  ghost function Iterate(p: Problem, start: Composition, n: nat): Option<Composition> {
    if n == 0 then Some(start)
    else
      var before := Iterate(p, start, n - 1);
      if before.None? || Round(p, before.value).Refused? then None else Some(Round(p, before.value).value)
  }

  /** The i-th and j-th iterates exist and select the same versions of the same components. */
  ghost predicate SameVersions(p: Problem, start: Composition, i: nat, j: nat) {
    var a, b := Iterate(p, start, i), Iterate(p, start, j);
    && a.Some? && b.Some? && a.value.Keys == b.value.Keys
    && forall k <- a.value.Keys :: a.value[k].version == b.value[k].version
  }

  /** A round leaves the n-th iterate alone. */
  ghost predicate FixedAt(p: Problem, start: Composition, n: nat) {
    var a := Iterate(p, start, n);
    a.Some? && Round(p, a.value) == Ok(a.value)
  }

  /** The rounds up to the n-th were started: none before it was the last, and no two of
      those before it started from the same versions. */
  ghost predicate Started(p: Problem, start: Composition, n: nat) {
    && Iterate(p, start, n).Some? && (forall i | 0 <= i < n :: !FixedAt(p, start, i))
    && forall i, j | 0 <= i < j < n :: !SameVersions(p, start, i, j)
  }

  ghost function SeenBy(p: Problem, start: Composition, n: nat): set<State> {
    set i | 0 <= i < n && Iterate(p, start, i).Some? :: StateOf(Iterate(p, start, i).value)
  }

  lemma {:induction false} IterateBack(p: Problem, start: Composition, i: nat, n: nat)
    requires i <= n && Iterate(p, start, n).Some?
    ensures Iterate(p, start, i).Some?
    decreases n
  {
    hide Round;
    if i < n { IterateBack(p, start, i, n - 1); }
  }

  lemma SameVersionsIsState(p: Problem, start: Composition, i: nat, j: nat)
    ensures SameVersions(p, start, i, j) <==>
            Iterate(p, start, i).Some? && Iterate(p, start, j).Some?
            && StateOf(Iterate(p, start, i).value) == StateOf(Iterate(p, start, j).value)
  {
    hide Iterate;
    if Iterate(p, start, i).Some? && Iterate(p, start, j).Some? {
      var a, b := Iterate(p, start, i).value, Iterate(p, start, j).value;
      assert StateOf(a).Keys == a.Keys && StateOf(b).Keys == b.Keys;
      if StateOf(a) == StateOf(b) {
        forall k <- a.Keys ensures a[k].version == b[k].version { assert StateOf(a)[k] == StateOf(b)[k]; }
      }
    }
  }

  lemma SeenExactly(p: Problem, start: Composition, n: nat)
    requires Iterate(p, start, n).Some?
    ensures StateOf(Iterate(p, start, n).value) in SeenBy(p, start, n) <==>
            exists i | 0 <= i < n :: SameVersions(p, start, i, n)
  {
    hide Iterate, StateOf, SameVersions;
    forall i: nat ensures SameVersions(p, start, i, n) <==>
                          Iterate(p, start, i).Some?
                          && StateOf(Iterate(p, start, i).value) == StateOf(Iterate(p, start, n).value)
    {
      SameVersionsIsState(p, start, i, n);
    }
  }

  /** Where the rounds stop, and with what. */
  ghost predicate StopsAt(p: Problem, start: Composition, n: nat, out: Result<Composition>) {
    && n <= 64 && Started(p, start, n)
    && if n == 64 then out == Refused(TooManyRounds)
       else if exists i | 0 <= i < n :: SameVersions(p, start, i, n) then out == Refused(Oscillates)
       else if Round(p, Iterate(p, start, n).value).Refused? then out == Round(p, Iterate(p, start, n).value)
       else FixedAt(p, start, n) && out == Ok(Iterate(p, start, n).value)
  }

  lemma {:induction false} CloseStops(p: Problem, start: Composition, n: nat) returns (m: nat)
    requires n <= 64 && Started(p, start, n)
    ensures StopsAt(p, start, m, Close(p, Iterate(p, start, n).value, SeenBy(p, start, n), 64 - n))
    decreases 64 - n
  {
    hide Round, SameVersions, StateOf;
    m := n;
    var c, seen := Iterate(p, start, n).value, SeenBy(p, start, n);
    if n < 64 {
      SeenExactly(p, start, n);
      hide Iterate;
      if StateOf(c) !in seen && Round(p, c).Ok? && Round(p, c).value != c {
        OneMoreIterate(p, start, n);
        OneMoreStarted(p, start, n);
        m := CloseStops(p, start, n + 1);
      }
    }
  }

  lemma OneMoreIterate(p: Problem, start: Composition, n: nat)
    requires Iterate(p, start, n).Some?
    ensures var c := Iterate(p, start, n).value;
            Iterate(p, start, n + 1) == if Round(p, c).Refused? then None else Some(Round(p, c).value)
    ensures SeenBy(p, start, n + 1) == SeenBy(p, start, n) + {StateOf(Iterate(p, start, n).value)}
  {
    hide Round, StateOf;
  }

  lemma OneMoreStarted(p: Problem, start: Composition, n: nat)
    requires Started(p, start, n) && Iterate(p, start, n + 1).Some? && !FixedAt(p, start, n)
    requires forall i | 0 <= i < n :: !SameVersions(p, start, i, n)
    ensures Started(p, start, n + 1)
  {
    hide Iterate, FixedAt, SameVersions;
  }

  /** No two of the iterates up to the n-th, all there, select the same versions. */
  ghost predicate NoRepetition(p: Problem, start: Composition, n: nat) {
    forall i, j | 0 <= i < j <= n :: !SameVersions(p, start, i, j)
  }

  lemma FixedRepeats(p: Problem, start: Composition, n: nat)
    requires FixedAt(p, start, n)
    ensures SameVersions(p, start, n, n + 1)
  {
    hide Round;
    assert Iterate(p, start, n + 1) == Iterate(p, start, n);
  }

  lemma Stops(p: Problem, start: Composition) returns (m: nat)
    ensures StopsAt(p, start, m, Close(p, start, {}, MAX_ROUNDS))
  {
    hide Round, SameVersions, Close, StopsAt;
    assert Iterate(p, start, 0) == Some(start) && SeenBy(p, start, 0) == {};
    m := CloseStops(p, start, 0);
  }

  lemma FixedMeans(p: Problem, start: Composition, n: nat)
    ensures FixedAt(p, start, n) <==>
            Iterate(p, start, n).Some? && Round(p, Iterate(p, start, n).value) == Ok(Iterate(p, start, n).value)
  {
  }

  /** An oscillation is reported if and only if two of the rounds started, of at most 64,
      start from the same versions of the same components. */
  lemma OscillatesExactly(p: Problem, start: Composition)
    ensures Close(p, start, {}, MAX_ROUNDS) == Refused(Oscillates) <==>
            exists i, j | 0 <= i < j < 64 ::
              SameVersions(p, start, i, j) && forall m | 0 <= m < j :: !FixedAt(p, start, m)
  {
    hide Close, SameVersions, FixedAt, Iterate;
    var out := Close(p, start, {}, MAX_ROUNDS);
    var m := Stops(p, start);
    if out == Refused(Oscillates) {
      if m < 64 { RoundExactly(p, Iterate(p, start, m).value, start); }
      hide Round;
      var i :| 0 <= i < m && SameVersions(p, start, i, m);
    }
    if i, j :| 0 <= i < j < 64 && SameVersions(p, start, i, j) && forall m | 0 <= m < j :: !FixedAt(p, start, m) {
      hide Round;
      OscillatesBy(p, start, m, i, j, out);
    }
  }

  lemma OscillatesBy(p: Problem, start: Composition, m: nat, i: nat, j: nat, out: Result<Composition>)
    requires StopsAt(p, start, m, out) && i < j < 64 && SameVersions(p, start, i, j)
    requires forall m | 0 <= m < j :: !FixedAt(p, start, m)
    ensures out == Refused(Oscillates)
  {
    hide Round, FixedAt;
    assert Iterate(p, start, j).Some? && m <= j;
    hide SameVersions;
    if m < j {
      IterateBack(p, start, m + 1, j);
      OneMoreIterate(p, start, m);
    }
  }

  /** The rounds settle on d if and only if d is an iterate below 64 that a round leaves
      alone, and no two iterates up to it select the same versions. */
  lemma SettlesExactly(p: Problem, start: Composition, d: Composition)
    ensures Close(p, start, {}, MAX_ROUNDS) == Ok(d) <==>
            exists n | 0 <= n < 64 ::
              Iterate(p, start, n) == Some(d) && Round(p, d) == Ok(d) && NoRepetition(p, start, n)
  {
    hide Close, SameVersions, Iterate, Round;
    var out := Close(p, start, {}, MAX_ROUNDS);
    var m := Stops(p, start);
    if out == Ok(d) { assert NoRepetition(p, start, m); }
    if n :| 0 <= n < 64 && Iterate(p, start, n) == Some(d) && Round(p, d) == Ok(d) && NoRepetition(p, start, n) {
      SettlesBy(p, start, m, n, out);
    }
  }

  lemma SettlesBy(p: Problem, start: Composition, m: nat, n: nat, out: Result<Composition>)
    requires StopsAt(p, start, m, out) && n < 64 && FixedAt(p, start, n) && NoRepetition(p, start, n)
    ensures out == Ok(Iterate(p, start, n).value)
  {
    hide Round, SameVersions;
    if m < n {
      IterateBack(p, start, m + 1, n);
      OneMoreIterate(p, start, m);
      if FixedAt(p, start, m) { FixedRepeats(p, start, m); }
    }
  }

  /** The rounds refuse for a reason of their own if and only if some iterate below 64 is
      refused so, with no repetition up to it. */
  lemma RoundRefusesExactly(p: Problem, start: Composition, why: Refusal)
    requires why in {BadRequirement, NoClosure}
    ensures Close(p, start, {}, MAX_ROUNDS) == Refused(why) <==>
            exists n | 0 <= n < 64 ::
              Iterate(p, start, n).Some? && Round(p, Iterate(p, start, n).value) == Refused(why)
              && NoRepetition(p, start, n)
  {
    hide Close, SameVersions, Iterate, Round;
    var out := Close(p, start, {}, MAX_ROUNDS);
    var m := Stops(p, start);
    if out == Refused(why) { assert NoRepetition(p, start, m); }
    if n :| 0 <= n < 64 && Iterate(p, start, n).Some? && Round(p, Iterate(p, start, n).value) == Refused(why)
            && NoRepetition(p, start, n)
    {
      RefusesBy(p, start, m, n, out);
    }
  }

  lemma RefusesBy(p: Problem, start: Composition, m: nat, n: nat, out: Result<Composition>)
    requires StopsAt(p, start, m, out) && n < 64 && NoRepetition(p, start, n)
    requires Iterate(p, start, n).Some? && Round(p, Iterate(p, start, n).value).Refused?
    ensures out == Round(p, Iterate(p, start, n).value)
  {
    hide Round, SameVersions;
    if m < n {
      IterateBack(p, start, m + 1, n);
      OneMoreIterate(p, start, m);
      if FixedAt(p, start, m) { FixedRepeats(p, start, m); }
    } else if n < m {
      IterateBack(p, start, n + 1, m);
      OneMoreIterate(p, start, n);
    }
  }

  /** The round limit is reported if and only if there is a 64th iterate, and no two of
      those before it select the same versions and none of them is left alone. */
  lemma RunsOutExactly(p: Problem, start: Composition)
    ensures Close(p, start, {}, MAX_ROUNDS) == Refused(TooManyRounds) <==>
            && Iterate(p, start, 64).Some? && NoRepetition(p, start, 63)
            && forall n | 0 <= n < 64 :: !FixedAt(p, start, n)
  {
    hide Close, SameVersions, Iterate, FixedAt;
    var out := Close(p, start, {}, MAX_ROUNDS);
    var m := Stops(p, start);
    if m < 64 { RoundExactly(p, Iterate(p, start, m).value, start); }
    hide Round;
    if Iterate(p, start, 64).Some? && m < 64 {
      IterateBack(p, start, m + 1, 64);
      OneMoreIterate(p, start, m);
      FixedMeans(p, start, m);
    }
  }

  // -------------------------------------------------------------------- whole plans

  /** r is the first of these releases with this version. */
  ghost predicate FirstOf(releases: seq<Release>, version: string, r: Release) {
    exists i | 0 <= i < |releases| ::
      releases[i] == r && r.version == version && forall j | 0 <= j < i :: releases[j].version != version
  }

  lemma {:induction false} FirstOfExactly(releases: seq<Release>, version: string, r: Release)
    ensures OfVersion(releases, version) == Some(r) <==> FirstOf(releases, version, r)
  {
    if releases != [] {
      FirstOfExactly(releases[1..], version, r);
      if OfVersion(releases, version) == Some(r) && releases[0].version != version {
        var i :| 0 <= i < |releases| - 1 && releases[1..][i] == r
                 && forall j | 0 <= j < i :: releases[1..][j].version != version;
        forall j | 0 <= j < i + 1 ensures releases[j].version != version {
          if j > 0 { assert releases[1..][j - 1].version != version; }
        }
        assert releases[i + 1] == r;
      }
      if FirstOf(releases, version, r) && releases[0].version != version {
        var i :| 0 <= i < |releases| && releases[i] == r && r.version == version
                 && forall j | 0 <= j < i :: releases[j].version != version;
        assert releases[1..][i - 1] == r;
        forall j | 0 <= j < i - 1 ensures releases[1..][j].version != version {
          assert releases[j + 1].version != version;
        }
      }
    }
  }

  /** Every removal is of something observed, and every version asked for is signed, in its
      first release neither revoked nor incompatible with the planned Python. */
  ghost predicate TargetsCanBe(p: Problem) {
    forall k | k in p.targets ::
      if p.targets[k].None? then k in p.before
      else exists r :: FirstOf(Signed(p, k), p.targets[k].value, r) && !r.revoked
                       && p.rules.python(r.requiresPython) == Some(true)
  }

  lemma TargetsCanBeExactly(p: Problem)
    ensures TargetsAsked(p) <==> TargetsCanBe(p)
  {
    hide Signed, OfVersion, FirstOf;
    forall k | k in p.targets
      ensures Asked(p, k) <==>
              if p.targets[k].None? then k in p.before
              else exists r :: FirstOf(Signed(p, k), p.targets[k].value, r) && !r.revoked
                               && p.rules.python(r.requiresPython) == Some(true)
    {
      if p.targets[k].Some? {
        forall r
          ensures OfVersion(Signed(p, k), p.targets[k].value) == Some(r) <==>
                  FirstOf(Signed(p, k), p.targets[k].value, r)
        {
          FirstOfExactly(Signed(p, k), p.targets[k].value, r);
        }
      }
    }
    hide Asked;
  }

  /** The baseline without the removals and with the versions asked for. */
  ghost predicate StartsFrom(p: Problem, c: Composition) {
    forall k ::
      if k in p.targets then
        (k in c <==> p.targets[k].Some?) && (k in c ==> FirstOf(Signed(p, k), p.targets[k].value, c[k]))
      else (k in c <==> k in p.before) && (k in c ==> c[k] == p.before[k])
  }

  lemma StartAt(p: Problem, k: string)
    requires TargetsAsked(p)
    ensures k in Start(p) <==> if k in p.targets then p.targets[k].Some? else k in p.before
    ensures k in Start(p) ==>
              if k in p.targets then FirstOf(Signed(p, k), p.targets[k].value, Start(p)[k])
              else Start(p)[k] == p.before[k]
  {
    hide Signed, OfVersion, FirstOf, Usable;
    if k in p.targets && p.targets[k].Some? {
      assert Asked(p, k);
      FirstOfExactly(Signed(p, k), p.targets[k].value, OfVersion(Signed(p, k), p.targets[k].value).value);
    }
  }

  lemma OneFirst(releases: seq<Release>, version: string, r: Release, t: Release)
    requires FirstOf(releases, version, r) && FirstOf(releases, version, t)
    ensures r == t
  {
    hide FirstOf;
    FirstOfExactly(releases, version, r);
    FirstOfExactly(releases, version, t);
  }

  lemma StartExactly(p: Problem, c: Composition)
    requires TargetsAsked(p)
    ensures c == Start(p) <==> StartsFrom(p, c)
  {
    hide Signed, FirstOf, TargetsAsked, Start;
    forall k
      ensures k in Start(p) <==> if k in p.targets then p.targets[k].Some? else k in p.before
      ensures k in Start(p) ==>
                if k in p.targets then FirstOf(Signed(p, k), p.targets[k].value, Start(p)[k])
                else Start(p)[k] == p.before[k]
    {
      StartAt(p, k);
    }
    if StartsFrom(p, c) {
      forall k ensures k in c <==> k in Start(p) {}
      forall k | k in c ensures c[k] == Start(p)[k] {
        if k in p.targets { OneFirst(Signed(p, k), p.targets[k].value, c[k], Start(p)[k]); }
      }
    }
  }

  /** The planner settles on d if and only if something is observed, the targets can be,
      something is left to start from, d is where the rounds settle, and no release in it
      is revoked or incompatible. */
  lemma SolvedExactly(p: Problem, d: Composition)
    ensures Solve(p) == Ok(d) <==>
            && p.before != map[] && TargetsCanBe(p)
            && (exists start, n: nat ::
                  && StartsFrom(p, start) && start != map[] && n < 64
                  && Iterate(p, start, n) == Some(d) && Round(p, d) == Ok(d) && NoRepetition(p, start, n))
            && forall k | k in d :: !d[k].revoked && p.rules.python(d[k].requiresPython) == Some(true)
  {
    hide Close, Iterate, Round, NoRepetition, TargetsCanBe, StartsFrom, Start, TargetsAsked;
    TargetsCanBeExactly(p);
    if TargetsAsked(p) {
      forall start ensures start == Start(p) <==> StartsFrom(p, start) { StartExactly(p, start); }
      SettlesExactly(p, Start(p), d);
    }
  }

  /** Why a plan is refused before the rounds, and that nothing else is. */
  lemma SolveRefusesExactly(p: Problem)
    ensures Solve(p) == Refused(EmptyBaseline) <==> p.before == map[]
    ensures Solve(p) == Refused(BadTarget) <==> p.before != map[] && !TargetsCanBe(p)
    ensures Solve(p) == Refused(EmptyComposition) <==>
            p.before != map[] && TargetsCanBe(p) && StartsFrom(p, map[])
    ensures Solve(p).Refused? ==>
              Solve(p).why in {EmptyBaseline, BadTarget, EmptyComposition, RevokedOrIncompatible,
                               BadRequirement, NoClosure, Oscillates, TooManyRounds}
  {
    hide Close, TargetsCanBe, StartsFrom, Start, TargetsAsked, StopsAt, Iterate;
    TargetsCanBeExactly(p);
    if TargetsAsked(p) {
      StartExactly(p, map[]);
      CloseReasons(p, Start(p));
    }
  }

  lemma CloseReasons(p: Problem, start: Composition)
    ensures var out := Close(p, start, {}, MAX_ROUNDS);
            out.Refused? ==> out.why in {BadRequirement, NoClosure, Oscillates, TooManyRounds}
  {
    hide Close, Iterate, SameVersions;
    var m := Stops(p, start);
    if m < 64 { RoundExactly(p, Iterate(p, start, m).value, start); }
  }

  // ------------------------------------------------------------------------- inputs

  /** Between 1 and 32 targets, each named by two to 48 lower-case letters, digits, hyphens
      and underscores after a letter, and never the empty version. */
  predicate TargetsNamed(targets: Targets) {
    && 1 <= |targets| <= 32
    && forall k | k in targets ::
         && 2 <= |k| <= 48 && 'a' <= k[0] <= 'z' && targets[k] != Some("")
         && forall i | 0 <= i < |k| :: 'a' <= k[i] <= 'z' || '0' <= k[i] <= '9' || k[i] == '_' || k[i] == '-'
  }

  /** The one document of this component has these digest, and exactly one release in it
      has this version and this wheel: r. */
  ghost predicate PublishedAs(s: Snapshot, o: Observed, r: Release) {
    exists d, i | d in s.documents && 0 <= i < |d.releases| ::
      && d.component == o.component && d.payloadSha == o.publisherSha
      && d.releases[i] == r && r.version == o.version && r.sha == o.sha
      && forall j | 0 <= j < |d.releases| && j != i ::
           !(d.releases[j].version == o.version && d.releases[j].sha == o.sha)
  }

  lemma {:induction false} FindExactly(documents: seq<Document>, d: Document)
    requires forall i, j | 0 <= i < j < |documents| :: documents[i].component != documents[j].component
    ensures FindDocument(documents, d.component) == Some(d) <==> d in documents
  {
    if documents != [] {
      assert documents == [documents[0]] + documents[1..];
      FindExactly(documents[1..], d);
      if d in documents[1..] {
        var j :| 0 <= j < |documents| - 1 && documents[1..][j] == d;
        assert documents[j + 1] == d;
      }
    }
  }

  ghost predicate OneMatch(releases: seq<Release>, version: string, sha: string, i: int) {
    && 0 <= i < |releases| && releases[i].version == version && releases[i].sha == sha
    && forall j | 0 <= j < |releases| && j != i :: !(releases[j].version == version && releases[j].sha == sha)
  }

  lemma {:induction false} MatchingExactly(releases: seq<Release>, version: string, sha: string)
    ensures |Matching(releases, version, sha)| == 1 <==> exists i :: OneMatch(releases, version, sha, i)
    ensures forall i | OneMatch(releases, version, sha, i) :: Matching(releases, version, sha) == [releases[i]]
    ensures Matching(releases, version, sha) == [] <==> forall r <- releases :: !(r.version == version && r.sha == sha)
  {
    if releases != [] {
      var rest := releases[1..];
      assert releases == [releases[0]] + rest;
      MatchingExactly(rest, version, sha);
      if releases[0].version == version && releases[0].sha == sha {
        if Matching(rest, version, sha) == [] { assert OneMatch(releases, version, sha, 0); }
        forall i | OneMatch(releases, version, sha, i) ensures i == 0 && Matching(rest, version, sha) == [] {
          assert i == 0;
          forall r <- rest ensures !(r.version == version && r.sha == sha) {
            var k :| 0 <= k < |rest| && rest[k] == r;
            assert releases[k + 1] == r;
          }
        }
      } else {
        forall i ensures OneMatch(releases, version, sha, i) <==> OneMatch(rest, version, sha, i - 1) {
          if OneMatch(releases, version, sha, i) {
            forall j | 0 <= j < |rest| && j != i - 1 ensures !(rest[j].version == version && rest[j].sha == sha) {
              assert releases[j + 1] == rest[j];
            }
          }
        }
        if i :| OneMatch(rest, version, sha, i) { assert OneMatch(releases, version, sha, i + 1); }
        if i :| OneMatch(releases, version, sha, i) { assert OneMatch(rest, version, sha, i - 1); }
      }
    }
  }

  lemma PublishedExactly(s: Snapshot, o: Observed)
    requires forall i, j | 0 <= i < j < |s.documents| :: s.documents[i].component != s.documents[j].component
    ensures Published(s, o) <==> exists r :: PublishedAs(s, o, r)
    ensures Published(s, o) ==> PublishedAs(s, o, Claim(s, o))
  {
    hide FindDocument, Matching;
    if Published(s, o) {
      var d := FindDocument(s.documents, o.component).value;
      FoundIsThere(s.documents, o.component);
      MatchingExactly(d.releases, o.version, o.sha);
      var i :| OneMatch(d.releases, o.version, o.sha, i);
      assert Claim(s, o) == d.releases[i] && PublishedAs(s, o, d.releases[i]);
    }
    if r :| PublishedAs(s, o, r) {
      var d, i :| d in s.documents && 0 <= i < |d.releases|
                  && d.component == o.component && d.payloadSha == o.publisherSha
                  && d.releases[i] == r && r.version == o.version && r.sha == o.sha
                  && forall j | 0 <= j < |d.releases| && j != i ::
                       !(d.releases[j].version == o.version && d.releases[j].sha == o.sha);
      FindExactly(s.documents, d);
      MatchingExactly(d.releases, o.version, o.sha);
      assert OneMatch(d.releases, o.version, o.sha, i);
    }
  }

  lemma {:induction false} FoundIsThere(documents: seq<Document>, component: string)
    ensures var d := FindDocument(documents, component);
            d.Some? ==> d.value in documents && d.value.component == component
  {
    if documents != [] { FoundIsThere(documents[1..], component); }
  }

  /** The planner gets to its targets if and only if they are well named and registered, no
      component and no normalized distribution is registered twice, every publisher
      document is one registration's under this registry and no component has two, and
      every observation is of a registered component under its own distribution, published
      as exactly one release by the document it was taken from, and no component has two. */
  lemma InputsExactly(rules: Packaging, s: Snapshot, observed: seq<Observed>, targets: Targets)
    ensures ProblemOf(rules, s, observed, targets).Ok? <==>
            && TargetsNamed(targets)
            && (forall i, j | 0 <= i < j < |s.modules| ::
                  s.modules[i].component != s.modules[j].component
                  && rules.canonical(s.modules[i].distribution) != rules.canonical(s.modules[j].distribution))
            && (forall k | k in targets :: exists m <- s.modules :: m.component == k)
            && (forall d <- s.documents ::
                  && d.registrySha == s.registrySha
                  && exists m <- s.modules :: m.component == d.component && m.distribution == d.distribution)
            && (forall i, j | 0 <= i < j < |s.documents| :: s.documents[i].component != s.documents[j].component)
            && (forall o <- observed ::
                  && (exists m <- s.modules :: m.component == o.component
                                               && rules.canonical(m.distribution) == rules.canonical(o.distribution))
                  && exists r :: PublishedAs(s, o, r))
            && forall i, j | 0 <= i < j < |observed| :: observed[i].component != observed[j].component
  {
    hide Published, PublishedAs, DistributionsOf, DocumentsOf, BaselineOf;
    TargetsNamedExactly(targets);
    hide GoodTargets, TargetsNamed;
    forall d ensures SoundDocument(s, d) <==>
                     d.registrySha == s.registrySha
                     && exists m <- s.modules :: m.component == d.component && m.distribution == d.distribution
    {
      DocumentRegistered(s, d);
    }
    if SoundDocuments(s) {
      forall o ensures Published(s, o) <==> exists r :: PublishedAs(s, o, r) { PublishedExactly(s, o); }
    }
    hide SoundDocument;
  }

  lemma DocumentRegistered(s: Snapshot, d: Document)
    ensures Registration(d.component, d.distribution) in s.modules <==>
            exists m <- s.modules :: m.component == d.component && m.distribution == d.distribution
  {
  }

  lemma TargetsNamedExactly(targets: Targets)
    ensures GoodTargets(targets) <==> TargetsNamed(targets)
  {
  }

  /** The external requirements a plan lists are exactly the texts of the applicable
      requirements on distributions the registry does not have. */
  lemma ExternalExactly(p: Problem, c: Composition, text: string)
    ensures text in ForeignOf(p, c) <==>
            exists owner, raw | owner in c && raw in c[owner].requiresDist ::
              var d := p.rules.demand(raw); d.Demand? && d.name !in p.distributions && d.text == text
  {
  }
}
