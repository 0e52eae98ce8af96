/** The fresh look at Core between review and the first write, compared with planning
    everything again. */
module ClassroomPreflight {
  import opened Wrappers
  import opened ClassroomPlanning

  /** What is compared of an assessment: of a class only its metadata, not its roster. */
  datatype Material = Material(
    root: string, source: string, year: Option<YearState>, metadata: map<string, Option<Metadata>>,
    library: Library, packs: seq<Pack>, calendar: Option<Calendar>, revision: Option<int>)

  function MaterialOf(a: Assessment): Material {
    Material(a.root, a.source, a.year, map id <- a.folders :: a.folders[id].metadata,
             a.library, a.packs, a.calendar, a.revision)
  }

  /** The file and Core's roster still have the tokens that were reviewed. */
  predicate RosterUnmoved(core: Core, s: State, r: RosterPlan) {
    && r.currentToken != "" && r.candidateToken != "" && r.path in s.files
    && var v := PreviewOf(core, s, r.id, s.files[r.path]);
       v.Some? && v.value.candidateToken == r.candidateToken && v.value.currentToken == r.currentToken
  }

  predicate StandardsUnmoved(core: Core, a: Assessment, s: State, st: StandardsPlan) {
    var now := PlanStandards(core, a.packs, a.library, s.starters, st.pack);
    now.Some? && now.value.action == st.action && now.value.candidate == st.candidate
  }

  predicate PeriodsUnmoved(s: State, p: PeriodPlan) {
    var (calendar, revision) := CalendarOf(s, p.year);
    match p.action
    case Create => calendar.None? && revision.None?
    case Skip => calendar.None? && revision.None?
    case Keep => p.candidate.Some? && revision == Some(p.candidate.value.revision) && calendar == p.candidate
    case _ => true
  }

  /** Everything checked before the first write is permitted. */
  predicate Preflight(core: Core, reviewed: Assessment, p: SetupPlan, s: State) {
    var a := Assess(s);
    && CanApply(p) && a.Some? && a.value.root == reviewed.root && MaterialOf(a.value) == MaterialOf(reviewed)
    && (forall r <- p.rosters :: RosterUnmoved(core, s, r))
    && (p.standards.Some? ==> StandardsUnmoved(core, a.value, s, p.standards.value))
    && (p.periods.Some? ==> PeriodsUnmoved(s, p.periods.value))
  }

  /** Tokens tell rosters, and the absence of one, apart. */
  ghost predicate Telling(core: Core) {
    forall x, y :: core.token(x) == core.token(y) ==> x == y
  }

  /** No class that is to be created has a roster by now. */
  predicate NoRosterAppeared(p: SetupPlan, s: State) {
    forall c <- p.classes :: c.fit == New ==> RosterOf(s, c.id).None?
  }

  predicate SameMaterial(s: State, t: State) {
    Assess(s).Some? && Assess(t).Some? && MaterialOf(Assess(s).value) == MaterialOf(Assess(t).value)
  }

  lemma SameFolders(s: State, t: State)
    requires SameMaterial(s, t)
    ensures s.root == t.root && s.year == t.year && s.library == t.library && s.packs == t.packs
            && s.folders.Keys == t.folders.Keys
    ensures forall id <- s.folders :: s.folders[id].metadata == t.folders[id].metadata
  {
    hide Assess;
    var m, n := MaterialOf(Assess(s).value), MaterialOf(Assess(t).value);
    assert m.metadata.Keys == s.folders.Keys && n.metadata.Keys == t.folders.Keys;
    forall id <- s.folders ensures s.folders[id].metadata == t.folders[id].metadata {
      assert m.metadata[id] == n.metadata[id];
    }
  }

  lemma ClassRefits(core: Core, q: Choices, s: State, t: State, c: ClassPlan)
    requires SameMaterial(s, t) && Fits(core, q, s, OfClass(c)) && c.fit != Conflict
    ensures Fits(core, q, t, OfClass(c)) <==> (c.fit == New ==> RosterOf(t, c.id).None?)
  {
    SameFolders(s, t);
  }

  /** With tokens that tell rosters apart, the same tokens mean the same whole comparison. */
  lemma RosterRefits(core: Core, q: Choices, s: State, t: State, r: RosterPlan)
    requires Telling(core) && Fits(core, q, s, OfRoster(r))
    ensures Fits(core, q, t, OfRoster(r)) <==> RosterUnmoved(core, t, r)
  {
    if RosterUnmoved(core, t, r) {
      assert core.token(Some(t.files[r.path])) == core.token(Some(s.files[r.path]));
      assert core.token(RosterOf(t, r.id)) == core.token(RosterOf(s, r.id));
    }
  }

  lemma PeriodsRefit(core: Core, q: Choices, s: State, t: State, p: PeriodPlan)
    requires Fits(core, q, s, OfPeriods(p)) && p.action != Refuse
    ensures Fits(core, q, t, OfPeriods(p)) <==> PeriodsUnmoved(t, p)
  {
  }

  /** The preflight, and no roster in a class to be created, is exactly: nothing that is
      compared has changed, and planning everything again gives the reviewed plan. */
  lemma PreflightExactly(core: Core, q: Choices, p: SetupPlan, s: State, t: State)
    requires Telling(core) && PlanSetup(core, s, q) == Some(p) && CanApply(p)
    ensures Preflight(core, Assess(s).value, p, t) && NoRosterAppeared(p, t) <==>
            SameMaterial(s, t) && PlanSetup(core, t, q) == Some(p)
  {
    hide PlanFor, PlanSetup, Assess, MaterialOf, RosterUnmoved, PeriodsUnmoved, Fits, RosterOf, Telling;
    assert Assess(s).Some? by { PlannedAssesses(core, s, q); }
    PlannedExactly(core, s, q, p);
    AllFitByParts(core, q, s, p);
    AllFitByParts(core, q, t, p);
    hide AllFit;
    if SameMaterial(s, t) {
      PlannedExactly(core, t, q, p);
      SameFolders(s, t);
      YearRefits(core, q, s, t, p.year);
      forall c <- p.classes ensures Fits(core, q, t, OfClass(c)) <==> (c.fit == New ==> RosterOf(t, c.id).None?) {
        ClassRefits(core, q, s, t, c);
      }
      forall r <- p.rosters ensures Fits(core, q, t, OfRoster(r)) <==> RosterUnmoved(core, t, r) {
        RosterRefits(core, q, s, t, r);
      }
      if p.standards.Some? { StandardsRefit(core, q, s, t, p.standards.value); }
      if p.periods.Some? { PeriodsRefit(core, q, s, t, p.periods.value); }
    }
  }

  lemma PlannedAssesses(core: Core, s: State, q: Choices)
    requires PlanSetup(core, s, q).Some?
    ensures Assess(s).Some?
  {
  }

  lemma YearRefits(core: Core, q: Choices, s: State, t: State, y: YearPlan)
    requires SameMaterial(s, t)
    ensures Fits(core, q, t, OfYear(y)) <==> Fits(core, q, s, OfYear(y))
  {
    SameFolders(s, t);
  }

  lemma StandardsRefit(core: Core, q: Choices, s: State, t: State, st: StandardsPlan)
    requires SameMaterial(s, t) && Fits(core, q, s, OfStandards(st))
    ensures Fits(core, q, t, OfStandards(st)) <==> StandardsUnmoved(core, Assess(t).value, t, st)
  {
    hide MaterialOf;
    SameFolders(s, t);
    hide Assess;
  }

  // ------------------------------------------------------ where the two differ

  const SCHOOL_YEAR := "2026-2027"

  /** An open year and one class folder. */
  function Opened(folders: map<string, Folder>): State {
    State("/w", "explicit", Some(YearState(SCHOOL_YEAR, 0, None)), folders, map[], [], map[], map[], map[], map[])
  }

  function OneClass(): Choices { Choices(SCHOOL_YEAR, [("eng10", SCHOOL_YEAR)], [], None, None) }

  /** A roster that appears in a class folder without metadata goes unnoticed: the preflight
      passes, and the class is created around a roster planning would have refused. */
  lemma AppearedRosterPasses(core: Core, roster: Roster)
    ensures var s, t := Opened(map["eng10" := Folder(None, None)]), Opened(map["eng10" := Folder(None, Some(roster))]);
            var p, again := PlanSetup(core, s, OneClass()), PlanSetup(core, t, OneClass());
            && p.Some? && CanApply(p.value) && Preflight(core, Assess(s).value, p.value, t)
            && again.Some? && again.value.classes[0].fit == Conflict && !CanApply(again.value)
  {
    var s, t := Opened(map["eng10" := Folder(None, None)]), Opened(map["eng10" := Folder(None, Some(roster))]);
    assert PlanSetup(core, s, OneClass()).Some?;
    assert PlanSetup(core, t, OneClass()).Some?;
    var c := PlanSetup(core, t, OneClass()).value.classes[0];
    assert c in PlanSetup(core, t, OneClass()).value.classes;
  }

  /** A class the plan does not mention stops it, although planning again changes nothing. */
  lemma UnrelatedClassRefused(core: Core)
    ensures var s, t := Opened(map[]), Opened(map["math9" := Folder(None, None)]);
            var p := PlanSetup(core, s, OneClass());
            && p.Some? && CanApply(p.value) && PlanSetup(core, t, OneClass()) == p
            && !Preflight(core, Assess(s).value, p.value, t)
  {
    var s, t := Opened(map[]), Opened(map["math9" := Folder(None, None)]);
    assert "math9" in MaterialOf(Assess(t).value).metadata && "math9" !in MaterialOf(Assess(s).value).metadata;
    assert PlanSetup(core, s, OneClass()).Some?;
    assert PlanClasses(t.folders, OneClass().classes) == PlanClasses(s.folders, OneClass().classes);
    RostersFit(core, s, [], []);
    RostersFit(core, t, [], []);
  }
}
