/** What Core holds, what the assessment sees of it, and the planners that turn it and a
    teacher's choices into one reviewable setup plan.

    Records are given by what comparisons of them look at: creation times, titles and
    reasons are not part of a plan here. Identifiers and years are already validated. */
module ClassroomPlanning {
  import opened Wrappers

  // -------------------------------------------------------------------- Core

  datatype YearState = YearState(year: string, openedAt: nat, closedAt: Option<nat>)
  datatype Metadata = Metadata(id: string, year: string, details: map<string, string>)
  datatype Roster = Roster(classId: string, students: map<string, string>, columns: seq<string>)
  datatype Folder = Folder(metadata: Option<Metadata>, roster: Option<Roster>)
  datatype Pack = Pack(id: string, about: string)
  datatype Calendar = Calendar(year: string, revision: int, periods: seq<string>)

  /** Standards, profiles and frameworks, each under its kind and identifier. */
  type Library = map<string, string>

  /** Everything setup reads: Core's tables, its starter packs, and the rosters that the
      teacher's files hold, a rejected file being absent. */
  datatype State = State(
    root: string, source: string, year: Option<YearState>, folders: map<string, Folder>,
    library: Library, packs: seq<Pack>, starters: map<string, Library>,
    calendars: map<string, Calendar>, revisions: map<string, int>, files: map<string, Roster>)

  datatype Merge = Merge(candidate: Library, conflicts: bool, changed: int)

  /** Core's own functions: the token of a roster or of its absence, the starter merge that
      never overwrites, and the validation of a first calendar. */
  datatype Core = Core(
    token: Option<Roster> -> string,
    merge: (Library, Library) -> Merge,
    validPeriods: (string, seq<string>) -> bool)

  function Lookup<V>(table: map<string, V>, key: string): Option<V> {
    if key in table then Some(table[key]) else None
  }

  // -------------------------------------------------------------- assessment

  datatype Assessment = Assessment(
    root: string, source: string, year: Option<YearState>, folders: map<string, Folder>,
    library: Library, packs: seq<Pack>, calendar: Option<Calendar>, revision: Option<int>)

  /** The open school year. */
  function Active(year: Option<YearState>): Option<string> {
    if year.None? || year.value.closedAt.Some? then None else Some(year.value.year)
  }

  /** The current calendar of a year and its revision pointer agree. */
  predicate SoundCalendar(s: State, year: string) {
    var calendar, revision := Lookup(s.calendars, year), Lookup(s.revisions, year);
    if calendar.None? then revision.None?
    else revision == Some(calendar.value.revision) && calendar.value.year == year
  }

  /** The calendar is read for the open year only, and has to be sound. */
  function Assess(s: State): (a: Option<Assessment>)
    ensures a.Some? ==>
              && a.value.root == s.root && a.value.source == s.source && a.value.year == s.year
              && a.value.folders == s.folders && a.value.library == s.library && a.value.packs == s.packs
  {
    var active := Active(s.year);
    if active.None? then Some(Assessment(s.root, s.source, s.year, s.folders, s.library, s.packs, None, None))
    else if !SoundCalendar(s, active.value) then None
    else
      Some(Assessment(s.root, s.source, s.year, s.folders, s.library, s.packs,
                      Lookup(s.calendars, active.value), Lookup(s.revisions, active.value)))
  }

  // ---------------------------------------------------------------- planners

  datatype Action = Open | Create | Keep | Replace | Install | Skip | Refuse
  datatype Fit = New | Matching | Conflict

  datatype YearPlan = YearPlan(year: string, fit: Fit)
  datatype ClassPlan = ClassPlan(id: string, year: string, fit: Fit, candidate: Metadata)
  datatype RosterPlan = RosterPlan(
    id: string, path: string, action: Action, currentToken: string, candidateToken: string,
    added: nat, changed: nat, removed: nat, kept: nat)
  datatype StandardsPlan = StandardsPlan(pack: string, action: Action, candidate: Library)
  datatype PeriodPlan = PeriodPlan(year: string, action: Action, candidate: Option<Calendar>)

  datatype SetupPlan = SetupPlan(
    year: YearPlan, classes: seq<ClassPlan>, rosters: seq<RosterPlan>,
    standards: Option<StandardsPlan>, periods: Option<PeriodPlan>)

  /** No part of the plan reports a blocking reason. */
  predicate CanApply(p: SetupPlan) {
    && p.year.fit != Conflict
    && (forall c <- p.classes :: c.fit != Conflict) && (forall r <- p.rosters :: r.action != Refuse)
    && (p.standards.Some? ==> p.standards.value.action != Refuse)
    && (p.periods.Some? ==> p.periods.value.action != Refuse)
  }

  function PlanYear(active: Option<string>, requested: string): YearPlan {
    YearPlan(requested, if active.None? then New else if active.value == requested then Matching else Conflict)
  }

  function PlanClass(folders: map<string, Folder>, id: string, year: string): (c: ClassPlan)
    ensures c.id == id && c.year == year
  {
    var candidate := Metadata(id, year, map[]);
    if id !in folders then ClassPlan(id, year, New, candidate)
    else if folders[id].metadata.None? then
      ClassPlan(id, year, if folders[id].roster.Some? then Conflict else New, candidate)
    else
      var found := folders[id].metadata.value;
      if found.id == id && found.year == year then ClassPlan(id, year, Matching, found)
      else ClassPlan(id, year, Conflict, candidate)
  }

  /** Core's comparison of a candidate roster with the one it holds. */
  datatype Preview = Preview(
    id: string, candidateId: string, candidateSize: nat, present: bool, currentToken: string, candidateToken: string,
    added: nat, changed: nat, removed: nat, kept: nat)

  function RosterOf(s: State, id: string): Option<Roster> { if id in s.folders then s.folders[id].roster else None }

  function PreviewOf(core: Core, s: State, id: string, candidate: Roster): Option<Preview> {
    var current := RosterOf(s, id);
    var before: map<string, string> := if current.None? then map[] else current.value.students;
    var after := candidate.students;
    if candidate.classId != id then None
    else
      Some(Preview(
        id, candidate.classId, |after|, current.Some?, core.token(current), core.token(Some(candidate)),
        |set k <- after.Keys | k !in before|,
        |set k <- after.Keys | k in before && before[k] != after[k]|,
        |set k <- before.Keys | k !in after|,
        |set k <- after.Keys | k in before && before[k] == after[k]|))
  }

  function PlanRoster(v: Preview, path: string): Option<RosterPlan> {
    if v.id != v.candidateId || v.currentToken == "" || v.candidateToken == ""
       || v.added + v.changed + v.kept != v.candidateSize then None
    else
      var action := if !v.present then Create
                    else if v.added == 0 && v.changed == 0 && v.removed == 0 then Keep else Replace;
      Some(RosterPlan(v.id, path, action, v.currentToken, v.candidateToken, v.added, v.changed, v.removed, v.kept))
  }

  function PlanRosterImport(core: Core, s: State, id: string, path: string): (r: Option<RosterPlan>)
    ensures r.Some? ==> r.value.id == id && r.value.path == path
  {
    if path !in s.files then None
    else
      var v := PreviewOf(core, s, id, s.files[path]);
      if v.None? then None else PlanRoster(v.value, path)
  }

  function PlanStandards(core: Core, packs: seq<Pack>, library: Library, starters: map<string, Library>, pack: string)
    : (r: Option<StandardsPlan>)
    ensures r.Some? ==> r.value.pack == pack
  {
    if (forall x <- packs :: x.id != pack) || pack !in starters then None
    else
      var m := core.merge(library, starters[pack]);
      if m.changed < 0 then None
      else
        Some(StandardsPlan(pack, if m.conflicts then Refuse else if m.changed == 0 then Keep else Install, m.candidate))
  }

  /** The calendar the assessment has, or a fresh reading for a year it has none for. */
  function PeriodsSeen(a: Assessment, s: State, year: string): (Option<Calendar>, Option<int>) {
    if a.calendar.None? || a.calendar.value.year != year then (Lookup(s.calendars, year), Lookup(s.revisions, year))
    else (a.calendar, a.revision)
  }

  function PlanPeriods(core: Core, seen: (Option<Calendar>, Option<int>), year: string, periods: Option<seq<string>>)
    : (r: Option<PeriodPlan>)
    ensures r.Some? ==> r.value.year == year
  {
    var (existing, revision) := seen;
    if existing.None? then
      if revision.Some? then None
      else if periods.None? then Some(PeriodPlan(year, Skip, None))
      else if !core.validPeriods(year, periods.value) then None
      else Some(PeriodPlan(year, Create, Some(Calendar(year, 1, periods.value))))
    else if revision.None? || existing.value.year != year || existing.value.revision != revision.value then None
    else if periods.Some? then Some(PeriodPlan(year, Refuse, None))
    else Some(PeriodPlan(year, Keep, existing))
  }

  /** A calendar that is there is kept; only otherwise is the teacher asked for periods. */
  function CollectPeriods(core: Core, seen: (Option<Calendar>, Option<int>), year: string, periods: Option<seq<string>>)
    : (r: Option<PeriodPlan>)
    ensures r.Some? ==> r.value.year == year
  {
    var baseline := PlanPeriods(core, seen, year, None);
    if baseline.None? || baseline.value.action == Keep || periods.None? then baseline
    else PlanPeriods(core, seen, year, periods)
  }

  predicate DistinctIds(ids: seq<string>) { forall i, j | 0 <= i < j < |ids| :: ids[i] != ids[j] }

  function ClassIds(classes: seq<ClassPlan>): seq<string> {
    seq(|classes|, i requires 0 <= i < |classes| => classes[i].id)
  }

  function RosterIds(rosters: seq<RosterPlan>): seq<string> {
    seq(|rosters|, i requires 0 <= i < |rosters| => rosters[i].id)
  }

  predicate WellWired(p: SetupPlan) {
    && DistinctIds(ClassIds(p.classes)) && DistinctIds(RosterIds(p.rosters))
    && (forall c <- p.classes :: c.year == p.year.year) && (forall r <- p.rosters :: r.id in ClassIds(p.classes))
    && (p.periods.Some? ==> p.periods.value.year == p.year.year)
  }

  function Assemble(p: SetupPlan): Option<SetupPlan> { if WellWired(p) then Some(p) else None }

  // ----------------------------------------------------------- a whole plan

  /** What the teacher chose: the year, classes with their years, classes with roster files,
      a starter pack, and an Academic Period year with the periods to start it with. */
  datatype Choices = Choices(
    year: string, classes: seq<(string, string)>, rosters: seq<(string, string)>,
    pack: Option<string>, periods: Option<(string, Option<seq<string>>)>)

  function PlanRosters(core: Core, s: State, picks: seq<(string, string)>): Option<seq<RosterPlan>> {
    if forall pick <- picks :: PlanRosterImport(core, s, pick.0, pick.1).Some? then
      Some(seq(|picks|, i requires 0 <= i < |picks| => PlanRosterImport(core, s, picks[i].0, picks[i].1).value))
    else None
  }

  function PlanClasses(folders: map<string, Folder>, picks: seq<(string, string)>): seq<ClassPlan> {
    seq(|picks|, i requires 0 <= i < |picks| => PlanClass(folders, picks[i].0, picks[i].1))
  }

  /** The plan these choices lead to, unless some planner or the assessment refuses. */
  function PlanSetup(core: Core, s: State, q: Choices): Option<SetupPlan> {
    var a := Assess(s);
    if a.None? then None
    else
      var rosters := PlanRosters(core, s, q.rosters);
      var standards := if q.pack.None? then None
                       else PlanStandards(core, a.value.packs, a.value.library, s.starters, q.pack.value);
      var periods := if q.periods.None? then None
                     else
                       var (year, values) := q.periods.value;
                       CollectPeriods(core, PeriodsSeen(a.value, s, year), year, values);
      if rosters.None? || (q.pack.Some? && standards.None?) || (q.periods.Some? && periods.None?) then None
      else
        Assemble(SetupPlan(PlanYear(Active(a.value.year), q.year), PlanClasses(a.value.folders, q.classes),
                           rosters.value, standards, periods))
  }

  // ------------------------------------------------------------------- steps

  /** One part of a plan, in the order parts are applied. */
  datatype Step = OfYear(year: YearPlan)
                | OfClass(class_: ClassPlan)
                | OfRoster(roster: RosterPlan)
                | OfStandards(standards: StandardsPlan)
                | OfPeriods(periods: PeriodPlan)

  function ClassSteps(classes: seq<ClassPlan>): seq<Step> {
    seq(|classes|, i requires 0 <= i < |classes| => OfClass(classes[i]))
  }

  function RosterSteps(rosters: seq<RosterPlan>): seq<Step> {
    seq(|rosters|, i requires 0 <= i < |rosters| => OfRoster(rosters[i]))
  }

  function Steps(p: SetupPlan): seq<Step> {
    [OfYear(p.year)] + ClassSteps(p.classes) + RosterSteps(p.rosters)
    + (if p.standards.Some? then [OfStandards(p.standards.value)] else [])
    + (if p.periods.Some? then [OfPeriods(p.periods.value)] else [])
  }

  /** Planning this part again in this state gives this very part. */
  predicate Fits(core: Core, q: Choices, s: State, x: Step) {
    match x
    case OfYear(y) => PlanYear(Active(s.year), y.year) == y
    case OfClass(c) => PlanClass(s.folders, c.id, c.year) == c
    case OfRoster(r) => PlanRosterImport(core, s, r.id, r.path) == Some(r)
    case OfStandards(st) => PlanStandards(core, s.packs, s.library, s.starters, st.pack) == Some(st)
    case OfPeriods(p) =>
      q.periods.Some? && CollectPeriods(core, CalendarOf(s, p.year), p.year, q.periods.value.1) == Some(p)
  }

  function CalendarOf(s: State, year: string): (Option<Calendar>, Option<int>) {
    (Lookup(s.calendars, year), Lookup(s.revisions, year))
  }

  /** The plan is for these choices, and its parts go together. */
  predicate PlanFor(q: Choices, p: SetupPlan) {
    && WellWired(p) && p.year.year == q.year
    && |p.classes| == |q.classes| && |p.rosters| == |q.rosters|
    && (forall i | 0 <= i < |q.classes| :: (p.classes[i].id, p.classes[i].year) == q.classes[i])
    && (forall i | 0 <= i < |q.rosters| :: (p.rosters[i].id, p.rosters[i].path) == q.rosters[i])
    && (p.standards.Some? <==> q.pack.Some?) && (q.pack.Some? ==> p.standards.value.pack == q.pack.value)
    && (p.periods.Some? <==> q.periods.Some?) && (q.periods.Some? ==> p.periods.value.year == q.periods.value.0)
  }

  /** What the assessment shows of a calendar is what a fresh reading shows. */
  lemma SeenIsCurrent(s: State, year: string)
    requires Assess(s).Some?
    ensures PeriodsSeen(Assess(s).value, s, year) == CalendarOf(s, year)
  {
  }

  ghost predicate AllFit(core: Core, q: Choices, s: State, p: SetupPlan) {
    forall x <- Steps(p) :: Fits(core, q, s, x)
  }

  /** The steps of a plan are its parts. */
  lemma StepsAre(p: SetupPlan, x: Step)
    ensures x in Steps(p) <==>
            match x
            case OfYear(y) => y == p.year
            case OfClass(c) => c in p.classes
            case OfRoster(r) => r in p.rosters
            case OfStandards(st) => p.standards == Some(st)
            case OfPeriods(pp) => p.periods == Some(pp)
  {
    assert x in ClassSteps(p.classes) <==> x.OfClass? && x.class_ in p.classes by {
      if x.OfClass? && x.class_ in p.classes {
        var i :| 0 <= i < |p.classes| && p.classes[i] == x.class_;
        assert ClassSteps(p.classes)[i] == x;
      }
    }
    assert x in RosterSteps(p.rosters) <==> x.OfRoster? && x.roster in p.rosters by {
      if x.OfRoster? && x.roster in p.rosters {
        var i :| 0 <= i < |p.rosters| && p.rosters[i] == x.roster;
        assert RosterSteps(p.rosters)[i] == x;
      }
    }
  }

  ghost predicate PartsFit(core: Core, q: Choices, s: State, p: SetupPlan) {
    && Fits(core, q, s, OfYear(p.year))
    && (forall c <- p.classes :: Fits(core, q, s, OfClass(c)))
    && (forall r <- p.rosters :: Fits(core, q, s, OfRoster(r)))
    && (p.standards.Some? ==> Fits(core, q, s, OfStandards(p.standards.value)))
    && (p.periods.Some? ==> Fits(core, q, s, OfPeriods(p.periods.value)))
  }

  lemma AllFitByParts(core: Core, q: Choices, s: State, p: SetupPlan)
    ensures AllFit(core, q, s, p) <==> PartsFit(core, q, s, p)
  {
    hide Fits, Steps;
    forall x ensures x in Steps(p) && PartsFit(core, q, s, p) ==> Fits(core, q, s, x) { StepsAre(p, x); }
    if AllFit(core, q, s, p) {
      StepsAre(p, OfYear(p.year));
      forall c <- p.classes ensures Fits(core, q, s, OfClass(c)) { StepsAre(p, OfClass(c)); }
      forall r <- p.rosters ensures Fits(core, q, s, OfRoster(r)) { StepsAre(p, OfRoster(r)); }
      if p.standards.Some? { StepsAre(p, OfStandards(p.standards.value)); }
      if p.periods.Some? { StepsAre(p, OfPeriods(p.periods.value)); }
    }
  }

  lemma RostersFit(core: Core, s: State, picks: seq<(string, string)>, rosters: seq<RosterPlan>)
    ensures PlanRosters(core, s, picks) == Some(rosters) <==>
            |rosters| == |picks|
            && forall i | 0 <= i < |picks| :: PlanRosterImport(core, s, picks[i].0, picks[i].1) == Some(rosters[i])
  {
    hide PlanRosterImport;
    if |rosters| == |picks|
       && forall i | 0 <= i < |picks| :: PlanRosterImport(core, s, picks[i].0, picks[i].1) == Some(rosters[i])
    {
      assert PlanRosters(core, s, picks).value == rosters;
    }
  }

  lemma ClassesFit(folders: map<string, Folder>, picks: seq<(string, string)>, classes: seq<ClassPlan>)
    ensures PlanClasses(folders, picks) == classes <==>
            |classes| == |picks|
            && forall i | 0 <= i < |picks| :: PlanClass(folders, picks[i].0, picks[i].1) == classes[i]
  {
    hide PlanClass;
    if |classes| == |picks| && forall i | 0 <= i < |picks| :: PlanClass(folders, picks[i].0, picks[i].1) == classes[i] {
      assert PlanClasses(folders, picks) == classes;
    }
  }

  /** The parts as the planners give them. */
  ghost predicate Planned(core: Core, s: State, q: Choices, p: SetupPlan) {
    && p.year == PlanYear(Active(s.year), q.year)
    && PlanClasses(s.folders, q.classes) == p.classes && PlanRosters(core, s, q.rosters) == Some(p.rosters)
    && (if q.pack.None? then p.standards.None?
        else p.standards.Some? && PlanStandards(core, s.packs, s.library, s.starters, q.pack.value) == p.standards)
    && (if q.periods.None? then p.periods.None?
        else p.periods.Some?
             && CollectPeriods(core, CalendarOf(s, q.periods.value.0), q.periods.value.0, q.periods.value.1)
                 == p.periods)
  }

  lemma SetupPlanned(core: Core, s: State, q: Choices, p: SetupPlan)
    requires Assess(s).Some?
    ensures PlanSetup(core, s, q) == Some(p) <==> WellWired(p) && Planned(core, s, q, p)
  {
    hide PlanYear, PlanStandards, CollectPeriods, PeriodsSeen, WellWired, PlanRosters, PlanClasses, CalendarOf, Active;
    if q.periods.Some? { SeenIsCurrent(s, q.periods.value.0); }
  }

  /** A whole plan is planned exactly when it is for these choices, its parts go together,
      and every planner by itself gives its part. */
  lemma PlannedExactly(core: Core, s: State, q: Choices, p: SetupPlan)
    requires Assess(s).Some?
    ensures PlanSetup(core, s, q) == Some(p) <==> PlanFor(q, p) && AllFit(core, q, s, p)
  {
    hide AllFit, PlanClass, PlanRosterImport, PlanStandards, CollectPeriods, WellWired, PlanRosters, PlanClasses;
    hide CalendarOf, Active, PlanSetup, Assess;
    SetupPlanned(core, s, q, p);
    AllFitByParts(core, q, s, p);
    RostersFit(core, s, q.rosters, p.rosters);
    ClassesFit(s.folders, q.classes, p.classes);
    if PlanFor(q, p) && PartsFit(core, q, s, p) {
      forall i | 0 <= i < |q.classes| ensures PlanClass(s.folders, q.classes[i].0, q.classes[i].1) == p.classes[i] {
        assert Fits(core, q, s, OfClass(p.classes[i]));
      }
      forall i | 0 <= i < |q.rosters|
        ensures PlanRosterImport(core, s, q.rosters[i].0, q.rosters[i].1) == Some(p.rosters[i])
      {
        assert Fits(core, q, s, OfRoster(p.rosters[i]));
      }
    }
  }
}
