/** What each part of a setup plan is, and when there is a plan at all, in terms of Core's
    tables and the teacher's choices. */
module ClassroomLaws {
  import opened Wrappers
  import opened ClassroomPlanning

  // -------------------------------------------------------------------- years

  predicate YearOpen(s: State, year: string) {
    s.year.Some? && s.year.value.closedAt.None? && s.year.value.year == year
  }

  predicate NoYearOpen(s: State) { s.year.Some? ==> s.year.value.closedAt.Some? }

  /** A year is new while none is open, matches when it is the open one, and conflicts with
      any other that is open. */
  predicate YearRight(s: State, requested: string, y: YearPlan) {
    && y.year == requested
    && (y.fit == New <==> NoYearOpen(s)) && (y.fit == Matching <==> YearOpen(s, requested))
  }

  lemma YearExactly(s: State, requested: string, y: YearPlan)
    ensures PlanYear(Active(s.year), requested) == y <==> YearRight(s, requested, y)
  {
  }

  // ------------------------------------------------------------------ classes

  function MetadataHeld(s: State, id: string): Option<Metadata> {
    if id in s.folders then s.folders[id].metadata else None
  }

  function RosterHeld(s: State, id: string): Option<Roster> {
    if id in s.folders then s.folders[id].roster else None
  }

  /** A class is new when Core holds nothing of it, matches when its record is for the same
      class and year, and conflicts with anything else, an orphaned roster included. */
  predicate ClassRight(s: State, id: string, year: string, c: ClassPlan) {
    && c.id == id && c.year == year
    && (c.fit == New <==> MetadataHeld(s, id).None? && RosterHeld(s, id).None?)
    && (c.fit == Matching <==>
          && MetadataHeld(s, id).Some?
          && MetadataHeld(s, id).value.id == id && MetadataHeld(s, id).value.year == year)
    && c.candidate == if c.fit == Matching then MetadataHeld(s, id).value else Metadata(id, year, map[])
  }

  lemma ClassExactly(s: State, id: string, year: string, c: ClassPlan)
    ensures PlanClass(s.folders, id, year) == c <==> ClassRight(s, id, year, c)
  {
  }

  // ------------------------------------------------------------------ rosters

  /** The students a roster lists, none when there is no roster. */
  function Students(roster: Option<Roster>): map<string, string> {
    if roster.None? then map[] else roster.value.students
  }

  /** The file and Core's roster by the token each has, neither of them blank. */
  predicate TokensAre(core: Core, s: State, id: string, path: string, current: string, candidate: string) {
    && path in s.files && s.files[path].classId == id && current != "" && candidate != ""
    && core.token(RosterHeld(s, id)) == current && core.token(Some(s.files[path])) == candidate
  }

  /** A first roster is created, one with the same students is kept, and any other replaced;
      the counts split both lists of students. */
  ghost predicate RosterRight(core: Core, s: State, id: string, path: string, r: RosterPlan) {
    && r.id == id && r.path == path && TokensAre(core, s, id, path, r.currentToken, r.candidateToken)
    && var before, after := Students(RosterHeld(s, id)), s.files[path].students;
    && (r.action == Create <==> RosterHeld(s, id).None?)
    && (r.action == Keep <==> RosterHeld(s, id).Some? && before == after)
    && (r.action == Replace <==> RosterHeld(s, id).Some? && before != after)
    && r.added == |after.Keys - before.Keys| && r.removed == |before.Keys - after.Keys|
    && r.changed == |Changed(before, after)|
    && r.changed + r.kept == |after.Keys * before.Keys|
  }

  // The four parts of a comparison of two lists of students.

  type Listed = map<string, string>

  function Added(before: Listed, after: Listed): set<string> { set k <- after.Keys | k !in before }
  function Removed(before: Listed, after: Listed): set<string> { set k <- before.Keys | k !in after }
  function Changed(before: Listed, after: Listed): set<string> {
    set k <- after.Keys | k in before && before[k] != after[k]
  }
  function Kept(before: Listed, after: Listed): set<string> {
    set k <- after.Keys | k in before && before[k] == after[k]
  }

  lemma SplitsInTwo(a: set<string>, b: set<string>, whole: set<string>)
    requires a * b == {} && a + b == whole
    ensures |a| + |b| == |whole|
  {
  }

  lemma PartsOfListed(before: Listed, after: Listed)
    ensures Added(before, after) == after.Keys - before.Keys && Removed(before, after) == before.Keys - after.Keys
    ensures Changed(before, after) + Kept(before, after) == after.Keys * before.Keys
    ensures Changed(before, after) * Kept(before, after) == {}
  {
  }

  lemma CountsSplit(before: Listed, after: Listed)
    ensures |Changed(before, after)| + |Kept(before, after)| == |after.Keys * before.Keys|
    ensures |Added(before, after)| + |Changed(before, after)| + |Kept(before, after)| == |after.Keys|
  {
    hide Added, Removed, Changed, Kept;
    PartsOfListed(before, after);
    var both := after.Keys * before.Keys;
    SplitsInTwo(Changed(before, after), Kept(before, after), both);
    SplitsInTwo(after.Keys - before.Keys, both, after.Keys);
  }

  lemma NothingDiffers(before: Listed, after: Listed)
    ensures Added(before, after) == {} && Changed(before, after) == {} && Removed(before, after) == {}
            <==> before == after
  {
    if Added(before, after) == {} && Changed(before, after) == {} && Removed(before, after) == {} {
      forall k ensures k in before <==> k in after {
        assert k !in Added(before, after) && k !in Removed(before, after);
      }
      forall k <- after ensures before[k] == after[k] { assert k !in Changed(before, after); }
      assert before.Keys == after.Keys;
    }
  }

  /** Core's comparison, on the students. */
  lemma PreviewExactly(core: Core, s: State, id: string, candidate: Roster)
    requires candidate.classId == id
    ensures var before, after := Students(RosterHeld(s, id)), candidate.students;
            PreviewOf(core, s, id, candidate) == Some(Preview(
              id, id, |after|, RosterHeld(s, id).Some?, core.token(RosterHeld(s, id)), core.token(Some(candidate)),
              |Added(before, after)|, |Changed(before, after)|, |Removed(before, after)|, |Kept(before, after)|))
  {
  }

  lemma RosterExactly(core: Core, s: State, id: string, path: string, r: RosterPlan)
    ensures PlanRosterImport(core, s, id, path) == Some(r) <==> RosterRight(core, s, id, path, r)
  {
    hide PreviewOf, Added, Removed, Changed, Kept, RosterHeld, Students;
    if path in s.files {
      if s.files[path].classId == id {
        var before, after := Students(RosterHeld(s, id)), s.files[path].students;
        PreviewExactly(core, s, id, s.files[path]);
        PartsOfListed(before, after);
        CountsSplit(before, after);
        NothingDiffers(before, after);
        assert |after| == |after.Keys|;
        NothingCounted(Added(before, after), Changed(before, after), Removed(before, after));
      } else {
        PreviewRefused(core, s, id, s.files[path]);
      }
    }
  }

  lemma NothingCounted(a: set<string>, b: set<string>, c: set<string>)
    ensures |a| == 0 && |b| == 0 && |c| == 0 <==> a == {} && b == {} && c == {}
  {
  }

  lemma PreviewRefused(core: Core, s: State, id: string, candidate: Roster)
    requires candidate.classId != id
    ensures PreviewOf(core, s, id, candidate).None?
  {
  }

  // ---------------------------------------------------------------- standards

  /** A known pack that merges is refused for a conflict, kept when it adds nothing and
      installed otherwise. */
  predicate StandardsRight(core: Core, s: State, pack: string, st: StandardsPlan) {
    && st.pack == pack && (exists x <- s.packs :: x.id == pack) && pack in s.starters
    && var m := core.merge(s.library, s.starters[pack]);
    && m.changed >= 0 && st.candidate == m.candidate
    && (st.action == Refuse <==> m.conflicts) && (st.action == Keep <==> !m.conflicts && m.changed == 0)
    && (st.action == Install <==> !m.conflicts && m.changed > 0)
  }

  lemma StandardsExactly(core: Core, s: State, pack: string, st: StandardsPlan)
    ensures PlanStandards(core, s.packs, s.library, s.starters, pack) == Some(st) <==>
            StandardsRight(core, s, pack, st)
  {
  }

  // ------------------------------------------------------------------ periods

  /** The year has no calendar and no revision, or a calendar of its own at its revision. */
  predicate CalendarAgrees(s: State, year: string) {
    if year in s.calendars then
      year in s.revisions && s.revisions[year] == s.calendars[year].revision && s.calendars[year].year == year
    else year !in s.revisions
  }

  /** A calendar that is there is kept whatever was asked for; a first one is created from
      valid periods, and without periods there is nothing to do. */
  predicate PeriodsRight(core: Core, s: State, year: string, periods: Option<seq<string>>, p: PeriodPlan) {
    && p.year == year && CalendarAgrees(s, year)
    && (p.action == Keep <==> year in s.calendars)
    && (p.action == Skip <==> year !in s.calendars && periods.None?)
    && (p.action == Create <==> year !in s.calendars && periods.Some?)
    && (year in s.calendars ==> p.candidate == Some(s.calendars[year]))
    && (year !in s.calendars && periods.None? ==> p.candidate.None?)
    && (year !in s.calendars && periods.Some? ==>
          core.validPeriods(year, periods.value) && p.candidate == Some(Calendar(year, 1, periods.value)))
  }

  lemma PeriodsExactly(core: Core, s: State, year: string, periods: Option<seq<string>>, p: PeriodPlan)
    ensures CollectPeriods(core, CalendarOf(s, year), year, periods) == Some(p) <==>
            PeriodsRight(core, s, year, periods, p)
  {
  }

  // --------------------------------------------------------------- whole plans

  predicate Apart(picks: seq<(string, string)>) { forall i, j | 0 <= i < j < |picks| :: picks[i].0 != picks[j].0 }

  predicate InYear(q: Choices) { forall i | 0 <= i < |q.classes| :: q.classes[i].1 == q.year }

  predicate ClassChosen(q: Choices, id: string) { exists j :: 0 <= j < |q.classes| && q.classes[j].0 == id }

  /** The parts are the chosen ones in the chosen order, no class and no roster twice, each
      class in the plan's year and each roster, and the calendar, of the plan. */
  predicate Together(q: Choices, p: SetupPlan) {
    && |p.classes| == |q.classes| && |p.rosters| == |q.rosters|
    && (p.standards.Some? <==> q.pack.Some?) && (p.periods.Some? <==> q.periods.Some?)
    && Apart(q.classes) && Apart(q.rosters)
    && InYear(q) && (forall i | 0 <= i < |q.rosters| :: ClassChosen(q, q.rosters[i].0))
    && (q.periods.Some? ==> q.periods.value.0 == q.year)
  }

  /** The calendar of the open year, if one is open, has to agree. */
  predicate OpenCalendarAgrees(s: State) {
    s.year.Some? && s.year.value.closedAt.None? ==> CalendarAgrees(s, s.year.value.year)
  }

  ghost predicate PartsRight(core: Core, s: State, q: Choices, p: SetupPlan) {
    && YearRight(s, q.year, p.year)
    && |p.classes| == |q.classes| && |p.rosters| == |q.rosters|
    && (forall i | 0 <= i < |q.classes| :: ClassRight(s, q.classes[i].0, q.classes[i].1, p.classes[i]))
    && (forall i | 0 <= i < |q.rosters| :: RosterRight(core, s, q.rosters[i].0, q.rosters[i].1, p.rosters[i]))
    && (q.pack.Some? && p.standards.Some? ==> StandardsRight(core, s, q.pack.value, p.standards.value))
    && (q.periods.Some? && p.periods.Some? ==>
          PeriodsRight(core, s, q.periods.value.0, q.periods.value.1, p.periods.value))
  }

  /** A plan is made exactly when the open year's calendar agrees, the choices go together
      and every part is right. */
  lemma SetupExactly(core: Core, s: State, q: Choices, p: SetupPlan)
    ensures PlanSetup(core, s, q) == Some(p) <==>
            OpenCalendarAgrees(s) && Together(q, p) && PartsRight(core, s, q, p)
  {
    hide PlanSetup, PartsRight, Planned, WellWired, Together;
    ChosenParts(q, p);
    AssessedExactly(s);
    if Assess(s).Some? {
      hide Assess, OpenCalendarAgrees;
      SetupPlanned(core, s, q, p);
      PlannedRight(core, s, q, p);
      if Planned(core, s, q, p) { WiredTogether(core, s, q, p); }
    } else {
      UnassessedUnplanned(core, s, q);
    }
  }

  lemma ChosenParts(q: Choices, p: SetupPlan)
    ensures Together(q, p) ==> (p.standards.Some? <==> q.pack.Some?) && (p.periods.Some? <==> q.periods.Some?)
  {
  }

  lemma UnassessedUnplanned(core: Core, s: State, q: Choices)
    requires Assess(s).None?
    ensures PlanSetup(core, s, q).None?
  {
  }

  lemma AssessedExactly(s: State)
    ensures Assess(s).Some? <==> OpenCalendarAgrees(s)
  {
  }

  lemma PlannedRight(core: Core, s: State, q: Choices, p: SetupPlan)
    ensures Planned(core, s, q, p) <==>
            && (p.standards.Some? <==> q.pack.Some?) && (p.periods.Some? <==> q.periods.Some?)
            && PartsRight(core, s, q, p)
  {
    hide PlanYear, Active, PlanClasses, PlanClass, PlanRosters, PlanRosterImport, PlanStandards, CollectPeriods,
         YearRight, ClassRight, RosterRight, StandardsRight, PeriodsRight, CalendarOf;
    YearExactly(s, q.year, p.year);
    ClassesFit(s.folders, q.classes, p.classes);
    RostersFit(core, s, q.rosters, p.rosters);
    if |p.classes| == |q.classes| {
      forall i | 0 <= i < |q.classes|
        ensures PlanClass(s.folders, q.classes[i].0, q.classes[i].1) == p.classes[i]
                <==> ClassRight(s, q.classes[i].0, q.classes[i].1, p.classes[i])
      {
        ClassExactly(s, q.classes[i].0, q.classes[i].1, p.classes[i]);
      }
    }
    if |p.rosters| == |q.rosters| {
      forall i | 0 <= i < |q.rosters|
        ensures PlanRosterImport(core, s, q.rosters[i].0, q.rosters[i].1) == Some(p.rosters[i])
                <==> RosterRight(core, s, q.rosters[i].0, q.rosters[i].1, p.rosters[i])
      {
        RosterExactly(core, s, q.rosters[i].0, q.rosters[i].1, p.rosters[i]);
      }
    }
    if q.pack.Some? && p.standards.Some? { StandardsExactly(core, s, q.pack.value, p.standards.value); }
    if q.periods.Some? && p.periods.Some? {
      PeriodsExactly(core, s, q.periods.value.0, q.periods.value.1, p.periods.value);
    }
  }

  lemma WiredTogether(core: Core, s: State, q: Choices, p: SetupPlan)
    requires Planned(core, s, q, p)
    ensures WellWired(p) <==> Together(q, p)
  {
    hide Planned;
    PartNames(core, s, q, p);
    hide WellWired, Together;
    IdsAgree(q, p);
    YearsAgree(q, p);
    RostersHaveClasses(q, p);
    WiredParts(q, p);
  }

  predicate Named(q: Choices, p: SetupPlan) {
    && p.year.year == q.year && |p.classes| == |q.classes| && |p.rosters| == |q.rosters|
    && (forall i | 0 <= i < |q.classes| :: p.classes[i].id == q.classes[i].0 && p.classes[i].year == q.classes[i].1)
    && (forall i | 0 <= i < |q.rosters| :: p.rosters[i].id == q.rosters[i].0)
    && (p.standards.Some? <==> q.pack.Some?) && (p.periods.Some? <==> q.periods.Some?)
    && (q.periods.Some? ==> p.periods.value.year == q.periods.value.0)
  }

  lemma IdsAgree(q: Choices, p: SetupPlan)
    requires Named(q, p)
    ensures DistinctIds(ClassIds(p.classes)) <==> Apart(q.classes)
    ensures DistinctIds(RosterIds(p.rosters)) <==> Apart(q.rosters)
  {
    var classes, rosters := ClassIds(p.classes), RosterIds(p.rosters);
    forall i | 0 <= i < |q.classes| ensures classes[i] == q.classes[i].0 {}
    forall i | 0 <= i < |q.rosters| ensures rosters[i] == q.rosters[i].0 {}
  }

  lemma YearsAgree(q: Choices, p: SetupPlan)
    requires Named(q, p)
    ensures (forall c <- p.classes :: c.year == p.year.year) <==> InYear(q)
  {
    if forall c <- p.classes :: c.year == p.year.year {
      forall i | 0 <= i < |q.classes| ensures q.classes[i].1 == q.year { assert p.classes[i] in p.classes; }
    }
    if InYear(q) {
      forall c <- p.classes ensures c.year == p.year.year { var i :| 0 <= i < |p.classes| && p.classes[i] == c; }
    }
  }

  lemma RostersHaveClasses(q: Choices, p: SetupPlan)
    requires Named(q, p)
    ensures (forall r <- p.rosters :: r.id in ClassIds(p.classes))
            <==> forall i | 0 <= i < |q.rosters| :: ClassChosen(q, q.rosters[i].0)
  {
    var classes := ClassIds(p.classes);
    forall id ensures id in classes <==> ClassChosen(q, id) {
      if j :| 0 <= j < |q.classes| && q.classes[j].0 == id { assert classes[j] == id; }
    }
    if forall r <- p.rosters :: r.id in classes {
      forall i | 0 <= i < |q.rosters| ensures ClassChosen(q, q.rosters[i].0) { assert p.rosters[i] in p.rosters; }
    }
    if forall i | 0 <= i < |q.rosters| :: ClassChosen(q, q.rosters[i].0) {
      forall r <- p.rosters ensures r.id in classes { var i :| 0 <= i < |p.rosters| && p.rosters[i] == r; }
    }
  }

  lemma WiredParts(q: Choices, p: SetupPlan)
    requires Named(q, p)
    requires DistinctIds(ClassIds(p.classes)) <==> Apart(q.classes)
    requires DistinctIds(RosterIds(p.rosters)) <==> Apart(q.rosters)
    requires (forall c <- p.classes :: c.year == p.year.year) <==> InYear(q)
    requires (forall r <- p.rosters :: r.id in ClassIds(p.classes))
             <==> forall i | 0 <= i < |q.rosters| :: ClassChosen(q, q.rosters[i].0)
    ensures WellWired(p) <==> Together(q, p)
  {
    hide DistinctIds, ClassIds, RosterIds, ClassChosen, Apart, InYear;
  }

  /** Every part carries the names of its choice. */
  lemma PartNames(core: Core, s: State, q: Choices, p: SetupPlan)
    requires Planned(core, s, q, p)
    ensures Named(q, p)
  {
    hide PlanClass, PlanRosterImport, PlanStandards, CollectPeriods;
    ClassesFit(s.folders, q.classes, p.classes);
    RostersFit(core, s, q.rosters, p.rosters);
  }

  /** A plan can be applied exactly when the year is not another's, no class and no pack
      conflicts; rosters and calendars never stand in the way. */
  lemma ApplicableExactly(core: Core, s: State, q: Choices, p: SetupPlan)
    requires PlanSetup(core, s, q) == Some(p)
    ensures CanApply(p) <==>
            && (NoYearOpen(s) || YearOpen(s, q.year))
            && (forall i | 0 <= i < |q.classes| ::
                  var held := MetadataHeld(s, q.classes[i].0);
                  if held.None? then RosterHeld(s, q.classes[i].0).None?
                  else held.value.id == q.classes[i].0 && held.value.year == q.year)
            && (q.pack.Some? ==>
                  q.pack.value in s.starters && !core.merge(s.library, s.starters[q.pack.value]).conflicts)
  {
    hide PlanSetup, OpenCalendarAgrees, CalendarAgrees, MetadataHeld, RosterHeld, TokensAre, Students;
    SetupExactly(core, s, q, p);
    forall i | 0 <= i < |q.classes|
      ensures p.classes[i].fit != Conflict <==>
              var held := MetadataHeld(s, q.classes[i].0);
              if held.None? then RosterHeld(s, q.classes[i].0).None?
              else held.value.id == q.classes[i].0 && held.value.year == q.year
    {
      assert ClassRight(s, q.classes[i].0, q.classes[i].1, p.classes[i]);
    }
    forall i | 0 <= i < |q.rosters| ensures p.rosters[i].action != Refuse {
      assert RosterRight(core, s, q.rosters[i].0, q.rosters[i].1, p.rosters[i]);
    }
    forall r <- p.rosters ensures r.action != Refuse {
      var i :| 0 <= i < |p.rosters| && p.rosters[i] == r;
      assert p.rosters[i].action != Refuse;
    }
    if forall i | 0 <= i < |q.classes| :: p.classes[i].fit != Conflict {
      forall c <- p.classes ensures c.fit != Conflict {
        var i :| 0 <= i < |p.classes| && p.classes[i] == c;
      }
    }
    if forall c <- p.classes :: c.fit != Conflict {
      forall i | 0 <= i < |q.classes| ensures p.classes[i].fit != Conflict { assert p.classes[i] in p.classes; }
    }
  }
}
