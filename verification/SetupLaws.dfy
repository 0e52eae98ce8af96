/** When the preflight lets a reviewed plan through, and what each step of it does, in terms
    of Core's tables and of the calls that return. */
module SetupLaws {
  import opened Wrappers
  import opened ClassroomPlanning
  import opened ClassroomPreflight
  import opened ClassroomApply
  import opened ClassroomLaws

  // ---------------------------------------------------------------- preflight

  /** The state shows what was reviewed: of a class only its record, of calendars only the
      one of the open year. */
  predicate ShowsReviewed(s: State, reviewed: Assessment) {
    && s.root == reviewed.root && s.source == reviewed.source && s.year == reviewed.year
    && s.library == reviewed.library && s.packs == reviewed.packs && s.folders.Keys == reviewed.folders.Keys
    && (forall id <- s.folders :: s.folders[id].metadata == reviewed.folders[id].metadata)
    && if NoYearOpen(s) then reviewed.calendar.None? && reviewed.revision.None?
       else
         && Entered(s.calendars, s.year.value.year, reviewed.calendar)
         && Entered(s.revisions, s.year.value.year, reviewed.revision)
  }

  /** What a table has under a key, if anything. */
  predicate Entered<V(==)>(table: map<string, V>, key: string, found: Option<V>) {
    if key in table then found == Some(table[key]) else found.None?
  }

  /** The calendar is still as the plan saw it. */
  predicate PeriodsStand(s: State, p: PeriodPlan) {
    && (p.action in {Create, Skip} ==> p.year !in s.calendars && p.year !in s.revisions)
    && (p.action == Keep ==>
          && p.candidate.Some? && p.year in s.calendars && s.calendars[p.year] == p.candidate.value
          && p.year in s.revisions && s.revisions[p.year] == p.candidate.value.revision)
  }

  /** Nothing blocks, the assessment can be made and shows what was reviewed, and the tokens
      of rosters, the merged library and the calendar are the reviewed ones. */
  ghost predicate LetThrough(core: Core, reviewed: Assessment, p: SetupPlan, s: State) {
    && p.year.fit != Conflict && (forall c <- p.classes :: c.fit != Conflict)
    && (forall r <- p.rosters ::
          r.action != Refuse && TokensAre(core, s, r.id, r.path, r.currentToken, r.candidateToken))
    && OpenCalendarAgrees(s) && ShowsReviewed(s, reviewed)
    && (p.standards.Some? ==>
          p.standards.value.action != Refuse && StandardsRight(core, s, p.standards.value.pack, p.standards.value))
    && (p.periods.Some? ==> p.periods.value.action != Refuse && PeriodsStand(s, p.periods.value))
  }

  lemma UnmovedExactly(core: Core, s: State, r: RosterPlan)
    ensures RosterUnmoved(core, s, r) <==> TokensAre(core, s, r.id, r.path, r.currentToken, r.candidateToken)
  {
    if r.path in s.files {
      if s.files[r.path].classId == r.id {
        PreviewExactly(core, s, r.id, s.files[r.path]);
      } else {
        PreviewRefused(core, s, r.id, s.files[r.path]);
      }
    }
    hide PreviewOf;
  }

  lemma ShownExactly(s: State, reviewed: Assessment)
    requires Assess(s).Some?
    ensures Assess(s).value.root == reviewed.root && MaterialOf(Assess(s).value) == MaterialOf(reviewed)
            <==> ShowsReviewed(s, reviewed)
  {
    SameRecords(s.folders, reviewed.folders);
    var a := Assess(s).value;
    assert a.folders == s.folders;
  }

  lemma SameRecords(a: map<string, Folder>, b: map<string, Folder>)
    ensures (map id <- a :: a[id].metadata) == (map id <- b :: b[id].metadata)
            <==> a.Keys == b.Keys && forall id <- a :: a[id].metadata == b[id].metadata
  {
    var x, y := map id <- a :: a[id].metadata, map id <- b :: b[id].metadata;
    assert x.Keys == a.Keys && y.Keys == b.Keys;
    if x == y {
      forall id <- a ensures a[id].metadata == b[id].metadata { assert x[id] == y[id]; }
    }
  }

  lemma PreflightPassesExactly(core: Core, reviewed: Assessment, p: SetupPlan, s: State)
    ensures Preflight(core, reviewed, p, s) <==> LetThrough(core, reviewed, p, s)
  {
    hide RosterUnmoved, TokensAre, Assess, MaterialOf, ShowsReviewed, OpenCalendarAgrees, PlanStandards,
         StandardsRight, PeriodsUnmoved, PeriodsStand;
    AssessedExactly(s);
    forall r <- p.rosters
      ensures RosterUnmoved(core, s, r) <==> TokensAre(core, s, r.id, r.path, r.currentToken, r.candidateToken)
    {
      UnmovedExactly(core, s, r);
    }
    if Assess(s).Some? {
      ShownExactly(s, reviewed);
      if p.standards.Some? { StandardsUnmovedExactly(core, s, p.standards.value); }
      if p.periods.Some? { PeriodsStandExactly(s, p.periods.value); }
    }
  }

  lemma StandardsUnmovedExactly(core: Core, s: State, st: StandardsPlan)
    requires Assess(s).Some?
    ensures StandardsUnmoved(core, Assess(s).value, s, st) <==> StandardsRight(core, s, st.pack, st)
  {
    hide PlanStandards, StandardsRight, Assess;
    StandardsExactly(core, s, st.pack, st);
  }

  lemma PeriodsStandExactly(s: State, p: PeriodPlan)
    ensures PeriodsUnmoved(s, p) <==> PeriodsStand(s, p)
  {
  }

  // -------------------------------------------------------------------- steps

  // Core as a step finds it when it prepares, when it writes and when it reads back.

  function AtPrepare(k: Setting, s: State, e: Entry): State { k.world.meanwhile(Prepare(e), s) }

  function AtWrite(k: Setting, s: State, e: Entry): State { k.world.meanwhile(Write(e), AtPrepare(k, s, e)) }

  function AtReadBack(k: Setting, s: State, e: Entry): State { k.world.meanwhile(ReadBack(e), s) }

  predicate Returns(k: Setting, c: Call) { k.world.succeeds(c) }

  /** A step that only looks: it passes when its look returns and finds what is expected. */
  predicate Looked(k: Setting, s: State, e: Entry, found: bool, d: Did) {
    d == Did(AtReadBack(k, s, e), false, Returns(k, ReadBack(e)) && found)
  }

  /** A step that writes when it is ready and Core allows it, and passes when in addition its
      read-back returns and finds what is expected. */
  predicate Wrote(k: Setting, s: State, e: Entry, ready: bool, allowed: bool, effect: State, found: bool, d: Did) {
    && d.wrote == (ready && Returns(k, Write(e)) && allowed)
    && d.passed == (d.wrote && Returns(k, ReadBack(e)) && found)
    && d.after == if d.wrote then AtReadBack(k, effect, e) else if ready then AtWrite(k, s, e) else AtPrepare(k, s, e)
  }

  /** A year is opened at the clock's reading while none is open, and one already open only
      looked at. */
  lemma YearStepExactly(k: Setting, s: State, y: YearPlan)
    ensures var d := Do(k, s, OfYear(y));
            if y.fit == New then
              var e := Entry(SchoolYear, Open, y.year);
              var there := AtWrite(k, s, e);
              var begun := there.(year := Some(YearState(y.year, k.world.clock(e), None)));
              Wrote(k, s, e, Returns(k, Clock(e)), NoYearOpen(there), begun,
                    YearOpen(AtReadBack(k, begun, e), y.year), d)
            else
              var e := Entry(SchoolYear, Keep, y.year);
              Looked(k, s, e, YearOpen(AtReadBack(k, s, e), y.year), d)
  {
  }

  /** A class record is written where Core has none, leaving a roster there alone, and found
      again as it was written; a class that is there has the reviewed record. */
  lemma ClassStepExactly(k: Setting, s: State, c: ClassPlan)
    ensures var d := Do(k, s, OfClass(c));
            if c.fit == New then
              var e := Entry(Class, Create, c.id);
              var there := AtWrite(k, s, e);
              var record := Metadata(c.id, c.year, c.candidate.details);
              var written := there.(folders := there.folders[c.id := Folder(Some(record), RosterHeld(there, c.id))]);
              Wrote(k, s, e, Returns(k, Clock(e)) && Returns(k, Prepare(e)), MetadataHeld(there, c.id).None?, written,
                    MetadataHeld(AtReadBack(k, written, e), c.id) == Some(record), d)
            else
              var e := Entry(Class, Keep, c.id);
              Looked(k, s, e, MetadataHeld(AtReadBack(k, s, e), c.id) == Some(c.candidate), d)
  {
  }

  /** A roster is committed from its file while file and Core's roster have the reviewed
      tokens, and found again with the file's students; one to keep still has its tokens;
      anything else stops the run. */
  lemma RosterStepExactly(k: Setting, s: State, r: RosterPlan)
    ensures var d := Do(k, s, OfRoster(r));
            if r.action in {Create, Replace} then
              var e := Entry(Rosters, r.action, r.id);
              var there := AtWrite(k, s, e);
              var allowed := TokensAre(k.core, there, r.id, r.path, r.currentToken, r.candidateToken);
              if Returns(k, Prepare(e)) && Returns(k, Write(e)) && allowed then
                var roster := there.files[r.path];
                var folder := Folder(MetadataHeld(there, r.id), Some(roster));
                var written := there.(folders := there.folders[r.id := folder]);
                var back := AtReadBack(k, written, e);
                d == Did(back, true, && Returns(k, ReadBack(e))
                                     && k.core.token(RosterHeld(back, r.id)) == r.candidateToken
                                     && Students(RosterHeld(back, r.id)) == roster.students)
              else
                d == Did(if Returns(k, Prepare(e)) then there else AtPrepare(k, s, e), false, false)
            else if r.action == Keep then
              var e := Entry(Rosters, Keep, r.id);
              Looked(k, s, e, TokensAre(k.core, AtReadBack(k, s, e), r.id, r.path, r.currentToken, r.candidateToken), d)
            else d == Did(s, false, false)
  {
    hide PreviewOf, TokensAre, RosterUnmoved;
    var e := Entry(Rosters, r.action, r.id);
    var there := AtWrite(k, s, e);
    UnmovedExactly(k.core, there, r);
    UnmovedExactly(k.core, AtReadBack(k, s, e), r);
    if r.action != Keep && TokensAre(k.core, there, r.id, r.path, r.currentToken, r.candidateToken) {
      TokensName(k.core, there, r);
      var folder := Folder(MetadataHeld(there, r.id), Some(there.files[r.path]));
      var written := there.(folders := there.folders[r.id := folder]);
      FoundAgainExactly(k.core, there, AtReadBack(k, written, e), r);
    }
  }

  lemma TokensName(core: Core, s: State, r: RosterPlan)
    requires TokensAre(core, s, r.id, r.path, r.currentToken, r.candidateToken)
    ensures r.path in s.files && s.files[r.path].classId == r.id
    ensures core.token(Some(s.files[r.path])) == r.candidateToken
  {
  }

  lemma FoundAgainExactly(core: Core, there: State, back: State, r: RosterPlan)
    requires r.path in there.files && there.files[r.path].classId == r.id && r.action != Keep
    requires core.token(Some(there.files[r.path])) == r.candidateToken
    ensures Holds(core, there, back, OfRoster(r)) <==>
            && core.token(RosterHeld(back, r.id)) == r.candidateToken
            && Students(RosterHeld(back, r.id)) == there.files[r.path].students
  {
    hide PreviewOf, Added, Changed, Removed, Kept;
    var before, after := Students(RosterHeld(back, r.id)), there.files[r.path].students;
    PreviewExactly(core, back, r.id, there.files[r.path]);
    NothingDiffers(before, after);
    NothingCounted(Added(before, after), Changed(before, after), Removed(before, after));
  }

  /** A pack is installed while the library is the one the preflight saw, merged into that,
      and found again as the reviewed candidate. */
  lemma StandardsStepExactly(k: Setting, s: State, st: StandardsPlan)
    ensures var d := Do(k, s, OfStandards(st));
            if st.action == Install then
              var e := Entry(Standards, Install, st.pack);
              var there := AtWrite(k, s, e);
              var ready := Returns(k, Prepare(e)) && AtPrepare(k, s, e).library == k.baseline;
              if ready && st.pack in there.starters then
                var m := k.core.merge(k.baseline, there.starters[st.pack]);
                var written := there.(library := m.candidate);
                Wrote(k, s, e, ready, !m.conflicts, written, AtReadBack(k, written, e).library == st.candidate, d)
              else d == Did(if ready then there else AtPrepare(k, s, e), false, false)
            else if st.action == Keep then
              var e := Entry(Standards, Keep, st.pack);
              Looked(k, s, e, AtReadBack(k, s, e).library == st.candidate, d)
            else d == Did(s, false, false)
  {
  }

  /** The year has exactly this calendar, at its revision. */
  predicate HasCalendar(s: State, year: string, calendar: Calendar) {
    && year in s.calendars && s.calendars[year] == calendar
    && year in s.revisions && s.revisions[year] == calendar.revision
  }

  /** A calendar is written where the year has no revision, and found again; nothing to do
      passes without a look. */
  lemma PeriodsStepExactly(k: Setting, s: State, p: PeriodPlan)
    ensures var d := Do(k, s, OfPeriods(p));
            if p.action == Skip then d == Did(s, false, true)
            else if p.action !in {Create, Keep} || p.candidate.None? then d == Did(s, false, false)
            else if p.action == Create then
              var e, c := Entry(Periods, Create, p.year), p.candidate.value;
              var there := AtWrite(k, s, e);
              var written := there.(calendars := there.calendars[p.year := c],
                                    revisions := there.revisions[p.year := c.revision]);
              Wrote(k, s, e, true, p.year !in there.revisions, written,
                    HasCalendar(AtReadBack(k, written, e), p.year, c), d)
            else
              var e := Entry(Periods, Keep, p.year);
              Looked(k, s, e, HasCalendar(AtReadBack(k, s, e), p.year, p.candidate.value), d)
  {
  }

  // --------------------------------------------------------------------- runs

  /** The year first, then classes, rosters, the pack and the calendar, as planned. */
  lemma StepsInOrder(p: SetupPlan)
    ensures var n, m := |p.classes|, |p.rosters|;
            var packs, calendars := if p.standards.Some? then 1 else 0, if p.periods.Some? then 1 else 0;
            && |Steps(p)| == 1 + n + m + packs + calendars
            && Steps(p)[0] == OfYear(p.year)
            && (forall i | 0 <= i < n :: Steps(p)[1 + i] == OfClass(p.classes[i]))
            && (forall i | 0 <= i < m :: Steps(p)[1 + n + i] == OfRoster(p.rosters[i]))
            && (p.standards.Some? ==> Steps(p)[1 + n + m] == OfStandards(p.standards.value))
            && (p.periods.Some? ==> Steps(p)[1 + n + m + packs] == OfPeriods(p.periods.value))
  {
  }

  /** Core after these steps, each done where the one before it left Core. */
  function After(k: Setting, s: State, steps: seq<Step>): State {
    if steps == [] then s else Do(k, After(k, s, steps[..|steps| - 1]), steps[|steps| - 1]).after
  }

  predicate PassesAt(k: Setting, s: State, steps: seq<Step>, i: nat)
    requires i < |steps|
  {
    Do(k, After(k, s, steps[..i]), steps[i]).passed
  }

  /** A run does its steps up to the first that does not pass, and leaves Core as that one
      left it. */
  lemma {:induction false} RunExactly(k: Setting, s: State, steps: seq<Step>)
    ensures var p, m := Fold(k, s, steps), Passed(k, s, steps);
            && m <= |steps| && (forall i | 0 <= i < m :: PassesAt(k, s, steps, i))
            && (m < |steps| ==> !PassesAt(k, s, steps, m))
            && p.stopped == (m < |steps|)
            && p.state == After(k, s, steps[..if m < |steps| then m + 1 else m])
    decreases |steps|
  {
    hide Do, Noted, Notes, EntryOf;
    assert steps[..|steps|] == steps;
    if steps != [] {
      var init := steps[..|steps| - 1];
      RunExactly(k, s, init);
      var m := Passed(k, s, init);
      forall i | 0 <= i < |init| ensures PassesAt(k, s, steps, i) == PassesAt(k, s, init, i) {
        assert steps[..i] == init[..i];
      }
      if m < |init| {
        assert steps[..m + 1] == init[..m + 1];
      } else {
        assert init[..m] == init;
      }
    }
  }
}
