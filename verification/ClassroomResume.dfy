/** What "rerun setup" rests on: after a run nobody disturbs, however it was cut short,
    planning again keeps what was written and still proposes exactly the rest. */
module ClassroomResume {
  import opened Wrappers
  import opened ClassroomPlanning
  import opened ClassroomPreflight
  import opened ClassroomApply

  /** Nobody else changes Core; calls may still raise. */
  ghost predicate Quiet(w: World) {
    forall c, s :: w.meanwhile(c, s) == s
  }

  ghost predicate Untroubled(w: World) { forall c :: w.succeeds(c) }

  /** Core's promise about its merge: with nothing to change it gives the library back, and
      merging the same pack into its result changes nothing. */
  ghost predicate MergeSettles(core: Core) {
    forall library, starter :: Settles(core, library, starter)
  }

  predicate Settles(core: Core, library: Library, starter: Library) {
    var m := core.merge(library, starter);
    !m.conflicts ==>
      (m.changed == 0 ==> m.candidate == library)
      && core.merge(m.candidate, starter) == Merge(m.candidate, false, 0)
  }

  /** A merge by identifier: what is missing is added, and nothing is overwritten. */
  function MergeById(library: Library, starter: Library): Merge {
    var missing := starter - library.Keys;
    Merge(library + missing, exists key <- starter :: key in library && library[key] != starter[key], |missing|)
  }

  lemma NothingMissing(library: Library, starter: Library)
    requires starter.Keys <= library.Keys && forall key <- starter :: library[key] == starter[key]
    ensures MergeById(library, starter) == Merge(library, false, 0)
  {
    assert starter - library.Keys == map[];
    assert library + map[] == library;
  }

  lemma NoneAdded(library: Library, starter: Library)
    requires MergeById(library, starter).changed == 0
    ensures MergeById(library, starter).candidate == library
  {
    var missing := starter - library.Keys;
    assert missing.Keys == {} by { assert |missing.Keys| == |missing|; }
    assert library + missing == library;
  }

  /** Such a merge keeps that promise. */
  lemma MergeByIdSettles(core: Core)
    requires core.merge == MergeById
    ensures MergeSettles(core)
  {
    forall library: Library, starter: Library ensures Settles(core, library, starter) {
      var m := core.merge(library, starter);
      assert m == MergeById(library, starter);
      if !m.conflicts {
        if m.changed == 0 { NoneAdded(library, starter); }
        NothingMissing(m.candidate, starter);
      }
    }
  }

  /** A part once it has been written. */
  function Settled(x: Step): Step {
    match x
    case OfYear(y) => OfYear(y.(fit := Matching))
    case OfClass(c) => OfClass(c.(fit := Matching, candidate := Expected(c)))
    case OfRoster(r) =>
      OfRoster(r.(action := Keep, currentToken := r.candidateToken,
                  added := 0, changed := 0, removed := 0, kept := r.added + r.changed + r.kept))
    case OfStandards(st) => OfStandards(st.(action := Keep))
    case OfPeriods(p) => OfPeriods(p.(action := Keep))
  }

  function SettleStep(x: Step, written: seq<Entry>): Step {
    if EntryOf(x) in written then Settled(x) else x
  }

  /** The plan with its written parts kept and every other part as it was. */
  function Settle(p: SetupPlan, written: seq<Entry>): SetupPlan {
    SetupPlan(
      SettleStep(OfYear(p.year), written).year,
      seq(|p.classes|, i requires 0 <= i < |p.classes| => SettleStep(OfClass(p.classes[i]), written).class_),
      seq(|p.rosters|, i requires 0 <= i < |p.rosters| => SettleStep(OfRoster(p.rosters[i]), written).roster),
      if p.standards.None? then None else Some(SettleStep(OfStandards(p.standards.value), written).standards),
      if p.periods.None? then None else Some(SettleStep(OfPeriods(p.periods.value), written).periods))
  }

  /** Nothing stands against applying this part. */
  predicate Applicable(x: Step) {
    Eligible(x) && (x.OfYear? ==> x.year.fit != Conflict) && (x.OfClass? ==> x.class_.fit != Conflict)
  }

  // --------------------------------------------------------------- one write

  lemma FittingMayBeWritten(k: Setting, q: Choices, s: State, x: Step)
    requires Fits(k.core, q, s, x) && Applicable(x) && Mutates(EntryOf(x))
             && (x.OfStandards? ==> s.library == k.baseline)
    ensures Guard(k, s, x)
  {
  }

  lemma RosterSettles(core: Core, s: State, t: State, r: RosterPlan)
    requires PlanRosterImport(core, s, r.id, r.path) == Some(r)
    requires t.files == s.files && RosterOf(t, r.id) == Some(s.files[r.path])
    ensures PlanRosterImport(core, t, r.id, r.path) == Some(Settled(OfRoster(r)).roster)
  {
    var students := s.files[r.path].students;
    assert (set k <- students.Keys | k !in students) == {};
    assert (set k <- students.Keys | k in students && students[k] != students[k]) == {};
    assert (set k <- students.Keys | k in students && students[k] == students[k]) == students.Keys;
  }

  /** A fitting part, written, reads back, and is planned as kept from then on. */
  lemma WrittenSettles(k: Setting, q: Choices, s: State, x: Step)
    requires Guard(k, s, x) && Fits(k.core, q, s, x) && Applicable(x) && Mutates(EntryOf(x))
    requires x.OfStandards? ==> s.library == k.baseline && MergeSettles(k.core)
    ensures Fits(k.core, q, Effect(k, s, x), Settled(x)) && Holds(k.core, s, Effect(k, s, x), x)
  {
    match x {
      case OfRoster(r) =>
        hide PreviewOf;
        RosterSettles(k.core, s, Effect(k, s, x), r);
      case OfStandards(st) =>
        assert Settles(k.core, s.library, s.starters[st.pack]);
      case _ =>
    }
  }

  lemma KeptReadsBack(core: Core, q: Choices, s: State, x: Step)
    requires Fits(core, q, s, x) && Applicable(x) && !Mutates(EntryOf(x)) && EntryOf(x).action != Skip
    requires x.OfStandards? ==> MergeSettles(core)
    ensures Holds(core, s, s, x)
  {
    if x.OfStandards? { assert Settles(core, s.library, s.starters[x.standards.pack]); }
  }

  /** Writing x does not touch what y was planned from. */
  predicate Untouched(x: Step, y: Step) {
    match (x, y)
    case (OfYear(_), OfYear(_)) => false
    case (OfClass(c), OfClass(d)) => c.id != d.id
    case (OfRoster(r), OfRoster(t)) => r.id != t.id
    case (OfRoster(r), OfClass(d)) => r.id != d.id || d.fit == Matching
    case (OfStandards(_), OfStandards(_)) => false
    case (OfPeriods(_), OfPeriods(_)) => false
    case _ => true
  }

  lemma OthersStillFit(k: Setting, q: Choices, s: State, x: Step, y: Step)
    requires Guard(k, s, x) && Untouched(x, y) && Fits(k.core, q, s, y)
    ensures Fits(k.core, q, Effect(k, s, x), y)
  {
  }

  // ------------------------------------------------------------- order of steps

  function Rank(x: Step): nat {
    match x
    case OfYear(_) => 0
    case OfClass(_) => 1
    case OfRoster(_) => 2
    case OfStandards(_) => 3
    case OfPeriods(_) => 4
  }

  /** x comes before y in a plan: areas in order, and no class or roster twice. */
  predicate Before(x: Step, y: Step) {
    || Rank(x) < Rank(y)
    || (x.OfClass? && y.OfClass? && x.class_.id != y.class_.id)
    || (x.OfRoster? && y.OfRoster? && x.roster.id != y.roster.id)
  }

  ghost predicate InOrder(steps: seq<Step>) {
    forall i, j | 0 <= i < j < |steps| :: Before(steps[i], steps[j])
  }

  lemma JoinOrdered(front: seq<Step>, back: seq<Step>)
    requires InOrder(front) && InOrder(back)
    requires forall x <- front, y <- back :: Rank(x) < Rank(y)
    ensures InOrder(front + back)
  {
    var all := front + back;
    forall i, j | 0 <= i < j < |all| ensures Before(all[i], all[j]) {
      if i < |front| <= j { assert all[i] in front && all[j] in back; }
    }
  }

  lemma IdsInOrder(p: SetupPlan)
    requires WellWired(p)
    ensures InOrder(ClassSteps(p.classes)) && InOrder(RosterSteps(p.rosters))
  {
    forall i, j | 0 <= i < j < |p.classes| ensures Before(ClassSteps(p.classes)[i], ClassSteps(p.classes)[j]) {
      assert ClassIds(p.classes)[i] != ClassIds(p.classes)[j];
    }
    forall i, j | 0 <= i < j < |p.rosters| ensures Before(RosterSteps(p.rosters)[i], RosterSteps(p.rosters)[j]) {
      assert RosterIds(p.rosters)[i] != RosterIds(p.rosters)[j];
    }
  }

  lemma StepsInOrder(p: SetupPlan)
    requires WellWired(p)
    ensures InOrder(Steps(p))
  {
    var classes, rosters := ClassSteps(p.classes), RosterSteps(p.rosters);
    var standards := if p.standards.Some? then [OfStandards(p.standards.value)] else [];
    var periods := if p.periods.Some? then [OfPeriods(p.periods.value)] else [];
    IdsInOrder(p);
    hide Before, WellWired;
    JoinOrdered([OfYear(p.year)], classes);
    JoinOrdered([OfYear(p.year)] + classes, rosters);
    JoinOrdered([OfYear(p.year)] + classes + rosters, standards);
    JoinOrdered([OfYear(p.year)] + classes + rosters + standards, periods);
  }

  // ------------------------------------------------------------ one quiet step

  predicate Reachable(w: World, e: Entry) {
    w.succeeds(Clock(e)) && w.succeeds(Prepare(e)) && w.succeeds(Write(e))
  }

  /** What one step of a quiet run does to Core. */
  lemma QuietStep(k: Setting, q: Choices, s: State, x: Step)
    requires Quiet(k.world) && Fits(k.core, q, s, x) && Applicable(x)
    requires x.OfStandards? ==> s.library == k.baseline && MergeSettles(k.core)
    ensures var d, e := Do(k, s, x), EntryOf(x);
            && (if d.wrote then Mutates(e) && Guard(k, s, x) && d.after == Effect(k, s, x) else d.after == s)
            && (Mutates(e) && Reachable(k.world, e) ==> d.wrote)
            && (Reachable(k.world, e) && k.world.succeeds(ReadBack(e)) ==> d.passed)
            && (!k.world.succeeds(ReadBack(e)) && e.action != Skip ==> !d.passed)
  {
    hide Fits, Guard, Effect, Holds;
    if Mutates(EntryOf(x)) {
      FittingMayBeWritten(k, q, s, x);
      WrittenSettles(k, q, s, x);
    } else if EntryOf(x).action != Skip {
      KeptReadsBack(k.core, q, s, x);
    }
  }

  // ----------------------------------------------------------- a whole quiet run

  /** Where a run stands: written parts are settled, all others still fit. */
  ghost predicate Standing(core: Core, q: Choices, p: Progress, steps: seq<Step>) {
    forall i | 0 <= i < |steps| :: Fits(core, q, p.state, SettleStep(steps[i], p.written))
  }

  lemma {:induction false} MutatingMembers(entries: seq<Entry>, e: Entry)
    ensures e in Mutating(entries) <==> e in entries && Mutates(e)
    decreases |entries|
  {
    hide Mutates;
    if entries != [] {
      MutatingMembers(entries[..|entries| - 1], e);
      assert entries == entries[..|entries| - 1] + [entries[|entries| - 1]];
    }
  }

  /** In a run that has not stopped before step m, the written parts are the mutations
      among the first m. */
  lemma WrittenBefore(k: Setting, s: State, steps: seq<Step>, m: nat, i: nat)
    requires InOrder(steps) && m <= |steps| && i < |steps| && !Fold(k, s, steps[..m]).stopped
    ensures EntryOf(steps[i]) in Fold(k, s, steps[..m]).written <==> i < m && Mutates(EntryOf(steps[i]))
  {
    hide Fold, Mutates, Mutating;
    CleanOrStopped(k, s, steps[..m]);
    var done := Entries(steps[..m]);
    MutatingMembers(done, EntryOf(steps[i]));
    assert i < m ==> done[i] == EntryOf(steps[i]);
    forall j | 0 <= j < m && m <= i ensures done[j] != EntryOf(steps[i]) {
      assert Before(steps[j], steps[i]);
    }
  }

  /** Writing step m leaves every other part's standing alone. */
  lemma WriteLeavesOthers(k: Setting, s: State, steps: seq<Step>, m: nat, i: nat)
    requires InOrder(steps) && m < |steps| && i < |steps| && i != m && !Fold(k, s, steps[..m]).stopped
    requires forall x <- steps :: Applicable(x)
    ensures Untouched(steps[m], SettleStep(steps[i], Fold(k, s, steps[..m]).written))
  {
    hide Fold;
    WrittenBefore(k, s, steps, m, i);
    assert Applicable(steps[i]);
    if i < m { assert Before(steps[i], steps[m]); } else { assert Before(steps[m], steps[i]); }
  }

  /** Everything a quiet run relies on at its start. */
  ghost predicate Begun(k: Setting, q: Choices, s: State, steps: seq<Step>) {
    && Quiet(k.world) && k.baseline == s.library && InOrder(steps)
    && (forall x <- steps :: Applicable(x) && Fits(k.core, q, s, x) && (x.OfStandards? ==> MergeSettles(k.core)))
  }

  /** Without an installation the library is as it was, without a new calendar so are those. */
  ghost predicate TablesKept(k: Setting, s: State, p: Progress) {
    && ((forall e <- p.written :: e.area != Standards) ==> p.state.library == k.baseline)
    && ((forall e <- p.written :: e.area != Periods) ==>
          p.state.calendars == s.calendars && p.state.revisions == s.revisions)
  }

  lemma {:induction false} QuietRun(k: Setting, q: Choices, s: State, steps: seq<Step>, m: nat)
    requires Begun(k, q, s, steps) && m <= |steps|
    ensures var p := Fold(k, s, steps[..m]);
            Standing(k.core, q, p, steps) && TablesKept(k, s, p) && (Untroubled(k.world) ==> !p.stopped)
    decreases m
  {
    hide Fold, Do, Fits, Quiet, InOrder;
    if m == 0 {
      NothingDone(k, s);
    } else {
      QuietRun(k, q, s, steps, m - 1);
      var p, x := Fold(k, s, steps[..m - 1]), steps[m - 1];
      assert steps[..m] == steps[..m - 1] + [x];
      FoldSnoc(k, s, steps[..m - 1], x);
      if !p.stopped { OneMoreStep(k, q, s, steps, m - 1); }
    }
  }

  lemma NothingDone(k: Setting, s: State)
    ensures Fold(k, s, []) == Start(s)
  {
  }

  lemma OneMoreStep(k: Setting, q: Choices, s: State, steps: seq<Step>, m: nat)
    requires Begun(k, q, s, steps) && m < |steps| && !Fold(k, s, steps[..m]).stopped
    requires Standing(k.core, q, Fold(k, s, steps[..m]), steps) && TablesKept(k, s, Fold(k, s, steps[..m]))
    ensures var p := Advance(k, Fold(k, s, steps[..m]), steps[m]);
            Standing(k.core, q, p, steps) && TablesKept(k, s, p) && (Untroubled(k.world) ==> !p.stopped)
  {
    hide Fold, Do, Fits, Quiet, InOrder, Guard, Effect, Untouched, Mutates, Settled, Eligible, EntryOf;
    var p, x := Fold(k, s, steps[..m]), steps[m];
    var d := Do(k, p.state, x);
    assert x in steps;
    WrittenBefore(k, s, steps, m, m);
    assert Fits(k.core, q, p.state, SettleStep(x, p.written));
    LibraryBefore(k, s, steps, m);
    QuietStep(k, q, p.state, x);
    if d.wrote {
      WrittenSettles(k, q, p.state, x);
      forall i | 0 <= i < |steps| ensures Fits(k.core, q, d.after, SettleStep(steps[i], p.written + [EntryOf(x)])) {
        if i != m {
          SeparateEntries(steps, m, i);
          WriteLeavesOthers(k, s, steps, m, i);
          assert Fits(k.core, q, p.state, SettleStep(steps[i], p.written));
          OthersStillFit(k, q, p.state, x, SettleStep(steps[i], p.written));
        }
      }
      TablesAfter(k, p.state, x);
    }
  }

  lemma SeparateEntries(steps: seq<Step>, m: nat, i: nat)
    requires InOrder(steps) && m < |steps| && i < |steps| && i != m
    ensures EntryOf(steps[i]) != EntryOf(steps[m])
  {
    if i < m { assert Before(steps[i], steps[m]); } else { assert Before(steps[m], steps[i]); }
  }

  lemma LibraryBefore(k: Setting, s: State, steps: seq<Step>, m: nat)
    requires InOrder(steps) && m < |steps| && !Fold(k, s, steps[..m]).stopped
             && TablesKept(k, s, Fold(k, s, steps[..m]))
    ensures steps[m].OfStandards? ==> Fold(k, s, steps[..m]).state.library == k.baseline
  {
    hide Fold;
    var p := Fold(k, s, steps[..m]);
    CleanOrStopped(k, s, steps[..m]);
    if steps[m].OfStandards? {
      forall e <- p.written ensures e.area != Standards {
        MutatingMembers(Entries(steps[..m]), e);
        var j :| 0 <= j < m && Entries(steps[..m])[j] == e;
        assert Before(steps[j], steps[m]);
      }
    }
  }

  lemma TablesAfter(k: Setting, s: State, x: Step)
    requires Guard(k, s, x)
    ensures !x.OfStandards? ==> Effect(k, s, x).library == s.library
    ensures !x.OfPeriods? ==> Effect(k, s, x).calendars == s.calendars && Effect(k, s, x).revisions == s.revisions
    ensures (x.OfStandards? <==> EntryOf(x).area == Standards) && (x.OfPeriods? <==> EntryOf(x).area == Periods)
  {
  }

  // ------------------------------------------------------------ main results

  lemma PlannedIsApplicable(core: Core, s: State, q: Choices, p: SetupPlan)
    requires PlanSetup(core, s, q) == Some(p) && CanApply(p)
    ensures forall x <- Steps(p) :: Applicable(x)
  {
    hide PlanSetup, Steps, Eligible;
    PlannedIsEligible(core, s, q, p);
    forall x <- Steps(p) ensures Applicable(x) { StepsAre(p, x); }
  }

  lemma PlannedBegins(k: Setting, q: Choices, s: State, p: SetupPlan)
    requires PlanSetup(k.core, s, q) == Some(p) && CanApply(p)
    requires Quiet(k.world) && k.baseline == s.library && (p.standards.Some? ==> MergeSettles(k.core))
    ensures Begun(k, q, s, Steps(p))
  {
    hide PlanSetup, Steps, Fits, Applicable, MergeSettles, Quiet, InOrder, WellWired, Before;
    PlannedAssesses(k.core, s, q);
    PlannedExactly(k.core, s, q, p);
    PlannedIsApplicable(k.core, s, q, p);
    StepsInOrder(p);
    forall x <- Steps(p) ensures x.OfStandards? ==> MergeSettles(k.core) { StepsAre(p, x); }
  }

  lemma SettledFor(q: Choices, p: SetupPlan, written: seq<Entry>)
    requires PlanFor(q, p)
    ensures PlanFor(q, Settle(p, written))
  {
    hide EntryOf, Expected;
    var p' := Settle(p, written);
    assert ClassIds(p'.classes) == ClassIds(p.classes) && RosterIds(p'.rosters) == RosterIds(p.rosters);
  }

  lemma SettledParts(core: Core, q: Choices, p: SetupPlan, pr: Progress)
    requires Standing(core, q, pr, Steps(p))
    ensures AllFit(core, q, pr.state, Settle(p, pr.written))
  {
    hide Steps, Fits, EntryOf, Expected;
    var p' := Settle(p, pr.written);
    forall x <- Steps(p) ensures Fits(core, q, pr.state, SettleStep(x, pr.written)) {
      var i :| 0 <= i < |Steps(p)| && Steps(p)[i] == x;
    }
    StepsAre(p, OfYear(p.year));
    forall i | 0 <= i < |p.classes| ensures Fits(core, q, pr.state, OfClass(p'.classes[i])) {
      StepsAre(p, OfClass(p.classes[i]));
    }
    forall i | 0 <= i < |p.rosters| ensures Fits(core, q, pr.state, OfRoster(p'.rosters[i])) {
      StepsAre(p, OfRoster(p.rosters[i]));
    }
    if p.standards.Some? { StepsAre(p, OfStandards(p.standards.value)); }
    if p.periods.Some? { StepsAre(p, OfPeriods(p.periods.value)); }
    AllFitByParts(core, q, pr.state, p');
  }

  /** The year a plan is for has a calendar that agrees with its pointer, if periods are
      planned at all. */
  lemma PlannedCalendarSound(core: Core, q: Choices, s: State, p: PeriodPlan)
    requires Fits(core, q, s, OfPeriods(p))
    ensures SoundCalendar(s, p.year)
  {
  }

  /** A run that opened the year leaves its calendar to be read by the next assessment. */
  predicate Readable(q: Choices, s: State, p: SetupPlan, written: seq<Entry>) {
    EntryOf(OfYear(p.year)) in written ==> q.periods.Some? || SoundCalendar(s, q.year)
  }

  lemma SettledAssesses(k: Setting, q: Choices, s: State, p: SetupPlan, pr: Progress)
    requires pr == Fold(k, s, Steps(p)) && PlanFor(q, p) && CanApply(p) && Assess(s).Some?
    requires AllFit(k.core, q, s, p) && AllFit(k.core, q, pr.state, Settle(p, pr.written)) && TablesKept(k, s, pr)
    ensures Assess(pr.state).Some? <==> Readable(q, s, p, pr.written)
  {
    hide Fold, EntryOf, Expected, CollectPeriods, Steps;
    var p' := Settle(p, pr.written);
    AllFitByParts(k.core, q, s, p);
    AllFitByParts(k.core, q, pr.state, p');
    assert Active(pr.state.year) in {None, Some(q.year)};
    SettledFor(q, p, pr.written);
    if q.periods.Some? {
      PlannedCalendarSound(k.core, q, pr.state, p'.periods.value);
    } else {
      NoPeriodsWritten(k, s, p);
    }
  }

  lemma NoPeriodsWritten(k: Setting, s: State, p: SetupPlan)
    requires p.periods.None?
    ensures forall e <- Fold(k, s, Steps(p)).written :: e.area != Periods
  {
    hide Fold, Steps;
    forall e <- Fold(k, s, Steps(p)).written ensures e.area != Periods {
      WrittenAreSteps(k, s, Steps(p), e);
      var x :| x in Steps(p) && EntryOf(x) == e;
      StepsAre(p, x);
    }
  }

  lemma WrittenAreSteps(k: Setting, s: State, steps: seq<Step>, e: Entry)
    requires e in Fold(k, s, steps).written
    ensures exists x :: x in steps && EntryOf(x) == e && Mutates(e)
  {
    hide Fold, Mutating, EntryOf, Do;
    Bookkeeping(k, s, steps);
    var m := Passed(k, s, steps);
    MutatingMembers(Entries(steps[..m]), e);
    if e in Entries(steps[..m]) && Mutates(e) {
      var i :| 0 <= i < m && Entries(steps[..m])[i] == e;
      assert steps[i] in steps;
    } else {
      WroteMutates(k, Fold(k, s, steps[..m]).state, steps[m]);
      assert steps[m] in steps;
    }
  }

  lemma WroteMutates(k: Setting, s: State, x: Step)
    requires Do(k, s, x).wrote
    ensures Mutates(EntryOf(x))
  {
    hide Guard, Effect, Holds, Ready;
  }

  /** However a quiet run of a plan was cut short, planning again with the same choices
      gives the plan with its written parts kept and every other part as it was. It is
      refused exactly when the run opened the year, no Academic Periods are planned for it,
      and its calendar disagrees with the revision pointer. */
  lemma ReplanContinues(k: Setting, q: Choices, s: State, p: SetupPlan)
    requires PlanSetup(k.core, s, q) == Some(p) && CanApply(p)
    requires Quiet(k.world) && k.baseline == s.library && (p.standards.Some? ==> MergeSettles(k.core))
    ensures var r := Fold(k, s, Steps(p));
            PlanSetup(k.core, r.state, q) ==
            if Readable(q, s, p, r.written) then Some(Settle(p, r.written)) else None
  {
    hide Steps, Fold, Begun, AllFit, PlanFor, Settle, Quiet, MergeSettles, SoundCalendar, Readable, Assess;
    hide PlanRosters, PlanStandards, CollectPeriods, Assemble;
    PlannedBegins(k, q, s, p);
    PlannedAssesses(k.core, s, q);
    PlannedExactly(k.core, s, q, p);
    var r := Fold(k, s, Steps(p));
    QuietRun(k, q, s, Steps(p), |Steps(p)|);
    assert Steps(p)[..|Steps(p)|] == Steps(p);
    SettledFor(q, p, r.written);
    SettledParts(k.core, q, p, r);
    SettledAssesses(k, q, s, p, r);
    if Assess(r.state).Some? { PlannedExactly(k.core, r.state, q, Settle(p, r.written)); }
  }

  lemma SettledSteps(p: SetupPlan, written: seq<Entry>, x: Step)
    ensures x in Steps(Settle(p, written)) <==> exists y :: y in Steps(p) && x == SettleStep(y, written)
  {
    hide Steps, EntryOf, Expected;
    var p' := Settle(p, written);
    StepsAre(p', x);
    if x in Steps(p') {
      match x {
        case OfYear(_) => StepsAre(p, OfYear(p.year));
        case OfClass(c) =>
          var i :| 0 <= i < |p'.classes| && p'.classes[i] == c;
          StepsAre(p, OfClass(p.classes[i]));
        case OfRoster(r) =>
          var i :| 0 <= i < |p'.rosters| && p'.rosters[i] == r;
          StepsAre(p, OfRoster(p.rosters[i]));
        case OfStandards(_) => StepsAre(p, OfStandards(p.standards.value));
        case OfPeriods(_) => StepsAre(p, OfPeriods(p.periods.value));
      }
    }
    if y :| y in Steps(p) && x == SettleStep(y, written) {
      StepsAre(p, y);
      match y {
        case OfClass(c) =>
          var i :| 0 <= i < |p.classes| && p.classes[i] == c;
          assert p'.classes[i] == x.class_;
        case OfRoster(r) =>
          var i :| 0 <= i < |p.rosters| && p.rosters[i] == r;
          assert p'.rosters[i] == x.roster;
        case _ =>
      }
    }
  }

  /** In a settled plan the entries that still mutate are those not yet written. */
  lemma RemainingEntries(p: SetupPlan, written: seq<Entry>, e: Entry)
    ensures e in Mutating(Entries(Steps(Settle(p, written)))) <==> e in Mutating(Entries(Steps(p))) && e !in written
  {
    hide Steps, Mutating, Settle, EntryOf;
    var steps, steps' := Steps(p), Steps(Settle(p, written));
    MutatingMembers(Entries(steps), e);
    MutatingMembers(Entries(steps'), e);
    if e in Entries(steps) && Mutates(e) && e !in written {
      var i :| 0 <= i < |steps| && Entries(steps)[i] == e;
      SettledSteps(p, written, steps[i]);
      assert steps[i] == SettleStep(steps[i], written);
      var j :| 0 <= j < |steps'| && steps'[j] == steps[i];
      assert Entries(steps')[j] == e;
    }
    if e in Entries(steps') && Mutates(e) {
      var j :| 0 <= j < |steps'| && Entries(steps')[j] == e;
      SettledSteps(p, written, steps'[j]);
      var y :| y in steps && steps'[j] == SettleStep(y, written);
      SettledIsKept(y);
      var i :| 0 <= i < |steps| && steps[i] == y;
      assert Entries(steps)[i] == EntryOf(y);
    }
  }

  lemma SettledIsKept(x: Step)
    ensures EntryOf(Settled(x)).action == Keep
  {
  }

  /** An action on the same subject that has nothing left to do. */
  predicate KeptIn(e: Entry, entries: seq<Entry>) {
    exists x <- entries :: x.area == e.area && x.subject == e.subject && x.action in {Keep, Skip}
  }

  lemma CompletedSettles(k: Setting, s: State, p: SetupPlan, x: Step)
    requires var r := Fold(k, s, Steps(p)); x in Steps(p) && EntryOf(x) in r.completed && Applicable(x)
    ensures EntryOf(SettleStep(x, Fold(k, s, Steps(p)).written)).action in {Keep, Skip}
  {
    hide Fold, Steps, Mutating, Do;
    Bookkeeping(k, s, Steps(p));
    MutatingMembers(Entries(Steps(p)[..Passed(k, s, Steps(p))]), EntryOf(x));
    SettledIsKept(x);
    ApplicableActions(x);
    hide EntryOf;
  }

  lemma CompletedAreSteps(k: Setting, s: State, steps: seq<Step>, e: Entry) returns (x: Step)
    requires e in Fold(k, s, steps).completed
    ensures x in steps && EntryOf(x) == e
  {
    hide Fold, Mutating, EntryOf, Do;
    Bookkeeping(k, s, steps);
    var i :| 0 <= i < Passed(k, s, steps) && Entries(steps[..Passed(k, s, steps)])[i] == e;
    x := steps[i];
  }

  lemma SettledSubject(x: Step, written: seq<Entry>)
    ensures EntryOf(SettleStep(x, written)).area == EntryOf(x).area
    ensures EntryOf(SettleStep(x, written)).subject == EntryOf(x).subject
  {
  }

  lemma EntryAmong(steps: seq<Step>, x: Step)
    requires x in steps
    ensures EntryOf(x) in Entries(steps)
  {
    hide EntryOf;
    var i :| 0 <= i < |steps| && steps[i] == x;
    assert Entries(steps)[i] == EntryOf(x);
  }

  /** Whatever a quiet run completed, planning again keeps or skips. */
  lemma CompletedIsKept(k: Setting, q: Choices, s: State, p: SetupPlan)
    requires PlanSetup(k.core, s, q) == Some(p) && CanApply(p)
    requires Quiet(k.world) && k.baseline == s.library && (p.standards.Some? ==> MergeSettles(k.core))
    requires PlanSetup(k.core, Fold(k, s, Steps(p)).state, q).Some?
    ensures var r := Fold(k, s, Steps(p));
            forall e <- r.completed :: KeptIn(e, Entries(Steps(PlanSetup(k.core, r.state, q).value)))
  {
    hide PlanSetup, Steps, Fold, Settle, Quiet, MergeSettles, EntryOf, Readable, Entries, SettleStep, Applicable;
    ReplanContinues(k, q, s, p);
    PlannedIsApplicable(k.core, s, q, p);
    var r := Fold(k, s, Steps(p));
    forall e <- r.completed ensures KeptIn(e, Entries(Steps(Settle(p, r.written)))) {
      var x := CompletedAreSteps(k, s, Steps(p), e);
      CompletedSettles(k, s, p, x);
      SettledSubject(x, r.written);
      SettledSteps(p, r.written, SettleStep(x, r.written));
      EntryAmong(Steps(Settle(p, r.written)), SettleStep(x, r.written));
    }
  }

  lemma ApplicableActions(x: Step)
    requires Applicable(x)
    ensures Mutates(EntryOf(x)) || EntryOf(x).action in {Keep, Skip}
  {
  }

  lemma SettledCanApply(p: SetupPlan, written: seq<Entry>)
    requires CanApply(p)
    ensures CanApply(Settle(p, written))
  {
    hide EntryOf;
  }

  /** The next assessment can read the calendar of a year this plan opens. */
  predicate Replannable(q: Choices, s: State, p: SetupPlan) {
    p.year.fit == New ==> q.periods.Some? || SoundCalendar(s, q.year)
  }

  /** A quiet run in which no call raises is Done with every mutation written. */
  lemma UndisturbedRunWritesAll(k: Setting, q: Choices, s: State, p: SetupPlan)
    requires PlanSetup(k.core, s, q) == Some(p) && CanApply(p)
    requires Quiet(k.world) && Untroubled(k.world) && k.baseline == s.library
             && (p.standards.Some? ==> MergeSettles(k.core))
    ensures var r, all := Fold(k, s, Steps(p)), Entries(Steps(p));
            OutcomeOf(r) == Done(all, NotedAll(Mutating(all))) && r.written == Mutating(all)
  {
    hide PlanSetup, Steps, Fold, Begun, Quiet, MergeSettles, EntryOf, Mutating, NotedAll, Mutates;
    PlannedBegins(k, q, s, p);
    QuietRun(k, q, s, Steps(p), |Steps(p)|);
    assert Steps(p)[..|Steps(p)|] == Steps(p);
    CleanOrStopped(k, s, Steps(p));
  }

  lemma YearWritten(p: SetupPlan)
    ensures EntryOf(OfYear(p.year)) in Mutating(Entries(Steps(p))) <==> p.year.fit == New
  {
    hide Steps, Mutating, Entries;
    StepsAre(p, OfYear(p.year));
    EntryAmong(Steps(p), OfYear(p.year));
    MutatingMembers(Entries(Steps(p)), EntryOf(OfYear(p.year)));
  }

  /** And planning again then proposes to keep or skip everything, or is refused exactly
      for a year it opened whose calendar cannot be read. */
  lemma UndisturbedRunIsDone(k: Setting, q: Choices, s: State, p: SetupPlan)
    requires PlanSetup(k.core, s, q) == Some(p) && CanApply(p)
    requires Quiet(k.world) && Untroubled(k.world) && k.baseline == s.library
             && (p.standards.Some? ==> MergeSettles(k.core))
    ensures var r, all := Fold(k, s, Steps(p)), Entries(Steps(p));
            && OutcomeOf(r) == Done(all, NotedAll(Mutating(all))) && r.written == Mutating(all)
            && var again := PlanSetup(k.core, r.state, q);
               (again.Some? <==> Replannable(q, s, p))
               && (again.Some? ==> forall x <- Steps(again.value) :: EntryOf(x).action in {Keep, Skip})
  {
    hide PlanSetup, Steps, Fold, Settle, Quiet, MergeSettles, SoundCalendar, EntryOf, Mutating, NotedAll, Mutates,
         Applicable;
    UndisturbedRunWritesAll(k, q, s, p);
    ReplanContinues(k, q, s, p);
    YearWritten(p);
    var r := Fold(k, s, Steps(p));
    var p' := Settle(p, r.written);
    if PlanSetup(k.core, r.state, q).Some? {
      SettledCanApply(p, r.written);
      PlannedIsApplicable(k.core, r.state, q, p');
      forall x <- Steps(p') ensures EntryOf(x).action in {Keep, Skip} {
        ApplicableActions(x);
        RemainingEntries(p, r.written, EntryOf(x));
        MutatingMembers(Entries(Steps(p')), EntryOf(x));
        EntryAmong(Steps(p'), x);
      }
    }
  }

  /** Rerunning setup after an interrupted quiet run, when planning again is not refused,
      writes exactly what is left. */
  lemma ResumedRunFinishes(k: Setting, q: Choices, s: State, p: SetupPlan, again: World)
    requires PlanSetup(k.core, s, q) == Some(p) && CanApply(p)
    requires Quiet(k.world) && k.baseline == s.library && (p.standards.Some? ==> MergeSettles(k.core))
    requires Quiet(again) && Untroubled(again)
    ensures var r := Fold(k, s, Steps(p));
            var p', k' := PlanSetup(k.core, r.state, q), Setting(k.core, again, r.state.library);
            && (p'.Some? <==> Readable(q, s, p, r.written))
            && (p'.Some? ==>
                  && CanApply(p'.value)
                  && var r' := Fold(k', r.state, Steps(p'.value));
                     OutcomeOf(r').Done?
                     && forall e :: e in r'.written <==> e in Mutating(Entries(Steps(p))) && e !in r.written)
  {
    hide PlanSetup, Steps, Fold, Settle, Quiet, Untroubled, MergeSettles, SoundCalendar, EntryOf, Mutating, NotedAll,
         Mutates, Readable;
    ReplanContinues(k, q, s, p);
    var r := Fold(k, s, Steps(p));
    var p', k' := Settle(p, r.written), Setting(k.core, again, r.state.library);
    SettledCanApply(p, r.written);
    SettledStandards(p, r.written);
    if PlanSetup(k.core, r.state, q).Some? {
      UndisturbedRunWritesAll(k', q, r.state, p');
      forall e
        ensures e in Fold(k', r.state, Steps(p')).written <==> e in Mutating(Entries(Steps(p))) && e !in r.written
      {
        RemainingEntries(p, r.written, e);
      }
    }
  }

  lemma SettledStandards(p: SetupPlan, written: seq<Entry>)
    ensures Settle(p, written).standards.Some? <==> p.standards.Some?
  {
  }

  /** From review to rerun: a reviewed plan whose preflight passes, with no roster appeared
      in a class to be created, is run, cut short or not, and planned again. */
  lemma ReviewedSetupContinues(k: Setting, q: Choices, s: State, p: SetupPlan, t: State)
    requires Telling(k.core) && PlanSetup(k.core, s, q) == Some(p)
    requires Preflight(k.core, Assess(s).value, p, t) && NoRosterAppeared(p, t)
    requires Quiet(k.world) && k.baseline == t.library && (p.standards.Some? ==> MergeSettles(k.core))
    ensures var r := Fold(k, t, Steps(p));
            && PlanSetup(k.core, r.state, q) ==
               (if Readable(q, t, p, r.written) then Some(Settle(p, r.written)) else None)
            && (Untroubled(k.world) ==> OutcomeOf(r).Done?)
  {
    hide PlanSetup, Steps, Fold, Settle, Quiet, Untroubled, MergeSettles, SoundCalendar, SameMaterial, Telling, EntryOf,
         Readable;
    PreflightExactly(k.core, q, p, s, t);
    ReplanContinues(k, q, t, p);
    if Untroubled(k.world) { UndisturbedRunWritesAll(k, q, t, p); }
  }

  // ------------------------------------------------------- a rerun that is refused

  /** No year is open, and the year to come has a revision pointer without a calendar. */
  function PointerOnly(): State {
    State("/w", "explicit", None, map[], map[], [], map[], map[], map[SCHOOL_YEAR := 1], map[])
  }

  /** Only the year is chosen. */
  function YearOnly(): Choices { Choices(SCHOOL_YEAR, [], [], None, None) }

  function YearOpens(): SetupPlan { SetupPlan(YearPlan(SCHOOL_YEAR, New), [], [], None, None) }

  /** A plan that is applied without a fault and after which planning again is refused. */
  lemma PointerStopsRerun(k: Setting)
    requires Quiet(k.world) && Untroubled(k.world) && k.baseline == map[]
    ensures PlanSetup(k.core, PointerOnly(), YearOnly()) == Some(YearOpens()) && CanApply(YearOpens())
    ensures var r := Fold(k, PointerOnly(), Steps(YearOpens()));
            OutcomeOf(r).Done? && PlanSetup(k.core, r.state, YearOnly()).None?
  {
    hide Fold, Steps, Quiet, Untroubled;
    RostersFit(k.core, PointerOnly(), [], []);
    ClassesFit(map[], [], []);
    UndisturbedRunIsDone(k, YearOnly(), PointerOnly(), YearOpens());
  }

  // -------------------------------------------------------- unreported writes

  /** With nothing mutating before step m, a quiet run in which calls for those steps return
      gets there with nothing changed. */
  lemma {:induction false} KeepsUpTo(k: Setting, q: Choices, s: State, steps: seq<Step>, m: nat)
    requires m <= |steps| && Quiet(k.world)
    requires forall i | 0 <= i < m ::
               Applicable(steps[i]) && Fits(k.core, q, s, steps[i]) && !steps[i].OfStandards?
               && !Mutates(EntryOf(steps[i])) && k.world.succeeds(ReadBack(EntryOf(steps[i])))
    ensures var r := Fold(k, s, steps[..m]); r.state == s && r.changed == [] && r.written == [] && !r.stopped
    decreases m
  {
    hide Fits, Applicable, Holds, EntryOf, Quiet;
    if m > 0 {
      KeepsUpTo(k, q, s, steps, m - 1);
      var x := steps[m - 1];
      assert steps[..m] == steps[..m - 1] + [x];
      FoldSnoc(k, s, steps[..m - 1], x);
      hide Fold;
      QuietKeep(k, q, s, x);
    }
  }

  lemma QuietKeep(k: Setting, q: Choices, s: State, x: Step)
    requires Quiet(k.world) && Fits(k.core, q, s, x) && Applicable(x) && !x.OfStandards?
    requires !Mutates(EntryOf(x)) && k.world.succeeds(ReadBack(EntryOf(x)))
    ensures Do(k, s, x) == Did(s, false, true)
  {
    hide Fits, Holds, EntryOf;
    if EntryOf(x).action != Skip { KeptReadsBack(k.core, q, s, x); }
  }

  /** The run failed without the partial-success error although Core accepted a write. */
  ghost predicate Unreported(core: Core, w: World, s: State, p: SetupPlan) {
    var r := Fold(Setting(core, w, s.library), s, Steps(p));
    OutcomeOf(r).Failed? && r.written != []
  }

  /** Only rosters are left to write, and at least one is. */
  predicate RostersComeFirst(p: SetupPlan) {
    && p.year.fit == Matching && (forall c <- p.classes :: c.fit == Matching)
    && exists r <- p.rosters :: r.action in {Create, Replace}
  }

  /** A plan nothing blocks can lead to an unreported write exactly when the year and every
      class are there already and some roster is to be written. */
  lemma UnreportedPossibleExactly(core: Core, s: State, q: Choices, p: SetupPlan)
    requires PlanSetup(core, s, q) == Some(p) && CanApply(p)
    ensures (exists w :: Unreported(core, w, s, p)) <==> RostersComeFirst(p)
  {
    hide PlanSetup, Steps, Unreported, RostersComeFirst;
    if w :| Unreported(core, w, s, p) { UnreportedMeansRosters(core, w, s, q, p); }
    if RostersComeFirst(p) {
      var m := FirstRoster(core, s, q, p);
      RosterReadBackFails(core, s, q, p, m);
    }
  }

  lemma FirstRoster(core: Core, s: State, q: Choices, p: SetupPlan) returns (m: nat)
    requires PlanSetup(core, s, q) == Some(p) && RostersComeFirst(p)
    ensures m < |Steps(p)| && Steps(p)[m].OfRoster? && Mutates(EntryOf(Steps(p)[m]))
    ensures forall i | 0 <= i < m :: !Mutates(EntryOf(Steps(p)[i])) && !Steps(p)[i].OfStandards?
  {
    hide PlanSetup, Steps, Fits, WellWired, InOrder, RostersComeFirst;
    PlannedAssesses(core, s, q);
    PlannedExactly(core, s, q, p);
    StepsInOrder(p);
    var steps := Steps(p);
    var i := RosterStep(p);
    m := FirstMutating(steps, i);
    RanksRise(steps, m, i);
    MutatingIsRoster(p, steps[m]);
    hide EntryOf;
    forall j | 0 <= j < m ensures !steps[j].OfStandards? { RanksRise(steps, j, m); }
  }

  lemma RosterStep(p: SetupPlan) returns (i: nat)
    requires RostersComeFirst(p)
    ensures i < |Steps(p)| && Steps(p)[i].OfRoster? && Mutates(EntryOf(Steps(p)[i]))
  {
    hide Steps;
    var r :| r in p.rosters && r.action in {Create, Replace};
    StepsAre(p, OfRoster(r));
    i :| 0 <= i < |Steps(p)| && Steps(p)[i] == OfRoster(r);
  }

  lemma MutatingIsRoster(p: SetupPlan, x: Step)
    requires RostersComeFirst(p) && x in Steps(p) && Mutates(EntryOf(x)) && Rank(x) <= 2
    ensures x.OfRoster?
  {
    hide Steps;
    StepsAre(p, x);
  }

  lemma FirstMutating(steps: seq<Step>, i: nat) returns (m: nat)
    requires i < |steps| && Mutates(EntryOf(steps[i]))
    ensures m <= i && Mutates(EntryOf(steps[m])) && forall j | 0 <= j < m :: !Mutates(EntryOf(steps[j]))
  {
    hide Mutates, EntryOf;
    m := 0;
    while !Mutates(EntryOf(steps[m]))
      invariant m <= i && forall j | 0 <= j < m :: !Mutates(EntryOf(steps[j]))
      decreases i - m
    {
      m := m + 1;
    }
  }

  lemma RanksRise(steps: seq<Step>, i: nat, j: nat)
    requires InOrder(steps) && i <= j < |steps|
    ensures Rank(steps[i]) <= Rank(steps[j])
  {
    if i < j { assert Before(steps[i], steps[j]); }
  }

  /** Only the read-back of this entry raises. */
  function OneReadBackFails(e: Entry): World { World(c => c != ReadBack(e), (c, s) => s, _ => 0) }

  lemma RosterReadBackFails(core: Core, s: State, q: Choices, p: SetupPlan, m: nat)
    requires PlanSetup(core, s, q) == Some(p) && CanApply(p)
    requires m < |Steps(p)| && Steps(p)[m].OfRoster? && Mutates(EntryOf(Steps(p)[m]))
    requires forall i | 0 <= i < m :: !Mutates(EntryOf(Steps(p)[i])) && !Steps(p)[i].OfStandards?
    ensures Unreported(core, OneReadBackFails(EntryOf(Steps(p)[m])), s, p)
  {
    hide PlanSetup, Steps, Fold, Fits, Applicable, Do, EntryOf, WellWired;
    var steps, w := Steps(p), OneReadBackFails(EntryOf(Steps(p)[m]));
    var k, x := Setting(core, w, s.library), steps[m];
    PlannedAssesses(core, s, q);
    PlannedExactly(core, s, q, p);
    PlannedIsApplicable(core, s, q, p);
    forall i | 0 <= i <= m ensures Applicable(steps[i]) && Fits(core, q, s, steps[i]) { assert steps[i] in steps; }
    KeepsUpTo(k, q, s, steps, m);
    QuietStep(k, q, s, x);
    assert [] + steps == steps && [] + steps[..m] == steps[..m] && [] + steps[..m + 1] == steps[..m + 1];
    FoldNext(k, s, [], steps, m);
    FoldStopped(k, s, [], steps, m + 1);
  }

  lemma UnreportedMeansRosters(core: Core, w: World, s: State, q: Choices, p: SetupPlan)
    requires PlanSetup(core, s, q) == Some(p) && CanApply(p) && Unreported(core, w, s, p)
    ensures RostersComeFirst(p)
  {
    hide PlanSetup, Steps, Fold, Do;
    var k, steps := Setting(core, w, s.library), Steps(p);
    UnreportedWriteExactly(k, s, steps);
    var m := Passed(k, s, steps);
    WroteMutates(k, Fold(k, s, steps[..m]).state, steps[m]);
    PlannedAssesses(core, s, q);
    PlannedExactly(core, s, q, p);
    StepsInOrder(p);
    StepsAre(p, steps[m]);
    PlannedIsApplicable(core, s, q, p);
    forall x <- steps | x.OfYear? || x.OfClass? ensures !Mutates(EntryOf(x)) {
      var i :| 0 <= i < |steps| && steps[i] == x;
      EarlierKeeps(steps, m, i);
    }
    StepsAre(p, OfYear(p.year));
    forall c <- p.classes ensures c.fit == Matching { StepsAre(p, OfClass(c)); }
  }

  lemma EitherOrder(steps: seq<Step>, i: nat, m: nat)
    requires InOrder(steps) && i < |steps| && m < |steps|
    ensures i < m || i == m || Before(steps[m], steps[i])
  {
  }

  lemma EarlierKeeps(steps: seq<Step>, m: nat, i: nat)
    requires m < |steps| && i < |steps| && InOrder(steps) && steps[m].OfRoster? && Rank(steps[i]) < 2
    requires Mutating(Entries(steps[..m])) == []
    ensures !Mutates(EntryOf(steps[i]))
  {
    hide EntryOf, Mutates;
    EitherOrder(steps, i, m);
    MutatingMembers(Entries(steps[..m]), EntryOf(steps[i]));
    assert Entries(steps[..m])[i] == EntryOf(steps[i]);
  }
}
