/** Applying a reviewed setup plan: ordered writes to Core, each read back, and what is
    reported of a run that stops part-way.

    Any call may raise, and others may change Core before any call. A write that raises
    wrote nothing, and Core's own protections refuse to overwrite. */
module ClassroomApply {
  import opened Wrappers
  import opened ClassroomPlanning
  import opened ClassroomPreflight

  datatype Area = SchoolYear | Class | Rosters | Standards | Periods

  datatype Entry = Entry(area: Area, action: Action, subject: string)

  function EntryOf(x: Step): Entry {
    match x
    case OfYear(y) => Entry(SchoolYear, if y.fit == New then Open else Keep, y.year)
    case OfClass(c) => Entry(Class, if c.fit == New then Create else Keep, c.id)
    case OfRoster(r) => Entry(Rosters, r.action, r.id)
    case OfStandards(st) => Entry(Standards, st.action, st.pack)
    case OfPeriods(p) => Entry(Periods, p.action, p.year)
  }

  /** An ineligible step raises as soon as it is reached. */
  predicate Eligible(x: Step) {
    match x
    case OfYear(_) => true
    case OfClass(_) => true
    case OfRoster(r) => r.action in {Create, Replace, Keep}
    case OfStandards(st) => st.action in {Install, Keep}
    case OfPeriods(p) => p.action == Skip || (p.action in {Create, Keep} && p.candidate.Some?)
  }

  predicate Mutates(e: Entry) { e.action in {Open, Create, Replace, Install} }

  /** What is noted as changed: the entry, with the revision for a new calendar. */
  function Noted(e: Entry): Entry { if e.area == Periods then e.(subject := e.subject + ":revision-1") else e }

  // -------------------------------------------------------------- Core's part

  datatype Call = Clock(entry: Entry) | Prepare(entry: Entry) | Write(entry: Entry) | ReadBack(entry: Entry)

  /** Which calls return, what others do to Core just before a call, and the clock. */
  datatype World = World(succeeds: Call -> bool, meanwhile: (Call, State) -> State, clock: Entry -> nat)

  /** A run's surroundings, with the standards library the preflight saw. */
  datatype Setting = Setting(core: Core, world: World, baseline: Library)

  function MetadataOf(s: State, id: string): Option<Metadata> {
    if id in s.folders then s.folders[id].metadata else None
  }

  /** The metadata a class is written with, or expected to have. */
  function Expected(c: ClassPlan): Metadata {
    if c.fit == New then Metadata(c.id, c.year, c.candidate.details) else c.candidate
  }

  /** Core's protection of what is there, and its checks of the reviewed tokens. */
  predicate Guard(k: Setting, s: State, x: Step) {
    match x
    case OfYear(_) => Active(s.year).None?
    case OfClass(c) => MetadataOf(s, c.id).None?
    case OfRoster(r) => RosterUnmoved(k.core, s, r)
    case OfStandards(st) => st.pack in s.starters && !k.core.merge(k.baseline, s.starters[st.pack]).conflicts
    case OfPeriods(p) => p.candidate.Some? && p.year !in s.revisions
  }

  function Effect(k: Setting, s: State, x: Step): State
    requires Guard(k, s, x)
  {
    match x
    case OfYear(y) => s.(year := Some(YearState(y.year, k.world.clock(EntryOf(x)), None)))
    case OfClass(c) => s.(folders := s.folders[c.id := Folder(Some(Expected(c)), RosterOf(s, c.id))])
    case OfRoster(r) => s.(folders := s.folders[r.id := Folder(MetadataOf(s, r.id), Some(s.files[r.path]))])
    case OfStandards(st) => s.(library := k.core.merge(k.baseline, s.starters[st.pack]).candidate)
    case OfPeriods(p) =>
      s.(calendars := s.calendars[p.year := p.candidate.value],
         revisions := s.revisions[p.year := p.candidate.value.revision])
  }

  /** The read-back of a step; a committed roster is the one its file held at the write. */
  predicate Holds(core: Core, written: State, s: State, x: Step) {
    match x
    case OfYear(y) => Active(s.year) == Some(y.year)
    case OfClass(c) => MetadataOf(s, c.id) == Some(Expected(c))
    case OfRoster(r) =>
      if r.action == Keep then RosterUnmoved(core, s, r)
      else
        && r.path in written.files
        && var v := PreviewOf(core, s, r.id, written.files[r.path]);
           v.Some? && v.value.currentToken == r.candidateToken && v.value.candidateToken == r.candidateToken
           && v.value.added == 0 && v.value.changed == 0 && v.value.removed == 0
    case OfStandards(st) => s.library == st.candidate
    case OfPeriods(p) => p.candidate.Some? && CalendarOf(s, p.year) == (p.candidate, Some(p.candidate.value.revision))
  }

  /** What a step waits for before it writes: the clock, the metadata built for it, the
      committer being there, or the library being the one the preflight saw. */
  predicate Ready(k: Setting, s: State, x: Step) {
    var e := EntryOf(x);
    match x
    case OfYear(_) => k.world.succeeds(Clock(e))
    case OfClass(_) => k.world.succeeds(Clock(e)) && k.world.succeeds(Prepare(e))
    case OfRoster(_) => k.world.succeeds(Prepare(e))
    case OfStandards(_) => k.world.succeeds(Prepare(e)) && s.library == k.baseline
    case OfPeriods(_) => true
  }

  /** One step: the state it leaves, whether it wrote, and whether it was completed. */
  datatype Did = Did(after: State, wrote: bool, passed: bool)

  function Do(k: Setting, s: State, x: Step): Did {
    var e, w := EntryOf(x), k.world;
    if !Eligible(x) then Did(s, false, false)
    else if e.action == Skip then Did(s, false, true)
    else if !Mutates(e) then
      var s' := w.meanwhile(ReadBack(e), s);
      Did(s', false, w.succeeds(ReadBack(e)) && Holds(k.core, s', s', x))
    else
      var s1 := w.meanwhile(Prepare(e), s);
      var s2 := w.meanwhile(Write(e), s1);
      if !Ready(k, s1, x) then Did(s1, false, false)
      else if !w.succeeds(Write(e)) || !Guard(k, s2, x) then Did(s2, false, false)
      else
        var s3 := w.meanwhile(ReadBack(e), Effect(k, s2, x));
        Did(s3, true, w.succeeds(ReadBack(e)) && Holds(k.core, s2, s3, x))
  }

  /** A roster commit is noted only once verified; every other write as soon as it returns. */
  predicate Notes(x: Step, d: Did) { d.wrote && (x.OfRoster? ==> d.passed) }

  // --------------------------------------------------------------------- run

  datatype Progress = Progress(
    state: State, completed: seq<Entry>, changed: seq<Entry>, written: seq<Entry>, stopped: bool)

  function Advance(k: Setting, p: Progress, x: Step): Progress {
    if p.stopped then p
    else
      var d, e := Do(k, p.state, x), EntryOf(x);
      Progress(d.after,
               p.completed + if d.passed then [e] else [],
               p.changed + if Notes(x, d) then [Noted(e)] else [],
               p.written + if d.wrote then [e] else [],
               !d.passed)
  }

  function Start(s: State): Progress { Progress(s, [], [], [], false) }

  function Fold(k: Setting, s: State, steps: seq<Step>): Progress
    decreases |steps|
  {
    if steps == [] then Start(s) else Advance(k, Fold(k, s, steps[..|steps| - 1]), steps[|steps| - 1])
  }

  datatype Outcome = Done(completed: seq<Entry>, changed: seq<Entry>)
                   | PartialSuccess(completed: seq<Entry>, changed: seq<Entry>)
                   | Failed

  function OutcomeOf(p: Progress): Outcome {
    if !p.stopped then Done(p.completed, p.changed)
    else if p.changed != [] then PartialSuccess(p.completed, p.changed) else Failed
  }

  /** The run itself, on Core's tables; written is what Core has accepted so far. */
  class SetupRun {
    const setting: Setting
    var state: State
    var completed: seq<Entry>
    var changed: seq<Entry>
    var written: seq<Entry>
    var stopped: bool

    constructor (setting: Setting, state: State)
      ensures this.setting == setting && Now() == Start(state)
    {
      this.setting, this.state := setting, state;
      completed, changed, written, stopped := [], [], [], false;
    }

    function Now(): Progress
      reads this
    {
      Progress(state, completed, changed, written, stopped)
    }

    /** Others may act before any call to Core. */
    method Reach(c: Call) returns (returned: bool)
      modifies `state
      ensures returned == setting.world.succeeds(c) && state == setting.world.meanwhile(c, old(state))
    {
      state := setting.world.meanwhile(c, state);
      returned := setting.world.succeeds(c);
    }

    method Commit(x: Step) returns (returned: bool)
      modifies `state, `written
      ensures var s := setting.world.meanwhile(Write(EntryOf(x)), old(state));
              if setting.world.succeeds(Write(EntryOf(x))) && Guard(setting, s, x) then
                returned && state == Effect(setting, s, x) && written == old(written) + [EntryOf(x)]
              else !returned && state == s && written == old(written)
    {
      hide Guard, Effect;
      returned := Reach(Write(EntryOf(x)));
      returned := returned && Guard(setting, state, x);
      if returned {
        state, written := Effect(setting, state, x), written + [EntryOf(x)];
      }
    }

    method ApplyYear(y: YearPlan)
      requires !stopped
      modifies this
      ensures Now() == Advance(setting, old(Now()), OfYear(y))
    {
      hide Guard, Effect;
      var x := OfYear(y);
      var e := EntryOf(x);
      stopped := true;
      if y.fit == New {
        var ok := Reach(Prepare(e));
        if !setting.world.succeeds(Clock(e)) { return; }
        ok := Commit(x);
        if !ok { return; }
        changed := changed + [e];
      }
      var ok := Reach(ReadBack(e));
      if !ok || !Holds(setting.core, state, state, x) { return; }
      completed, stopped := completed + [e], false;
    }

    method ApplyClass(c: ClassPlan)
      requires !stopped
      modifies this
      ensures Now() == Advance(setting, old(Now()), OfClass(c))
    {
      hide Guard, Effect;
      var x := OfClass(c);
      var e := EntryOf(x);
      stopped := true;
      if c.fit == New {
        var ok := Reach(Prepare(e));
        if !setting.world.succeeds(Clock(e)) || !ok { return; }
        ok := Commit(x);
        if !ok { return; }
        changed := changed + [e];
      }
      var ok := Reach(ReadBack(e));
      if !ok || !Holds(setting.core, state, state, x) { return; }
      completed, stopped := completed + [e], false;
    }

    method ApplyRoster(r: RosterPlan)
      requires !stopped
      modifies this
      ensures Now() == Advance(setting, old(Now()), OfRoster(r))
    {
      hide Guard, PreviewOf, RosterUnmoved;
      var x := OfRoster(r);
      var e := EntryOf(x);
      stopped := true;
      if r.action in {Create, Replace} {
        var ok := Reach(Prepare(e));
        if !ok { return; }
        ok := Commit(x);
        if !ok { return; }
        var committed := state;
        ok := Reach(ReadBack(e));
        if !ok || !Holds(setting.core, committed, state, x) { return; }
        changed := changed + [e];
      } else if r.action == Keep {
        var ok := Reach(ReadBack(e));
        if !ok || !Holds(setting.core, state, state, x) { return; }
      } else {
        return;
      }
      completed, stopped := completed + [e], false;
    }

    method ApplyStandards(st: StandardsPlan)
      requires !stopped
      modifies this
      ensures Now() == Advance(setting, old(Now()), OfStandards(st))
    {
      hide Guard, Effect;
      var x := OfStandards(st);
      var e := EntryOf(x);
      stopped := true;
      if st.action == Install {
        var ok := Reach(Prepare(e));
        if !ok || state.library != setting.baseline { return; }
        ok := Commit(x);
        if !ok { return; }
        changed := changed + [e];
      } else if st.action != Keep {
        return;
      }
      var ok := Reach(ReadBack(e));
      if !ok || !Holds(setting.core, state, state, x) { return; }
      completed, stopped := completed + [e], false;
    }

    method ApplyPeriods(p: PeriodPlan)
      requires !stopped
      modifies this
      ensures Now() == Advance(setting, old(Now()), OfPeriods(p))
    {
      hide Guard, Effect;
      var x := OfPeriods(p);
      var e := EntryOf(x);
      stopped := true;
      if p.action == Create {
        if p.candidate.None? { return; }
        var ok := Reach(Prepare(e));
        ok := Commit(x);
        if !ok { return; }
        changed := changed + [Noted(e)];
      } else if p.action == Skip {
        completed, stopped := completed + [e], false;
        return;
      } else if p.action != Keep || p.candidate.None? {
        return;
      }
      var ok := Reach(ReadBack(e));
      if !ok || !Holds(setting.core, state, state, x) { return; }
      completed, stopped := completed + [e], false;
    }

    /** Every part in order, stopping at the first failure. */
    method Execute(p: SetupPlan) returns (outcome: Outcome)
      requires Now() == Start(state)
      modifies this
      ensures Now() == Fold(setting, old(state), Steps(p)) && outcome == OutcomeOf(Now())
    {
      hide Advance, Do;
      ghost var s, k, steps := state, setting, [OfYear(p.year)];
      FoldSnoc(k, s, [], OfYear(p.year));
      ApplyYear(p.year);
      var i := 0;
      assert steps + ClassSteps(p.classes)[..0] == steps;
      while !stopped && i < |p.classes|
        invariant 0 <= i <= |p.classes| && Now() == Fold(k, s, steps + ClassSteps(p.classes)[..i])
      {
        ApplyClass(p.classes[i]);
        FoldNext(k, s, steps, ClassSteps(p.classes), i);
        i := i + 1;
      }
      FoldStopped(k, s, steps, ClassSteps(p.classes), i);
      steps, i := steps + ClassSteps(p.classes), 0;
      assert steps + RosterSteps(p.rosters)[..0] == steps;
      while !stopped && i < |p.rosters|
        invariant 0 <= i <= |p.rosters| && Now() == Fold(k, s, steps + RosterSteps(p.rosters)[..i])
      {
        ApplyRoster(p.rosters[i]);
        FoldNext(k, s, steps, RosterSteps(p.rosters), i);
        i := i + 1;
      }
      FoldStopped(k, s, steps, RosterSteps(p.rosters), i);
      steps := steps + RosterSteps(p.rosters);
      if p.standards.Some? {
        FoldSnoc(k, s, steps, OfStandards(p.standards.value));
        if stopped {
          AdvanceStopped(k, Now(), OfStandards(p.standards.value));
        } else {
          ApplyStandards(p.standards.value);
        }
        steps := steps + [OfStandards(p.standards.value)];
      } else {
        assert steps + [] == steps;
      }
      if p.periods.Some? {
        FoldSnoc(k, s, steps, OfPeriods(p.periods.value));
        if stopped {
          AdvanceStopped(k, Now(), OfPeriods(p.periods.value));
        } else {
          ApplyPeriods(p.periods.value);
        }
      } else {
        assert steps + [] == steps;
      }
      outcome := OutcomeOf(Now());
    }
  }

  lemma FoldSnoc(k: Setting, s: State, steps: seq<Step>, x: Step)
    ensures Fold(k, s, steps + [x]) == Advance(k, Fold(k, s, steps), x)
    ensures Fold(k, s, []) == Start(s) && [] + [x] == [x]
  {
    assert (steps + [x])[..|steps|] == steps;
  }

  lemma FoldNext(k: Setting, s: State, steps: seq<Step>, more: seq<Step>, i: nat)
    requires i < |more|
    ensures Fold(k, s, steps + more[..i + 1]) == Advance(k, Fold(k, s, steps + more[..i]), more[i])
  {
    FoldSnoc(k, s, steps + more[..i], more[i]);
    assert steps + more[..i + 1] == steps + more[..i] + [more[i]];
  }

  lemma AdvanceStopped(k: Setting, p: Progress, x: Step)
    requires p.stopped
    ensures Advance(k, p, x) == p
  {
  }

  /** Once stopped, the remaining steps change nothing. */
  lemma {:induction false} FoldStopped(k: Setting, s: State, steps: seq<Step>, more: seq<Step>, i: nat)
    requires i <= |more| && (i == |more| || Fold(k, s, steps + more[..i]).stopped)
    ensures Fold(k, s, steps + more) == Fold(k, s, steps + more[..i])
    decreases |more| - i
  {
    hide Advance;
    if i < |more| {
      FoldNext(k, s, steps, more, i);
      AdvanceStopped(k, Fold(k, s, steps + more[..i]), more[i]);
      FoldStopped(k, s, steps, more, i + 1);
    } else {
      assert more[..i] == more;
    }
  }

  // ------------------------------------------------------------- bookkeeping

  function Entries(steps: seq<Step>): seq<Entry> {
    seq(|steps|, i requires 0 <= i < |steps| => EntryOf(steps[i]))
  }

  function Mutating(entries: seq<Entry>): seq<Entry> {
    if entries == [] then []
    else
      var last := entries[|entries| - 1];
      Mutating(entries[..|entries| - 1]) + if Mutates(last) then [last] else []
  }

  function NotedAll(entries: seq<Entry>): seq<Entry> {
    seq(|entries|, i requires 0 <= i < |entries| => Noted(entries[i]))
  }

  /** How many steps were completed. */
  function Passed(k: Setting, s: State, steps: seq<Step>): nat { |Fold(k, s, steps).completed| }

  /** What the step after the first m does, from where those leave Core. */
  function DidAt(k: Setting, s: State, steps: seq<Step>, m: nat): Did
    requires m < |steps|
  {
    Do(k, Fold(k, s, steps[..m]).state, steps[m])
  }

  /** The bookkeeping of the first m steps, all completed. */
  ghost predicate Clean(p: Progress, steps: seq<Step>) {
    var done := Entries(steps);
    p.completed == done && p.changed == NotedAll(Mutating(done)) && p.written == Mutating(done) && !p.stopped
  }

  lemma {:induction false} CleanOrStopped(k: Setting, s: State, steps: seq<Step>)
    ensures var p := Fold(k, s, steps);
            if p.stopped then
              var m := |p.completed|;
              m < |steps| && Clean(Fold(k, s, steps[..m]), steps[..m]) && !DidAt(k, s, steps, m).passed
              && p == Advance(k, Fold(k, s, steps[..m]), steps[m])
            else Clean(p, steps)
    decreases |steps|
  {
    hide Do, Mutates, Noted;
    if steps != [] {
      var init, x := steps[..|steps| - 1], steps[|steps| - 1];
      assert steps == init + [x];
      FoldSnoc(k, s, init, x);
      CleanOrStopped(k, s, init);
      var p := Fold(k, s, init);
      if p.stopped {
        assert steps[..|p.completed|] == init[..|p.completed|];
      } else {
        OneMoreClean(k, s, init, x);
        assert steps[..|init|] == init && |Entries(init)| == |init|;
      }
    }
  }

  lemma OneMoreClean(k: Setting, s: State, init: seq<Step>, x: Step)
    requires Clean(Fold(k, s, init), init)
    ensures var p := Advance(k, Fold(k, s, init), x);
            if p.stopped then p.completed == Entries(init) && !Do(k, Fold(k, s, init).state, x).passed
            else Clean(p, init + [x])
  {
    hide Fold, Mutating, Noted;
    assert Entries(init + [x]) == Entries(init) + [EntryOf(x)];
    MutatingOneMore(Entries(init), EntryOf(x));
    NotedOneMore(Mutating(Entries(init)), EntryOf(x));
    if Do(k, Fold(k, s, init).state, x).passed { PassedWrites(k, Fold(k, s, init).state, x); }
    hide Do, Mutates, NotedAll, Entries;
  }

  lemma PassedWrites(k: Setting, s: State, x: Step)
    requires Do(k, s, x).passed
    ensures Do(k, s, x).wrote == Mutates(EntryOf(x))
  {
    hide Guard, Effect, Holds, Ready;
  }

  lemma MutatingOneMore(entries: seq<Entry>, e: Entry)
    ensures Mutating(entries + [e]) == Mutating(entries) + if Mutates(e) then [e] else []
  {
    assert (entries + [e])[..|entries|] == entries;
  }

  lemma NotedOneMore(entries: seq<Entry>, e: Entry)
    ensures NotedAll(entries + [e]) == NotedAll(entries) + [Noted(e)] && entries + [] == entries
    ensures NotedAll(entries + []) == NotedAll(entries) + []
  {
    hide Noted;
    assert entries + [] == entries;
  }

  /** Wherever a run stops: what is completed is the plan's prefix of passing steps, what
      is noted as changed, and what was written, are that prefix's mutations and at most
      the one of the step that failed. */
  lemma Bookkeeping(k: Setting, s: State, steps: seq<Step>)
    ensures var p, m := Fold(k, s, steps), Passed(k, s, steps);
            && m <= |steps| && p.stopped == (m < |steps|)
            && var done := Entries(steps[..m]);
            && p.completed == done
            && p.changed == NotedAll(Mutating(done))
                            + (if m < |steps| && Notes(steps[m], DidAt(k, s, steps, m))
                               then [Noted(EntryOf(steps[m]))] else [])
            && p.written == Mutating(done)
                            + (if m < |steps| && DidAt(k, s, steps, m).wrote then [EntryOf(steps[m])] else [])
  {
    hide Notes, Noted, NotedAll, Mutating, Fold, Do;
    CleanOrStopped(k, s, steps);
    assert steps[..|steps|] == steps;
    var done := Entries(steps[..Passed(k, s, steps)]);
    assert done + [] == done && Mutating(done) + [] == Mutating(done);
    assert NotedAll(Mutating(done)) + [] == NotedAll(Mutating(done));
  }

  /** A stopped run reports partial success exactly when something was noted as changed. */
  lemma ReportedExactly(k: Setting, s: State, steps: seq<Step>)
    ensures var p := Fold(k, s, steps);
            && (OutcomeOf(p).Done? <==> Passed(k, s, steps) == |steps|)
            && (OutcomeOf(p).PartialSuccess? <==> Passed(k, s, steps) < |steps| && p.changed != [])
  {
    hide Fold, Notes, Entries;
    Bookkeeping(k, s, steps);
  }

  /** The error for partial success is meant for every failure after a successful write.
      It is missing in exactly one case: nothing was noted before, and the step that
      failed is a roster commit Core accepted but that did not read back as reviewed. */
  lemma UnreportedWriteExactly(k: Setting, s: State, steps: seq<Step>)
    ensures var p, m := Fold(k, s, steps), Passed(k, s, steps);
            OutcomeOf(p).Failed? && p.written != [] <==>
            m < |steps| && Mutating(Entries(steps[..m])) == [] && steps[m].OfRoster? && DidAt(k, s, steps, m).wrote
  {
    hide Do, Noted, Mutating, Entries;
    Bookkeeping(k, s, steps);
    CleanOrStopped(k, s, steps);
    hide Fold;
    NotedNone(Mutating(Entries(steps[..Passed(k, s, steps)])));
  }

  lemma NotedNone(entries: seq<Entry>)
    ensures NotedAll(entries) == [] <==> entries == []
  {
    hide Noted;
    assert |NotedAll(entries)| == |entries|;
  }

  // -------------------------------------------------------------- eligibility

  /** A plan the planners made, once nothing blocks it, has no step that is not eligible. */
  lemma PlannedIsEligible(core: Core, s: State, q: Choices, p: SetupPlan)
    requires PlanSetup(core, s, q) == Some(p) && CanApply(p)
    ensures forall x <- Steps(p) :: Eligible(x)
  {
    hide PlanFor, PreviewOf, Steps, CalendarOf;
    PlannedAssesses(core, s, q);
    PlannedExactly(core, s, q, p);
    hide PlanSetup;
    forall x <- Steps(p) ensures Eligible(x) {
      StepsAre(p, x);
      assert Fits(core, q, s, x);
    }
  }

  /** A whole application, refused before the first write unless the preflight passes; the
      standards library it saw is the one later installs start from. */
  method ExecuteSetupPlan(core: Core, world: World, reviewed: Assessment, p: SetupPlan, s: State)
    returns (outcome: Outcome, after: State, written: seq<Entry>)
    ensures !Preflight(core, reviewed, p, s) ==> outcome == Failed && after == s && written == []
    ensures Preflight(core, reviewed, p, s) ==>
              var q := Fold(Setting(core, world, s.library), s, Steps(p));
              outcome == OutcomeOf(q) && after == q.state && written == q.written
  {
    if !Preflight(core, reviewed, p, s) { return Failed, s, []; }
    var run := new SetupRun(Setting(core, world, s.library), s);
    outcome := run.Execute(p);
    after, written := run.state, run.written;
  }
}
