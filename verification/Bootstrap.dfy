/** The bootstrap plan for one environment, and the separate check of an installed
    composition that the plan must agree with.

    Name normalization, digest normalization and version parsing are given functions. */
module Bootstrap {
  import opened Wrappers

  datatype Component = Component(
    id: string, distribution: string, version: string, required: bool, prerequisites: seq<(string, string)>)

  datatype Manifest = Manifest(
    suiteDistribution: string, suiteVersion: string, minors: seq<string>, components: seq<Component>)

  datatype Installed = Installed(distribution: string, version: string, editable: bool)

  datatype Marker = Marker(suiteVersion: string, manifestSha: string)

  datatype Environment = Environment(
    present: bool, virtual: bool, python: string, marker: Option<Marker>, markerError: bool, installed: seq<Installed>)

  datatype Rules = Rules(
    normal: string -> Option<string>,   // normalized distribution name; None when blank
    blank: string -> bool,
    minor: string -> Option<string>,    // MAJOR.MINOR of a concrete version
    digest: string -> Option<string>)   // normalized SHA-256

  /** What loading a manifest guarantees: one required Core, and each component id once. */
  predicate Loaded(m: Manifest) {
    && (exists c <- m.components :: c.id == "core")
    && (forall c <- m.components :: c.id != "suite")
    && forall i, j | 0 <= i < j < |m.components| :: m.components[i].id != m.components[j].id
  }

  // --------------------------------------------------------------- selection

  predicate Selectable(m: Manifest, selected: seq<string>) {
    && (forall i, j | 0 <= i < j < |selected| :: selected[i] != selected[j])
    && forall id <- selected :: exists c <- m.components :: c.id == id && !c.required
  }

  /** One package the suite has a word on: needed now, or only if already there. */
  datatype Row = Row(id: string, distribution: string, version: string, needed: bool)

  function RowOf(c: Component, selected: seq<string>): Row {
    Row(c.id, c.distribution, c.version, c.required || c.id in selected)
  }

  function SuiteRow(m: Manifest): Row { Row("suite", m.suiteDistribution, m.suiteVersion, true) }

  function ComponentRows(components: seq<Component>, selected: seq<string>): (rows: seq<Row>)
    ensures |rows| == |components|
  {
    seq(|components|, i requires 0 <= i < |components| => RowOf(components[i], selected))
  }

  /** Suite first, then the components in manifest order: the verifier's list. */
  function Expected(m: Manifest, selected: seq<string>): seq<Row> {
    [SuiteRow(m)] + ComponentRows(m.components, selected)
  }

  function FindCore(components: seq<Component>): (c: Option<Component>)
    ensures c.Some? ==> c.value in components && c.value.id == "core"
    ensures c.None? ==> forall x <- components :: x.id != "core"
  {
    if components == [] then None
    else if components[0].id == "core" then Some(components[0]) else FindCore(components[1..])
  }

  function OtherComponents(components: seq<Component>): (others: seq<Component>)
    ensures forall c :: c in others <==> c in components && c.id != "core"
  {
    if components == [] then []
    else
      var earlier, last := OtherComponents(components[..|components| - 1]), components[|components| - 1];
      assert components == components[..|components| - 1] + [last];
      if last.id == "core" then earlier else earlier + [last]
  }

  /** Core, the suite, and then the other components: the planner's list. */
  function Planned(m: Manifest, core: Component, selected: seq<string>): seq<Row> {
    [Row(core.id, core.distribution, core.version, true), SuiteRow(m)]
        + ComponentRows(OtherComponents(m.components), selected)
  }

  // --------------------------------------------------------------- inventory

  type Inventory = map<string, Installed>

  /** Installed packages by normalized name; None on a blank name, a repeated one, or,
      for the planner, a blank version. */
  function InventoryOf(rules: Rules, items: seq<Installed>, versions: bool): Option<Inventory> {
    if items == [] then Some(map[])
    else
      var earlier, last := InventoryOf(rules, items[..|items| - 1], versions), items[|items| - 1];
      var name := rules.normal(last.distribution);
      if earlier.None? || name.None? || (versions && rules.blank(last.version)) || name.value in earlier.value then None
      else Some(earlier.value[name.value := last])
  }

  method ReadInstalled(rules: Rules, items: seq<Installed>, versions: bool) returns (found: Option<Inventory>)
    ensures found == InventoryOf(rules, items, versions)
  {
    var result: Inventory, i := map[], 0;
    while i < |items|
      invariant 0 <= i <= |items| && InventoryOf(rules, items[..i], versions) == Some(result)
    {
      assert items[..i + 1][..i] == items[..i];
      var name := rules.normal(items[i].distribution);
      if name.None? || (versions && rules.blank(items[i].version)) || name.value in result {
        StaysBad(rules, items, i + 1, versions);
        return None;
      }
      result, i := result[name.value := items[i]], i + 1;
    }
    assert items[..i] == items;
    found := Some(result);
  }

  lemma {:induction false} StaysBad(rules: Rules, items: seq<Installed>, i: nat, versions: bool)
    requires i <= |items| && InventoryOf(rules, items[..i], versions).None?
    ensures InventoryOf(rules, items, versions).None?
    decreases |items|
  {
    if i < |items| {
      assert items[..|items| - 1][..i] == items[..i];
      StaysBad(rules, items[..|items| - 1], i, versions);
    } else {
      assert items[..i] == items;
    }
  }

  // -------------------------------------------------------------------- plan

  datatype Action = Keep | Install | Skip | Blocked

  /** None when the row's own name is blank. */
  function ActionFor(rules: Rules, row: Row, installed: Inventory): Option<Action> {
    var name := rules.normal(row.distribution);
    if name.None? then None
    else if name.value !in installed then Some(if row.needed then Install else Skip)
    else
      var found := installed[name.value];
      Some(if !found.editable && found.version == row.version then Keep else Blocked)
  }

  /** Whether the environment itself stands in the way; None for a snapshot that cannot be. */
  function EnvironmentBlocked(rules: Rules, m: Manifest, sha: string, e: Environment, minor: string): Option<bool> {
    var qualified := minor in m.minors;
    if !e.present then
      if e.marker.Some? || e.markerError || e.installed != [] then None else Some(!qualified)
    else
      var matching := !e.markerError && e.marker.Some? && rules.digest(e.marker.value.manifestSha) == Some(sha)
                      && e.marker.value.suiteVersion == m.suiteVersion;
      Some(!(qualified && e.virtual && matching))
  }

  /** No prerequisite id is defined in two ways among the selected components. */
  predicate PrerequisitesAgree(m: Manifest, selected: seq<string>) {
    forall c, d, p, q | c in m.components && d in m.components && c.id in selected && d.id in selected
                        && p in c.prerequisites && q in d.prerequisites :: p.0 == q.0 ==> p == q
  }

  datatype Plan = Plan(sha: string, create: bool, blocked: bool, rows: seq<(Row, Action)>)

  predicate CanApply(p: Plan) { !p.blocked && forall r <- p.rows :: r.1 != Blocked }

  predicate ChangesRequired(p: Plan) { p.create || exists r <- p.rows :: r.1 == Install }

  function Actions(rules: Rules, rows: seq<Row>, installed: Inventory): Option<seq<(Row, Action)>> {
    if rows == [] then Some([])
    else
      var earlier := Actions(rules, rows[..|rows| - 1], installed);
      var last := ActionFor(rules, rows[|rows| - 1], installed);
      if earlier.None? || last.None? then None else Some(earlier.value + [(rows[|rows| - 1], last.value)])
  }

  function BuildPlan(rules: Rules, m: Manifest, sha: string, e: Environment, selected: seq<string>): Option<Plan> {
    var digest, minor := rules.digest(sha), rules.minor(e.python);
    if digest.None? || minor.None? || !Selectable(m, selected) || "core" in selected then None
    else
      var installed := InventoryOf(rules, e.installed, true);
      var blocked := EnvironmentBlocked(rules, m, digest.value, e, minor.value);
      var core := FindCore(m.components);
      if installed.None? || blocked.None? || core.None? || !core.value.required then None
      else
        var rows := Actions(rules, Planned(m, core.value, selected), installed.value);
        if rows.None? || !PrerequisitesAgree(m, selected) then None
        else Some(Plan(digest.value, !e.present, blocked.value, rows.value))
  }

  method PlanPackages(rules: Rules, m: Manifest, core: Component, selected: seq<string>, installed: Inventory)
    returns (rows: Option<seq<(Row, Action)>>)
    ensures rows == Actions(rules, Planned(m, core, selected), installed)
  {
    hide ActionFor, Actions, Planned;
    var todo := Planned(m, core, selected);
    var done: seq<(Row, Action)>, i := [], 0;
    NoRows(rules, installed);
    while i < |todo|
      invariant 0 <= i <= |todo| && Actions(rules, todo[..i], installed) == Some(done)
    {
      OneMoreRow(rules, todo, i, installed);
      var action := ActionFor(rules, todo[i], installed);
      if action.None? {
        NoAction(rules, todo, i + 1, installed);
        return None;
      }
      done, i := done + [(todo[i], action.value)], i + 1;
    }
    assert todo[..i] == todo;
    rows := Some(done);
  }

  lemma NoRows(rules: Rules, installed: Inventory)
    ensures Actions(rules, [], installed) == Some([])
  {
  }

  lemma OneMoreRow(rules: Rules, rows: seq<Row>, i: nat, installed: Inventory)
    requires i < |rows| && Actions(rules, rows[..i], installed).Some?
    ensures var action := ActionFor(rules, rows[i], installed);
            Actions(rules, rows[..i + 1], installed) ==
            if action.None? then None else Some(Actions(rules, rows[..i], installed).value + [(rows[i], action.value)])
  {
    hide ActionFor;
    assert rows[..i + 1][..i] == rows[..i];
  }

  lemma {:induction false} NoAction(rules: Rules, rows: seq<Row>, i: nat, installed: Inventory)
    requires i <= |rows| && Actions(rules, rows[..i], installed).None?
    ensures Actions(rules, rows, installed).None?
    decreases |rows|
  {
    hide ActionFor;
    if i < |rows| {
      assert rows[..|rows| - 1][..i] == rows[..i];
      NoAction(rules, rows[..|rows| - 1], i, installed);
    } else {
      assert rows[..i] == rows;
    }
  }

  // ------------------------------------------------------------ verification

  /** What the verifier makes of one expected row; None refuses the environment. */
  function Verified(rules: Rules, row: Row, installed: Inventory): Option<bool> {
    var name := rules.normal(row.distribution);
    if name.None? then None
    else if name.value !in installed then if row.needed then None else Some(false)
    else if installed[name.value].editable || installed[name.value].version != row.version then None
    else Some(true)
  }

  function VerifyRows(rules: Rules, rows: seq<Row>, installed: Inventory): Option<seq<Row>> {
    if rows == [] then Some([])
    else
      var earlier := VerifyRows(rules, rows[..|rows| - 1], installed);
      var last := Verified(rules, rows[|rows| - 1], installed);
      if earlier.None? || last.None? then None
      else if last.value then Some(earlier.value + [rows[|rows| - 1]]) else earlier
  }

  function VerifyInstalled(rules: Rules, m: Manifest, e: Environment, selected: seq<string>): Option<seq<Row>> {
    var minor := rules.minor(e.python);
    if !e.present || !e.virtual || minor.None? || minor.value !in m.minors || !Selectable(m, selected) then None
    else
      var installed := InventoryOf(rules, e.installed, false);
      if installed.None? then None else VerifyRows(rules, Expected(m, selected), installed.value)
  }

  method VerifyEach(rules: Rules, rows: seq<Row>, installed: Inventory) returns (verified: Option<seq<Row>>)
    ensures verified == VerifyRows(rules, rows, installed)
  {
    hide Verified;
    var found: seq<Row>, i := [], 0;
    while i < |rows|
      invariant 0 <= i <= |rows| && VerifyRows(rules, rows[..i], installed) == Some(found)
    {
      assert rows[..i + 1][..i] == rows[..i];
      var v := Verified(rules, rows[i], installed);
      if v.None? {
        NotVerified(rules, rows, i + 1, installed);
        return None;
      }
      if v.value { found := found + [rows[i]]; }
      i := i + 1;
    }
    assert rows[..i] == rows;
    verified := Some(found);
  }

  lemma {:induction false} NotVerified(rules: Rules, rows: seq<Row>, i: nat, installed: Inventory)
    requires i <= |rows| && VerifyRows(rules, rows[..i], installed).None?
    ensures VerifyRows(rules, rows, installed).None?
    decreases |rows|
  {
    hide Verified;
    if i < |rows| {
      assert rows[..|rows| - 1][..i] == rows[..i];
      NotVerified(rules, rows[..|rows| - 1], i, installed);
    } else {
      assert rows[..i] == rows;
    }
  }
}
