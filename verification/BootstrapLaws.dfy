/** What a bootstrap plan is, and what the verifier of an installed composition passes, item
    by item and component by component. */
module BootstrapLaws {
  import opened Wrappers
  import opened Bootstrap
  import opened BootstrapConvergence

  // ---------------------------------------------------------------- inventory

  /** Every item has a name of its own, and a version where one is asked for. */
  predicate Listed(rules: Rules, items: seq<Installed>, versions: bool) {
    && (forall i | 0 <= i < |items| :: rules.normal(items[i].distribution).Some?)
    && (versions ==> forall i | 0 <= i < |items| :: !rules.blank(items[i].version))
    && forall i, j | 0 <= i < j < |items| :: rules.normal(items[i].distribution) != rules.normal(items[j].distribution)
  }

  /** The item is what is installed under this row's name. */
  predicate FoundAt(rules: Rules, items: seq<Installed>, row: Row, i: nat) {
    i < |items| && rules.normal(items[i].distribution) == rules.normal(row.distribution)
  }

  ghost predicate Found(rules: Rules, items: seq<Installed>, row: Row) {
    exists i: nat :: FoundAt(rules, items, row, i)
  }

  /** Exactly this version is installed, and not as an editable checkout. */
  ghost predicate Exact(rules: Rules, items: seq<Installed>, row: Row) {
    exists i: nat :: FoundAt(rules, items, row, i) && !items[i].editable && items[i].version == row.version
  }

  /** The inventory is there exactly then, and files each item under its name. */
  ghost predicate Files(rules: Rules, items: seq<Installed>, inv: Inventory) {
    && (forall i | 0 <= i < |items| ::
          && rules.normal(items[i].distribution).Some? && rules.normal(items[i].distribution).value in inv
          && inv[rules.normal(items[i].distribution).value] == items[i])
    && forall n <- inv :: exists i :: 0 <= i < |items| && rules.normal(items[i].distribution) == Some(n)
  }

  lemma {:induction false} InventoryExactly(rules: Rules, items: seq<Installed>, versions: bool)
    ensures InventoryOf(rules, items, versions).Some? <==> Listed(rules, items, versions)
    ensures InventoryOf(rules, items, versions).Some? ==> Files(rules, items, InventoryOf(rules, items, versions).value)
    decreases |items|
  {
    if items != [] {
      var init, last := items[..|items| - 1], items[|items| - 1];
      InventoryExactly(rules, init, versions);
      ListedLast(rules, init, last, versions);
      assert items == init + [last];
      if InventoryOf(rules, init, versions).Some? && rules.normal(last.distribution).Some? {
        FilesLast(rules, init, last, InventoryOf(rules, init, versions).value);
      }
      hide Listed, Files;
    }
  }

  lemma ListedLast(rules: Rules, init: seq<Installed>, last: Installed, versions: bool)
    ensures Listed(rules, init + [last], versions) <==>
            && Listed(rules, init, versions) && rules.normal(last.distribution).Some?
            && (versions ==> !rules.blank(last.version))
            && forall i | 0 <= i < |init| :: rules.normal(init[i].distribution) != rules.normal(last.distribution)
  {
    var items := init + [last];
    assert items[|init|] == last && forall i | 0 <= i < |init| :: items[i] == init[i];
    if Listed(rules, items, versions) {
      forall i | 0 <= i < |init|
        ensures rules.normal(init[i].distribution).Some?
        ensures rules.normal(init[i].distribution) != rules.normal(last.distribution)
        ensures versions ==> !rules.blank(init[i].version)
      {
        assert rules.normal(items[i].distribution) != rules.normal(items[|init|].distribution);
      }
    }
  }

  lemma FilesLast(rules: Rules, init: seq<Installed>, last: Installed, inv: Inventory)
    requires Files(rules, init, inv) && rules.normal(last.distribution).Some?
    ensures var n := rules.normal(last.distribution).value;
            && (n !in inv <==>
                  forall i | 0 <= i < |init| :: rules.normal(init[i].distribution) != rules.normal(last.distribution))
            && (n !in inv ==> Files(rules, init + [last], inv[n := last]))
  {
    var n, items := rules.normal(last.distribution).value, init + [last];
    assert items[|init|] == last && forall i | 0 <= i < |init| :: items[i] == init[i];
    if n !in inv {
      forall x <- inv[n := last]
        ensures exists i :: 0 <= i < |items| && rules.normal(items[i].distribution) == Some(x)
      {
        if x == n {
          assert rules.normal(items[|init|].distribution) == Some(x);
        } else {
          var i :| 0 <= i < |init| && rules.normal(init[i].distribution) == Some(x);
          assert rules.normal(items[i].distribution) == Some(x);
        }
      }
    }
  }

  // --------------------------------------------------------------------- rows

  /** A named row is kept when exactly it is installed and blocks when anything else is
      under its name; where nothing is, it is installed if needed and skipped otherwise. */
  ghost predicate ActionRight(rules: Rules, items: seq<Installed>, row: Row, a: Action) {
    && (a == Keep <==> Exact(rules, items, row))
    && (a == Blocked <==> Found(rules, items, row) && !Exact(rules, items, row))
    && (a == Install <==> !Found(rules, items, row) && row.needed)
    && (a == Skip <==> !Found(rules, items, row) && !row.needed)
  }

  lemma FoundExactly(rules: Rules, items: seq<Installed>, inv: Inventory, row: Row)
    requires Files(rules, items, inv) && rules.normal(row.distribution).Some?
    ensures var n := rules.normal(row.distribution).value;
            && (n in inv <==> Found(rules, items, row))
            && (Exact(rules, items, row) <==> n in inv && !inv[n].editable && inv[n].version == row.version)
  {
    var n := rules.normal(row.distribution).value;
    if n in inv {
      var i :| 0 <= i < |items| && rules.normal(items[i].distribution) == Some(n);
      assert FoundAt(rules, items, row, i) && inv[n] == items[i];
    }
    forall i: nat | FoundAt(rules, items, row, i) ensures n in inv && inv[n] == items[i] {
      assert rules.normal(items[i].distribution).value in inv;
    }
  }

  lemma ActionExactly(rules: Rules, items: seq<Installed>, inv: Inventory, row: Row, a: Action)
    requires Files(rules, items, inv)
    ensures ActionFor(rules, row, inv) == Some(a) <==>
            rules.normal(row.distribution).Some? && ActionRight(rules, items, row, a)
  {
    hide Found, Exact, Files;
    if rules.normal(row.distribution).Some? { FoundExactly(rules, items, inv, row); }
  }

  /** The row of each component, in the order given. */
  ghost predicate RowsOf(components: seq<Component>, selected: seq<string>, rows: seq<Row>) {
    && |rows| == |components|
    && forall i | 0 <= i < |components| ::
         rows[i] == Row(components[i].id, components[i].distribution, components[i].version,
                        components[i].required || components[i].id in selected)
  }

  lemma RowsAre(components: seq<Component>, selected: seq<string>)
    ensures RowsOf(components, selected, ComponentRows(components, selected))
  {
  }

  lemma {:induction false} OthersOfNone(components: seq<Component>)
    requires forall c <- components :: c.id != "core"
    ensures OtherComponents(components) == components
    decreases |components|
  {
    if components != [] {
      assert components == components[..|components| - 1] + [components[|components| - 1]];
      OthersOfNone(components[..|components| - 1]);
    }
  }

  /** Everything but the one Core, in the manifest's order. */
  lemma OthersAround(components: seq<Component>, k: nat)
    requires k < |components| && components[k].id == "core"
    requires forall i | 0 <= i < |components| :: i != k ==> components[i].id != "core"
    ensures OtherComponents(components) == components[..k] + components[k + 1..]
    ensures FindCore(components) == Some(components[k])
  {
    hide OtherComponents, FindCore;
    CoreFound(components, k);
    var before, core, later := components[..k], components[k], components[k + 1..];
    forall c <- before ensures c.id != "core" { var i :| 0 <= i < k && components[i] == c; }
    forall c <- later ensures c.id != "core" {
      var i :| 0 <= i < |later| && later[i] == c;
      assert components[k + 1 + i] == c;
    }
    assert components == before + [core] + later;
    OthersBeside(before, core, later);
  }

  lemma {:induction false} OthersBeside(before: seq<Component>, core: Component, later: seq<Component>)
    requires core.id == "core" && (forall c <- before :: c.id != "core") && forall c <- later :: c.id != "core"
    ensures OtherComponents(before + [core] + later) == before + later
    decreases |later|
  {
    hide OtherComponents;
    if later == [] {
      OthersOfNone(before);
      OthersSnoc(before, core);
      assert before + [core] + later == before + [core] && before + later == before;
    } else {
      var init, last := later[..|later| - 1], later[|later| - 1];
      OthersBeside(before, core, init);
      OthersSnoc(before + [core] + init, last);
      assert before + [core] + later == before + [core] + init + [last] && before + later == before + init + [last];
    }
  }

  lemma {:induction false} CoreFound(components: seq<Component>, k: nat)
    requires k < |components| && components[k].id == "core"
    requires forall i | 0 <= i < k :: components[i].id != "core"
    ensures FindCore(components) == Some(components[k])
  {
    if k > 0 { CoreFound(components[1..], k - 1); }
  }

  // --------------------------------------------------------------------- plan

  /** The component is one of the manifest's optional ones. */
  predicate Offered(m: Manifest, id: string) {
    exists j :: 0 <= j < |m.components| && m.components[j].id == id && !m.components[j].required
  }

  /** Each chosen component once, and each an optional one. */
  predicate OptionalChosen(m: Manifest, selected: seq<string>) {
    && (forall i, j | 0 <= i < j < |selected| :: selected[i] != selected[j])
    && forall i | 0 <= i < |selected| :: Offered(m, selected[i])
  }

  lemma OfferedExactly(m: Manifest, id: string)
    ensures Offered(m, id) <==> exists c <- m.components :: c.id == id && !c.required
  {
    if c :| c in m.components && c.id == id && !c.required {
      var j :| 0 <= j < |m.components| && m.components[j] == c;
    }
    if j :| 0 <= j < |m.components| && m.components[j].id == id && !m.components[j].required {
      assert m.components[j] in m.components;
    }
  }

  lemma OptionalExactly(m: Manifest, selected: seq<string>)
    ensures Selectable(m, selected) <==> OptionalChosen(m, selected)
  {
    hide Offered;
    if Selectable(m, selected) {
      forall i | 0 <= i < |selected| ensures Offered(m, selected[i]) {
        OfferedExactly(m, selected[i]);
        assert selected[i] in selected;
      }
    }
    if OptionalChosen(m, selected) {
      forall id <- selected ensures exists c <- m.components :: c.id == id && !c.required {
        OfferedExactly(m, id);
        var i :| 0 <= i < |selected| && selected[i] == id;
        assert Offered(m, selected[i]);
      }
    }
  }

  /** The row that is Core's, needed like the suite's own. */
  function CoreRow(c: Component): Row { Row(c.id, c.distribution, c.version, true) }

  /** Core's row, the suite's, and those of the other components in the manifest's order. */
  ghost predicate InOrder(m: Manifest, selected: seq<string>, k: nat, rows: seq<Row>) {
    && k < |m.components| && |rows| == 1 + |m.components| && rows[0] == CoreRow(m.components[k])
    && rows[1] == Row("suite", m.suiteDistribution, m.suiteVersion, true)
    && RowsOf(m.components[..k] + m.components[k + 1..], selected, rows[2..])
  }

  function RowParts(rows: Decided): seq<Row> { seq(|rows|, i requires 0 <= i < |rows| => rows[i].0) }

  /** Two chosen components that need a prerequisite of one id need the same. */
  predicate NeedsAgree(m: Manifest, selected: seq<string>) {
    forall i, j, p, q ::
      && 0 <= i < |m.components| && 0 <= j < |m.components|
      && m.components[i].id in selected && m.components[j].id in selected
      && p in m.components[i].prerequisites && q in m.components[j].prerequisites && p.0 == q.0
      ==> p.1 == q.1
  }

  /** An environment to be made has nothing in it. */
  predicate Snapshot(e: Environment) {
    !e.present ==> e.marker.None? && !e.markerError && e.installed == []
  }

  /** A Python this suite is qualified for, and, in an environment that is there, a virtual
      one marked for this very manifest and suite version. */
  predicate Welcome(rules: Rules, m: Manifest, digest: string, minor: string, e: Environment) {
    && minor in m.minors
    && (e.present ==>
          && e.virtual && !e.markerError && e.marker.Some? && e.marker.value.suiteVersion == m.suiteVersion
          && rules.digest(e.marker.value.manifestSha) == Some(digest))
  }

  /** The plan, in full. */
  ghost predicate PlanRight(rules: Rules, m: Manifest, sha: string, e: Environment, selected: seq<string>, p: Plan) {
    && rules.digest(sha) == Some(p.sha) && rules.minor(e.python).Some?
    && OptionalChosen(m, selected) && "core" !in selected && NeedsAgree(m, selected)
    && Listed(rules, e.installed, true) && Snapshot(e)
    && p.create == !e.present && p.blocked == !Welcome(rules, m, p.sha, rules.minor(e.python).value, e)
    && RowsRight(rules, m, e, selected, p.rows)
  }

  ghost predicate RowsRight(rules: Rules, m: Manifest, e: Environment, selected: seq<string>, rows: Decided) {
    && (exists k: nat ::
          InOrder(m, selected, k, RowParts(rows)) && m.components[k].id == "core" && m.components[k].required)
    && forall i | 0 <= i < |rows| ::
         rules.normal(rows[i].0.distribution).Some? && ActionRight(rules, e.installed, rows[i].0, rows[i].1)
  }

  /** The planner gives a plan exactly when it is this one. */
  lemma BuildPlanExactly(rules: Rules, m: Manifest, sha: string, e: Environment, selected: seq<string>, p: Plan)
    requires Loaded(m)
    ensures BuildPlan(rules, m, sha, e, selected) == Some(p) <==> PlanRight(rules, m, sha, e, selected, p)
  {
    hide Loaded, Selectable, OptionalChosen, InventoryOf, Listed, Actions, Planned, RowsRight, PrerequisitesAgree,
         NeedsAgree, FindCore;
    OptionalExactly(m, selected);
    NeedsExactly(m, selected);
    InventoryExactly(rules, e.installed, true);
    var core := CoreOf(m);
    if InventoryOf(rules, e.installed, true).Some? {
      RowsExactly(rules, m, e, selected, InventoryOf(rules, e.installed, true).value, core, p.rows);
    }
    hide Files;
  }

  /** A plan can be applied exactly in a welcome environment in which nothing else is under a
      row's name, and calls for changes exactly when the environment or a needed package is
      missing. */
  lemma PlanVerdictsExactly(rules: Rules, m: Manifest, sha: string, e: Environment, selected: seq<string>, p: Plan)
    requires Loaded(m) && BuildPlan(rules, m, sha, e, selected) == Some(p) && rules.minor(e.python).Some?
    ensures CanApply(p) <==>
            && Welcome(rules, m, p.sha, rules.minor(e.python).value, e)
            && forall i | 0 <= i < |p.rows| ::
                 Found(rules, e.installed, p.rows[i].0) ==> Exact(rules, e.installed, p.rows[i].0)
    ensures ChangesRequired(p) <==>
            || !e.present
            || exists i :: 0 <= i < |p.rows| && p.rows[i].0.needed && !Found(rules, e.installed, p.rows[i].0)
  {
    hide BuildPlan, Loaded, OptionalChosen, NeedsAgree, Listed, Snapshot, Welcome, InOrder, Found, Exact;
    BuildPlanExactly(rules, m, sha, e, selected, p);
    forall i | 0 <= i < |p.rows| ensures ActionRight(rules, e.installed, p.rows[i].0, p.rows[i].1) {}
    if forall i | 0 <= i < |p.rows| :: p.rows[i].1 != Blocked {
      forall r <- p.rows ensures r.1 != Blocked { var i :| 0 <= i < |p.rows| && p.rows[i] == r; }
    }
    if i :| 0 <= i < |p.rows| && p.rows[i].1 == Install { assert p.rows[i] in p.rows; }
    if i :| 0 <= i < |p.rows| && p.rows[i].1 == Blocked { assert p.rows[i] in p.rows; }
  }

  lemma CoreOf(m: Manifest) returns (k: nat)
    requires Loaded(m)
    ensures k < |m.components| && m.components[k].id == "core" && FindCore(m.components) == Some(m.components[k])
    ensures OtherComponents(m.components) == m.components[..k] + m.components[k + 1..]
    ensures forall i | 0 <= i < |m.components| :: i != k ==> m.components[i].id != "core"
  {
    hide FindCore, OtherComponents;
    k :| 0 <= k < |m.components| && m.components[k].id == "core";
    OthersAround(m.components, k);
  }

  lemma NeedsExactly(m: Manifest, selected: seq<string>)
    ensures PrerequisitesAgree(m, selected) <==> NeedsAgree(m, selected)
  {
    if NeedsAgree(m, selected) {
      forall c, d, p, q | c in m.components && d in m.components && c.id in selected && d.id in selected
                          && p in c.prerequisites && q in d.prerequisites && p.0 == q.0
        ensures p == q
      {
        var i :| 0 <= i < |m.components| && m.components[i] == c;
        var j :| 0 <= j < |m.components| && m.components[j] == d;
        assert p.1 == q.1;
      }
    }
  }

  lemma PlannedInOrder(m: Manifest, selected: seq<string>, k: nat, rows: seq<Row>)
    requires k < |m.components| && OtherComponents(m.components) == m.components[..k] + m.components[k + 1..]
    ensures rows == Planned(m, m.components[k], selected) <==> InOrder(m, selected, k, rows)
  {
    hide OtherComponents;
    var others := m.components[..k] + m.components[k + 1..];
    RowsAre(others, selected);
    var planned := Planned(m, m.components[k], selected);
    assert planned[2..] == ComponentRows(others, selected);
    if InOrder(m, selected, k, rows) {
      assert rows[2..] == planned[2..];
      assert rows == [rows[0], rows[1]] + rows[2..];
    }
  }

  lemma RowsExactly(rules: Rules, m: Manifest, e: Environment, selected: seq<string>, inv: Inventory, k: nat,
                    rows: Decided)
    requires Files(rules, e.installed, inv) && k < |m.components| && m.components[k].id == "core"
    requires forall i | 0 <= i < |m.components| :: i != k ==> m.components[i].id != "core"
    requires OtherComponents(m.components) == m.components[..k] + m.components[k + 1..]
    ensures m.components[k].required && Actions(rules, Planned(m, m.components[k], selected), inv) == Some(rows)
            <==> RowsRight(rules, m, e, selected, rows)
  {
    hide Actions, ActionFor, Planned, InOrder, ActionRight, Files, OtherComponents;
    var planned := Planned(m, m.components[k], selected);
    PlannedInOrder(m, selected, k, RowParts(rows));
    ActionsExactly(rules, e.installed, inv, planned, rows);
    forall j: nat | InOrder(m, selected, j, RowParts(rows))
      ensures j < |m.components| && (m.components[j].id == "core" ==> j == k)
    {
      InOrderNames(m, selected, j, RowParts(rows));
    }
  }

  lemma InOrderNames(m: Manifest, selected: seq<string>, k: nat, rows: seq<Row>)
    requires InOrder(m, selected, k, rows)
    ensures k < |m.components|
  {
  }

  lemma ActionsExactly(rules: Rules, items: seq<Installed>, inv: Inventory, planned: seq<Row>, rows: Decided)
    requires Files(rules, items, inv)
    ensures Actions(rules, planned, inv) == Some(rows) <==>
            RowParts(rows) == planned
            && forall i | 0 <= i < |rows| ::
                 rules.normal(rows[i].0.distribution).Some? && ActionRight(rules, items, rows[i].0, rows[i].1)
  {
    hide Actions, ActionFor, ActionRight, Files;
    ActionsEach(rules, planned, inv);
    forall i | 0 <= i < |rows|
      ensures ActionFor(rules, rows[i].0, inv) == Some(rows[i].1) <==>
              rules.normal(rows[i].0.distribution).Some? && ActionRight(rules, items, rows[i].0, rows[i].1)
    {
      ActionExactly(rules, items, inv, rows[i].0, rows[i].1);
    }
    if Actions(rules, planned, inv) == Some(rows) { assert RowParts(rows) == planned; }
    if RowParts(rows) == planned && forall i | 0 <= i < |rows| :: ActionFor(rules, rows[i].0, inv) == Some(rows[i].1) {
      forall r <- planned ensures ActionFor(rules, r, inv).Some? {
        var i :| 0 <= i < |planned| && planned[i] == r;
        assert rows[i].0 == r;
      }
      forall i | 0 <= i < |rows| ensures rows[i] == Actions(rules, planned, inv).value[i] {
        assert RowParts(rows)[i] == rows[i].0;
      }
      assert Actions(rules, planned, inv).value == rows;
    }
  }

  // ----------------------------------------------------------------- verifier

  /** The suite's row first and then every component's, in the manifest's order. */
  ghost predicate ExpectedRows(m: Manifest, selected: seq<string>, rows: seq<Row>) {
    && |rows| == 1 + |m.components| && rows[0] == Row("suite", m.suiteDistribution, m.suiteVersion, true)
    && RowsOf(m.components, selected, rows[1..])
  }

  /** Every row that is needed is exactly installed, and no other is there in any other way. */
  ghost predicate AllAsExpected(rules: Rules, items: seq<Installed>, rows: seq<Row>) {
    forall i | 0 <= i < |rows| ::
      && rules.normal(rows[i].distribution).Some?
      && (Exact(rules, items, rows[i]) || (!Found(rules, items, rows[i]) && !rows[i].needed))
  }

  /** An environment verifies exactly when it is there, virtual, of a qualified Python, for
      optional components, and has every package as expected; the rows it answers with are
      those installed, in order. */
  lemma VerifiesExactly(rules: Rules, m: Manifest, e: Environment, selected: seq<string>, rows: seq<Row>)
    requires ExpectedRows(m, selected, rows)
    ensures VerifyInstalled(rules, m, e, selected).Some? <==>
            && e.present && e.virtual && rules.minor(e.python).Some? && rules.minor(e.python).value in m.minors
            && OptionalChosen(m, selected) && Listed(rules, e.installed, false)
            && AllAsExpected(rules, e.installed, rows)
    ensures VerifyInstalled(rules, m, e, selected).Some? ==>
              VerifyInstalled(rules, m, e, selected).value == Those(rules, e.installed, rows)
  {
    hide Selectable, OptionalChosen, InventoryOf, Listed, VerifyRows, Expected, AllAsExpected, Files, Those;
    OptionalExactly(m, selected);
    InventoryExactly(rules, e.installed, false);
    ExpectedAre(m, selected, rows);
    if InventoryOf(rules, e.installed, false).Some? {
      AsExpectedExactly(rules, e.installed, InventoryOf(rules, e.installed, false).value, rows);
    }
  }

  lemma ExpectedAre(m: Manifest, selected: seq<string>, rows: seq<Row>)
    requires ExpectedRows(m, selected, rows)
    ensures rows == Expected(m, selected)
  {
    RowsAre(m.components, selected);
    assert rows[1..] == ComponentRows(m.components, selected);
    assert rows == [rows[0]] + rows[1..];
  }

  /** Those of the rows that are exactly installed. */
  ghost function Those(rules: Rules, items: seq<Installed>, rows: seq<Row>): seq<Row> {
    if rows == [] then []
    else
      Those(rules, items, rows[..|rows| - 1])
      + if Exact(rules, items, rows[|rows| - 1]) then [rows[|rows| - 1]] else []
  }

  lemma {:induction false} AsExpectedExactly(rules: Rules, items: seq<Installed>, inv: Inventory, rows: seq<Row>)
    requires Files(rules, items, inv)
    ensures VerifyRows(rules, rows, inv).Some? <==> AllAsExpected(rules, items, rows)
    ensures VerifyRows(rules, rows, inv).Some? ==> VerifyRows(rules, rows, inv).value == Those(rules, items, rows)
    decreases |rows|
  {
    hide Exact, Found, Files;
    if rows != [] {
      var init, last := rows[..|rows| - 1], rows[|rows| - 1];
      AsExpectedExactly(rules, items, inv, init);
      if rules.normal(last.distribution).Some? { FoundExactly(rules, items, inv, last); }
      assert rows == init + [last];
      assert AllAsExpected(rules, items, rows) <==>
             && AllAsExpected(rules, items, init) && rules.normal(last.distribution).Some?
             && (Exact(rules, items, last) || (!Found(rules, items, last) && !last.needed));
      ExactIsFound(rules, items, last);
    }
  }

  lemma ExactIsFound(rules: Rules, items: seq<Installed>, row: Row)
    ensures Exact(rules, items, row) ==> Found(rules, items, row)
  {
  }
}
