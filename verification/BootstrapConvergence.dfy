/** Applying a bootstrap plan satisfies the verifier, and leaves nothing more to plan,
    exactly when the manifest's rows do not clash after name normalization. */
module BootstrapConvergence {
  import opened Wrappers
  import opened Bootstrap

  type Decided = seq<(Row, Action)>

  function Fresh(row: Row): Installed { Installed(row.distribution, row.version, false) }

  /** The packages a plan installs, in its order. */
  function ToInstall(rows: Decided): seq<Installed> {
    if rows == [] then []
    else
      var last := rows[|rows| - 1];
      ToInstall(rows[..|rows| - 1]) + if last.1 == Install then [Fresh(last.0)] else []
  }

  /** The environment after a plan is applied: a new one is created with its marker. */
  function Applied(m: Manifest, p: Plan, e: Environment): Environment {
    Environment(true, true, e.python, if e.present then e.marker else Some(Marker(m.suiteVersion, p.sha)), false,
                e.installed + ToInstall(p.rows))
  }

  // ------------------------------------------------------------- row by row

  lemma {:induction false} ActionsEach(rules: Rules, rows: seq<Row>, installed: Inventory)
    ensures Actions(rules, rows, installed).Some? <==> forall r <- rows :: ActionFor(rules, r, installed).Some?
    ensures Actions(rules, rows, installed).Some? ==>
              var decided := Actions(rules, rows, installed).value;
              |decided| == |rows|
              && forall i | 0 <= i < |rows| ::
                   decided[i].0 == rows[i] && ActionFor(rules, rows[i], installed) == Some(decided[i].1)
    decreases |rows|
  {
    hide ActionFor;
    if rows != [] {
      var init := rows[..|rows| - 1];
      assert rows == init + [rows[|rows| - 1]];
      ActionsEach(rules, init, installed);
    }
  }

  lemma {:induction false} VerifiedEach(rules: Rules, rows: seq<Row>, installed: Inventory)
    ensures VerifyRows(rules, rows, installed).Some? <==> forall r <- rows :: Verified(rules, r, installed).Some?
    decreases |rows|
  {
    hide Verified;
    if rows != [] {
      assert rows == rows[..|rows| - 1] + [rows[|rows| - 1]];
      VerifiedEach(rules, rows[..|rows| - 1], installed);
    }
  }

  /** The verifier passes a row exactly when the planner would keep or skip it. */
  lemma RowAgrees(rules: Rules, row: Row, installed: Inventory)
    ensures Verified(rules, row, installed).Some? <==> ActionFor(rules, row, installed) in {Some(Keep), Some(Skip)}
  {
  }

  lemma OthersDistinct(components: seq<Component>)
    requires forall i, j | 0 <= i < j < |components| :: components[i].id != components[j].id
    ensures var others := OtherComponents(components);
            forall i, j | 0 <= i < j < |others| :: others[i].id != others[j].id
    decreases |components|
  {
    if components != [] {
      var init, last := components[..|components| - 1], components[|components| - 1];
      OthersDistinct(init);
      forall c <- OtherComponents(init) ensures c.id != last.id {
        var i :| 0 <= i < |init| && init[i] == c;
        assert components[i] == c;
      }
    }
  }

  lemma PlannedAt(m: Manifest, core: Component, selected: seq<string>, i: nat)
    requires Loaded(m) && i + 2 < |Planned(m, core, selected)|
    ensures var c := OtherComponents(m.components)[i];
            && Planned(m, core, selected)[i + 2] == RowOf(c, selected) && c in m.components && c.id != "core"
                && c.id != "suite"
  {
    assert OtherComponents(m.components)[i] in OtherComponents(m.components);
  }

  /** No two rows of a plan are the same. */
  lemma PlannedDistinct(m: Manifest, core: Component, selected: seq<string>)
    requires Loaded(m) && core.id == "core"
    ensures var rows := Planned(m, core, selected);
            forall i, j | 0 <= i < j < |rows| :: rows[i] != rows[j]
  {
    OthersDistinct(m.components);
    var rows, others := Planned(m, core, selected), OtherComponents(m.components);
    forall i, j | 0 <= i < j < |rows| ensures rows[i].id != rows[j].id {
      if i >= 2 { PlannedAt(m, core, selected, i - 2); }
      if j >= 2 { PlannedAt(m, core, selected, j - 2); }
      assert i >= 2 ==> others[i - 2].id != others[j - 2].id;
    }
  }

  lemma ComponentExpected(m: Manifest, c: Component, selected: seq<string>)
    requires c in m.components
    ensures RowOf(c, selected) in Expected(m, selected) && SuiteRow(m) in Expected(m, selected)
  {
    var j :| 0 <= j < |m.components| && m.components[j] == c;
    assert Expected(m, selected)[j + 1] == RowOf(c, selected) && Expected(m, selected)[0] == SuiteRow(m);
  }

  lemma PlannedIsExpected(m: Manifest, core: Component, selected: seq<string>, i: nat)
    requires Loaded(m) && core in m.components && core.id == "core" && core.required && i < |Planned(m, core, selected)|
    ensures Planned(m, core, selected)[i] in Expected(m, selected)
  {
    hide Expected, OtherComponents, Loaded, ComponentRows;
    ComponentExpected(m, core, selected);
    if i >= 2 {
      PlannedAt(m, core, selected, i - 2);
      ComponentExpected(m, OtherComponents(m.components)[i - 2], selected);
    }
  }

  lemma ExpectedIsPlanned(m: Manifest, core: Component, selected: seq<string>, j: nat)
    requires Loaded(m) && core in m.components && core.id == "core" && core.required && j < |Expected(m, selected)|
    ensures Expected(m, selected)[j] in Planned(m, core, selected)
  {
    var planned := Planned(m, core, selected);
    if j == 0 {
      assert planned[1] == SuiteRow(m);
    } else if m.components[j - 1].id == "core" {
      var k :| 0 <= k < |m.components| && m.components[k] == core;
      assert k == j - 1 && planned[0] == RowOf(core, selected);
    } else {
      var c, others := m.components[j - 1], OtherComponents(m.components);
      assert c in others;
      var i :| 0 <= i < |others| && others[i] == c;
      assert planned[i + 2] == RowOf(c, selected);
    }
  }

  /** The planner and the verifier look at the same rows. */
  lemma SameRows(m: Manifest, core: Component, selected: seq<string>)
    requires Loaded(m) && core in m.components && core.id == "core" && core.required
    ensures forall r :: r in Planned(m, core, selected) <==> r in Expected(m, selected)
  {
    var planned, expected := Planned(m, core, selected), Expected(m, selected);
    forall r | r in planned ensures r in expected {
      var i :| 0 <= i < |planned| && planned[i] == r;
      PlannedIsExpected(m, core, selected, i);
    }
    forall r | r in expected ensures r in planned {
      var j :| 0 <= j < |expected| && expected[j] == r;
      ExpectedIsPlanned(m, core, selected, j);
    }
  }

  // --------------------------------------------------------------- inventory

  /** Every decision follows from the row and what was installed; rows are distinct. */
  ghost predicate Decides(rules: Rules, rows: Decided, installed: Inventory) {
    && (forall x <- rows :: ActionFor(rules, x.0, installed) == Some(x.1))
    && forall i, j | 0 <= i < j < |rows| :: rows[i].0 != rows[j].0
  }

  predicate SameName(rules: Rules, a: Row, b: Row) { rules.normal(a.distribution) == rules.normal(b.distribution) }

  /** A package to install shares its normalized name only with rows that install nothing
      and want that same version. */
  predicate Apart(rules: Rules, x: (Row, Action), y: (Row, Action)) {
    x.1 == Install && x.0 != y.0 && SameName(rules, x.0, y.0) ==> y.1 != Install && y.0.version == x.0.version
  }

  ghost predicate NoClash(rules: Rules, rows: Decided) { forall x <- rows, y <- rows :: Apart(rules, x, y) }

  /** inv' is inv with the packages these rows install. */
  ghost predicate Adds(rules: Rules, inv: Inventory, rows: Decided, inv': Inventory) {
    && (forall n <- inv.Keys :: n in inv' && inv'[n] == inv[n])
    && (forall x <- rows | x.1 == Install :: Holds(rules, inv', x.0))
    && forall n <- inv'.Keys :: n in inv || InstalledBy(rules, rows, n)
  }

  predicate Holds(rules: Rules, inv: Inventory, row: Row) {
    var n := rules.normal(row.distribution);
    n.Some? && n.value in inv && inv[n.value] == Fresh(row)
  }

  predicate InstalledBy(rules: Rules, rows: Decided, n: string) {
    exists x <- rows :: x.1 == Install && rules.normal(x.0.distribution) == Some(n)
  }

  ghost predicate InstallsApart(rules: Rules, rows: Decided) {
    forall i, j | 0 <= i < j < |rows| && rows[i].1 == Install && rows[j].1 == Install ::
      !SameName(rules, rows[i].0, rows[j].0)
  }

  predicate Stated(rules: Rules, rows: Decided) { forall x <- rows :: !rules.blank(x.0.version) }

  lemma InitParts(rules: Rules, rows: Decided)
    requires rows != []
    ensures var init := rows[..|rows| - 1];
            && (InstallsApart(rules, rows) ==> InstallsApart(rules, init))
                && (Stated(rules, rows) ==> Stated(rules, init))
            && rows == init + [rows[|rows| - 1]]
  {
    hide SameName;
    var init := rows[..|rows| - 1];
    forall i, j | InstallsApart(rules, rows) && 0 <= i < j < |init| && init[i].1 == Install && init[j].1 == Install
      ensures !SameName(rules, init[i].0, init[j].0)
    {
      assert init[i] == rows[i] && init[j] == rows[j];
    }
  }

  lemma AddsNothing(rules: Rules, inv: Inventory)
    ensures Adds(rules, inv, [], inv)
  {
  }

  /** One more installed package at the end of the list. */
  lemma InstallLast(rules: Rules, items: seq<Installed>, rows: Decided, more: Inventory, versions: bool)
    requires rows != [] && rows[|rows| - 1].1 == Install
    requires InventoryOf(rules, items + ToInstall(rows[..|rows| - 1]), versions) == Some(more)
    requires var n := rules.normal(rows[|rows| - 1].0.distribution); n.Some? && n.value !in more
    requires versions ==> !rules.blank(rows[|rows| - 1].0.version)
    ensures InventoryOf(rules, items + ToInstall(rows), versions)
            == Some(more[rules.normal(rows[|rows| - 1].0.distribution).value := Fresh(rows[|rows| - 1].0)])
  {
    hide InventoryOf;
    var init, last := rows[..|rows| - 1], rows[|rows| - 1];
    assert ToInstall(rows) == ToInstall(init) + [Fresh(last.0)];
    assert items + ToInstall(rows) == (items + ToInstall(init)) + [Fresh(last.0)];
    hide ToInstall;
    OneMore(rules, items + ToInstall(init), Fresh(last.0), more, versions);
  }

  lemma OneMore(rules: Rules, items: seq<Installed>, x: Installed, more: Inventory, versions: bool)
    requires InventoryOf(rules, items, versions) == Some(more)
    requires rules.normal(x.distribution).Some? && rules.normal(x.distribution).value !in more
    requires versions ==> !rules.blank(x.version)
    ensures InventoryOf(rules, items + [x], versions) == Some(more[rules.normal(x.distribution).value := x])
  {
    var all := items + [x];
    assert all[..|all| - 1] == items && all[|all| - 1] == x;
  }

  /** Distinct new names extend the inventory by exactly the installed packages. */
  lemma {:induction false} InstallsAdd(rules: Rules, items: seq<Installed>, inv: Inventory, rows: Decided,
                                       versions: bool)
    returns (inv': Inventory)
    requires InventoryOf(rules, items, versions) == Some(inv) && InstallsApart(rules, rows)
    requires forall x <- rows :: ActionFor(rules, x.0, inv) == Some(x.1)
    requires versions ==> Stated(rules, rows)
    ensures InventoryOf(rules, items + ToInstall(rows), versions) == Some(inv') && Adds(rules, inv, rows, inv')
    decreases |rows|
  {
    hide Adds, ActionFor, InventoryOf, InstallsApart, Stated;
    if rows == [] {
      assert items + [] == items;
      AddsNothing(rules, inv);
      inv' := inv;
    } else {
      var init, last := rows[..|rows| - 1], rows[|rows| - 1];
      InitParts(rules, rows);
      var more := InstallsAdd(rules, items, inv, init, versions);
      if last.1 == Install {
        NameIsNew(rules, inv, init, last, more);
        if versions { LastStated(rules, rows); }
        InstallLast(rules, items, rows, more, versions);
        inv' := more[rules.normal(last.0.distribution).value := Fresh(last.0)];
        AddsOne(rules, inv, init, last, more);
      } else {
        assert ToInstall(rows) == ToInstall(init);
        inv' := more;
        AddsNone(rules, inv, init, last, more);
      }
    }
  }

  lemma LastStated(rules: Rules, rows: Decided)
    requires rows != [] && Stated(rules, rows)
    ensures !rules.blank(rows[|rows| - 1].0.version)
  {
  }

  lemma NotInstalledBefore(rules: Rules, init: Decided, last: (Row, Action), n: string)
    requires InstallsApart(rules, init + [last]) && last.1 == Install && rules.normal(last.0.distribution) == Some(n)
    ensures !InstalledBy(rules, init, n)
  {
    forall x <- init | x.1 == Install ensures rules.normal(x.0.distribution) != Some(n) {
      var i :| 0 <= i < |init| && init[i] == x;
      assert (init + [last])[i] == x && (init + [last])[|init|] == last;
    }
  }

  lemma NameIsNew(rules: Rules, inv: Inventory, init: Decided, last: (Row, Action), more: Inventory)
    requires Adds(rules, inv, init, more) && InstallsApart(rules, init + [last])
    requires last.1 == Install && ActionFor(rules, last.0, inv) == Some(Install)
    ensures rules.normal(last.0.distribution).Some? && rules.normal(last.0.distribution).value !in more
  {
    NotInstalledBefore(rules, init, last, rules.normal(last.0.distribution).value);
    hide InstalledBy, InstallsApart;
  }

  lemma AddsOne(rules: Rules, inv: Inventory, init: Decided, last: (Row, Action), more: Inventory)
    requires Adds(rules, inv, init, more) && last.1 == Install
    requires rules.normal(last.0.distribution).Some? && rules.normal(last.0.distribution).value !in more
    ensures Adds(rules, inv, init + [last], more[rules.normal(last.0.distribution).value := Fresh(last.0)])
  {
    var n := rules.normal(last.0.distribution).value;
    var inv' := more[n := Fresh(last.0)];
    forall x <- init + [last] | x.1 == Install ensures Holds(rules, inv', x.0) {
      if x in init { assert Holds(rules, more, x.0); }
    }
    forall k <- inv'.Keys ensures k in inv || InstalledBy(rules, init + [last], k) {
      if k == n { assert last in init + [last]; }
      else if k !in inv {
        assert InstalledBy(rules, init, k);
        var x :| x in init && x.1 == Install && rules.normal(x.0.distribution) == Some(k);
        assert x in init + [last];
      }
    }
  }

  lemma AddsNone(rules: Rules, inv: Inventory, init: Decided, last: (Row, Action), more: Inventory)
    requires Adds(rules, inv, init, more) && last.1 != Install
    ensures Adds(rules, inv, init + [last], more)
  {
    forall k <- more.Keys ensures k in inv || InstalledBy(rules, init + [last], k) {
      if k !in inv {
        assert InstalledBy(rules, init, k);
        var x :| x in init && x.1 == Install && rules.normal(x.0.distribution) == Some(k);
        assert x in init + [last];
      }
    }
  }

  /** A name installed twice leaves no inventory at all. */
  lemma {:induction false} RepeatedInstall(rules: Rules, items: seq<Installed>, rows: Decided, versions: bool)
    requires !InstallsApart(rules, rows)
    ensures InventoryOf(rules, items + ToInstall(rows), versions).None?
    decreases |rows|
  {
    var init, last := rows[..|rows| - 1], rows[|rows| - 1];
    assert rows == init + [last];
    var all := items + ToInstall(rows);
    if last.1 == Install {
      assert all == (items + ToInstall(init)) + [Fresh(last.0)];
      assert all[..|all| - 1] == items + ToInstall(init);
    } else {
      assert ToInstall(rows) == ToInstall(init);
    }
    if InstallsApart(rules, init) {
      var i :| 0 <= i < |init| && init[i].1 == Install && last.1 == Install && SameName(rules, init[i].0, last.0);
      InstalledNames(rules, items, init, versions, i);
    } else {
      RepeatedInstall(rules, items, init, versions);
    }
  }

  lemma {:induction false} InstalledNames(rules: Rules, items: seq<Installed>, rows: Decided, versions: bool, i: nat)
    requires i < |rows| && rows[i].1 == Install
    ensures var inv := InventoryOf(rules, items + ToInstall(rows), versions);
            inv.Some? ==>
              rules.normal(rows[i].0.distribution).Some?
              && rules.normal(rows[i].0.distribution).value in inv.value
    decreases |rows|
  {
    var init, last := rows[..|rows| - 1], rows[|rows| - 1];
    var all := items + ToInstall(rows);
    if last.1 == Install {
      assert all == (items + ToInstall(init)) + [Fresh(last.0)];
      assert all[..|all| - 1] == items + ToInstall(init);
    } else {
      assert ToInstall(rows) == ToInstall(init);
    }
    if i < |init| { InstalledNames(rules, items, init, versions, i); }
  }

  // -------------------------------------------------------------- agreement

  /** With the new packages in place a row is verified, if it was not blocked and clashes
      with nothing installed. */
  lemma RowPasses(rules: Rules, inv: Inventory, rows: Decided, inv': Inventory, y: (Row, Action))
    requires Decides(rules, rows, inv) && Adds(rules, inv, rows, inv') && y in rows && y.1 != Blocked
    requires forall x <- rows :: Apart(rules, x, y)
    ensures Verified(rules, y.0, inv').Some?
  {
    assert ActionFor(rules, y.0, inv) == Some(y.1);
    var n := rules.normal(y.0.distribution).value;
    if y.1 == Install {
      assert Holds(rules, inv', y.0);
    } else if y.1 == Skip && n in inv' {
      assert InstalledBy(rules, rows, n);
      var x :| x in rows && x.1 == Install && rules.normal(x.0.distribution) == Some(n);
      assert Holds(rules, inv', x.0) && Apart(rules, x, y) && ActionFor(rules, x.0, inv) == Some(x.1);
    }
  }

  /** A row verified beside an installed package of its name wants that package's version. */
  lemma PassingIsApart(rules: Rules, inv: Inventory, rows: Decided, inv': Inventory, x: (Row, Action), y: (Row, Action))
    requires Adds(rules, inv, rows, inv') && x in rows && y in rows && InstallsApart(rules, rows)
             && Decides(rules, rows, inv)
    requires Verified(rules, y.0, inv').Some?
    ensures Apart(rules, x, y)
  {
    NotBothInstall(rules, rows, x, y);
    hide InstallsApart, Decides;
    if x.1 == Install && x.0 != y.0 && SameName(rules, x.0, y.0) { assert Holds(rules, inv', x.0); }
  }

  lemma NotBothInstall(rules: Rules, rows: Decided, x: (Row, Action), y: (Row, Action))
    requires InstallsApart(rules, rows) && x in rows && y in rows
    ensures x.1 == Install && x.0 != y.0 && SameName(rules, x.0, y.0) ==> y.1 != Install
  {
    var i :| 0 <= i < |rows| && rows[i] == x;
    var j :| 0 <= j < |rows| && rows[j] == y;
    InstalledPair(rules, rows, i, j);
  }

  lemma InstalledPair(rules: Rules, rows: Decided, i: nat, j: nat)
    requires InstallsApart(rules, rows) && i < |rows| && j < |rows|
    ensures i != j && rows[i].1 == Install && rows[j].1 == Install ==> !SameName(rules, rows[i].0, rows[j].0)
  {
    if j < i { assert SameName(rules, rows[j].0, rows[i].0) == SameName(rules, rows[i].0, rows[j].0); }
  }

  lemma NoClashApart(rules: Rules, rows: Decided, inv: Inventory)
    requires NoClash(rules, rows) && Decides(rules, rows, inv)
    ensures InstallsApart(rules, rows)
  {
    forall i, j | 0 <= i < j < |rows| && rows[i].1 == Install && rows[j].1 == Install
      ensures !SameName(rules, rows[i].0, rows[j].0)
    {
      assert Apart(rules, rows[i], rows[j]);
    }
  }

  /** After the installs, every row is verified if and only if no rows clash. */
  lemma RowsPassExactly(rules: Rules, items: seq<Installed>, inv: Inventory, rows: Decided, versions: bool)
    requires InventoryOf(rules, items, versions) == Some(inv) && Decides(rules, rows, inv)
    requires (forall x <- rows :: x.1 != Blocked) && (versions ==> Stated(rules, rows))
    ensures var after := InventoryOf(rules, items + ToInstall(rows), versions);
            (after.Some? && forall y <- rows :: Verified(rules, y.0, after.value).Some?) <==> NoClash(rules, rows)
  {
    hide Verified, ActionFor, Apart, Stated, SameName;
    if InstallsApart(rules, rows) {
      hide InstallsApart;
      var inv' := InstallsAdd(rules, items, inv, rows, versions);
      if NoClash(rules, rows) {
        forall y <- rows ensures Verified(rules, y.0, inv').Some? { RowPasses(rules, inv, rows, inv', y); }
      }
      if forall y <- rows :: Verified(rules, y.0, inv').Some? {
        forall x <- rows, y <- rows ensures Apart(rules, x, y) { PassingIsApart(rules, inv, rows, inv', x, y); }
      }
    } else {
      RepeatedInstall(rules, items, rows, versions);
      if NoClash(rules, rows) { NoClashApart(rules, rows, inv); }
    }
  }

  // ------------------------------------------------------------ main results

  lemma {:induction false} LaxToo(rules: Rules, items: seq<Installed>)
    requires InventoryOf(rules, items, true).Some?
    ensures InventoryOf(rules, items, false) == InventoryOf(rules, items, true)
    decreases |items|
  {
    if items != [] { LaxToo(rules, items[..|items| - 1]); }
  }

  lemma PlanParts(rules: Rules, m: Manifest, sha: string, e: Environment, selected: seq<string>)
    returns (core: Component, installed: Inventory, minor: string)
    requires BuildPlan(rules, m, sha, e, selected).Some?
    ensures core in m.components && core.id == "core" && core.required && Selectable(m, selected)
    ensures InventoryOf(rules, e.installed, true) == Some(installed) && rules.minor(e.python) == Some(minor)
    ensures var p := BuildPlan(rules, m, sha, e, selected).value;
            && Actions(rules, Planned(m, core, selected), installed) == Some(p.rows)
            && rules.digest(sha) == Some(p.sha) && p.create == !e.present
            && EnvironmentBlocked(rules, m, p.sha, e, minor) == Some(p.blocked)
            && FindCore(m.components) == Some(core) && "core" !in selected && PrerequisitesAgree(m, selected)
  {
    hide Actions, InventoryOf, EnvironmentBlocked, Selectable, PrerequisitesAgree, Planned;
    core := FindCore(m.components).value;
    installed := InventoryOf(rules, e.installed, true).value;
    minor := rules.minor(e.python).value;
  }

  lemma PlanDecides(rules: Rules, m: Manifest, core: Component, selected: seq<string>, installed: Inventory,
                    rows: Decided)
    requires Loaded(m) && core in m.components && core.id == "core" && core.required
    requires Actions(rules, Planned(m, core, selected), installed) == Some(rows)
    ensures Decides(rules, rows, installed) && |rows| == |Planned(m, core, selected)|
    ensures forall i | 0 <= i < |rows| :: rows[i].0 == Planned(m, core, selected)[i]
  {
    hide ActionFor, Loaded;
    var planned := Planned(m, core, selected);
    PlannedDistinct(m, core, selected);
    ActionsEach(rules, planned, installed);
    hide Planned, Actions;
    forall x <- rows ensures ActionFor(rules, x.0, installed) == Some(x.1) {
      var i :| 0 <= i < |rows| && rows[i] == x;
    }
    forall i, j | 0 <= i < j < |rows| ensures rows[i].0 != rows[j].0 {
      assert planned[i] != planned[j];
    }
  }

  /** Verifying the rows one list has is verifying the rows the other has. */
  lemma SameVerdict(rules: Rules, m: Manifest, core: Component, selected: seq<string>, rows: Decided,
                    installed: Inventory)
    requires Loaded(m) && core in m.components && core.id == "core" && core.required
    requires |rows| == |Planned(m, core, selected)|
             && forall i | 0 <= i < |rows| :: rows[i].0 == Planned(m, core, selected)[i]
    ensures VerifyRows(rules, Expected(m, selected), installed).Some?
            <==> forall y <- rows :: Verified(rules, y.0, installed).Some?
  {
    hide Verified;
    SameRows(m, core, selected);
    var planned := Planned(m, core, selected);
    VerifiedEach(rules, Expected(m, selected), installed);
    hide Planned, Expected, VerifyRows, Loaded;
    if forall y <- rows :: Verified(rules, y.0, installed).Some? {
      forall r <- planned ensures Verified(rules, r, installed).Some? {
        var i :| 0 <= i < |planned| && planned[i] == r;
        assert rows[i] in rows;
      }
    }
    forall y <- rows ensures y.0 in planned {
      var i :| 0 <= i < |rows| && rows[i] == y;
      assert planned[i] == y.0;
    }
  }

  lemma AppliedUnblocked(rules: Rules, m: Manifest, p: Plan, e: Environment, minor: string)
    requires EnvironmentBlocked(rules, m, p.sha, e, minor) == Some(false) && p.create == !e.present
    ensures minor in m.minors && (!e.present ==> e.installed == [])
    ensures rules.digest(p.sha) == Some(p.sha)
            ==> EnvironmentBlocked(rules, m, p.sha, Applied(m, p, e), minor) == Some(false)
  {
  }

  /** A plan that can be applied leads to an installed composition the verifier accepts
      if and only if its rows do not clash after name normalization. */
  lemma AppliedVerifiesExactly(rules: Rules, m: Manifest, sha: string, e: Environment, selected: seq<string>)
    requires Loaded(m) && BuildPlan(rules, m, sha, e, selected).Some?
             && CanApply(BuildPlan(rules, m, sha, e, selected).value)
    ensures var p := BuildPlan(rules, m, sha, e, selected).value;
            VerifyInstalled(rules, m, Applied(m, p, e), selected).Some? <==> NoClash(rules, p.rows)
  {
    hide BuildPlan, Loaded, EnvironmentBlocked, NoClash, VerifyRows, Verified, Actions, Planned, Expected,
         Selectable, InventoryOf;
    var p := BuildPlan(rules, m, sha, e, selected).value;
    var core, installed, minor := PlanParts(rules, m, sha, e, selected);
    PlanDecides(rules, m, core, selected, installed, p.rows);
    AppliedUnblocked(rules, m, p, e, minor);
    LaxToo(rules, e.installed);
    RowsPassExactly(rules, e.installed, installed, p.rows, false);
    var after := InventoryOf(rules, e.installed + ToInstall(p.rows), false);
    if after.Some? { SameVerdict(rules, m, core, selected, p.rows, after.value); }
  }

  /** In an environment whose marker matches, planning finds nothing to block or change
      exactly when the separate verifier accepts it. */
  lemma PlanAgreesWithVerifier(rules: Rules, m: Manifest, sha: string, e: Environment, selected: seq<string>)
    requires Loaded(m) && BuildPlan(rules, m, sha, e, selected).Some? && e.present
    requires !BuildPlan(rules, m, sha, e, selected).value.blocked
    ensures var p := BuildPlan(rules, m, sha, e, selected).value;
            CanApply(p) && !ChangesRequired(p) <==> VerifyInstalled(rules, m, e, selected).Some?
  {
    hide BuildPlan, Loaded, VerifyRows, Verified, Actions, Planned, Expected, Selectable, InventoryOf, ActionFor;
    var p := BuildPlan(rules, m, sha, e, selected).value;
    var core, installed, minor := PlanParts(rules, m, sha, e, selected);
    PlanDecides(rules, m, core, selected, installed, p.rows);
    LaxToo(rules, e.installed);
    SameVerdict(rules, m, core, selected, p.rows, installed);
    forall y <- p.rows ensures Verified(rules, y.0, installed).Some? <==> y.1 in {Keep, Skip} {
      RowAgrees(rules, y.0, installed);
    }
    AllKeptOrSkipped(p);
  }

  lemma AllKeptOrSkipped(p: Plan)
    requires !p.blocked && !p.create
    ensures CanApply(p) && !ChangesRequired(p) <==> forall y <- p.rows :: y.1 in {Keep, Skip}
  {
  }

  /** No two packages of the manifest, the suite among them, share a normalized name. */
  predicate DistinctNames(rules: Rules, m: Manifest) {
    && (forall c <- m.components :: rules.normal(c.distribution) != rules.normal(m.suiteDistribution))
    && forall i, j | 0 <= i < j < |m.components| ::
         rules.normal(m.components[i].distribution) != rules.normal(m.components[j].distribution)
  }

  lemma ExpectedApartAt(rules: Rules, m: Manifest, selected: seq<string>, i: nat, j: nat)
    requires DistinctNames(rules, m) && i < j < |Expected(m, selected)|
    ensures !SameName(rules, Expected(m, selected)[i], Expected(m, selected)[j])
  {
    var c := m.components[j - 1];
    assert c in m.components && Expected(m, selected)[j] == RowOf(c, selected);
    if i > 0 { assert Expected(m, selected)[i] == RowOf(m.components[i - 1], selected); }
  }

  lemma ExpectedApart(rules: Rules, m: Manifest, selected: seq<string>, x: Row, y: Row)
    requires DistinctNames(rules, m) && x in Expected(m, selected) && y in Expected(m, selected) && x != y
    ensures !SameName(rules, x, y)
  {
    hide Expected, DistinctNames;
    var i :| 0 <= i < |Expected(m, selected)| && Expected(m, selected)[i] == x;
    var j :| 0 <= j < |Expected(m, selected)| && Expected(m, selected)[j] == y;
    if i < j { ExpectedApartAt(rules, m, selected, i, j); } else { ExpectedApartAt(rules, m, selected, j, i); }
  }

  /** A manifest whose packages all have distinct normalized names never clashes: an
      applicable plan, applied, is accepted by the verifier. */
  lemma DistinctNamesConverge(rules: Rules, m: Manifest, sha: string, e: Environment, selected: seq<string>)
    requires Loaded(m) && DistinctNames(rules, m)
    requires BuildPlan(rules, m, sha, e, selected).Some? && CanApply(BuildPlan(rules, m, sha, e, selected).value)
    ensures VerifyInstalled(rules, m, Applied(m, BuildPlan(rules, m, sha, e, selected).value, e), selected).Some?
  {
    hide BuildPlan, VerifyInstalled, Applied, Loaded, Planned, Expected, DistinctNames, Decides, SameName, CanApply;
    var p := BuildPlan(rules, m, sha, e, selected).value;
    var core, installed, _ := PlanParts(rules, m, sha, e, selected);
    PlanDecides(rules, m, core, selected, installed, p.rows);
    SameRows(m, core, selected);
    forall x <- p.rows ensures x.0 in Expected(m, selected) {
      var i :| 0 <= i < |p.rows| && p.rows[i] == x;
      assert Planned(m, core, selected)[i] == x.0;
    }
    forall x <- p.rows, y <- p.rows ensures Apart(rules, x, y) {
      if x.0 != y.0 { ExpectedApart(rules, m, selected, x.0, y.0); }
    }
    AppliedVerifiesExactly(rules, m, sha, e, selected);
  }

  lemma ActionsAnywhere(rules: Rules, rows: seq<Row>, inv: Inventory, inv': Inventory)
    requires Actions(rules, rows, inv).Some?
    ensures Actions(rules, rows, inv').Some?
  {
    hide Actions;
    ActionsEach(rules, rows, inv);
    ActionsEach(rules, rows, inv');
  }

  lemma ReplanExists(rules: Rules, m: Manifest, sha: string, e: Environment, selected: seq<string>)
    requires Loaded(m) && BuildPlan(rules, m, sha, e, selected).Some?
             && CanApply(BuildPlan(rules, m, sha, e, selected).value)
    requires var p := BuildPlan(rules, m, sha, e, selected).value;
             NoClash(rules, p.rows) && Stated(rules, p.rows) && rules.digest(p.sha) == Some(p.sha)
    ensures var p := BuildPlan(rules, m, sha, e, selected).value;
            var q := BuildPlan(rules, m, sha, Applied(m, p, e), selected);
            q.Some? && !q.value.blocked
  {
    hide Loaded, NoClash, Stated, Actions, Planned, Selectable, InventoryOf, ActionFor, EnvironmentBlocked,
         PrerequisitesAgree;
    var p := BuildPlan(rules, m, sha, e, selected).value;
    var core, installed, minor := PlanParts(rules, m, sha, e, selected);
    PlanDecides(rules, m, core, selected, installed, p.rows);
    AppliedUnblocked(rules, m, p, e, minor);
    NoClashApart(rules, p.rows, installed);
    var after := InstallsAdd(rules, e.installed, installed, p.rows, true);
    ActionsAnywhere(rules, Planned(m, core, selected), installed, after);
  }

  /** Planning again after the plan is applied finds nothing to block and nothing to change
      under that same condition. */
  lemma ReplanIsCleanExactly(rules: Rules, m: Manifest, sha: string, e: Environment, selected: seq<string>)
    requires Loaded(m) && BuildPlan(rules, m, sha, e, selected).Some?
             && CanApply(BuildPlan(rules, m, sha, e, selected).value)
    requires var p := BuildPlan(rules, m, sha, e, selected).value;
             Stated(rules, p.rows) && rules.digest(p.sha) == Some(p.sha)
    ensures var p := BuildPlan(rules, m, sha, e, selected).value;
            var q := BuildPlan(rules, m, sha, Applied(m, p, e), selected);
            (q.Some? && CanApply(q.value) && !ChangesRequired(q.value)) <==> NoClash(rules, p.rows)
  {
    var p := BuildPlan(rules, m, sha, e, selected).value;
    var after := Applied(m, p, e);
    hide BuildPlan, Loaded, NoClash, Stated, VerifyInstalled, ChangesRequired;
    AppliedVerifiesExactly(rules, m, sha, e, selected);
    if NoClash(rules, p.rows) {
      ReplanExists(rules, m, sha, e, selected);
      PlanAgreesWithVerifier(rules, m, sha, after, selected);
    } else if BuildPlan(rules, m, sha, after, selected).Some?
        && CanApply(BuildPlan(rules, m, sha, after, selected).value) {
      PlanAgreesWithVerifier(rules, m, sha, after, selected);
    }
  }

  // ------------------------------------------------------- two spellings clash

  /** Two packages that are both needed, in different versions, under one name. */
  predicate Irreconcilable(rules: Rules, m: Manifest, selected: seq<string>, x: Row, y: Row) {
    && x in Expected(m, selected) && y in Expected(m, selected) && x.needed && y.needed
    && SameName(rules, x, y) && x.version != y.version
  }

  /** No environment at all passes then, whatever an installer leaves of the two. */
  lemma IrreconcilableNeverVerifies(rules: Rules, m: Manifest, e: Environment, selected: seq<string>, x: Row, y: Row)
    requires Irreconcilable(rules, m, selected, x, y)
    ensures VerifyInstalled(rules, m, e, selected).None?
  {
    hide Expected, VerifyRows, InventoryOf, Selectable;
    var found := InventoryOf(rules, e.installed, false);
    if found.Some? { VerifiedEach(rules, Expected(m, selected), found.value); }
  }

  predicate Mark(c: char) { c == '-' || c == '_' || c == '.' }

  /** Runs of marks become one hyphen, and letters lower case. */
  function Normalized(name: string): string {
    if name == "" then ""
    else
      var rest := Normalized(name[1..]);
      if Mark(name[0]) then if rest != "" && rest[0] == '-' then rest else "-" + rest
      else [if 'A' <= name[0] <= 'Z' then name[0] - 'A' + 'a' else name[0]] + rest
  }

  /** Normalization as it is, and an interpreter the manifest supports. */
  function PlainRules(): Rules {
    Rules(name => if name == "" then None else Some(Normalized(name)),
          text => text == "", _ => Some("3.12"), sha => Some(sha))
  }

  function TwoSpellings(): Manifest {
    Manifest("paper-data-suite", "1.0", ["3.12"],
             [Component("core", "pds-core", "1.0", true, []),
              Component("meridian", "pds-a", "1.0", false, []),
              Component("quillan", "pds_a", "2.0", false, [])])
  }

  const NOTHING_YET := Environment(false, false, "3.12.1", None, false, [])

  /** The suite's and the components' distributions differ as they are written, which is
      all the loader compares. */
  predicate DistinctSpellings(m: Manifest) {
    && (forall c <- m.components :: c.distribution != m.suiteDistribution)
    && forall i, j | 0 <= i < j < |m.components| :: m.components[i].distribution != m.components[j].distribution
  }

  lemma SpellingsNormalize()
    ensures Normalized("pds-a") == Normalized("pds_a")
  {
    assert "pds-a"[1..] == "ds-a" && "ds-a"[1..] == "s-a" && "s-a"[1..] == "-a" && "-a"[1..] == "a";
    assert "pds_a"[1..] == "ds_a" && "ds_a"[1..] == "s_a" && "s_a"[1..] == "_a" && "_a"[1..] == "a";
  }

  lemma TwoSpellingsLoaded()
    ensures Loaded(TwoSpellings()) && DistinctSpellings(TwoSpellings()) && Selectable(TwoSpellings(), Both())
  {
    assert Both()[0] == "meridian" && Both()[1] == "quillan";
    assert TwoSpellings().components[0].id == "core";
    var m := TwoSpellings();
    assert m.components[1] in m.components && m.components[2] in m.components && m.components[0] in m.components;
  }

  function Installs(rows: seq<Row>): Decided {
    seq(|rows|, i requires 0 <= i < |rows| => (rows[i], Install))
  }

  /** In an empty environment everything needed is installed. */
  lemma {:induction false} AllInstalled(rules: Rules, rows: seq<Row>)
    requires forall r <- rows :: r.needed && rules.normal(r.distribution).Some?
    ensures Actions(rules, rows, map[]) == Some(Installs(rows))
    decreases |rows|
  {
    if rows != [] {
      var init, last := rows[..|rows| - 1], rows[|rows| - 1];
      assert rows == init + [last];
      AllInstalled(rules, init);
      assert Installs(rows) == Installs(init) + [(last, Install)];
    } else {
      assert Installs(rows) == [];
    }
  }

  function FourRows(): (rows: seq<Row>)
    ensures |rows| == 4
  {
    [Row("core", "pds-core", "1.0", true), Row("suite", "paper-data-suite", "1.0", true),
     Row("meridian", "pds-a", "1.0", true), Row("quillan", "pds_a", "2.0", true)]
  }

  function Both(): seq<string> { ["meridian", "quillan"] }

  lemma OthersSnoc(components: seq<Component>, c: Component)
    ensures OtherComponents([]) == []
    ensures OtherComponents(components + [c])
            == if c.id == "core" then OtherComponents(components) else OtherComponents(components) + [c]
  {
    assert (components + [c])[..|components|] == components;
  }

  lemma OtherTwo(a: Component, b: Component, c: Component)
    requires a.id == "core" && b.id != "core" && c.id != "core"
    ensures FindCore([a, b, c]) == Some(a) && OtherComponents([a, b, c]) == [b, c]
  {
    hide OtherComponents;
    OthersSnoc([], a);
    OthersSnoc([a], b);
    OthersSnoc([a, b], c);
    assert [] + [a] == [a] && [a] + [b] == [a, b] && [a, b] + [c] == [a, b, c];
  }

  lemma TwoSpellingsPlanned()
    ensures Planned(TwoSpellings(), TwoSpellings().components[0], Both()) == FourRows()
    ensures FindCore(TwoSpellings().components) == Some(TwoSpellings().components[0])
  {
    var m := TwoSpellings();
    OtherTwo(m.components[0], m.components[1], m.components[2]);
    var rows := ComponentRows(OtherComponents(m.components), Both());
    assert Both()[0] == "meridian" && Both()[1] == "quillan";
    assert rows == [FourRows()[2], FourRows()[3]];
  }

  lemma FourRowsNamed()
    ensures forall r <- FourRows() :: r.needed && PlainRules().normal(r.distribution).Some?
  {
    hide Normalized;
  }

  lemma TwoSpellingsPlan()
    ensures BuildPlan(PlainRules(), TwoSpellings(), "", NOTHING_YET, Both())
            == Some(Plan("", true, false, Installs(FourRows())))
  {
    hide Planned, Actions, FindCore, Selectable, Normalized, FourRows, Loaded, DistinctSpellings;
    TwoSpellingsLoaded();
    TwoSpellingsPlanned();
    FourRowsNamed();
    AllInstalled(PlainRules(), FourRows());
    assert Both()[0] != "core" && Both()[1] != "core";
  }

  lemma SpellingsIrreconcilable()
    ensures Irreconcilable(PlainRules(), TwoSpellings(), Both(), FourRows()[2], FourRows()[3])
  {
    hide Normalized;
    SpellingsNormalize();
    assert |"pds-a"| == 5 && |"pds_a"| == 5 && "1.0"[0] != "2.0"[0];
    assert Both()[0] == "meridian" && Both()[1] == "quillan";
    assert Expected(TwoSpellings(), Both())[2] == FourRows()[2] && Expected(TwoSpellings(), Both())[3] == FourRows()[3];
  }

  /** A manifest the loader accepts and a plan nothing blocks, which nothing that can be
      installed satisfies. */
  lemma SpellingsClash()
    ensures Loaded(TwoSpellings()) && DistinctSpellings(TwoSpellings())
    ensures var p := BuildPlan(PlainRules(), TwoSpellings(), "", NOTHING_YET, Both()); p.Some? && CanApply(p.value)
    ensures forall e :: VerifyInstalled(PlainRules(), TwoSpellings(), e, Both()).None?
  {
    hide BuildPlan, VerifyInstalled, Loaded, DistinctSpellings, TwoSpellings, PlainRules, FourRows, Both,
         Irreconcilable;
    TwoSpellingsLoaded();
    TwoSpellingsPlan();
    SpellingsIrreconcilable();
    forall e ensures VerifyInstalled(PlainRules(), TwoSpellings(), e, Both()).None? {
      IrreconcilableNeverVerifies(PlainRules(), TwoSpellings(), e, Both(), FourRows()[2], FourRows()[3]);
    }
  }
}
