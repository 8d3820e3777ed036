/// `ensureSchema` (internal/handlers/handlers.go): for each of five tables, CREATE it
/// with its full column set when `tableExists` says it is absent, otherwise ALTER it to
/// add each column `hasColumn` does not find. Failures are logged and swallowed, so a
/// failed statement simply has no effect.
module Migration {
  import opened Tables
  import opened Schema
  import opened Storage

  /** The statements ensureSchema issues: the existence probe on sqlite_master, a CREATE
      TABLE IF NOT EXISTS, an ALTER TABLE ... ADD COLUMN. A failing `hasColumn` probe needs
      no constructor of its own: it answers "absent", and the ALTER it leads to fails on the
      column that is there, which changes nothing. */
  datatype Ddl = Probe(table: string) | Create(table: string) | AddColumn(table: string, column: string)

  function PurchasesTarget(): TableDef {
    TableDef([
      IdColumn(),
      Plain("user_id", Integer),
      Plain("total", Real),
      Column("created_at", Datetime, false, false, false, CurrentTimestamp),
      Column("paid", Integer, false, false, false, Number(0))], [], [])
  }

  function CartItemsTarget(): TableDef {
    TableDef([
      IdColumn(),
      Plain("user_id", Integer),
      Plain("game_id", Integer),
      Column("quantity", Integer, false, false, false, Number(1))], [], [])
  }

  function PurchaseItemsTarget(): TableDef {
    TableDef([
      IdColumn(),
      Plain("purchase_id", Integer),
      Plain("game_id", Integer),
      Plain("price", Real),
      Plain("quantity", Integer)], [], [])
  }

  function CommentsTarget(): TableDef {
    TableDef([
      IdColumn(),
      Plain("game_id", Integer),
      Plain("user_id", Integer),
      Plain("rating", Integer),
      Plain("text", Text),
      Column("created_at", Datetime, false, false, false, CurrentTimestamp)], [], [])
  }

  function UserGamesTarget(): TableDef {
    TableDef([
      IdColumn(),
      Plain("user_id", Integer),
      Plain("game_id", Integer)], [["user_id", "game_id"]], [])
  }

  /** The five tables ensureSchema converges, in the order it visits them. */
  function Targets(): seq<(string, TableDef)> {
    [ ("purchases", PurchasesTarget()),
      ("cart_items", CartItemsTarget()),
      ("purchase_items", PurchaseItemsTarget()),
      ("comments", CommentsTarget()),
      ("user_games", UserGamesTarget()) ]
  }

  /** The columns ensureSchema adds to an existing table, in order: every column of the
      table's CREATE statement but `id`, each ALTER declaring it as the CREATE does. */
  function Alters(t: TableDef): seq<Column> {
    if t.columns == [] then [] else t.columns[1..]
  }

  /** `if !hasColumn(table, c) { ALTER TABLE table ADD COLUMN c }` */
  function AddIfMissing(cols: seq<Column>, c: Column, table: string, failing: set<Ddl>): seq<Column> {
    if c.name in Names(cols) || AddColumn(table, c.name) in failing then cols else cols + [c]
  }

  function AddMissing(cols: seq<Column>, wanted: seq<Column>, table: string, failing: set<Ddl>): seq<Column>
    decreases |wanted|
  {
    if wanted == [] then cols
    else AddMissing(AddIfMissing(cols, wanted[0], table, failing), wanted[1..], table, failing)
  }

  /** One table's block of ensureSchema. */
  function EnsureTable(s: Catalog, name: string, create: TableDef, failing: set<Ddl>): Catalog {
    if name !in s || Probe(name) in failing then
      (if Create(name) in failing then s else CreateIfAbsent(s, name, create))
    else
      s[name := s[name].(columns := AddMissing(s[name].columns, Alters(create), name, failing))]
  }

  function EnsureAll(s: Catalog, targets: seq<(string, TableDef)>, failing: set<Ddl>): Catalog
    decreases |targets|
  {
    if targets == [] then s
    else EnsureAll(EnsureTable(s, targets[0].0, targets[0].1, failing), targets[1..], failing)
  }

  /** The catalogue after ensureSchema, where the statements in `failing` fail. */
  function EnsureSchemaSpec(s: Catalog, failing: set<Ddl>): Catalog {
    EnsureAll(s, Targets(), failing)
  }

  /** Every listed table exists with every column ensureSchema would add to it. */
  ghost predicate Converged(s: Catalog, targets: seq<(string, TableDef)>) {
    forall i :: 0 <= i < |targets| ==>
      targets[i].0 in s && Names(Alters(targets[i].1)) <= Names(s[targets[i].0].columns)
  }

  /** `s'` keeps every table of `s`, each with its columns as a prefix of its new columns
      and its constraints unchanged. */
  ghost predicate Extends(s: Catalog, s': Catalog) {
    forall n :: n in s ==>
      && n in s'
      && s[n].columns <= s'[n].columns
      && s'[n].uniqueKeys == s[n].uniqueKeys
      && s'[n].foreignKeys == s[n].foreignKeys
  }

  lemma NamesAppend(cols: seq<Column>, c: Column)
    ensures Names(cols + [c]) == Names(cols) + {c.name}
  {
    var a := cols + [c];
    forall x | x in Names(a) ensures x in Names(cols) + {c.name} {
      var i :| 0 <= i < |a| && a[i].name == x;
      if i < |cols| { assert cols[i] == a[i]; }
    }
    forall x | x in Names(cols) ensures x in Names(a) {
      var i :| 0 <= i < |cols| && cols[i].name == x;
      assert a[i] == cols[i];
    }
    assert a[|cols|] == c;
  }

  lemma NamesPrefix(cols: seq<Column>, cols': seq<Column>)
    requires cols <= cols'
    ensures Names(cols) <= Names(cols')
  {
    forall x | x in Names(cols) ensures x in Names(cols') {
      var i :| 0 <= i < |cols| && cols[i].name == x;
      assert cols'[i] == cols[i];
    }
  }

  lemma NamesTail(cols: seq<Column>)
    requires cols != []
    ensures Names(cols) == {cols[0].name} + Names(cols[1..])
  {
    forall x | x in Names(cols) ensures x in {cols[0].name} + Names(cols[1..]) {
      var i :| 0 <= i < |cols| && cols[i].name == x;
      if i > 0 { assert cols[1..][i - 1] == cols[i]; }
    }
    forall x | x in Names(cols[1..]) ensures x in Names(cols) {
      var i :| 0 <= i < |cols[1..]| && cols[1..][i].name == x;
      assert cols[i + 1].name == x;
    }
  }

  /** ALTER only appends: the existing columns stay, in place, and every new column is one
      of those wanted. */
  lemma {:induction false} AddMissingAppends(cols: seq<Column>, wanted: seq<Column>, table: string, failing: set<Ddl>)
    ensures cols <= AddMissing(cols, wanted, table, failing)
    ensures Names(AddMissing(cols, wanted, table, failing)) <= Names(cols) + Names(wanted)
    decreases |wanted|
  {
    if wanted != [] {
      var next := AddIfMissing(cols, wanted[0], table, failing);
      AddMissingAppends(next, wanted[1..], table, failing);
      NamesAppend(cols, wanted[0]);
      NamesTail(wanted);
    }
  }

  /** With no ALTER failing, every wanted column is there afterwards. */
  lemma {:induction false} AddMissingCovers(cols: seq<Column>, wanted: seq<Column>, table: string, failing: set<Ddl>)
    requires forall i :: 0 <= i < |wanted| ==> AddColumn(table, wanted[i].name) !in failing
    ensures Names(wanted) <= Names(AddMissing(cols, wanted, table, failing))
    decreases |wanted|
  {
    if wanted != [] {
      var next := AddIfMissing(cols, wanted[0], table, failing);
      NamesAppend(cols, wanted[0]);
      assert wanted[0].name in Names(next);
      AddMissingCovers(next, wanted[1..], table, failing);
      AddMissingAppends(next, wanted[1..], table, failing);
      NamesPrefix(next, AddMissing(next, wanted[1..], table, failing));
      NamesTail(wanted);
    }
  }

  /** When every wanted column is already there, nothing is altered. */
  lemma {:induction false} AddMissingNoop(cols: seq<Column>, wanted: seq<Column>, table: string, failing: set<Ddl>)
    requires Names(wanted) <= Names(cols)
    ensures AddMissing(cols, wanted, table, failing) == cols
    decreases |wanted|
  {
    if wanted != [] {
      NamesTail(wanted);
      AddMissingNoop(cols, wanted[1..], table, failing);
    }
  }

  /** A column whose ALTER fails, and which the table did not have, is still missing
      afterwards. */
  lemma {:induction false} AddMissingSkips(cols: seq<Column>, wanted: seq<Column>, table: string, failing: set<Ddl>, name: string)
    requires name !in Names(cols) && AddColumn(table, name) in failing
    ensures name !in Names(AddMissing(cols, wanted, table, failing))
    decreases |wanted|
  {
    if wanted != [] {
      NamesAppend(cols, wanted[0]);
      AddMissingSkips(AddIfMissing(cols, wanted[0], table, failing), wanted[1..], table, failing, name);
    }
  }

  lemma {:induction false} EnsureTableExtends(s: Catalog, name: string, create: TableDef, failing: set<Ddl>)
    ensures Extends(s, EnsureTable(s, name, create, failing))
    ensures EnsureTable(s, name, create, failing).Keys <= s.Keys + {name}
    ensures forall n :: n in s && n != name ==> EnsureTable(s, name, create, failing)[n] == s[n]
  {
    if name in s && Probe(name) !in failing {
      AddMissingAppends(s[name].columns, Alters(create), name, failing);
    }
  }

  lemma EnsureTableCovers(s: Catalog, name: string, create: TableDef)
    ensures var s' := EnsureTable(s, name, create, {});
      name in s' && Names(Alters(create)) <= Names(s'[name].columns)
  {
    if name in s {
      AddMissingCovers(s[name].columns, Alters(create), name, {});
    } else {
      if create.columns != [] { NamesTail(create.columns); }
    }
  }

  /** ensureSchema never drops a table or a column, whatever fails: it only creates
      tables it visits and appends columns. */
  lemma {:induction false} EnsureAllExtends(s: Catalog, targets: seq<(string, TableDef)>, failing: set<Ddl>)
    ensures Extends(s, EnsureAll(s, targets, failing))
    ensures forall n :: n in s && (forall i :: 0 <= i < |targets| ==> targets[i].0 != n) ==>
      EnsureAll(s, targets, failing)[n] == s[n]
    ensures forall n :: n in EnsureAll(s, targets, failing) ==>
      n in s || exists i :: 0 <= i < |targets| && targets[i].0 == n
    decreases |targets|
  {
    if targets != [] {
      var s1 := EnsureTable(s, targets[0].0, targets[0].1, failing);
      EnsureTableExtends(s, targets[0].0, targets[0].1, failing);
      EnsureAllExtends(s1, targets[1..], failing);
      var r := EnsureAll(s, targets, failing);
      assert r == EnsureAll(s1, targets[1..], failing);
      forall n | n in s ensures n in r && s[n].columns <= r[n].columns
        && r[n].uniqueKeys == s[n].uniqueKeys && r[n].foreignKeys == s[n].foreignKeys
      {
        assert n in s1;
      }
      forall n | n in s && (forall i :: 0 <= i < |targets| ==> targets[i].0 != n)
        ensures r[n] == s[n]
      {
        assert targets[0].0 != n;
        forall i | 0 <= i < |targets[1..]| ensures targets[1..][i].0 != n {
          assert targets[1..][i] == targets[i + 1];
        }
      }
      forall n | n in r ensures n in s || exists i :: 0 <= i < |targets| && targets[i].0 == n {
        if n !in s1 {
          var i :| 0 <= i < |targets[1..]| && targets[1..][i].0 == n;
          assert targets[i + 1].0 == n;
        } else if n !in s {
          assert targets[0].0 == n;
        }
      }
    }
  }

  /** With no statement failing, every listed table ends up with all its columns. */
  lemma {:induction false} EnsureAllConverges(s: Catalog, targets: seq<(string, TableDef)>)
    ensures Converged(EnsureAll(s, targets, {}), targets)
    decreases |targets|
  {
    if targets != [] {
      var s1 := EnsureTable(s, targets[0].0, targets[0].1, {});
      var r := EnsureAll(s1, targets[1..], {});
      EnsureTableCovers(s, targets[0].0, targets[0].1);
      EnsureAllConverges(s1, targets[1..]);
      EnsureAllExtends(s1, targets[1..], {});
      NamesPrefix(s1[targets[0].0].columns, r[targets[0].0].columns);
      forall i | 0 <= i < |targets|
        ensures targets[i].0 in r && Names(Alters(targets[i].1)) <= Names(r[targets[i].0].columns)
      {
        if i > 0 { assert targets[i] == targets[1..][i - 1]; }
      }
    }
  }

  /** On a converged catalogue ensureSchema changes nothing, whatever fails. */
  lemma {:induction false} EnsureAllNoop(s: Catalog, targets: seq<(string, TableDef)>, failing: set<Ddl>)
    requires Converged(s, targets)
    ensures EnsureAll(s, targets, failing) == s
    decreases |targets|
  {
    if targets != [] {
      var name := targets[0].0;
      assert name in s && Names(Alters(targets[0].1)) <= Names(s[name].columns);
      if Probe(name) !in failing {
        AddMissingNoop(s[name].columns, Alters(targets[0].1), name, failing);
        assert s[name].(columns := s[name].columns) == s[name];
        assert s[name := s[name]] == s;
      }
      assert EnsureTable(s, name, targets[0].1, failing) == s;
      forall i | 0 <= i < |targets[1..]|
        ensures targets[1..][i].0 in s && Names(Alters(targets[1..][i].1)) <= Names(s[targets[1..][i].0].columns)
      {
        assert targets[1..][i] == targets[i + 1];
      }
      EnsureAllNoop(s, targets[1..], failing);
    }
  }

  /** ensureSchema is additive: every table and column that existed before still does. */
  lemma EnsureSchemaAdditive(s: Catalog, failing: set<Ddl>)
    ensures Extends(s, EnsureSchemaSpec(s, failing))
    ensures forall n :: n in s && n !in {"purchases", "cart_items", "purchase_items", "comments", "user_games"} ==>
      EnsureSchemaSpec(s, failing)[n] == s[n]
  {
    EnsureAllExtends(s, Targets(), failing);
  }

  /** With no statement failing, ensureSchema leaves all five tables with all their columns. */
  lemma EnsureSchemaConverges(s: Catalog)
    ensures Converged(EnsureSchemaSpec(s, {}), Targets())
  {
    EnsureAllConverges(s, Targets());
  }

  /** A second ensureSchema after one in which nothing failed changes nothing, even if
      statements of the second fail. */
  lemma EnsureSchemaIdempotent(s: Catalog, failing: set<Ddl>)
    ensures EnsureSchemaSpec(EnsureSchemaSpec(s, {}), failing) == EnsureSchemaSpec(s, {})
  {
    EnsureAllConverges(s, Targets());
    EnsureAllNoop(EnsureSchemaSpec(s, {}), Targets(), failing);
  }

  /** The UNIQUE(user_id, game_id) that makes Pay's INSERT OR IGNORE idempotent is there
      only when ensureSchema itself created user_games; a user_games table that existed
      before keeps whatever constraints it had. */
  lemma UserGamesUnique(s: Catalog, failing: set<Ddl>)
    ensures "user_games" !in s && Probe("user_games") !in failing && Create("user_games") !in failing ==>
      EnsureSchemaSpec(s, failing)["user_games"].uniqueKeys == [["user_id", "game_id"]]
    ensures "user_games" in s ==>
      EnsureSchemaSpec(s, failing)["user_games"].uniqueKeys == s["user_games"].uniqueKeys
  {
    var t := Targets();
    EnsureAllExtends(s, t, failing);
    if "user_games" !in s {
      var s4 := EnsureAll(s, t[..4], failing);
      EnsureAllExtends(s, t[..4], failing);
      assert "user_games" !in s4;
      assert EnsureSchemaSpec(s, failing) == EnsureTable(s4, "user_games", UserGamesTarget(), failing) by {
        EnsureAllSplit(s, t, 4, failing);
        assert t[4..] == [t[4]];
      }
    }
  }

  lemma {:induction false} EnsureAllSplit(s: Catalog, targets: seq<(string, TableDef)>, k: nat, failing: set<Ddl>)
    requires k <= |targets|
    ensures EnsureAll(s, targets, failing) == EnsureAll(EnsureAll(s, targets[..k], failing), targets[k..], failing)
    decreases k
  {
    if k > 0 {
      assert targets[..k][1..] == targets[1..][..k - 1];
      assert targets[1..][k - 1..] == targets[k..];
      EnsureAllSplit(EnsureTable(s, targets[0].0, targets[0].1, failing), targets[1..], k - 1, failing);
    } else {
      assert targets[..0] == [];
    }
  }

  /** `tableExists`: the count query on sqlite_master; a failing query reads as "absent". */
  method TableExists(db: Database, name: string, failing: set<Ddl>) returns (b: bool)
    ensures b <==> name in db.schema && Probe(name) !in failing
  {
    b := name in db.schema && Probe(name) !in failing;
  }

  /** `hasColumn`: scans the rows of PRAGMA table_info(table) for one named `col`; a
      table that does not exist has no rows. */
  method HasColumn(db: Database, table: string, col: string) returns (found: bool)
    ensures found <==> table in db.schema && col in Names(db.schema[table].columns)
  {
    if table !in db.schema {
      return false;
    }
    var info := db.schema[table].columns;
    var k := 0;
    while k < |info|
      invariant 0 <= k <= |info|
      invariant forall j :: 0 <= j < k ==> info[j].name != col
    {
      if info[k].name == col {
        return true;
      }
      k := k + 1;
    }
    found := false;
  }

  /** One table's block: CREATE when absent, else one ALTER per missing column. */
  method EnsureTableStep(db: Database, name: string, create: TableDef, failing: set<Ddl>)
    modifies db`schema
    ensures db.schema == EnsureTable(old(db.schema), name, create, failing)
  {
    var present := TableExists(db, name, failing);
    if !present {
      if Create(name) !in failing {
        db.schema := CreateIfAbsent(db.schema, name, create);
      }
      return;
    }
    var wanted := Alters(create);
    ghost var start := db.schema[name].columns;
    for k := 0 to |wanted|
      invariant name in db.schema
      invariant db.schema == old(db.schema)[name := old(db.schema)[name].(columns := db.schema[name].columns)]
      invariant AddMissing(db.schema[name].columns, wanted[k..], name, failing) == AddMissing(start, wanted, name, failing)
    {
      var has := HasColumn(db, name, wanted[k].name);
      var cols := db.schema[name].columns;
      assert wanted[k..][1..] == wanted[k + 1..];
      if !has && AddColumn(name, wanted[k].name) !in failing {
        db.schema := db.schema[name := db.schema[name].(columns := cols + [wanted[k]])];
      }
    }
    assert wanted[|wanted|..] == [];
  }

  /** ensureSchema: the five blocks in order. */
  method EnsureSchema(db: Database, failing: set<Ddl>)
    modifies db`schema
    ensures db.schema == EnsureSchemaSpec(old(db.schema), failing)
  {
    var targets := Targets();
    EnsureTableStep(db, targets[0].0, targets[0].1, failing);  // purchases
    assert EnsureAll(old(db.schema), targets, failing) == EnsureAll(db.schema, targets[1..], failing);
    EnsureTableStep(db, targets[1].0, targets[1].1, failing);  // cart_items
    assert EnsureAll(old(db.schema), targets, failing) == EnsureAll(db.schema, targets[2..], failing) by {
      assert targets[1..][1..] == targets[2..];
    }
    EnsureTableStep(db, targets[2].0, targets[2].1, failing);  // purchase_items
    assert EnsureAll(old(db.schema), targets, failing) == EnsureAll(db.schema, targets[3..], failing) by {
      assert targets[2..][1..] == targets[3..];
    }
    EnsureTableStep(db, targets[3].0, targets[3].1, failing);  // comments
    assert EnsureAll(old(db.schema), targets, failing) == EnsureAll(db.schema, targets[4..], failing) by {
      assert targets[3..][1..] == targets[4..];
    }
    EnsureTableStep(db, targets[4].0, targets[4].1, failing);  // user_games
    assert targets[4..][1..] == [];
  }
}
