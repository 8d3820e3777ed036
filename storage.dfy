/// internal/storage/sqlite.go: the database file and `InitDB`, which opens it and
/// runs five `CREATE TABLE IF NOT EXISTS` statements, aborting the process on the
/// first that fails.
module Storage {
  import opened Tables
  import opened Schema
  import opened Records

  /** The SQLite database behind `*sql.DB`: its catalogue and the rows of the tables
      the order lifecycle touches. The rows of `customers` and `library` are not held:
      nothing modelled here reads or writes them. */
  class Database {
    var schema: Catalog
    var games: Table<Game>
    var cartItems: Table<CartItem>
    var purchases: Table<Purchase>
    var purchaseItems: Table<PurchaseItem>
    var comments: Table<Comment>
    var userGames: Table<UserGame>

    ghost predicate Valid()
      reads this
    {
      && Tables.Valid(games)
      && Tables.Valid(cartItems)
      && Tables.Valid(purchases)
      && Tables.Valid(purchaseItems)
      && Tables.Valid(comments)
      && Tables.Valid(userGames)
    }

    /** `sql.Open` on a file that does not exist yet. */
    constructor Open()
      ensures Valid() && schema == map[]
      ensures games.rows == [] && cartItems.rows == [] && purchases.rows == []
      ensures purchaseItems.rows == [] && comments.rows == [] && userGames.rows == []
    {
      schema := map[];
      games := Table([], 0);
      cartItems := Table([], 0);
      purchases := Table([], 0);
      purchaseItems := Table([], 0);
      comments := Table([], 0);
      userGames := Table([], 0);
    }
  }

  predicate NotNull(t: TableDef, name: string) {
    var c := Find(t.columns, name);
    c.Some? && c.value.notNull
  }

  /** games: the catalogue. */
  function GamesTable(): TableDef {
    TableDef([
      IdColumn(),
      Column("title", Text, false, true, false, NoDefault),
      Plain("description", Text),
      Column("price", Real, false, true, false, NoDefault),
      Plain("image_url", Text)], [], [])
  }

  /** customers: one row per registered user. */
  function CustomersTable(): TableDef {
    TableDef([
      IdColumn(),
      Column("username", Text, false, true, true, NoDefault),
      Column("password", Text, false, true, false, NoDefault)], [], [])
  }

  /** purchases as InitDB first creates it. */
  function LegacyPurchasesTable(): TableDef {
    TableDef([
      IdColumn(),
      Plain("customer_id", Integer),
      Plain("total", Real),
      Column("purchase_date", Datetime, false, false, false, CurrentTimestamp)],
      [], [ForeignKey("customer_id", "customers", "id")])
  }

  /** purchase_items as InitDB first creates it. */
  function LegacyPurchaseItemsTable(): TableDef {
    TableDef([
      IdColumn(),
      Plain("purchase_id", Integer),
      Plain("game_id", Integer),
      Column("quantity", Integer, false, false, false, Number(1))],
      [], [ForeignKey("purchase_id", "purchases", "id"), ForeignKey("game_id", "games", "id")])
  }

  /** library: owned games keyed by customer and purchase. */
  function LibraryTable(): TableDef {
    TableDef([
      IdColumn(),
      Plain("customer_id", Integer),
      Plain("game_id", Integer),
      Plain("purchase_id", Integer)],
      [], [
      ForeignKey("customer_id", "customers", "id"),
      ForeignKey("game_id", "games", "id"),
      ForeignKey("purchase_id", "purchases", "id")])
  }

  /** games has id, title, description, price and image_url; title and price are NOT NULL. */
  lemma GamesDeclaration()
    ensures Names(GamesTable().columns) == {"id", "title", "description", "price", "image_url"}
    ensures NotNull(GamesTable(), "title") && NotNull(GamesTable(), "price")
    ensures !NotNull(GamesTable(), "description") && !NotNull(GamesTable(), "image_url")
  {
    var cols := GamesTable().columns;
    assert cols[0].name == "id" && cols[1].name == "title" && cols[2].name == "description";
    assert cols[3].name == "price" && cols[4].name == "image_url";
  }

  /** customers has id, username and password; username is UNIQUE NOT NULL. */
  lemma CustomersDeclaration()
    ensures Names(CustomersTable().columns) == {"id", "username", "password"}
    ensures NotNull(CustomersTable(), "username") && Find(CustomersTable().columns, "username").value.unique
    ensures NotNull(CustomersTable(), "password")
  {
    var cols := CustomersTable().columns;
    assert cols[0].name == "id" && cols[1].name == "username" && cols[2].name == "password";
  }

  /** purchases starts out keyed by customer_id with a purchase_date, and has neither
      user_id, created_at nor paid, which the handlers need. */
  lemma LegacyPurchasesDeclaration()
    ensures Names(LegacyPurchasesTable().columns) == {"id", "customer_id", "total", "purchase_date"}
    ensures "user_id" !in Names(LegacyPurchasesTable().columns)
    ensures "created_at" !in Names(LegacyPurchasesTable().columns)
    ensures "paid" !in Names(LegacyPurchasesTable().columns)
  {
    var cols := LegacyPurchasesTable().columns;
    assert cols[0].name == "id" && cols[1].name == "customer_id";
    assert cols[2].name == "total" && cols[3].name == "purchase_date";
  }

  /** purchase_items starts out without the price column. */
  lemma LegacyPurchaseItemsDeclaration()
    ensures Names(LegacyPurchaseItemsTable().columns) == {"id", "purchase_id", "game_id", "quantity"}
    ensures "price" !in Names(LegacyPurchaseItemsTable().columns)
  {
    var cols := LegacyPurchaseItemsTable().columns;
    assert cols[0].name == "id" && cols[1].name == "purchase_id";
    assert cols[2].name == "game_id" && cols[3].name == "quantity";
  }

  /** library records (customer, game, purchase) and has none of user_games' shape. */
  lemma LibraryDeclaration()
    ensures Names(LibraryTable().columns) == {"id", "customer_id", "game_id", "purchase_id"}
    ensures "user_id" !in Names(LibraryTable().columns)
  {
    var cols := LibraryTable().columns;
    assert cols[0].name == "id" && cols[1].name == "customer_id";
    assert cols[2].name == "game_id" && cols[3].name == "purchase_id";
  }

  /** The CREATE statements of InitDB, in the order it runs them. */
  function InitTables(): seq<(string, TableDef)> {
    [ ("games", GamesTable()),
      ("customers", CustomersTable()),
      ("purchases", LegacyPurchasesTable()),
      ("purchase_items", LegacyPurchaseItemsTable()),
      ("library", LibraryTable()) ]
  }

  /** CREATE TABLE IF NOT EXISTS */
  function CreateIfAbsent(s: Catalog, name: string, def: TableDef): Catalog {
    if name in s then s else s[name := def]
  }

  /** How InitDB ends: it returns the handle, or `log.Fatal` stops the process after
      the CREATE of `table` failed. */
  datatype Startup = Ready | Fatal(table: string)

  /** The CREATE statements `creates` run in order, where those of the tables in
      `failing` fail: the catalogue at the end and how it ended. */
  function Bootstrap(s: Catalog, creates: seq<(string, TableDef)>, failing: set<string>): (Catalog, Startup)
    decreases |creates|
  {
    if creates == [] then (s, Ready)
    else if creates[0].0 in failing then (s, Fatal(creates[0].0))
    else Bootstrap(CreateIfAbsent(s, creates[0].0, creates[0].1), creates[1..], failing)
  }

  /** One `db.Exec(CREATE TABLE IF NOT EXISTS ...)`; `ok` is false when it fails. */
  method CreateTable(db: Database, name: string, def: TableDef, failing: set<string>) returns (ok: bool)
    modifies db`schema
    ensures ok <==> name !in failing
    ensures db.schema == if ok then CreateIfAbsent(old(db.schema), name, def) else old(db.schema)
  {
    ok := name !in failing;
    if ok {
      db.schema := CreateIfAbsent(db.schema, name, def);
    }
  }

  /** InitDB on an opened database; the tables named in `failing` are those whose
      CREATE the engine refuses. */
  method InitDB(db: Database, failing: set<string>) returns (r: Startup)
    modifies db`schema
    ensures (db.schema, r) == Bootstrap(old(db.schema), InitTables(), failing)
  {
    var creates := InitTables();
    // games
    var ok := CreateTable(db, creates[0].0, creates[0].1, failing);
    if !ok { return Fatal(creates[0].0); }
    assert Bootstrap(old(db.schema), creates, failing) == Bootstrap(db.schema, creates[1..], failing);
    // customers
    ok := CreateTable(db, creates[1].0, creates[1].1, failing);
    if !ok { return Fatal(creates[1].0); }
    assert Bootstrap(old(db.schema), creates, failing) == Bootstrap(db.schema, creates[2..], failing) by {
      assert creates[1..][1..] == creates[2..];
    }
    // purchases
    ok := CreateTable(db, creates[2].0, creates[2].1, failing);
    if !ok { return Fatal(creates[2].0); }
    assert Bootstrap(old(db.schema), creates, failing) == Bootstrap(db.schema, creates[3..], failing) by {
      assert creates[2..][1..] == creates[3..];
    }
    // purchase_items
    ok := CreateTable(db, creates[3].0, creates[3].1, failing);
    if !ok { return Fatal(creates[3].0); }
    assert Bootstrap(old(db.schema), creates, failing) == Bootstrap(db.schema, creates[4..], failing) by {
      assert creates[3..][1..] == creates[4..];
    }
    // library
    ok := CreateTable(db, creates[4].0, creates[4].1, failing);
    if !ok { return Fatal(creates[4].0); }
    assert creates[4..][1..] == [];
    r := Ready;
  }

  /** InitDB never alters or removes a table that already exists, however it ends. */
  lemma {:induction false} BootstrapKeepsExisting(s: Catalog, creates: seq<(string, TableDef)>, failing: set<string>)
    ensures forall n :: n in s ==> n in Bootstrap(s, creates, failing).0 && Bootstrap(s, creates, failing).0[n] == s[n]
    decreases |creates|
  {
    if creates != [] && creates[0].0 !in failing {
      BootstrapKeepsExisting(CreateIfAbsent(s, creates[0].0, creates[0].1), creates[1..], failing);
    }
  }

  /** A table InitDB adds is one of its CREATE statements, with that statement's declaration. */
  lemma {:induction false} BootstrapOnlyCreates(s: Catalog, creates: seq<(string, TableDef)>, failing: set<string>)
    ensures forall n :: n in Bootstrap(s, creates, failing).0 && n !in s ==>
      exists i :: 0 <= i < |creates| && creates[i] == (n, Bootstrap(s, creates, failing).0[n])
    decreases |creates|
  {
    if creates != [] && creates[0].0 !in failing {
      var s' := CreateIfAbsent(s, creates[0].0, creates[0].1);
      BootstrapOnlyCreates(s', creates[1..], failing);
      BootstrapKeepsExisting(s', creates[1..], failing);
      var r := Bootstrap(s, creates, failing).0;
      forall n | n in r && n !in s
        ensures exists i :: 0 <= i < |creates| && creates[i] == (n, r[n])
      {
        if n in s' {
          assert creates[0] == (n, r[n]);
        } else {
          var i :| 0 <= i < |creates[1..]| && creates[1..][i] == (n, r[n]);
          assert creates[i + 1] == (n, r[n]);
        }
      }
    }
  }

  /** InitDB returns the handle exactly when none of its CREATE statements fails; otherwise
      it stops at the first that does, and every table from there on that did not exist still
      does not. */
  lemma {:induction false} BootstrapOutcome(s: Catalog, creates: seq<(string, TableDef)>, failing: set<string>)
    ensures Bootstrap(s, creates, failing).1 == Ready <==> forall i :: 0 <= i < |creates| ==> creates[i].0 !in failing
    ensures Bootstrap(s, creates, failing).1.Fatal? ==>
      exists k :: 0 <= k < |creates| && creates[k].0 == Bootstrap(s, creates, failing).1.table
        && creates[k].0 in failing
        && (forall j :: 0 <= j < k ==> creates[j].0 !in failing)
        && (forall j :: k <= j < |creates| && creates[j].0 !in s ==>
              creates[j].0 !in Bootstrap(s, creates, failing).0 || exists i :: 0 <= i < k && creates[i].0 == creates[j].0)
    decreases |creates|
  {
    if creates != [] {
      if creates[0].0 in failing {
        var r := Bootstrap(s, creates, failing);
        assert r == (s, Fatal(creates[0].0));
      } else {
        var s' := CreateIfAbsent(s, creates[0].0, creates[0].1);
        BootstrapOutcome(s', creates[1..], failing);
        var r := Bootstrap(s, creates, failing);
        assert r == Bootstrap(s', creates[1..], failing);
        if forall i :: 0 <= i < |creates[1..]| ==> creates[1..][i].0 !in failing {
          forall i | 0 <= i < |creates| ensures creates[i].0 !in failing {
            if i > 0 { assert creates[i] == creates[1..][i - 1]; }
          }
        } else {
          var i :| 0 <= i < |creates[1..]| && creates[1..][i].0 in failing;
          assert creates[i + 1].0 in failing;
        }
        if r.1.Fatal? {
          var k :| 0 <= k < |creates[1..]| && creates[1..][k].0 == r.1.table
            && creates[1..][k].0 in failing
            && (forall j :: 0 <= j < k ==> creates[1..][j].0 !in failing)
            && (forall j :: k <= j < |creates[1..]| && creates[1..][j].0 !in s' ==>
                  creates[1..][j].0 !in r.0 || exists i :: 0 <= i < k && creates[1..][i].0 == creates[1..][j].0);
          assert creates[k + 1].0 == r.1.table && creates[k + 1].0 in failing;
          forall j | 0 <= j < k + 1 ensures creates[j].0 !in failing {
            if j > 0 { assert creates[j] == creates[1..][j - 1]; }
          }
          forall j | k + 1 <= j < |creates| && creates[j].0 !in s
            ensures creates[j].0 !in r.0 || exists i :: 0 <= i < k + 1 && creates[i].0 == creates[j].0
          {
            assert creates[j] == creates[1..][j - 1];
            if creates[j].0 == creates[0].0 {
            } else {
              assert creates[j].0 !in s';
              if creates[j].0 in r.0 {
                var i :| 0 <= i < k && creates[1..][i].0 == creates[1..][j - 1].0;
                assert creates[i + 1].0 == creates[j].0;
              }
            }
          }
        }
      }
    }
  }

  /** Once every table exists, running InitDB again leaves the catalogue as it is. */
  lemma {:induction false} BootstrapRerun(s: Catalog, creates: seq<(string, TableDef)>, failing: set<string>)
    requires forall i :: 0 <= i < |creates| ==> creates[i].0 in s
    ensures Bootstrap(s, creates, failing).0 == s
    decreases |creates|
  {
    if creates != [] && creates[0].0 !in failing {
      forall i | 0 <= i < |creates[1..]| ensures creates[1..][i].0 in s {
        assert creates[1..][i] == creates[i + 1];
      }
      BootstrapRerun(s, creates[1..], failing);
    }
  }

  /** On a new database file InitDB creates exactly its five tables, as declared. */
  lemma InitDBOnNewFile()
    ensures Bootstrap(map[], InitTables(), {}) == (map[
      "games" := GamesTable(),
      "customers" := CustomersTable(),
      "purchases" := LegacyPurchasesTable(),
      "purchase_items" := LegacyPurchaseItemsTable(),
      "library" := LibraryTable()], Ready)
  {
  }
}
