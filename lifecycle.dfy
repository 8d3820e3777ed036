/// Facts across handlers: what a new store looks like once InitDB and ensureSchema have
/// run, and the invariants that Checkout and Pay keep between purchases, their items and
/// the library of owned games.
module Lifecycle {
  import opened Tables
  import opened Schema
  import opened Records
  import opened Storage
  import opened Migration
  import opened Orders
  import opened Payment

  /** The catalogue of a new database file after InitDB and one ensureSchema in which
      nothing failed. */
  function FreshCatalog(): Catalog {
    EnsureSchemaSpec(Bootstrap(map[], InitTables(), {}).0, {})
  }

  lemma PurchasesTargetNames()
    ensures Names(Alters(PurchasesTarget())) == {"user_id", "total", "created_at", "paid"}
  {
    var a := Alters(PurchasesTarget());
    assert a[0].name == "user_id" && a[1].name == "total" && a[2].name == "created_at" && a[3].name == "paid";
  }

  lemma PurchaseItemsTargetNames()
    ensures Names(Alters(PurchaseItemsTarget())) == {"purchase_id", "game_id", "price", "quantity"}
  {
    var a := Alters(PurchaseItemsTarget());
    assert a[0].name == "purchase_id" && a[1].name == "game_id" && a[2].name == "price" && a[3].name == "quantity";
  }

  lemma CreatedNames()
    ensures Names(CartItemsTarget().columns) == {"id", "user_id", "game_id", "quantity"}
    ensures Names(CommentsTarget().columns) == {"id", "game_id", "user_id", "rating", "text", "created_at"}
    ensures Names(UserGamesTarget().columns) == {"id", "user_id", "game_id"}
  {
    var c := CartItemsTarget().columns;
    assert c[0].name == "id" && c[1].name == "user_id" && c[2].name == "game_id" && c[3].name == "quantity";
    var m := CommentsTarget().columns;
    assert m[0].name == "id" && m[1].name == "game_id" && m[2].name == "user_id";
    assert m[3].name == "rating" && m[4].name == "text" && m[5].name == "created_at";
    var u := UserGamesTarget().columns;
    assert u[0].name == "id" && u[1].name == "user_id" && u[2].name == "game_id";
  }

  /** ensureSchema with nothing failing, one table's block at a time. */
  function SchemaSteps(s0: Catalog): Catalog {
    var s1 := EnsureTable(s0, "purchases", PurchasesTarget(), {});
    var s2 := EnsureTable(s1, "cart_items", CartItemsTarget(), {});
    var s3 := EnsureTable(s2, "purchase_items", PurchaseItemsTarget(), {});
    var s4 := EnsureTable(s3, "comments", CommentsTarget(), {});
    EnsureTable(s4, "user_games", UserGamesTarget(), {})
  }

  /** The catalogue of a new store, one ensureSchema block at a time. */
  function FreshSteps(): Catalog {
    SchemaSteps(Bootstrap(map[], InitTables(), {}).0)
  }

  lemma FreshCatalogSteps()
    ensures FreshCatalog() == FreshSteps()
  {
    var t := Targets();
    assert t[1..][1..][1..][1..][1..] == [];
  }

  /** ensureSchema on a catalogue that has purchases and purchase_items but none of the
      other three tables: it appends columns to the first two, creates the rest and
      leaves games alone. */
  lemma StepsOnLegacy(s0: Catalog)
    requires "games" in s0 && "purchases" in s0 && "purchase_items" in s0
    requires "cart_items" !in s0 && "comments" !in s0 && "user_games" !in s0
    ensures var s := SchemaSteps(s0);
      && "games" in s && s["games"] == s0["games"]
      && "purchases" in s && s["purchases"].columns == AddMissing(s0["purchases"].columns, Alters(PurchasesTarget()), "purchases", {})
      && "purchase_items" in s && s["purchase_items"].columns == AddMissing(s0["purchase_items"].columns, Alters(PurchaseItemsTarget()), "purchase_items", {})
      && "cart_items" in s && s["cart_items"] == CartItemsTarget()
      && "comments" in s && s["comments"] == CommentsTarget()
      && "user_games" in s && s["user_games"] == UserGamesTarget()
  {
    var s1 := EnsureTable(s0, "purchases", PurchasesTarget(), {});
    TableStep(s0, "purchases", PurchasesTarget());
    var s2 := EnsureTable(s1, "cart_items", CartItemsTarget(), {});
    TableStep(s1, "cart_items", CartItemsTarget());
    var s3 := EnsureTable(s2, "purchase_items", PurchaseItemsTarget(), {});
    TableStep(s2, "purchase_items", PurchaseItemsTarget());
    var s4 := EnsureTable(s3, "comments", CommentsTarget(), {});
    TableStep(s3, "comments", CommentsTarget());
    TableStep(s4, "user_games", UserGamesTarget());
  }

  /** One block of ensureSchema with nothing failing: it creates the table when it is
      absent, appends the missing columns when it exists, and touches no other table. */
  lemma TableStep(s: Catalog, name: string, create: TableDef)
    ensures var s' := EnsureTable(s, name, create, {});
      && name in s'
      && (name !in s ==> s'[name] == create)
      && (name in s ==> s'[name].columns == AddMissing(s[name].columns, Alters(create), name, {}))
      && (forall n :: n != name ==> (n in s' <==> n in s))
      && (forall n :: n in s && n != name ==> s'[n] == s[n])
  {
  }

  /** Each table of a new store: games as InitDB declares it, purchases and
      purchase_items as InitDB declares them with ensureSchema's columns appended, and
      the other three as ensureSchema creates them. */
  lemma FreshTables()
    ensures var s := FreshSteps();
      && "games" in s && s["games"] == GamesTable()
      && "purchases" in s && s["purchases"].columns == AddMissing(LegacyPurchasesTable().columns, Alters(PurchasesTarget()), "purchases", {})
      && "purchase_items" in s && s["purchase_items"].columns == AddMissing(LegacyPurchaseItemsTable().columns, Alters(PurchaseItemsTarget()), "purchase_items", {})
      && "cart_items" in s && s["cart_items"] == CartItemsTarget()
      && "comments" in s && s["comments"] == CommentsTarget()
      && "user_games" in s && s["user_games"] == UserGamesTarget()
  {
    InitDBOnNewFile();
    var s0 := Bootstrap(map[], InitTables(), {}).0;
    assert s0["games"] == GamesTable() && s0["purchases"] == LegacyPurchasesTable();
    assert s0["purchase_items"] == LegacyPurchaseItemsTable();
    StepsOnLegacy(s0);
  }

  /** The columns of purchases and purchase_items on a new store. */
  lemma FreshLegacyColumns()
    ensures var s := FreshSteps();
      && {"id", "user_id", "total", "created_at", "paid"} <= Names(s["purchases"].columns)
      && {"id", "purchase_id", "game_id", "price", "quantity"} <= Names(s["purchase_items"].columns)
  {
    FreshTables();
    var legacy := LegacyPurchasesTable().columns;
    var pc := AddMissing(legacy, Alters(PurchasesTarget()), "purchases", {});
    AddMissingAppends(legacy, Alters(PurchasesTarget()), "purchases", {});
    AddMissingCovers(legacy, Alters(PurchasesTarget()), "purchases", {});
    NamesPrefix(legacy, pc);
    LegacyPurchasesDeclaration();
    PurchasesTargetNames();

    var legacyItems := LegacyPurchaseItemsTable().columns;
    var ic := AddMissing(legacyItems, Alters(PurchaseItemsTarget()), "purchase_items", {});
    AddMissingAppends(legacyItems, Alters(PurchaseItemsTarget()), "purchase_items", {});
    AddMissingCovers(legacyItems, Alters(PurchaseItemsTarget()), "purchase_items", {});
    NamesPrefix(legacyItems, ic);
    LegacyPurchaseItemsDeclaration();
    PurchaseItemsTargetNames();
  }

  /** The handlers' statements all run against a catalogue with these tables. */
  lemma ShapedStoreReady(s: Catalog)
    requires "games" in s && s["games"] == GamesTable()
    requires "cart_items" in s && s["cart_items"] == CartItemsTarget()
    requires "comments" in s && s["comments"] == CommentsTarget()
    requires "user_games" in s && s["user_games"] == UserGamesTarget()
    requires "purchases" in s && {"id", "user_id", "total", "created_at", "paid"} <= Names(s["purchases"].columns)
    requires "purchase_items" in s && {"id", "purchase_id", "game_id", "price", "quantity"} <= Names(s["purchase_items"].columns)
    ensures JoinAccepted(s) && WritesAccepted(s)
    ensures Accepts(s, "purchases", {"id", "user_id"})
    ensures PayCommits(s, Payment.Unfailing) && GrantsAccepted(s) && PairUnique(s)
    ensures Accepts(s, "comments", {"id", "game_id", "user_id", "rating", "text", "created_at"})
  {
    GamesDeclaration();
    CreatedNames();
  }

  /** On a new store every statement of Checkout, Pay and the comment handlers names
      columns that exist, and user_games carries UNIQUE(user_id, game_id): the legacy
      purchases and purchase_items of InitDB are brought up to the handlers' shape, and
      ensureSchema creates the other three tables whole. */
  lemma FreshStoreReady()
    ensures var s := FreshCatalog();
      && JoinAccepted(s) && WritesAccepted(s)
      && Accepts(s, "purchases", {"id", "user_id"})
      && PayCommits(s, Payment.Unfailing) && GrantsAccepted(s) && PairUnique(s)
      && Accepts(s, "comments", {"id", "game_id", "user_id", "rating", "text", "created_at"})
  {
    FreshCatalogSteps();
    FreshTables();
    FreshLegacyColumns();
    ShapedStoreReady(FreshSteps());
  }

  /** When the ALTER that adds created_at to an existing purchases table fails, as
      SQLite's ALTER TABLE ADD COLUMN does for a CURRENT_TIMESTAMP default on a table
      that has rows, the column stays missing after ensureSchema. */
  lemma CreatedAtStaysMissing(s: Catalog, failing: set<Ddl>)
    requires "purchases" in s && "created_at" !in Names(s["purchases"].columns)
    requires AddColumn("purchases", "created_at") in failing
    ensures var s' := EnsureSchemaSpec(s, failing);
      "purchases" in s' && "created_at" !in Names(s'["purchases"].columns)
  {
    var t := Targets();
    var s1 := EnsureTable(s, "purchases", PurchasesTarget(), failing);
    assert "purchases" in s1 && "created_at" !in Names(s1["purchases"].columns) by {
      if Probe("purchases") !in failing {
        AddMissingSkips(s["purchases"].columns, Alters(PurchasesTarget()), "purchases", failing, "created_at");
      }
    }
    assert EnsureSchemaSpec(s, failing) == EnsureAll(s1, t[1..], failing);
    assert EnsureAll(s1, t[1..], failing)["purchases"] == s1["purchases"] by {
      EnsureAllExtends(s1, t[1..], failing);
    }
  }

  /** In particular on the purchases table InitDB creates, which has no created_at. */
  lemma FreshPurchasesWithoutCreatedAt(failing: set<Ddl>)
    requires AddColumn("purchases", "created_at") in failing
    ensures var s := EnsureSchemaSpec(Bootstrap(map[], InitTables(), {}).0, failing);
      "purchases" in s && "created_at" !in Names(s["purchases"].columns)
  {
    InitDBOnNewFile();
    LegacyPurchasesDeclaration();
    CreatedAtStaysMissing(Bootstrap(map[], InitTables(), {}).0, failing);
  }

  /** Without created_at in purchases, Checkout's INSERT of the purchase is refused: no
      Checkout commits, and every one leaves the three tables as they were. */
  lemma CheckoutNeedsCreatedAt(s: Catalog, cart: Table<CartItem>, games: Table<Game>, purchases: Table<Purchase>,
                               items: Table<PurchaseItem>, uid: int, now: string, fault: CheckoutFault)
    requires Tables.Valid(cart) && Tables.Valid(purchases) && Tables.Valid(items)
    requires "purchases" in s && "created_at" !in Names(s["purchases"].columns)
    ensures var o := CheckoutSpec(s, cart, games, purchases, items, uid, now, fault);
      && o.purchases == purchases && o.items == items && o.cart == cart
      && (ReadsCart(s, fault) && JoinCart(cart.rows, games.rows, uid) != [] ==> o.resp == ServerError)
  {
    assert !WritesAccepted(s);
  }

  /** Some paid purchase of `uid` has an item for game `gid`. */
  ghost predicate Bought(purchases: seq<Row<Purchase>>, items: seq<Row<PurchaseItem>>, uid: int, gid: int) {
    exists j, k :: 0 <= j < |purchases| && 0 <= k < |items|
      && purchases[j].val.userId == Some(uid) && purchases[j].val.paid
      && items[k].val.purchaseId == purchases[j].id && items[k].val.gameId == gid
  }

  /** Every game in a user's library was bought and paid for by that user, and every
      purchase item belongs to a purchase id already handed out. */
  ghost predicate Consistent(purchases: Table<Purchase>, items: Table<PurchaseItem>, userGames: Table<UserGame>) {
    && Linked(purchases, items)
    && forall i :: 0 <= i < |userGames.rows| ==>
         Bought(purchases.rows, items.rows, userGames.rows[i].val.userId, userGames.rows[i].val.gameId)
  }

  /** Appending purchases or items keeps every purchase that was bought. */
  lemma BoughtGrows(purchases: seq<Row<Purchase>>, items: seq<Row<PurchaseItem>>,
                    purchases': seq<Row<Purchase>>, items': seq<Row<PurchaseItem>>, uid: int, gid: int)
    requires purchases <= purchases' && items <= items'
    requires Bought(purchases, items, uid, gid)
    ensures Bought(purchases', items', uid, gid)
  {
    var j, k :| 0 <= j < |purchases| && 0 <= k < |items|
      && purchases[j].val.userId == Some(uid) && purchases[j].val.paid
      && items[k].val.purchaseId == purchases[j].id && items[k].val.gameId == gid;
    assert purchases'[j] == purchases[j] && items'[k] == items[k];
  }

  /** Checkout, whether it commits or not, keeps the store consistent: it only appends
      an unpaid purchase and that purchase's items, and grants nothing. */
  lemma CheckoutKeepsConsistent(s: Catalog, cart: Table<CartItem>, games: Table<Game>, purchases: Table<Purchase>,
                                items: Table<PurchaseItem>, userGames: Table<UserGame>, uid: int, now: string,
                                fault: CheckoutFault)
    requires Tables.Valid(cart) && Tables.Valid(purchases) && Tables.Valid(items)
    requires Consistent(purchases, items, userGames)
    ensures var o := CheckoutSpec(s, cart, games, purchases, items, uid, now, fault);
      Consistent(o.purchases, o.items, userGames)
  {
    var o := CheckoutSpec(s, cart, games, purchases, items, uid, now, fault);
    if o.purchases != purchases || o.items != items {
      CheckoutCommitted(cart, games, purchases, items, uid, now);
      forall i | 0 <= i < |userGames.rows|
        ensures Bought(o.purchases.rows, o.items.rows, userGames.rows[i].val.userId, userGames.rows[i].val.gameId)
      {
        BoughtGrows(purchases.rows, items.rows, o.purchases.rows, o.items.rows,
                    userGames.rows[i].val.userId, userGames.rows[i].val.gameId);
      }
    }
  }

  /** Marking a purchase paid keeps every purchase that was bought. */
  lemma BoughtAfterMarkPaid(purchases: Table<Purchase>, items: seq<Row<PurchaseItem>>, pid: int, uid: int, gid: int)
    requires Bought(purchases.rows, items, uid, gid)
    ensures Bought(MarkPaid(purchases, pid).rows, items, uid, gid)
  {
    var r := MarkPaid(purchases, pid).rows;
    MarkPaidEffect(purchases, pid);
    var j, k :| 0 <= j < |purchases.rows| && 0 <= k < |items|
      && purchases.rows[j].val.userId == Some(uid) && purchases.rows[j].val.paid
      && items[k].val.purchaseId == purchases.rows[j].id && items[k].val.gameId == gid;
    assert r[j].id == purchases.rows[j].id && r[j].val.userId == Some(uid) && r[j].val.paid;
  }

  /** Pay on a purchase its guard admitted keeps the store consistent: each game it adds
      to the caller's library is an item of that purchase, which it has just marked paid. */
  lemma PayKeepsConsistent(s: Catalog, purchases: Table<Purchase>, items: Table<PurchaseItem>, userGames: Table<UserGame>,
                           uid: int, pidArg: Option<int>, pid: int, fault: PayFault)
    requires Tables.Valid(purchases) && Tables.Valid(userGames)
    requires PayTarget(s, purchases.rows, uid, pidArg) == Some(pid)
    requires Consistent(purchases, items, userGames)
    ensures var o := PaySpec(s, purchases, items, userGames, uid, pid, fault);
      Consistent(o.purchases, items, o.userGames)
  {
    var o := PaySpec(s, purchases, items, userGames, uid, pid, fault);
    if PayCommits(s, fault) {
      PayScoped(s, purchases, items, userGames, uid, pid, fault);
      PayTargetOwned(s, purchases.rows, uid, pidArg, pid);
      MarkPaidEffect(purchases, pid);
      var j :| 0 <= j < |purchases.rows| && purchases.rows[j].id == pid && purchases.rows[j].val.userId == Some(uid);
      assert o.purchases.rows[j].id == pid && o.purchases.rows[j].val.userId == Some(uid) && o.purchases.rows[j].val.paid;
      forall i | 0 <= i < |o.userGames.rows|
        ensures Bought(o.purchases.rows, items.rows, o.userGames.rows[i].val.userId, o.userGames.rows[i].val.gameId)
      {
        var g := o.userGames.rows[i].val;
        if i < |userGames.rows| {
          assert g == userGames.rows[i].val;
          BoughtAfterMarkPaid(purchases, items.rows, pid, g.userId, g.gameId);
        } else {
          var gids := ItemGames(items.rows, pid);
          var n :| 0 <= n < |gids| && gids[n] == g.gameId;
          var k :| 0 <= k < |items.rows| && items.rows[k].val == PurchaseItem(pid, gids[n], items.rows[k].val.price, items.rows[k].val.quantity);
          assert items.rows[k].val.purchaseId == o.purchases.rows[j].id;
        }
      }
    }
  }
}
