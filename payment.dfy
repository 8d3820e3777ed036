/// `Pay` (internal/handlers/handlers.go): the ownership guard, then the POST path, which
/// in one transaction marks the purchase paid and inserts (caller, game) into user_games
/// for every item of the purchase with INSERT OR IGNORE.
module Payment {
  import opened Tables
  import opened Schema
  import opened Records
  import opened Storage
  import opened Migration

  /** The purchase Pay acts on: the `purchase_id` value parses to a non-zero integer,
      `SELECT user_id FROM purchases WHERE id = ?` finds a row, and its user_id is the
      caller's. A NULL user_id does not scan into an int, so such a purchase is nobody's. */
  function PayTarget(s: Catalog, purchases: seq<Row<Purchase>>, uid: int, pidArg: Option<int>): Option<int> {
    if pidArg.None? || pidArg.value == 0 || !Accepts(s, "purchases", {"id", "user_id"}) then None
    else
      match Lookup(purchases, pidArg.value)
      case None => None
      case Some(p) => if p.userId == Some(uid) then Some(pidArg.value) else None
  }

  /** The guard lets a request through exactly when it names a purchase of the caller. */
  lemma PayTargetOwned(s: Catalog, purchases: seq<Row<Purchase>>, uid: int, pidArg: Option<int>, pid: int)
    requires Ascending(purchases)
    ensures PayTarget(s, purchases, uid, pidArg) == Some(pid) <==>
      && pidArg == Some(pid) && pid != 0
      && Accepts(s, "purchases", {"id", "user_id"})
      && exists i :: 0 <= i < |purchases| && purchases[i].id == pid && purchases[i].val.userId == Some(uid)
  {
    if pidArg == Some(pid) && pid != 0 && Accepts(s, "purchases", {"id", "user_id"}) {
      if exists i :: 0 <= i < |purchases| && purchases[i].id == pid && purchases[i].val.userId == Some(uid) {
        var i :| 0 <= i < |purchases| && purchases[i].id == pid && purchases[i].val.userId == Some(uid);
        assert Lookup(purchases, pid) == Some(purchases[i].val);
      } else if Lookup(purchases, pid).Some? {
        var i :| 0 <= i < |purchases| && purchases[i].id == pid;
        assert Lookup(purchases, pid) == Some(purchases[i].val);
      }
    }
  }

  /** `WHERE id = ?` */
  function IdIs(pid: int): Row<Purchase> -> bool {
    (r: Row<Purchase>) => r.id == pid
  }

  /** `SET paid = 1` */
  function SetPaid(): Purchase -> Purchase {
    (p: Purchase) => p.(paid := true)
  }

  /** `UPDATE purchases SET paid = 1 WHERE id = ?` */
  function MarkPaid(t: Table<Purchase>, pid: int): Table<Purchase> {
    Table(Change(t.rows, IdIs(pid), SetPaid()), t.lastId)
  }

  /** `SELECT game_id, ... FROM purchase_items WHERE purchase_id = ?`, in table order. */
  function ItemGames(items: seq<Row<PurchaseItem>>, pid: int): (r: seq<int>)
    ensures forall k :: 0 <= k < |r| ==> exists i :: 0 <= i < |items| && items[i].val == PurchaseItem(pid, r[k], items[i].val.price, items[i].val.quantity)
    ensures forall i :: 0 <= i < |items| && items[i].val.purchaseId == pid ==> items[i].val.gameId in r
  {
    if items == [] then []
    else
      var rest := ItemGames(items[1..], pid);
      assert forall i :: 1 <= i < |items| ==> items[i] == items[1..][i - 1];
      (if items[0].val.purchaseId == pid then [items[0].val.gameId] else []) + rest
  }

  /** The (user, game) row: `WHERE user_id = ? AND game_id = ?`. */
  function Owns(uid: int, gid: int): Row<UserGame> -> bool {
    (r: Row<UserGame>) => r.val == UserGame(uid, gid)
  }

  /** user_games was created by ensureSchema with UNIQUE(user_id, game_id). */
  predicate PairUnique(s: Catalog) {
    "user_games" in s && ["user_id", "game_id"] in s["user_games"].uniqueKeys
  }

  /** `INSERT OR IGNORE INTO user_games (user_id, game_id) VALUES (?, ?)`: the row is
      ignored only when it would break the UNIQUE constraint. */
  function GrantOne(t: Table<UserGame>, uid: int, gid: int, unique: bool): Table<UserGame>
    requires Tables.Valid(t)
    ensures Tables.Valid(GrantOne(t, uid, gid, unique))
  {
    if unique && Count(t.rows, Owns(uid, gid)) > 0 then t else Insert(t, UserGame(uid, gid))
  }

  /** One INSERT OR IGNORE per game, in order. */
  function Grant(t: Table<UserGame>, uid: int, gids: seq<int>, unique: bool): Table<UserGame>
    requires Tables.Valid(t)
    ensures Tables.Valid(Grant(t, uid, gids, unique))
    decreases |gids|
  {
    if gids == [] then t
    else GrantOne(Grant(t, uid, gids[..|gids| - 1], unique), uid, gids[|gids| - 1], unique)
  }

  /** Which step of Pay's transaction fails, if any. */
  datatype PayFault = Unfailing | BeginFails | UpdateFails | SelectFails | CommitFails

  /** The purchases and user_games tables after Pay, and its answer. */
  datatype PayOutcome = PayOutcome(resp: Response, purchases: Table<Purchase>, userGames: Table<UserGame>)

  /** The statements of the transaction that must succeed for it to commit. */
  predicate PayCommits(s: Catalog, fault: PayFault) {
    && fault == Unfailing
    && Accepts(s, "purchases", {"id", "paid"})
    && Accepts(s, "purchase_items", {"purchase_id", "game_id", "quantity"})
  }

  /** The INSERT OR IGNOREs run; their errors are discarded, so one that names a missing
      column simply inserts nothing. */
  predicate GrantsAccepted(s: Catalog) {
    Accepts(s, "user_games", {"user_id", "game_id"})
  }

  /** Pay's POST transaction on purchase `pid`, once the guard has passed. */
  function PaySpec(s: Catalog, purchases: Table<Purchase>, items: Table<PurchaseItem>, userGames: Table<UserGame>,
                   uid: int, pid: int, fault: PayFault): PayOutcome
    requires Tables.Valid(userGames)
  {
    if !PayCommits(s, fault) then PayOutcome(ServerError, purchases, userGames)
    else if !GrantsAccepted(s) then PayOutcome(SeeOther(LibraryPage), MarkPaid(purchases, pid), userGames)
    else PayOutcome(SeeOther(LibraryPage), MarkPaid(purchases, pid), Grant(userGames, uid, ItemGames(items.rows, pid), PairUnique(s)))
  }

  /** The loop over the selected items, one INSERT OR IGNORE each. */
  method GrantLoop(t: Table<UserGame>, uid: int, gids: seq<int>, unique: bool) returns (r: Table<UserGame>)
    requires Tables.Valid(t)
    ensures r == Grant(t, uid, gids, unique)
  {
    r := t;
    for k := 0 to |gids|
      invariant Tables.Valid(r)
      invariant r == Grant(t, uid, gids[..k], unique)
    {
      assert gids[..k + 1][..k] == gids[..k];
      if !(unique && Count(r.rows, Owns(uid, gids[k])) > 0) {
        r := Insert(r, UserGame(uid, gids[k]));
      }
    }
    assert gids[..|gids|] == gids;
  }

  /** The transaction on private copies of the tables it writes. */
  method PayTransact(s: Catalog, purchases: Table<Purchase>, items: Table<PurchaseItem>, userGames: Table<UserGame>,
                     uid: int, pid: int, fault: PayFault)
    returns (o: PayOutcome)
    requires Tables.Valid(userGames)
    ensures o == PaySpec(s, purchases, items, userGames, uid, pid, fault)
  {
    var rolledBack := PayOutcome(ServerError, purchases, userGames);
    if fault == BeginFails {
      return rolledBack;
    }
    if fault == UpdateFails || !Accepts(s, "purchases", {"id", "paid"}) {
      return rolledBack;
    }
    var paid := MarkPaid(purchases, pid);
    if fault == SelectFails || !Accepts(s, "purchase_items", {"purchase_id", "game_id", "quantity"}) {
      return rolledBack;
    }
    var gids := ItemGames(items.rows, pid);
    var granted := userGames;
    if GrantsAccepted(s) {
      granted := GrantLoop(userGames, uid, gids, PairUnique(s));
    }
    if fault == CommitFails {
      return rolledBack;
    }
    return PayOutcome(SeeOther(LibraryPage), paid, granted);
  }

  /** Pay, POST path. `uid` is the `user_id` cookie (0 when absent or unparsable),
      `pidArg` the `purchase_id` value (None when empty or not an integer); `guardFails`
      says the owner query failed for a reason other than the schema, which the handler
      treats like a purchase of someone else. */
  method Pay(db: Database, uid: int, pidArg: Option<int>, guardFails: bool, fault: PayFault, failing: set<Ddl>)
    returns (resp: Response)
    requires db.Valid()
    modifies db`schema, db`purchases, db`userGames
    ensures db.Valid()
    ensures db.schema == EnsureSchemaSpec(old(db.schema), failing)
    ensures guardFails || PayTarget(db.schema, old(db.purchases).rows, uid, pidArg).None? ==>
      resp == SeeOther(PurchasesPage) && db.purchases == old(db.purchases) && db.userGames == old(db.userGames)
    ensures !guardFails && PayTarget(db.schema, old(db.purchases).rows, uid, pidArg).Some? ==>
      PayOutcome(resp, db.purchases, db.userGames)
        == PaySpec(db.schema, old(db.purchases), db.purchaseItems, old(db.userGames), uid, pidArg.value, fault)
  {
    EnsureSchema(db, failing);
    var target := PayTarget(db.schema, db.purchases.rows, uid, pidArg);
    if guardFails || target.None? {
      return SeeOther(PurchasesPage);
    }
    var o := PayTransact(db.schema, db.purchases, db.purchaseItems, db.userGames, uid, target.value, fault);
    resp := o.resp;
    db.purchases, db.userGames := o.purchases, o.userGames;
  }

  /** No two rows record the same (user, game). */
  ghost predicate PairsDistinct(rows: seq<Row<UserGame>>) {
    forall i, j :: 0 <= i < j < |rows| ==> rows[i].val != rows[j].val
  }

  /** The user holds the game. */
  ghost predicate Holds(rows: seq<Row<UserGame>>, uid: int, gid: int) {
    exists i :: 0 <= i < |rows| && rows[i].val == UserGame(uid, gid)
  }

  /** INSERT OR IGNORE only appends, and only rows of the caller for the listed games. */
  lemma {:induction false} GrantAppends(t: Table<UserGame>, uid: int, gids: seq<int>, unique: bool)
    requires Tables.Valid(t)
    ensures var r := Grant(t, uid, gids, unique).rows;
      && t.rows <= r
      && |r| <= |t.rows| + |gids|
      && forall i :: |t.rows| <= i < |r| ==> r[i].val.userId == uid && r[i].val.gameId in gids
    decreases |gids|
  {
    if gids != [] {
      var init := gids[..|gids| - 1];
      GrantAppends(t, uid, init, unique);
      var r := Grant(t, uid, gids, unique).rows;
      var mid := Grant(t, uid, init, unique).rows;
      forall i | |t.rows| <= i < |r| ensures r[i].val.userId == uid && r[i].val.gameId in gids {
        if i < |mid| {
          assert r[i] == mid[i];
          assert mid[i].val.gameId in init;
        } else {
          assert r[i].val == UserGame(uid, gids[|gids| - 1]);
        }
      }
    }
  }

  /** After the inserts the caller holds every listed game, whatever was there before. */
  lemma {:induction false} GrantCovers(t: Table<UserGame>, uid: int, gids: seq<int>, unique: bool)
    requires Tables.Valid(t)
    ensures forall k :: 0 <= k < |gids| ==> Holds(Grant(t, uid, gids, unique).rows, uid, gids[k])
    decreases |gids|
  {
    if gids != [] {
      var init := gids[..|gids| - 1];
      var gid := gids[|gids| - 1];
      GrantCovers(t, uid, init, unique);
      var mid := Grant(t, uid, init, unique);
      var r := Grant(t, uid, gids, unique).rows;
      assert mid.rows <= r;
      forall k | 0 <= k < |gids| ensures Holds(r, uid, gids[k]) {
        if k < |gids| - 1 {
          assert gids[k] == init[k];
          var i :| 0 <= i < |mid.rows| && mid.rows[i].val == UserGame(uid, gids[k]);
          assert r[i] == mid.rows[i];
        } else if unique && Count(mid.rows, Owns(uid, gid)) > 0 {
          var i :| 0 <= i < |mid.rows| && Owns(uid, gid)(mid.rows[i]);
          assert r[i] == mid.rows[i];
        } else {
          assert r[|r| - 1].val == UserGame(uid, gid);
        }
      }
    }
  }

  /** With UNIQUE(user_id, game_id), the table never holds a pair twice. */
  lemma {:induction false} GrantKeepsDistinct(t: Table<UserGame>, uid: int, gids: seq<int>)
    requires Tables.Valid(t) && PairsDistinct(t.rows)
    ensures PairsDistinct(Grant(t, uid, gids, true).rows)
    decreases |gids|
  {
    if gids != [] {
      var init := gids[..|gids| - 1];
      var gid := gids[|gids| - 1];
      GrantKeepsDistinct(t, uid, init);
      var mid := Grant(t, uid, init, true);
      if Count(mid.rows, Owns(uid, gid)) == 0 {
        var r := mid.rows + [Row(mid.lastId + 1, UserGame(uid, gid))];
        forall i, j | 0 <= i < j < |r| ensures r[i].val != r[j].val {
          if j == |mid.rows| {
            assert !Owns(uid, gid)(mid.rows[i]);
          }
        }
      }
    }
  }

  /** With UNIQUE, inserting games the caller already holds changes nothing. */
  lemma {:induction false} GrantHeldIsNoop(t: Table<UserGame>, uid: int, gids: seq<int>)
    requires Tables.Valid(t)
    requires forall k :: 0 <= k < |gids| ==> Holds(t.rows, uid, gids[k])
    ensures Grant(t, uid, gids, true) == t
    decreases |gids|
  {
    if gids != [] {
      var init := gids[..|gids| - 1];
      var gid := gids[|gids| - 1];
      forall k | 0 <= k < |init| ensures Holds(t.rows, uid, init[k]) {
        assert init[k] == gids[k];
      }
      GrantHeldIsNoop(t, uid, init);
      assert Holds(t.rows, uid, gid);
      var i :| 0 <= i < |t.rows| && t.rows[i].val == UserGame(uid, gid);
      assert Owns(uid, gid)(t.rows[i]);
    }
  }

  /** With UNIQUE, granting the same games twice is granting them once. */
  lemma GrantIdempotent(t: Table<UserGame>, uid: int, gids: seq<int>)
    requires Tables.Valid(t)
    ensures Grant(Grant(t, uid, gids, true), uid, gids, true) == Grant(t, uid, gids, true)
  {
    GrantCovers(t, uid, gids, true);
    GrantHeldIsNoop(Grant(t, uid, gids, true), uid, gids);
  }

  /** Without the UNIQUE constraint, OR IGNORE ignores nothing: every INSERT adds a row. */
  lemma {:induction false} GrantWithoutUnique(t: Table<UserGame>, uid: int, gids: seq<int>)
    requires Tables.Valid(t)
    ensures |Grant(t, uid, gids, false).rows| == |t.rows| + |gids|
    decreases |gids|
  {
    if gids != [] {
      GrantWithoutUnique(t, uid, gids[..|gids| - 1]);
    }
  }

  /** Marking a purchase paid changes its `paid` and nothing else, anywhere. */
  lemma MarkPaidEffect(t: Table<Purchase>, pid: int)
    ensures var r := MarkPaid(t, pid);
      && r.lastId == t.lastId && |r.rows| == |t.rows|
      && (forall i :: 0 <= i < |t.rows| && t.rows[i].id == pid ==> r.rows[i] == Row(pid, t.rows[i].val.(paid := true)))
      && (forall i :: 0 <= i < |t.rows| && t.rows[i].id != pid ==> r.rows[i] == t.rows[i])
      && MarkPaid(r, pid) == r
  {
    var r := MarkPaid(t, pid);
    var rr := MarkPaid(r, pid);
    assert |rr.rows| == |r.rows|;
    forall i | 0 <= i < |r.rows| ensures rr.rows[i] == r.rows[i] {
      if r.rows[i].id == pid {
        assert r.rows[i].val == t.rows[i].val.(paid := true);
      }
    }
  }

  /** Paying leaves every purchase's owner where it was, so the guard lets the same
      request through again. */
  lemma PayTargetStable(s: Catalog, t: Table<Purchase>, uid: int, pidArg: Option<int>, pid: int)
    requires Ascending(t.rows)
    ensures PayTarget(s, MarkPaid(t, pid).rows, uid, pidArg) == PayTarget(s, t.rows, uid, pidArg)
  {
    var r := MarkPaid(t, pid);
    MarkPaidEffect(t, pid);
    if pidArg.Some? {
      var q := pidArg.value;
      PayTargetOwned(s, t.rows, uid, pidArg, q);
      PayTargetOwned(s, r.rows, uid, pidArg, q);
      assert forall i :: 0 <= i < |t.rows| ==> r.rows[i].id == t.rows[i].id && r.rows[i].val.userId == t.rows[i].val.userId;
    }
  }

  /** Pay on a purchase the guard admitted: with UNIQUE(user_id, game_id) in place,
      paying twice leaves the same tables as paying once. */
  lemma PayTwice(s: Catalog, purchases: Table<Purchase>, items: Table<PurchaseItem>, userGames: Table<UserGame>,
                 uid: int, pid: int)
    requires Tables.Valid(userGames) && PairUnique(s)
    ensures var once := PaySpec(s, purchases, items, userGames, uid, pid, Unfailing);
      PaySpec(s, once.purchases, items, once.userGames, uid, pid, Unfailing) == once
  {
    var once := PaySpec(s, purchases, items, userGames, uid, pid, Unfailing);
    if PayCommits(s, Unfailing) {
      MarkPaidEffect(purchases, pid);
      if GrantsAccepted(s) {
        GrantIdempotent(userGames, uid, ItemGames(items.rows, pid));
      }
    }
  }

  /** Pay never removes a row of user_games and adds only rows of the caller, for games of
      the purchase; every other purchase stays as it was. */
  lemma PayScoped(s: Catalog, purchases: Table<Purchase>, items: Table<PurchaseItem>, userGames: Table<UserGame>,
                  uid: int, pid: int, fault: PayFault)
    requires Tables.Valid(userGames)
    ensures var o := PaySpec(s, purchases, items, userGames, uid, pid, fault);
      && userGames.rows <= o.userGames.rows
      && (forall i :: |userGames.rows| <= i < |o.userGames.rows| ==>
            o.userGames.rows[i].val.userId == uid && o.userGames.rows[i].val.gameId in ItemGames(items.rows, pid))
      && |o.purchases.rows| == |purchases.rows|
      && (forall i :: 0 <= i < |purchases.rows| && purchases.rows[i].id != pid ==> o.purchases.rows[i] == purchases.rows[i])
  {
    GrantAppends(userGames, uid, ItemGames(items.rows, pid), PairUnique(s));
    MarkPaidEffect(purchases, pid);
  }

  /** A committed Pay marks the purchase paid and leaves the caller holding every game of
      the purchase. */
  lemma PayGrantsAll(s: Catalog, purchases: Table<Purchase>, items: Table<PurchaseItem>, userGames: Table<UserGame>,
                     uid: int, pid: int)
    requires Tables.Valid(userGames) && PayCommits(s, Unfailing) && GrantsAccepted(s)
    ensures var o := PaySpec(s, purchases, items, userGames, uid, pid, Unfailing);
      && o.resp == SeeOther(LibraryPage)
      && (forall i :: 0 <= i < |o.purchases.rows| && o.purchases.rows[i].id == pid ==> o.purchases.rows[i].val.paid)
      && (forall i :: 0 <= i < |items.rows| && items.rows[i].val.purchaseId == pid ==>
            Holds(o.userGames.rows, uid, items.rows[i].val.gameId))
  {
    var gids := ItemGames(items.rows, pid);
    GrantCovers(userGames, uid, gids, PairUnique(s));
    MarkPaidEffect(purchases, pid);
    forall i | 0 <= i < |items.rows| && items.rows[i].val.purchaseId == pid
      ensures Holds(PaySpec(s, purchases, items, userGames, uid, pid, Unfailing).userGames.rows, uid, items.rows[i].val.gameId)
    {
      var k :| 0 <= k < |gids| && gids[k] == items.rows[i].val.gameId;
    }
  }
}
