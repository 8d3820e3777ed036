/// The cart handlers of internal/handlers/handlers.go: `AddToCart`, which merges a
/// quantity into the caller's row for a game or inserts one, and `RemoveFromCart`,
/// which deletes by cart-row id or by game, always within the caller's own rows.
module Cart {
  import opened Tables
  import opened Records
  import opened Storage
  import opened Migration

  /** The caller's row for this game: `WHERE user_id = ? AND game_id = ?`. */
  function Matches(uid: int, gid: int): Row<CartItem> -> bool {
    (r: Row<CartItem>) => r.val.userId == uid && r.val.gameId == gid
  }

  /** A row of this user's cart: `WHERE user_id = ?`. */
  function OwnedBy(uid: int): Row<CartItem> -> bool {
    (r: Row<CartItem>) => r.val.userId == uid
  }

  /** The rows of every other user's cart, in table order. */
  function Others(rows: seq<Row<CartItem>>, uid: int): seq<Row<CartItem>> {
    Keep(rows, OwnedBy(uid))
  }

  /** `SET quantity = quantity + ?` */
  function Bump(qty: int): CartItem -> CartItem {
    (c: CartItem) => c.(quantity := c.quantity + qty)
  }

  /** The `quantity` form value: 1 unless it parses as a positive integer. `q` is None
      when the value is empty or does not parse. */
  function NormalizeQuantity(q: Option<int>): (n: int)
    ensures n >= 1
    ensures q.Some? && q.value > 0 ==> n == q.value
    ensures (q.None? || q.value <= 0) ==> n == 1
  {
    match q
    case Some(v) => if v > 0 then v else 1
    case None => 1
  }

  /** The update-then-insert merge: bump every row of the caller for the game, or insert
      one with the quantity when there is none. */
  function Merge(t: Table<CartItem>, uid: int, gid: int, qty: int): Table<CartItem>
    requires Tables.Valid(t)
  {
    if Count(t.rows, Matches(uid, gid)) > 0 then Table(Change(t.rows, Matches(uid, gid), Bump(qty)), t.lastId)
    else Insert(t, CartItem(uid, gid, qty))
  }

  /** How many of this game the user has in the cart, over all their rows for it. */
  function Quantity(rows: seq<Row<CartItem>>, uid: int, gid: int): int {
    if rows == [] then 0
    else (if Matches(uid, gid)(rows[0]) then rows[0].val.quantity else 0) + Quantity(rows[1..], uid, gid)
  }

  /** At most one row per (user, game): the shape the merge is meant to keep. */
  ghost predicate CartUnique(rows: seq<Row<CartItem>>) {
    forall i, j :: 0 <= i < j < |rows| ==>
      rows[i].val.userId != rows[j].val.userId || rows[i].val.gameId != rows[j].val.gameId
  }

  ghost predicate AllPositive(rows: seq<Row<CartItem>>) {
    forall i :: 0 <= i < |rows| ==> rows[i].val.quantity > 0
  }

  lemma {:induction false} QuantitySnoc(rows: seq<Row<CartItem>>, x: Row<CartItem>, uid: int, gid: int)
    ensures Quantity(rows + [x], uid, gid) == Quantity(rows, uid, gid) + (if Matches(uid, gid)(x) then x.val.quantity else 0)
  {
    if rows == [] {
      assert [x][1..] == [];
    } else {
      assert (rows + [x])[1..] == rows[1..] + [x];
      QuantitySnoc(rows[1..], x, uid, gid);
    }
  }

  lemma {:induction false} QuantityChange(rows: seq<Row<CartItem>>, uid: int, gid: int, qty: int)
    ensures Quantity(Change(rows, Matches(uid, gid), Bump(qty)), uid, gid)
         == Quantity(rows, uid, gid) + qty * Count(rows, Matches(uid, gid))
  {
    if rows == [] {
      assert Change(rows, Matches(uid, gid), Bump(qty)) == [];
    } else {
      var hit := Matches(uid, gid);
      ChangeTail(rows, hit, Bump(qty));
      var c := Change(rows, hit, Bump(qty));
      var rest := Change(rows[1..], hit, Bump(qty));
      assert c[1..] == rest;
      var n := Count(rows[1..], hit);
      var q := Quantity(rows[1..], uid, gid);
      QuantityChange(rows[1..], uid, gid, qty);
      assert Quantity(rest, uid, gid) == q + qty * n;
      assert Count(rows, hit) == (if hit(rows[0]) then 1 else 0) + n;
      assert Quantity(rows, uid, gid) == (if hit(rows[0]) then rows[0].val.quantity else 0) + q;
      assert Quantity(c, uid, gid) == (if hit(c[0]) then c[0].val.quantity else 0) + Quantity(rest, uid, gid);
      if hit(rows[0]) {
        assert c[0].val.quantity == rows[0].val.quantity + qty;
        assert hit(c[0]);
        Distribute(qty, Count(rows, hit), n);
      } else {
        assert c[0] == rows[0];
      }
    }
  }

  lemma Distribute(a: int, m: int, n: int)
    requires m == 1 + n
    ensures a * m == a + a * n
  {
  }

  /** The caller's quantity of the game grows by `qty` for every row of theirs the UPDATE
      hits, or by `qty` through the INSERT when it hits none; only that INSERT adds a row. */
  lemma MergeAddsQuantity(t: Table<CartItem>, uid: int, gid: int, qty: int)
    requires Tables.Valid(t)
    ensures var n := Count(t.rows, Matches(uid, gid));
      Quantity(Merge(t, uid, gid, qty).rows, uid, gid) == Quantity(t.rows, uid, gid) + (if n == 0 then qty else qty * n)
    ensures |Merge(t, uid, gid, qty).rows| == |t.rows| + (if Count(t.rows, Matches(uid, gid)) == 0 then 1 else 0)
  {
    if Count(t.rows, Matches(uid, gid)) > 0 {
      QuantityChange(t.rows, uid, gid, qty);
    } else {
      QuantitySnoc(t.rows, Row(t.lastId + 1, CartItem(uid, gid, qty)), uid, gid);
    }
  }

  /** Where the cart holds one row per (user, game), a merge adds exactly `qty` and keeps
      one row per pair; the rows of other pairs keep their place and their values, and at most
      the one new row is added. */
  lemma MergeKeepsUnique(t: Table<CartItem>, uid: int, gid: int, qty: int)
    requires Tables.Valid(t) && CartUnique(t.rows)
    ensures CartUnique(Merge(t, uid, gid, qty).rows)
    ensures Count(Merge(t, uid, gid, qty).rows, Matches(uid, gid)) == 1
    ensures Quantity(Merge(t, uid, gid, qty).rows, uid, gid) == Quantity(t.rows, uid, gid) + qty
    ensures forall i :: 0 <= i < |t.rows| && !Matches(uid, gid)(t.rows[i]) ==> Merge(t, uid, gid, qty).rows[i] == t.rows[i]
    ensures |Merge(t, uid, gid, qty).rows| == |t.rows| + (if Count(t.rows, Matches(uid, gid)) == 0 then 1 else 0)
  {
    var m := Merge(t, uid, gid, qty).rows;
    if Count(t.rows, Matches(uid, gid)) > 0 {
      assert m == Change(t.rows, Matches(uid, gid), Bump(qty));
      var i :| 0 <= i < |t.rows| && Matches(uid, gid)(t.rows[i]);
      assert Count(t.rows, Matches(uid, gid)) == 1 by {
        CountOne(t.rows, uid, gid, i);
      }
      assert Count(m, Matches(uid, gid)) == 1 by {
        ChangeCount(t.rows, uid, gid, qty);
      }
      assert CartUnique(m) by {
        ChangeKeepsUnique(t.rows, uid, gid, qty);
      }
      assert Quantity(m, uid, gid) == Quantity(t.rows, uid, gid) + qty by {
        MergeAddsQuantity(t, uid, gid, qty);
        Distribute(qty, 1, 0);
      }
    } else {
      var x := Row(t.lastId + 1, CartItem(uid, gid, qty));
      assert m == t.rows + [x];
      assert Count(m, Matches(uid, gid)) == 1 by {
        CountSnoc(t.rows, x, Matches(uid, gid));
      }
      assert CartUnique(m) by {
        SnocKeepsUnique(t.rows, x);
      }
      assert Quantity(m, uid, gid) == Quantity(t.rows, uid, gid) + qty by {
        MergeAddsQuantity(t, uid, gid, qty);
      }
    }
  }

  lemma ChangeKeepsUnique(rows: seq<Row<CartItem>>, uid: int, gid: int, qty: int)
    requires CartUnique(rows)
    ensures CartUnique(Change(rows, Matches(uid, gid), Bump(qty)))
  {
    var c := Change(rows, Matches(uid, gid), Bump(qty));
    forall i, j | 0 <= i < j < |c|
      ensures c[i].val.userId != c[j].val.userId || c[i].val.gameId != c[j].val.gameId
    {
      assert c[i].val.userId == rows[i].val.userId && c[i].val.gameId == rows[i].val.gameId;
      assert c[j].val.userId == rows[j].val.userId && c[j].val.gameId == rows[j].val.gameId;
    }
  }

  lemma SnocKeepsUnique(rows: seq<Row<CartItem>>, x: Row<CartItem>)
    requires CartUnique(rows)
    requires Count(rows, Matches(x.val.userId, x.val.gameId)) == 0
    ensures CartUnique(rows + [x])
  {
    var a := rows + [x];
    forall i, j | 0 <= i < j < |a|
      ensures a[i].val.userId != a[j].val.userId || a[i].val.gameId != a[j].val.gameId
    {
      if j == |rows| {
        assert !Matches(x.val.userId, x.val.gameId)(rows[i]);
      }
    }
  }

  lemma {:induction false} CountOne(rows: seq<Row<CartItem>>, uid: int, gid: int, k: int)
    requires CartUnique(rows) && 0 <= k < |rows| && Matches(uid, gid)(rows[k])
    ensures Count(rows, Matches(uid, gid)) == 1
  {
    if k == 0 {
      assert forall i :: 0 <= i < |rows[1..]| ==> !Matches(uid, gid)(rows[1..][i]) by {
        forall i | 0 <= i < |rows[1..]| ensures !Matches(uid, gid)(rows[1..][i]) {
          assert rows[1..][i] == rows[i + 1];
        }
      }
    } else {
      assert rows[1..][k - 1] == rows[k];
      assert !Matches(uid, gid)(rows[0]);
      CountOne(rows[1..], uid, gid, k - 1);
    }
  }

  /** The UPDATE hits the same rows after as before, since it changes only `quantity`. */
  lemma {:induction false} ChangeCount(rows: seq<Row<CartItem>>, uid: int, gid: int, qty: int)
    ensures Count(Change(rows, Matches(uid, gid), Bump(qty)), Matches(uid, gid)) == Count(rows, Matches(uid, gid))
  {
    if rows != [] {
      ChangeTail(rows, Matches(uid, gid), Bump(qty));
      var c := Change(rows, Matches(uid, gid), Bump(qty));
      assert c[1..] == Change(rows[1..], Matches(uid, gid), Bump(qty));
      assert c[0] == Change(rows[..1], Matches(uid, gid), Bump(qty))[0];
      ChangeCount(rows[1..], uid, gid, qty);
    }
  }

  /** A merge touches only the caller's rows. */
  lemma MergeKeepsOthers(t: Table<CartItem>, uid: int, gid: int, qty: int)
    requires Tables.Valid(t)
    ensures Others(Merge(t, uid, gid, qty).rows, uid) == Others(t.rows, uid)
  {
    if Count(t.rows, Matches(uid, gid)) > 0 {
      KeepChange(t.rows, Matches(uid, gid), Bump(qty), OwnedBy(uid));
    } else {
      KeepSnoc(t.rows, Row(t.lastId + 1, CartItem(uid, gid, qty)), OwnedBy(uid));
    }
  }

  /** With a positive quantity, every quantity in the cart stays positive. */
  lemma MergeKeepsPositive(t: Table<CartItem>, uid: int, gid: int, qty: int)
    requires Tables.Valid(t) && AllPositive(t.rows) && qty > 0
    ensures AllPositive(Merge(t, uid, gid, qty).rows)
  {
  }

  /** Adding a game twice to a cart without it leaves one row holding both quantities. */
  lemma AddTwiceMerges(t: Table<CartItem>, uid: int, gid: int, q1: int, q2: int)
    requires Tables.Valid(t) && Count(t.rows, Matches(uid, gid)) == 0
    ensures var m := Merge(Merge(t, uid, gid, q1), uid, gid, q2);
      Count(m.rows, Matches(uid, gid)) == 1 && Quantity(m.rows, uid, gid) == Quantity(t.rows, uid, gid) + q1 + q2
  {
    var m1 := Merge(t, uid, gid, q1);
    CountSnoc(t.rows, Row(t.lastId + 1, CartItem(uid, gid, q1)), Matches(uid, gid));
    MergeAddsQuantity(t, uid, gid, q1);
    MergeAddsQuantity(m1, uid, gid, q2);
    ChangeCount(m1.rows, uid, gid, q2);
  }

  /** The statement AddToCart runs first, `INSERT ... ON CONFLICT(rowid) DO NOTHING`, as
      written: the new row's rowid comes fresh from the sequence and never conflicts, so
      the INSERT appends a row every time and the update-then-insert fallback after it
      never runs. */
  function AddAsWritten(t: Table<CartItem>, uid: int, gid: int, qty: int): (r: Table<CartItem>)
    requires Tables.Valid(t)
    ensures Tables.Valid(r)
  {
    Insert(t, CartItem(uid, gid, qty))
  }

  /** As written, adding a game the caller already has in the cart adds a second row
      for it instead of raising the first row's quantity: the cart no longer holds one
      row per (user, game). */
  lemma AddAsWrittenDuplicates(t: Table<CartItem>, uid: int, gid: int, q1: int, q2: int)
    requires Tables.Valid(t)
    ensures var r := AddAsWritten(AddAsWritten(t, uid, gid, q1), uid, gid, q2);
      && Count(r.rows, Matches(uid, gid)) == Count(t.rows, Matches(uid, gid)) + 2
      && !CartUnique(r.rows)
  {
    var r1 := AddAsWritten(t, uid, gid, q1);
    var r := AddAsWritten(r1, uid, gid, q2);
    CountSnoc(t.rows, r1.rows[|r1.rows| - 1], Matches(uid, gid));
    CountSnoc(r1.rows, r.rows[|r.rows| - 1], Matches(uid, gid));
    assert r.rows[|r.rows| - 2].val.gameId == r.rows[|r.rows| - 1].val.gameId;
  }

  /** AddToCart. `uid` is the `user_id` cookie (0 when absent or unparsable), `post`
      whether the request is a POST, `gameArg` and `qtyArg` the `id` and `quantity`
      form values (None when empty or not an integer). */
  method AddToCart(db: Database, uid: int, post: bool, gameArg: Option<int>, qtyArg: Option<int>, failing: set<Ddl>)
    returns (resp: Response)
    requires db.Valid()
    modifies db`schema, db`cartItems
    ensures db.Valid()
    ensures db.schema == EnsureSchemaSpec(old(db.schema), failing)
    ensures uid == 0 ==> resp == SeeOther(LoginPage) && db.cartItems == old(db.cartItems)
    ensures uid != 0 && (!post || gameArg.None?) ==> resp == SeeOther(HomePage) && db.cartItems == old(db.cartItems)
    ensures uid != 0 && post && gameArg.Some? ==>
      resp == SeeOther(CartPage) && db.cartItems == Merge(old(db.cartItems), uid, gameArg.value, NormalizeQuantity(qtyArg))
  {
    EnsureSchema(db, failing);
    if uid == 0 {
      return SeeOther(LoginPage);
    }
    if !post || gameArg.None? {
      return SeeOther(HomePage);
    }
    var gid := gameArg.value;
    var qty := NormalizeQuantity(qtyArg);
    // UPDATE cart_items SET quantity = quantity + ? WHERE user_id = ? AND game_id = ?
    var affected := Count(db.cartItems.rows, Matches(uid, gid));
    db.cartItems := Table(Change(db.cartItems.rows, Matches(uid, gid), Bump(qty)), db.cartItems.lastId);
    if affected == 0 {
      KeepNothing(old(db.cartItems).rows, Matches(uid, gid));
      ChangeNone(old(db.cartItems).rows, uid, gid, qty);
      db.cartItems := Insert(db.cartItems, CartItem(uid, gid, qty));
    }
    return SeeOther(CartPage);
  }

  /** An UPDATE that hits nothing changes nothing. */
  lemma ChangeNone(rows: seq<Row<CartItem>>, uid: int, gid: int, qty: int)
    requires Count(rows, Matches(uid, gid)) == 0
    ensures Change(rows, Matches(uid, gid), Bump(qty)) == rows
  {
  }

  /** `DELETE FROM cart_items WHERE id = ? AND user_id = ?` */
  function ByCartId(cid: int, uid: int): Row<CartItem> -> bool {
    (r: Row<CartItem>) => r.id == cid && r.val.userId == uid
  }

  /** What RemoveFromCart does to cart_items for a signed-in caller. `cartArg` and
      `gameArg` are the `cart_id` and `id` values (None when empty or not an integer). */
  function RemoveSpec(t: Table<CartItem>, uid: int, cartArg: Option<int>, gameArg: Option<int>): Table<CartItem>
    requires Tables.Valid(t)
  {
    if cartArg.Some? && cartArg.value > 0 then Delete(t, ByCartId(cartArg.value, uid))
    else if gameArg.None? then t
    else Delete(t, Matches(uid, gameArg.value))
  }

  /** RemoveFromCart only ever deletes the caller's rows: every other user's cart is
      exactly as it was, and nothing is added. */
  lemma RemoveScoped(t: Table<CartItem>, uid: int, cartArg: Option<int>, gameArg: Option<int>)
    requires Tables.Valid(t)
    ensures var r := RemoveSpec(t, uid, cartArg, gameArg);
      Others(r.rows, uid) == Others(t.rows, uid)
      && (forall i :: 0 <= i < |r.rows| ==> r.rows[i] in t.rows)
      && r.lastId == t.lastId
  {
    if cartArg.Some? && cartArg.value > 0 {
      KeepAbsorbs(t.rows, ByCartId(cartArg.value, uid), OwnedBy(uid));
    } else if gameArg.Some? {
      KeepAbsorbs(t.rows, Matches(uid, gameArg.value), OwnedBy(uid));
    }
  }

  /** With a positive cart id, at most that one row goes, and only if it is the caller's. */
  lemma RemoveByIdAtMostOne(t: Table<CartItem>, uid: int, cid: int, gameArg: Option<int>)
    requires Tables.Valid(t) && cid > 0
    ensures var r := RemoveSpec(t, uid, Some(cid), gameArg);
      |t.rows| - 1 <= |r.rows|
      && (forall i :: 0 <= i < |r.rows| ==> !(r.rows[i].id == cid && r.rows[i].val.userId == uid))
      && (forall i :: 0 <= i < |t.rows| && t.rows[i].id != cid ==> t.rows[i] in r.rows)
  {
    KeepOneId(t.rows, cid, ByCartId(cid, uid));
  }

  /** By game, every row of the caller for that game goes, and every other row stays. */
  lemma RemoveByGameClears(t: Table<CartItem>, uid: int, cartArg: Option<int>, gid: int)
    requires Tables.Valid(t) && !(cartArg.Some? && cartArg.value > 0)
    ensures var r := RemoveSpec(t, uid, cartArg, Some(gid));
      Count(r.rows, Matches(uid, gid)) == 0
      && (forall i :: 0 <= i < |t.rows| && !Matches(uid, gid)(t.rows[i]) ==> t.rows[i] in r.rows)
  {
  }

  /** RemoveFromCart; it does not call ensureSchema. */
  method RemoveFromCart(db: Database, uid: int, cartArg: Option<int>, gameArg: Option<int>) returns (resp: Response)
    requires db.Valid()
    modifies db`cartItems
    ensures db.Valid()
    ensures uid == 0 ==> resp == SeeOther(LoginPage) && db.cartItems == old(db.cartItems)
    ensures uid != 0 ==> resp == SeeOther(CartPage) && db.cartItems == RemoveSpec(old(db.cartItems), uid, cartArg, gameArg)
  {
    if uid == 0 {
      return SeeOther(LoginPage);
    }
    if cartArg.Some? && cartArg.value > 0 {
      db.cartItems := Delete(db.cartItems, ByCartId(cartArg.value, uid));
      return SeeOther(CartPage);
    }
    if gameArg.None? {
      return SeeOther(CartPage);
    }
    db.cartItems := Delete(db.cartItems, Matches(uid, gameArg.value));
    return SeeOther(CartPage);
  }
}
