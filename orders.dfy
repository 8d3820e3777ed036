/// `Checkout`, POST path (internal/handlers/handlers.go): in one transaction, read the
/// caller's cart joined with the games, insert one purchase with the total and one
/// purchase item per joined line, delete the caller's whole cart, commit. Any failure
/// rolls back, so the tables are either all updated or all as they were.
module Orders {
  import opened Tables
  import opened Schema
  import opened Records
  import opened Storage
  import opened Migration
  import opened Cart

  /** One row of `SELECT g.id, g.price, c.quantity FROM cart_items c JOIN games g ...`. */
  datatype CartLine = CartLine(gameId: int, price: int, quantity: int)

  /** The join, one line per cart row of the caller whose game exists, in cart order.
      A cart row whose game is missing yields nothing. */
  function JoinCart(cart: seq<Row<CartItem>>, games: seq<Row<Game>>, uid: int): seq<CartLine> {
    if cart == [] then []
    else
      var c := cart[0].val;
      var line := if c.userId != uid then [] else
        match Lookup(games, c.gameId)
        case None => []
        case Some(g) => [CartLine(c.gameId, g.price, c.quantity)];
      line + JoinCart(cart[1..], games, uid)
  }

  function Amount(l: CartLine): int {
    l.price * l.quantity
  }

  /** `total += price * qty` over the lines, in order. */
  function Total(lines: seq<CartLine>): int {
    if lines == [] then 0 else Total(lines[..|lines| - 1]) + Amount(lines[|lines| - 1])
  }

  /** The purchase_items rows written for purchase `pid`, one per line. */
  function ItemsOf(pid: int, lines: seq<CartLine>): (r: seq<PurchaseItem>)
    ensures |r| == |lines|
    ensures forall i :: 0 <= i < |lines| ==>
      r[i] == PurchaseItem(pid, lines[i].gameId, lines[i].price, lines[i].quantity)
  {
    seq(|lines|, i requires 0 <= i < |lines| => PurchaseItem(pid, lines[i].gameId, lines[i].price, lines[i].quantity))
  }

  /** Σ price × quantity over the purchase_items rows of purchase `pid`. */
  function ItemsTotal(rows: seq<Row<PurchaseItem>>, pid: int): int {
    if rows == [] then 0
    else
      var last := rows[|rows| - 1].val;
      ItemsTotal(rows[..|rows| - 1], pid) + (if last.purchaseId == pid then last.price * last.quantity else 0)
  }

  /** `DELETE FROM cart_items WHERE user_id = ?` */
  function ClearCart(t: Table<CartItem>, uid: int): Table<CartItem>
    requires Tables.Valid(t)
  {
    Delete(t, OwnedBy(uid))
  }

  /** Which step of the transaction fails, if any: `InsertItemFails(k)` is the INSERT of
      the k-th purchase item (counting from 0). */
  datatype CheckoutFault =
    | Unfailing
    | BeginFails
    | QueryFails
    | InsertPurchaseFails
    | InsertItemFails(index: nat)
    | DeleteFails
    | CommitFails

  /** The join names cart_items(user_id, game_id, quantity) and games(id, price). */
  predicate JoinAccepted(s: Catalog) {
    Accepts(s, "cart_items", {"user_id", "game_id", "quantity"}) && Accepts(s, "games", {"id", "price"})
  }

  /** The three writes name columns that exist. */
  predicate WritesAccepted(s: Catalog) {
    && Accepts(s, "purchases", {"user_id", "total", "paid", "created_at"})
    && Accepts(s, "purchase_items", {"purchase_id", "game_id", "price", "quantity"})
    && Accepts(s, "cart_items", {"user_id"})
  }

  /** The transaction gets as far as reading the cart. */
  predicate ReadsCart(s: Catalog, fault: CheckoutFault) {
    fault != BeginFails && fault != QueryFails && JoinAccepted(s)
  }

  /** Every write of a transaction over `n` lines succeeds, and so does the commit. */
  predicate WritesSucceed(s: Catalog, fault: CheckoutFault, n: nat) {
    && WritesAccepted(s)
    && fault != InsertPurchaseFails && fault != DeleteFails && fault != CommitFails
    && !(fault.InsertItemFails? && fault.index < n)
  }

  /** The joined lines of the transaction commits with: it reads the cart, finds lines
      and every write succeeds. */
  predicate Commits(s: Catalog, fault: CheckoutFault, lines: seq<CartLine>) {
    ReadsCart(s, fault) && lines != [] && WritesSucceed(s, fault, |lines|)
  }

  /** The answer of a transaction that does not commit: back to the cart when it is
      empty, an internal server error otherwise. */
  function Abandoned(s: Catalog, fault: CheckoutFault, lines: seq<CartLine>): Response {
    if ReadsCart(s, fault) && lines == [] then SeeOther(CartPage) else ServerError
  }

  /** The three tables Checkout writes, and its answer. */
  datatype Outcome = Outcome(resp: Response, purchases: Table<Purchase>, items: Table<PurchaseItem>, cart: Table<CartItem>)

  /** What Checkout's transaction leaves: on commit the new purchase, its items and the
      cart without the caller's rows; otherwise the tables as they were. */
  function CheckoutSpec(s: Catalog, cart: Table<CartItem>, games: Table<Game>, purchases: Table<Purchase>,
                        items: Table<PurchaseItem>, uid: int, now: string, fault: CheckoutFault): Outcome
    requires Tables.Valid(cart) && Tables.Valid(purchases) && Tables.Valid(items)
  {
    var lines := JoinCart(cart.rows, games.rows, uid);
    if Commits(s, fault, lines) then Committed(cart, games, purchases, items, uid, now)
    else Outcome(Abandoned(s, fault, lines), purchases, items, cart)
  }

  /** The tables a committed Checkout leaves. */
  function Committed(cart: Table<CartItem>, games: Table<Game>, purchases: Table<Purchase>,
                     items: Table<PurchaseItem>, uid: int, now: string): Outcome
    requires Tables.Valid(cart) && Tables.Valid(purchases) && Tables.Valid(items)
  {
    var lines := JoinCart(cart.rows, games.rows, uid);
    var pid := purchases.lastId + 1;
    Outcome(SeeOther(PayPage(pid)), Insert(purchases, Purchase(Some(uid), Total(lines), now, false)),
            InsertAll(items, ItemsOf(pid, lines)), ClearCart(cart, uid))
  }

  /** The transaction of Checkout, on its private copies of the three tables it writes:
      BEGIN, the join and its scan loop, the INSERT of the purchase, the INSERTs of the
      items, the DELETE of the cart and COMMIT, stopping at the first that fails. */
  method Transact(s: Catalog, cart: Table<CartItem>, games: Table<Game>, purchases: Table<Purchase>,
                  items: Table<PurchaseItem>, uid: int, now: string, fault: CheckoutFault)
    returns (r: Outcome)
    requires Tables.Valid(cart) && Tables.Valid(purchases) && Tables.Valid(items)
    ensures r == CheckoutSpec(s, cart, games, purchases, items, uid, now, fault)
  {
    var rolledBack := Outcome(ServerError, purchases, items, cart);
    if fault == BeginFails {
      return rolledBack;
    }
    if fault == QueryFails || !JoinAccepted(s) {
      return rolledBack;
    }
    var joined := JoinCart(cart.rows, games.rows, uid);
    var total, cartRows := ScanCart(joined);
    if |cartRows| == 0 {
      return rolledBack.(resp := SeeOther(CartPage));
    }
    if fault == InsertPurchaseFails || !Accepts(s, "purchases", {"user_id", "total", "paid", "created_at"}) {
      return rolledBack;
    }
    var newPurchases := Insert(purchases, Purchase(Some(uid), total, now, false));
    var pid := newPurchases.lastId;
    var itemsOk := Accepts(s, "purchase_items", {"purchase_id", "game_id", "price", "quantity"});
    var inserted, newItems := InsertItems(items, pid, cartRows, fault, itemsOk);
    if !inserted {
      return rolledBack;
    }
    if fault == DeleteFails || !Accepts(s, "cart_items", {"user_id"}) {
      return rolledBack;
    }
    var newCart := ClearCart(cart, uid);
    if fault == CommitFails {
      return rolledBack;
    }
    return Outcome(SeeOther(PayPage(pid)), newPurchases, newItems, newCart);
  }

  /** Checkout, POST path. `now` is the RFC 3339 timestamp the handler formats from the
      clock; `fault` is the step that fails, if any; `failing` the statements of the
      preceding ensureSchema that fail. */
  method Checkout(db: Database, uid: int, now: string, fault: CheckoutFault, failing: set<Ddl>)
    returns (resp: Response)
    requires db.Valid()
    modifies db`schema, db`purchases, db`purchaseItems, db`cartItems
    ensures db.Valid()
    ensures db.schema == EnsureSchemaSpec(old(db.schema), failing)
    ensures Outcome(resp, db.purchases, db.purchaseItems, db.cartItems)
         == CheckoutSpec(db.schema, old(db.cartItems), db.games, old(db.purchases), old(db.purchaseItems), uid, now, fault)
  {
    EnsureSchema(db, failing);
    var r := Transact(db.schema, db.cartItems, db.games, db.purchases, db.purchaseItems, uid, now, fault);
    resp := r.resp;
    db.purchases, db.purchaseItems, db.cartItems := r.purchases, r.items, r.cart;
  }

  /** The scan loop over the joined rows: `total += price * qty` and
      `cartRows = append(cartRows, row)`. */
  method ScanCart(joined: seq<CartLine>) returns (total: int, cartRows: seq<CartLine>)
    ensures cartRows == joined
    ensures total == Total(joined)
  {
    total := 0;
    cartRows := [];
    for i := 0 to |joined|
      invariant cartRows == joined[..i]
      invariant total == Total(cartRows)
    {
      assert joined[..i + 1][..i] == joined[..i];
      total := total + joined[i].price * joined[i].quantity;
      cartRows := cartRows + [joined[i]];
    }
    assert joined[..|joined|] == joined;
  }

  /** The loop of purchase_items INSERTs inside the transaction, on its private copy of
      the table; `accepted` says whether the table has the columns the INSERT names.
      It stops at the first INSERT that fails. */
  method InsertItems(items: Table<PurchaseItem>, pid: int, lines: seq<CartLine>, fault: CheckoutFault, accepted: bool)
    returns (ok: bool, r: Table<PurchaseItem>)
    requires Tables.Valid(items)
    ensures ok <==> lines == [] || (accepted && !(fault.InsertItemFails? && fault.index < |lines|))
    ensures ok ==> r == InsertAll(items, ItemsOf(pid, lines))
  {
    r := items;
    for k := 0 to |lines|
      invariant Tables.Valid(r)
      invariant r == InsertAll(items, ItemsOf(pid, lines[..k]))
      invariant k > 0 ==> accepted
      invariant !(fault.InsertItemFails? && fault.index < k)
    {
      if fault == InsertItemFails(k) || !accepted {
        return false, r;
      }
      var l := lines[k];
      var item := PurchaseItem(pid, l.gameId, l.price, l.quantity);
      InsertAllSnoc(items, ItemsOf(pid, lines[..k]), item);
      assert ItemsOf(pid, lines[..k + 1]) == ItemsOf(pid, lines[..k]) + [item];
      r := Insert(r, item);
    }
    assert lines[..|lines|] == lines;
    ok := true;
  }

  /** The line comes from a cart row of the caller: that row's game and quantity, and
      the price of a game with that id. */
  ghost predicate FromCart(l: CartLine, cart: seq<Row<CartItem>>, games: seq<Row<Game>>, uid: int) {
    exists i, j :: 0 <= i < |cart| && 0 <= j < |games|
      && cart[i].val == CartItem(uid, l.gameId, l.quantity)
      && games[j].id == l.gameId && games[j].val.price == l.price
  }

  /** Every joined line comes from a cart row of the caller and carries that row's
      quantity and the price of its game. */
  lemma {:induction false} JoinCartSound(cart: seq<Row<CartItem>>, games: seq<Row<Game>>, uid: int)
    requires Ascending(games)
    ensures forall k :: 0 <= k < |JoinCart(cart, games, uid)| ==> FromCart(JoinCart(cart, games, uid)[k], cart, games, uid)
  {
    if cart != [] {
      JoinCartSound(cart[1..], games, uid);
      var lines := JoinCart(cart, games, uid);
      var rest := JoinCart(cart[1..], games, uid);
      var c := cart[0].val;
      var head := if c.userId != uid then [] else
        match Lookup(games, c.gameId)
        case None => []
        case Some(g) => [CartLine(c.gameId, g.price, c.quantity)];
      assert lines == head + rest;
      forall k | 0 <= k < |lines| ensures FromCart(lines[k], cart, games, uid) {
        if k < |head| {
          var j :| 0 <= j < |games| && games[j].id == c.gameId;
          assert cart[0].val == CartItem(uid, lines[k].gameId, lines[k].quantity);
          assert games[j].id == lines[k].gameId && games[j].val.price == lines[k].price;
        } else {
          var l := lines[k];
          assert l == rest[k - |head|];
          assert FromCart(l, cart[1..], games, uid);
          var i, j :| 0 <= i < |cart[1..]| && 0 <= j < |games|
            && cart[1..][i].val == CartItem(uid, l.gameId, l.quantity)
            && games[j].id == l.gameId && games[j].val.price == l.price;
          assert cart[i + 1] == cart[1..][i];
        }
      }
    }
  }

  /** Where every game in the caller's cart exists, the join has one line per cart row
      of the caller. */
  lemma {:induction false} JoinCartComplete(cart: seq<Row<CartItem>>, games: seq<Row<Game>>, uid: int)
    requires forall i :: 0 <= i < |cart| && cart[i].val.userId == uid ==>
      exists j :: 0 <= j < |games| && games[j].id == cart[i].val.gameId
    ensures |JoinCart(cart, games, uid)| == Count(cart, OwnedBy(uid))
  {
    if cart != [] {
      forall i | 0 <= i < |cart[1..]| && cart[1..][i].val.userId == uid
        ensures exists j :: 0 <= j < |games| && games[j].id == cart[1..][i].val.gameId
      {
        assert cart[1..][i] == cart[i + 1];
      }
      JoinCartComplete(cart[1..], games, uid);
      if cart[0].val.userId == uid {
        var j :| 0 <= j < |games| && games[j].id == cart[0].val.gameId;
        assert Lookup(games, cart[0].val.gameId).Some?;
      }
    }
  }

  /** A caller with no cart rows gets no joined lines. */
  lemma {:induction false} JoinCartOwnRows(cart: seq<Row<CartItem>>, games: seq<Row<Game>>, uid: int)
    requires forall i :: 0 <= i < |cart| ==> cart[i].val.userId != uid
    ensures JoinCart(cart, games, uid) == []
  {
    if cart != [] {
      assert forall i :: 0 <= i < |cart[1..]| ==> cart[1..][i].val.userId != uid by {
        forall i | 0 <= i < |cart[1..]| ensures cart[1..][i].val.userId != uid {
          assert cart[1..][i] == cart[i + 1];
        }
      }
      JoinCartOwnRows(cart[1..], games, uid);
    }
  }

  lemma {:induction false} ItemsTotalAppend(rows: seq<Row<PurchaseItem>>, more: seq<Row<PurchaseItem>>, pid: int)
    ensures ItemsTotal(rows + more, pid) == ItemsTotal(rows, pid) + ItemsTotal(more, pid)
    decreases |more|
  {
    if more == [] {
      assert rows + more == rows;
    } else {
      var init := more[..|more| - 1];
      assert (rows + more)[..|rows + more| - 1] == rows + init;
      assert (rows + more)[|rows + more| - 1] == more[|more| - 1];
      ItemsTotalAppend(rows, init, pid);
    }
  }

  /** The purchase_items rows written for `pid` add up to the purchase's total. */
  lemma {:induction false} ItemsOfTotal(first: int, pid: int, lines: seq<CartLine>)
    ensures ItemsTotal(Numbered(first, ItemsOf(pid, lines)), pid) == Total(lines)
    decreases |lines|
  {
    if lines != [] {
      var init := lines[..|lines| - 1];
      var rows := Numbered(first, ItemsOf(pid, lines));
      assert rows[..|rows| - 1] == Numbered(first, ItemsOf(pid, init));
      ItemsOfTotal(first, pid, init);
    }
  }

  /** Rows written for other purchases add nothing to `pid`'s total. */
  lemma {:induction false} ItemsTotalElsewhere(rows: seq<Row<PurchaseItem>>, pid: int)
    requires forall i :: 0 <= i < |rows| ==> rows[i].val.purchaseId != pid
    ensures ItemsTotal(rows, pid) == 0
  {
    if rows != [] {
      ItemsTotalElsewhere(rows[..|rows| - 1], pid);
    }
  }

  /** After a commit the caller's cart is empty and every other cart is as it was. */
  lemma ClearCartScoped(t: Table<CartItem>, uid: int)
    requires Tables.Valid(t)
    ensures Count(ClearCart(t, uid).rows, OwnedBy(uid)) == 0
    ensures Others(ClearCart(t, uid).rows, uid) == Others(t.rows, uid)
    ensures forall i :: 0 <= i < |t.rows| && t.rows[i].val.userId != uid ==> t.rows[i] in ClearCart(t, uid).rows
  {
    KeepAbsorbs(t.rows, OwnedBy(uid), OwnedBy(uid));
  }

  /** Every purchase item refers to a purchase id the sequence has handed out. */
  ghost predicate Linked(purchases: Table<Purchase>, items: Table<PurchaseItem>) {
    forall i :: 0 <= i < |items.rows| ==> items.rows[i].val.purchaseId <= purchases.lastId
  }

  /** A committed Checkout adds exactly one purchase, unpaid, of the caller, whose total is
      Σ price × quantity over the joined lines; one item per line, carrying its game, price
      and quantity, whose amounts add up to that total; and it empties the caller's cart,
      leaving every other cart as it was. */
  lemma CheckoutCommitted(cart: Table<CartItem>, games: Table<Game>, purchases: Table<Purchase>,
                          items: Table<PurchaseItem>, uid: int, now: string)
    requires Tables.Valid(cart) && Tables.Valid(purchases) && Tables.Valid(items) && Linked(purchases, items)
    ensures var o := Committed(cart, games, purchases, items, uid, now);
      var lines := JoinCart(cart.rows, games.rows, uid);
      var pid := purchases.lastId + 1;
      && o.resp == SeeOther(PayPage(pid))
      && o.purchases.rows == purchases.rows + [Row(pid, Purchase(Some(uid), Total(lines), now, false))]
      && |o.items.rows| == |items.rows| + |lines|
      && o.items.rows[..|items.rows|] == items.rows
      && (forall k :: 0 <= k < |lines| ==>
            o.items.rows[|items.rows| + k].val == PurchaseItem(pid, lines[k].gameId, lines[k].price, lines[k].quantity))
      && ItemsTotal(o.items.rows, pid) == Total(lines)
      && Linked(o.purchases, o.items)
      && Count(o.cart.rows, OwnedBy(uid)) == 0
      && Others(o.cart.rows, uid) == Others(cart.rows, uid)
  {
    var lines := JoinCart(cart.rows, games.rows, uid);
    var pid := purchases.lastId + 1;
    var o := Committed(cart, games, purchases, items, uid, now);
    assert o.items == InsertAll(items, ItemsOf(pid, lines));
    assert o.purchases == Insert(purchases, Purchase(Some(uid), Total(lines), now, false));
    assert o.cart == ClearCart(cart, uid);
    CommittedItems(items, pid, lines);
    assert Linked(o.purchases, o.items);
    ClearCartScoped(cart, uid);
  }

  /** The items a commit appends: one per line, for purchase `pid`, adding up to the
      lines' total, each naming a purchase id the sequence has handed out. */
  lemma CommittedItems(items: Table<PurchaseItem>, pid: int, lines: seq<CartLine>)
    requires Tables.Valid(items)
    requires forall i :: 0 <= i < |items.rows| ==> items.rows[i].val.purchaseId < pid
    ensures var r := InsertAll(items, ItemsOf(pid, lines)).rows;
      && |r| == |items.rows| + |lines|
      && r[..|items.rows|] == items.rows
      && (forall k :: 0 <= k < |lines| ==>
            r[|items.rows| + k].val == PurchaseItem(pid, lines[k].gameId, lines[k].price, lines[k].quantity))
      && ItemsTotal(r, pid) == Total(lines)
      && (forall i :: 0 <= i < |r| ==> r[i].val.purchaseId <= pid)
  {
    var added := Numbered(items.lastId + 1, ItemsOf(pid, lines));
    var r := InsertAll(items, ItemsOf(pid, lines)).rows;
    assert r == items.rows + added;
    assert r[..|items.rows|] == items.rows;
    assert ItemsTotal(r, pid) == Total(lines) by {
      ItemsTotalAppend(items.rows, added, pid);
      ItemsTotalElsewhere(items.rows, pid);
      ItemsOfTotal(items.lastId + 1, pid, lines);
    }
    forall i | 0 <= i < |r| ensures r[i].val.purchaseId <= pid {
      if i >= |items.rows| {
        assert r[i].val == ItemsOf(pid, lines)[i - |items.rows|];
      }
    }
  }

  /** When the caller's cart has no row whose game exists, Checkout creates no purchase
      and changes nothing; it sends the browser back to the cart when the query ran. */
  lemma CheckoutEmptyCart(s: Catalog, cart: Table<CartItem>, games: Table<Game>, purchases: Table<Purchase>,
                          items: Table<PurchaseItem>, uid: int, now: string, fault: CheckoutFault)
    requires Tables.Valid(cart) && Tables.Valid(purchases) && Tables.Valid(items)
    requires forall i :: 0 <= i < |cart.rows| && cart.rows[i].val.userId == uid ==>
      forall j :: 0 <= j < |games.rows| ==> games.rows[j].id != cart.rows[i].val.gameId
    ensures var o := CheckoutSpec(s, cart, games, purchases, items, uid, now, fault);
      && o.purchases == purchases && o.items == items && o.cart == cart
      && o.resp == (if ReadsCart(s, fault) then SeeOther(CartPage) else ServerError)
  {
    JoinCartOrphans(cart.rows, games.rows, uid);
  }

  /** Cart rows whose game is missing give no line. */
  lemma {:induction false} JoinCartOrphans(cart: seq<Row<CartItem>>, games: seq<Row<Game>>, uid: int)
    requires forall i :: 0 <= i < |cart| && cart[i].val.userId == uid ==>
      forall j :: 0 <= j < |games| ==> games[j].id != cart[i].val.gameId
    ensures JoinCart(cart, games, uid) == []
  {
    if cart != [] {
      forall i | 0 <= i < |cart[1..]| && cart[1..][i].val.userId == uid
        ensures forall j :: 0 <= j < |games| ==> games[j].id != cart[1..][i].val.gameId
      {
        assert cart[1..][i] == cart[i + 1];
      }
      JoinCartOrphans(cart[1..], games, uid);
    }
  }

  /** A transaction that does not commit leaves all three tables as they were. */
  lemma CheckoutRollsBack(s: Catalog, cart: Table<CartItem>, games: Table<Game>, purchases: Table<Purchase>,
                          items: Table<PurchaseItem>, uid: int, now: string, fault: CheckoutFault)
    requires Tables.Valid(cart) && Tables.Valid(purchases) && Tables.Valid(items)
    requires fault != Unfailing && !(fault.InsertItemFails? && fault.index >= |JoinCart(cart.rows, games.rows, uid)|)
    ensures var o := CheckoutSpec(s, cart, games, purchases, items, uid, now, fault);
      o.purchases == purchases && o.items == items && o.cart == cart && o.resp != SeeOther(PayPage(purchases.lastId + 1))
  {
  }
}
