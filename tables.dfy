/// Tables of an SQLite database whose primary key is declared
/// `id INTEGER PRIMARY KEY AUTOINCREMENT`, as values: the rows in id order and
/// the largest id ever handed out (what SQLite keeps in `sqlite_sequence`, so an
/// id freed by a DELETE is never reused). The SQL statements the handlers issue
/// (INSERT, DELETE ... WHERE, UPDATE ... WHERE, SELECT ... WHERE id = ?) are the
/// functions of this module.
module Tables {

  datatype Option<+T> = None | Some(value: T)

  /** One row: its `id` column and the other columns. */
  datatype Row<R> = Row(id: int, val: R)

  datatype Table<R> = Table(rows: seq<Row<R>>, lastId: int)

  ghost predicate Ascending<R>(rows: seq<Row<R>>) {
    forall i, j :: 0 <= i < j < |rows| ==> rows[i].id < rows[j].id
  }

  /** Every id was handed out by the table's sequence, and ids are unique. */
  ghost predicate Valid<R>(t: Table<R>) {
    && 0 <= t.lastId
    && (forall i :: 0 <= i < |t.rows| ==> 0 < t.rows[i].id <= t.lastId)
    && Ascending(t.rows)
  }

  /** INSERT: the new row gets the next id of the sequence (LastInsertId). */
  function Insert<R>(t: Table<R>, v: R): (r: Table<R>)
    requires Valid(t)
    ensures Valid(r)
    ensures r.lastId == t.lastId + 1
    ensures r.rows == t.rows + [Row(r.lastId, v)]
    ensures forall i :: 0 <= i < |t.rows| ==> t.rows[i].id < r.lastId
  {
    Table(t.rows + [Row(t.lastId + 1, v)], t.lastId + 1)
  }

  /** The rows that |vs| INSERTs in a row add, numbered from `first`. */
  function Numbered<R>(first: int, vs: seq<R>): (r: seq<Row<R>>)
    ensures |r| == |vs|
    ensures forall i :: 0 <= i < |vs| ==> r[i] == Row(first + i, vs[i])
  {
    seq(|vs|, i requires 0 <= i < |vs| => Row(first + i, vs[i]))
  }

  /** One INSERT per element of `vs`, in order. */
  function InsertAll<R>(t: Table<R>, vs: seq<R>): (r: Table<R>)
    requires Valid(t)
    ensures Valid(r)
    ensures r.lastId == t.lastId + |vs|
    ensures r.rows == t.rows + Numbered(t.lastId + 1, vs)
  {
    var r := Table(t.rows + Numbered(t.lastId + 1, vs), t.lastId + |vs|);
    assert forall i :: |t.rows| <= i < |r.rows| ==> r.rows[i].id == t.lastId + 1 + (i - |t.rows|);
    r
  }

  /** Inserting the elements of `vs + [v]` one by one is inserting those of `vs`, then `v`. */
  lemma InsertAllSnoc<R>(t: Table<R>, vs: seq<R>, v: R)
    requires Valid(t)
    ensures InsertAll(t, vs + [v]) == Insert(InsertAll(t, vs), v)
  {
    var a := InsertAll(t, vs + [v]);
    var b := Insert(InsertAll(t, vs), v);
    assert |a.rows| == |b.rows|;
    forall i | 0 <= i < |a.rows| ensures a.rows[i] == b.rows[i] {
      if i < |t.rows| {
      } else if i < |t.rows| + |vs| {
        assert a.rows[i] == Numbered(t.lastId + 1, vs + [v])[i - |t.rows|];
      } else {
        assert a.rows[i] == Numbered(t.lastId + 1, vs + [v])[|vs|];
      }
    }
  }

  /** DELETE ... WHERE doomed: the rows that survive, in their order. */
  function Keep<R>(rows: seq<Row<R>>, doomed: Row<R> -> bool): (r: seq<Row<R>>)
    ensures |r| <= |rows|
    ensures forall i :: 0 <= i < |r| ==> r[i] in rows && !doomed(r[i])
    ensures forall i :: 0 <= i < |rows| && !doomed(rows[i]) ==> rows[i] in r
    ensures Ascending(rows) ==> Ascending(r)
  {
    if rows == [] then []
    else if doomed(rows[0]) then Keep(rows[1..], doomed)
    else [rows[0]] + Keep(rows[1..], doomed)
  }

  function Delete<R>(t: Table<R>, doomed: Row<R> -> bool): (r: Table<R>)
    requires Valid(t)
    ensures Valid(r) && r.lastId == t.lastId
    ensures forall i :: 0 <= i < |r.rows| ==> r.rows[i] in t.rows && !doomed(r.rows[i])
    ensures forall i :: 0 <= i < |t.rows| && !doomed(t.rows[i]) ==> t.rows[i] in r.rows
  {
    Table(Keep(t.rows, doomed), t.lastId)
  }

  /** A DELETE that matches nothing leaves the rows as they are. */
  lemma {:induction false} KeepNothing<R>(rows: seq<Row<R>>, doomed: Row<R> -> bool)
    requires forall i :: 0 <= i < |rows| ==> !doomed(rows[i])
    ensures Keep(rows, doomed) == rows
  {
    if rows != [] {
      assert !doomed(rows[0]);
      assert forall i :: 0 <= i < |rows[1..]| ==> !doomed(rows[1..][i]) by {
        forall i | 0 <= i < |rows[1..]| ensures !doomed(rows[1..][i]) {
          assert rows[1..][i] == rows[i + 1];
        }
      }
      KeepNothing(rows[1..], doomed);
      assert [rows[0]] + rows[1..] == rows;
    }
  }

  /** Two DELETEs where everything the first removes the second would remove too
      leave what the second leaves alone. */
  lemma {:induction false} KeepAbsorbs<R>(rows: seq<Row<R>>, first: Row<R> -> bool, second: Row<R> -> bool)
    requires forall i :: 0 <= i < |rows| ==> first(rows[i]) ==> second(rows[i])
    ensures Keep(Keep(rows, first), second) == Keep(rows, second)
  {
    if rows != [] {
      KeepAbsorbs(rows[1..], first, second);
    }
  }

  /** In a table with unique ids, a DELETE that can only match one id removes at most one row. */
  lemma {:induction false} KeepOneId<R>(rows: seq<Row<R>>, id: int, doomed: Row<R> -> bool)
    requires Ascending(rows)
    requires forall i :: 0 <= i < |rows| ==> doomed(rows[i]) ==> rows[i].id == id
    ensures |rows| - 1 <= |Keep(rows, doomed)|
  {
    if rows != [] {
      KeepOneId(rows[1..], id, doomed);
      if doomed(rows[0]) {
        assert forall i :: 0 <= i < |rows[1..]| ==> !doomed(rows[1..][i]) by {
          forall i | 0 <= i < |rows[1..]| ensures !doomed(rows[1..][i]) {
            assert rows[1..][i] == rows[i + 1];
          }
        }
        KeepNothing(rows[1..], doomed);
      }
    }
  }

  /** UPDATE ... SET f WHERE hit: same ids, hit rows rewritten, others untouched. */
  function Change<R>(rows: seq<Row<R>>, hit: Row<R> -> bool, f: R -> R): (r: seq<Row<R>>)
    ensures |r| == |rows|
    ensures forall i :: 0 <= i < |rows| ==> r[i].id == rows[i].id
    ensures forall i :: 0 <= i < |rows| && !hit(rows[i]) ==> r[i] == rows[i]
    ensures forall i :: 0 <= i < |rows| && hit(rows[i]) ==> r[i].val == f(rows[i].val)
    ensures Ascending(rows) ==> Ascending(r)
  {
    seq(|rows|, i requires 0 <= i < |rows| => if hit(rows[i]) then Row(rows[i].id, f(rows[i].val)) else rows[i])
  }

  /** An UPDATE seen row by row: its first row, then the UPDATE of the rest. */
  lemma ChangeTail<R>(rows: seq<Row<R>>, hit: Row<R> -> bool, f: R -> R)
    requires rows != []
    ensures Change(rows, hit, f) == Change(rows[..1], hit, f) + Change(rows[1..], hit, f)
  {
    var a := Change(rows, hit, f);
    var b := Change(rows[..1], hit, f) + Change(rows[1..], hit, f);
    forall i | 0 <= i < |a| ensures a[i] == b[i] {
      if i > 0 { assert rows[1..][i - 1] == rows[i]; }
    }
  }

  /** Rows an UPDATE rewrites but which a DELETE removes before and after are invisible
      to that DELETE: it leaves the same rows either way. */
  lemma {:induction false} KeepChange<R>(rows: seq<Row<R>>, hit: Row<R> -> bool, f: R -> R, doomed: Row<R> -> bool)
    requires forall i :: 0 <= i < |rows| && hit(rows[i]) ==> doomed(rows[i]) && doomed(Row(rows[i].id, f(rows[i].val)))
    ensures Keep(Change(rows, hit, f), doomed) == Keep(rows, doomed)
  {
    if rows != [] {
      ChangeTail(rows, hit, f);
      var c := Change(rows, hit, f);
      assert c[1..] == Change(rows[1..], hit, f);
      assert c[0] == Change(rows[..1], hit, f)[0];
      KeepChange(rows[1..], hit, f, doomed);
    }
  }

  /** A DELETE over one more row at the end keeps what it kept, and that row unless doomed. */
  lemma {:induction false} KeepSnoc<R>(rows: seq<Row<R>>, x: Row<R>, doomed: Row<R> -> bool)
    ensures Keep(rows + [x], doomed) == Keep(rows, doomed) + (if doomed(x) then [] else [x])
  {
    if rows == [] {
      assert [x][1..] == [];
    } else {
      assert (rows + [x])[1..] == rows[1..] + [x];
      KeepSnoc(rows[1..], x, doomed);
    }
  }

  /** The number of rows an UPDATE or DELETE with this condition affects. */
  function Count<R>(rows: seq<Row<R>>, hit: Row<R> -> bool): (n: nat)
    ensures n <= |rows|
    ensures n == 0 <==> forall i :: 0 <= i < |rows| ==> !hit(rows[i])
  {
    if rows == [] then 0
    else (if hit(rows[0]) then 1 else 0) + Count(rows[1..], hit)
  }

  lemma {:induction false} CountSnoc<R>(rows: seq<Row<R>>, x: Row<R>, hit: Row<R> -> bool)
    ensures Count(rows + [x], hit) == Count(rows, hit) + (if hit(x) then 1 else 0)
  {
    if rows == [] {
      assert [x][1..] == [];
    } else {
      assert (rows + [x])[1..] == rows[1..] + [x];
      CountSnoc(rows[1..], x, hit);
    }
  }

  /** SELECT ... WHERE id = ?: the row with that id, if any. */
  function Lookup<R>(rows: seq<Row<R>>, id: int): (r: Option<R>)
    ensures r.None? <==> forall i :: 0 <= i < |rows| ==> rows[i].id != id
    ensures Ascending(rows) ==> forall i :: 0 <= i < |rows| && rows[i].id == id ==> r == Some(rows[i].val)
  {
    if rows == [] then None
    else if rows[0].id == id then Some(rows[0].val)
    else Lookup(rows[1..], id)
  }
}
