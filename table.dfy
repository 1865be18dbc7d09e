/**
 * The `todos` table of internal/models/todo.go and the SQL statements the
 * store runs against it, as functions on the table's rows. The rows are kept
 * in rowid order, which for an INTEGER PRIMARY KEY is ascending id.
 */
module Table {
  import opened Strings

  /** One row: `id`, `text`, `completed`, `created_at` (a logical timestamp). */
  datatype Todo = Todo(id: int, text: seq<byte>, completed: bool, createdAt: int)

  /** Rowid order: ids strictly ascending, hence pairwise distinct. */
  ghost predicate IdsAscending(rows: seq<Todo>) {
    forall i, j :: 0 <= i < j < |rows| ==> rows[i].id < rows[j].id
  }

  ghost predicate HasId(rows: seq<Todo>, id: int) {
    exists i :: 0 <= i < |rows| && rows[i].id == id
  }

  lemma IdsAscendingUnique(rows: seq<Todo>, i: nat, j: nat)
    requires IdsAscending(rows) && i < |rows| && j < |rows| && rows[i].id == rows[j].id
    ensures i == j
  {
  }

  /** Number of rows a `WHERE id = ?` clause matches: the driver's RowsAffected. */
  function CountId(rows: seq<Todo>, id: int): (n: nat)
    ensures n == 0 <==> !HasId(rows, id)
    ensures IdsAscending(rows) ==> n <= 1
  {
    if rows == [] then 0
    else
      assert forall i :: 0 < i < |rows| ==> rows[i] == rows[1..][i - 1];
      (if rows[0].id == id then 1 else 0) + CountId(rows[1..], id)
  }

  /** `UPDATE todos SET completed = NOT completed WHERE id = ?` */
  function Toggled(rows: seq<Todo>, id: int): (r: seq<Todo>)
    ensures |r| == |rows|
    ensures forall i :: 0 <= i < |rows| ==> r[i].id == rows[i].id && r[i].text == rows[i].text && r[i].createdAt == rows[i].createdAt
    ensures forall i :: 0 <= i < |rows| ==> r[i].completed == (rows[i].completed != (rows[i].id == id))
  {
    if rows == [] then []
    else
      var head := if rows[0].id == id then rows[0].(completed := !rows[0].completed) else rows[0];
      [head] + Toggled(rows[1..], id)
  }

  /** `DELETE FROM todos WHERE id = ?` */
  function Without(rows: seq<Todo>, id: int): (r: seq<Todo>)
    ensures |r| <= |rows|
    ensures forall i :: 0 <= i < |r| ==> r[i].id != id && r[i] in rows
    ensures forall i :: 0 <= i < |rows| && rows[i].id != id ==> rows[i] in r
  {
    if rows == [] then []
    else (if rows[0].id == id then [] else [rows[0]]) + Without(rows[1..], id)
  }

  /** Toggling the same id twice restores every row. */
  lemma ToggledTwice(rows: seq<Todo>, id: int)
    ensures Toggled(Toggled(rows, id), id) == rows
  {
  }

  /** A toggle that matches nothing changes nothing. */
  lemma ToggledAbsent(rows: seq<Todo>, id: int)
    requires !HasId(rows, id)
    ensures Toggled(rows, id) == rows
  {
  }

  /** A delete that matches nothing changes nothing. */
  lemma {:induction false} WithoutAbsent(rows: seq<Todo>, id: int)
    requires !HasId(rows, id)
    ensures Without(rows, id) == rows
  {
    if rows != [] {
      assert !HasId(rows[1..], id) by {
        forall i | 0 <= i < |rows[1..]| ensures rows[1..][i].id != id {
          assert rows[1..][i] == rows[i + 1];
        }
      }
      WithoutAbsent(rows[1..], id);
    }
  }

  /**
   * Deleting an id stored at index k removes exactly row k and keeps every
   * other row, in order.
   */
  lemma {:induction false} WithoutRemovesOne(rows: seq<Todo>, id: int, k: nat)
    requires IdsAscending(rows) && k < |rows| && rows[k].id == id
    ensures Without(rows, id) == rows[..k] + rows[k + 1..]
  {
    var tail := rows[1..];
    AscendingTail(rows);
    if k == 0 {
      WithoutAbsent(tail, id);
    } else {
      assert tail[k - 1] == rows[k];
      WithoutRemovesOne(tail, id, k - 1);
      DropInTail(rows, k);
    }
  }

  /** Dropping index k > 0 keeps the head and drops index k - 1 of the rest. */
  lemma DropInTail(rows: seq<Todo>, k: nat)
    requires 0 < k < |rows|
    ensures rows[..k] + rows[k + 1..] == [rows[0]] + (rows[1..][..k - 1] + rows[1..][k..])
  {
  }

  /** The rows after the first keep rowid order and never repeat the first id. */
  lemma AscendingTail(rows: seq<Todo>)
    requires IdsAscending(rows) && rows != []
    ensures IdsAscending(rows[1..])
    ensures forall i :: 0 <= i < |rows[1..]| ==> rows[0].id < rows[1..][i].id
    ensures !HasId(rows[1..], rows[0].id)
  {
  }

  /** Deleting rows keeps rowid order. */
  lemma {:induction false} WithoutAscending(rows: seq<Todo>, id: int)
    requires IdsAscending(rows)
    ensures IdsAscending(Without(rows, id))
  {
    if rows != [] {
      AscendingTail(rows);
      WithoutAscending(rows[1..], id);
      var tail := Without(rows[1..], id);
      DrawnFromAbove(rows[0].id, rows[1..], tail);
      ConsAscending(rows[0], tail);
    }
  }

  /** Rows drawn from rows whose ids all exceed x have ids exceeding x. */
  lemma DrawnFromAbove(x: int, rows: seq<Todo>, r: seq<Todo>)
    requires forall i :: 0 <= i < |rows| ==> x < rows[i].id
    requires forall i :: 0 <= i < |r| ==> r[i] in rows
    ensures forall i :: 0 <= i < |r| ==> x < r[i].id
  {
  }

  lemma ConsAscending(t: Todo, rows: seq<Todo>)
    requires IdsAscending(rows)
    requires forall i :: 0 <= i < |rows| ==> t.id < rows[i].id
    ensures IdsAscending([t] + rows)
  {
  }

  /** Newest first: `ORDER BY created_at DESC`, with no tie-break. */
  ghost predicate NewestFirst(s: seq<Todo>) {
    forall i, j :: 0 <= i < j < |s| ==> s[i].createdAt >= s[j].createdAt
  }

  ghost predicate DistinctTimes(s: seq<Todo>) {
    forall i, j :: 0 <= i < j < |s| ==> s[i].createdAt != s[j].createdAt
  }

  /** Insert one row into a newest-first listing, ahead of rows no newer than it. */
  function InsertNewestFirst(t: Todo, s: seq<Todo>): (r: seq<Todo>)
    requires NewestFirst(s)
    ensures NewestFirst(r)
    ensures multiset(r) == multiset(s) + multiset{t}
    ensures (forall i :: 0 <= i < |s| ==> s[i].createdAt <= t.createdAt) ==> r == [t] + s
  {
    if s == [] || t.createdAt >= s[0].createdAt then
      ConsNewestFirst(t, s);
      [t] + s
    else
      OrderedTail(s);
      var tail := InsertNewestFirst(t, s[1..]);
      NoNewerThanHead(s, t, tail);
      ConsNewestFirst(s[0], tail);
      [s[0]] + tail
  }

  /** Putting a row in front of rows no newer than it keeps a listing newest first. */
  lemma ConsNewestFirst(x: Todo, s: seq<Todo>)
    requires NewestFirst(s)
    requires forall i :: 0 <= i < |s| ==> s[i].createdAt <= x.createdAt
    ensures NewestFirst([x] + s)
  {
  }

  /** Rows drawn from the rest of a listing, plus one older row, are no newer than its head. */
  lemma NoNewerThanHead(s: seq<Todo>, t: Todo, tail: seq<Todo>)
    requires NewestFirst(s) && s != [] && t.createdAt < s[0].createdAt
    requires multiset(tail) == multiset(s[1..]) + multiset{t}
    ensures forall j :: 0 <= j < |tail| ==> tail[j].createdAt <= s[0].createdAt
    ensures multiset([s[0]] + tail) == multiset(s) + multiset{t}
  {
    forall j | 0 <= j < |tail| ensures tail[j].createdAt <= s[0].createdAt {
      assert tail[j] in multiset(tail);
      if tail[j] != t {
        assert tail[j] in multiset(s[1..]);
        var m :| 0 <= m < |s[1..]| && s[1..][m] == tail[j];
        assert s[1..][m] == s[m + 1];
      }
    }
    assert s == [s[0]] + s[1..];
  }

  /**
   * When no two rows share a timestamp, a newest-first listing is fully
   * determined by which rows it holds: the missing tie-break cannot matter.
   */
  lemma {:induction false} NewestFirstUnique(s: seq<Todo>, t: seq<Todo>)
    requires NewestFirst(s) && NewestFirst(t) && DistinctTimes(s)
    requires multiset(s) == multiset(t)
    ensures s == t
  {
    if s == [] {
      assert |t| == |multiset(t)| == 0;
    } else {
      HeadsAgree(s, t);
      SameTails(s, t);
      OrderedTail(s);
      OrderedTail(t);
      NewestFirstUnique(s[1..], t[1..]);
      SameTails(s, t);
    }
  }

  /** Two non-empty listings with the same head hold the same rest, and are equal when their rests are. */
  lemma SameTails(s: seq<Todo>, t: seq<Todo>)
    requires s != [] && t != [] && s[0] == t[0]
    ensures multiset(s) == multiset(t) ==> multiset(s[1..]) == multiset(t[1..])
    ensures s[1..] == t[1..] ==> s == t
  {
    assert s == [s[0]] + s[1..] && t == [t[0]] + t[1..];
    assert multiset(s) == multiset{s[0]} + multiset(s[1..]);
    assert multiset(t) == multiset{t[0]} + multiset(t[1..]);
    assert multiset(s[1..]) == multiset(s) - multiset{s[0]};
    assert multiset(t[1..]) == multiset(t) - multiset{t[0]};
  }

  /** The newest row of a listing with distinct timestamps is the same in every such listing. */
  lemma HeadsAgree(s: seq<Todo>, t: seq<Todo>)
    requires NewestFirst(s) && NewestFirst(t) && DistinctTimes(s)
    requires multiset(s) == multiset(t) && s != []
    ensures t != [] && s[0] == t[0]
  {
    assert s[0] in multiset(t);
    var j :| 0 <= j < |t| && t[j] == s[0];
    assert t[0] in multiset(s);
    var k :| 0 <= k < |s| && s[k] == t[0];
    assert t[0].createdAt >= t[j].createdAt;
    assert s[0].createdAt >= s[k].createdAt;
  }

  lemma OrderedTail(s: seq<Todo>)
    requires s != []
    ensures NewestFirst(s) ==> NewestFirst(s[1..])
    ensures DistinctTimes(s) ==> DistinctTimes(s[1..])
  {
  }
}
