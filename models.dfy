/**
 * internal/models/todo.go: the todo store. The SQLite table is the `rows`
 * field (rowid order) and the table's AUTOINCREMENT counter is `lastId`;
 * each store method changes them as the SQL statement it runs would.
 */
module Models {
  import opened Wrappers
  import opened Strings
  import opened Table

  /** Longest accepted text, in bytes (Go's `len`). */
  const MaxTextLen := 500

  /** The errors the store returns, one per distinct message. */
  datatype TodoError = EmptyText | TextTooLong | InvalidId | NotFound

  /** The text of each error, as `err.Error()` returns it. */
  function Message(e: TodoError): (m: string)
    ensures m == "todo text cannot be empty" <==> e == EmptyText
    ensures m == "todo text cannot exceed 500 characters" <==> e == TextTooLong
    ensures m == "invalid todo ID" <==> e == InvalidId
    ensures m == "todo not found" <==> e == NotFound
  {
    match e
    case EmptyText => "todo text cannot be empty"
    case TextTooLong => "todo text cannot exceed 500 characters"
    case InvalidId => "invalid todo ID"
    case NotFound => "todo not found"
  }

  /** No two kinds of error share a text, so callers can tell them apart. */
  lemma MessagesDistinct(e1: TodoError, e2: TodoError)
    requires e1 != e2
    ensures Message(e1) != Message(e2)
  {
  }

  /** What a stored text looks like: trimmed, non-empty, at most 500 bytes. */
  ghost predicate IsStoredText(t: seq<byte>) {
    IsTrimmed(t) && 0 < |t| <= MaxTextLen
  }

  /** `validateTodoText`: `None` is Go's nil error. */
  function ValidateTodoText(text: seq<byte>): (r: Option<TodoError>)
    ensures r == Some(EmptyText) <==> AllSpace(text)
    ensures r == Some(TextTooLong) <==> |TrimSpace(text)| > MaxTextLen
    ensures r == None <==> IsStoredText(TrimSpace(text))
  {
    var trimmed := TrimSpace(text);
    if trimmed == [] then Some(EmptyText)
    else if |trimmed| > MaxTextLen then Some(TextTooLong)
    else None
  }

  /**
   * Validation sees only the trimmed text: white space around it never
   * matters, white space inside it never matters, and a trimmed text is
   * accepted exactly when it has 1 to 500 bytes.
   */
  lemma ValidateIgnoresPadding(pre: seq<byte>, t: seq<byte>, post: seq<byte>)
    requires AllSpace(pre) && AllSpace(post) && IsTrimmed(t)
    ensures ValidateTodoText(pre + t + post) == ValidateTodoText(t)
    ensures ValidateTodoText(t) == None <==> 0 < |t| <= MaxTextLen
  {
    TrimSpacePadded(pre, t, post);
    TrimSpacePadded([], t, []);
    assert [] + t + [] == t;
  }

  /** A text already in stored form passes validation unchanged. */
  lemma StoredTextAccepted(text: seq<byte>)
    requires IsStoredText(text)
    ensures ValidateTodoText(text) == None && TrimSpace(text) == text
  {
  }

  /** The 500-byte boundary of TestValidateTodoText. */
  lemma ValidateLengthBoundary()
    ensures ValidateTodoText(seq(500, _ => 97 as byte)) == None
    ensures ValidateTodoText(seq(501, _ => 97 as byte)) == Some(TextTooLong)
  {
  }

  /** Empty and blank texts are refused as empty; an inner newline is accepted. */
  lemma ValidateBlankAndNewline()
    ensures ValidateTodoText([]) == Some(EmptyText)
    ensures ValidateTodoText([32, 32, 32]) == Some(EmptyText)
    ensures ValidateTodoText([76, 105, 110, 101, 32, 49, 10, 76, 105, 110, 101, 32, 50]) == None
  {
  }

  /** Rows drawn oldest first, by timestamp. */
  ghost predicate TimesAscending(rows: seq<Todo>) {
    forall i, j :: 0 <= i < j < |rows| ==> rows[i].createdAt < rows[j].createdAt
  }

  /** Reverse of the first i rows. */
  ghost predicate ReversedPrefix(rows: seq<Todo>, i: nat, listed: seq<Todo>) {
    i <= |rows| && |listed| == i && forall k :: 0 <= k < i ==> listed[k] == rows[i - 1 - k]
  }

  /**
   * One step of the listing loop: inserting row i keeps the listing a
   * permutation of the rows seen so far, and in a table stamped in
   * increasing time order it puts row i in front.
   */
  lemma ListingStep(rows: seq<Todo>, i: nat, listed: seq<Todo>)
    requires i < |rows| && NewestFirst(listed) && multiset(listed) == multiset(rows[..i])
    ensures multiset(InsertNewestFirst(rows[i], listed)) == multiset(rows[..i + 1])
    ensures TimesAscending(rows) && ReversedPrefix(rows, i, listed) ==>
      ReversedPrefix(rows, i + 1, InsertNewestFirst(rows[i], listed))
  {
    assert rows[..i + 1] == rows[..i] + [rows[i]];
    if TimesAscending(rows) && ReversedPrefix(rows, i, listed) {
      NoNewerThanNext(rows, i, listed);
      ReversedPrefixCons(rows, i, listed);
    }
  }

  lemma NoNewerThanNext(rows: seq<Todo>, i: nat, listed: seq<Todo>)
    requires TimesAscending(rows) && i < |rows| && ReversedPrefix(rows, i, listed)
    ensures forall k :: 0 <= k < |listed| ==> listed[k].createdAt <= rows[i].createdAt
  {
  }

  lemma ReversedPrefixCons(rows: seq<Todo>, i: nat, listed: seq<Todo>)
    requires i < |rows| && ReversedPrefix(rows, i, listed)
    ensures ReversedPrefix(rows, i + 1, [rows[i]] + listed)
  {
  }

  class TodoStore {
    /** The `todos` table, in rowid order. */
    var rows: seq<Todo>
    /** AUTOINCREMENT's record of the largest id the table has ever used. */
    var lastId: nat
    /** Every id ever handed out, including those of deleted rows. */
    ghost var issued: set<int>

    /** Ids unique and positive, never above the counter; every text as validation leaves it. */
    ghost predicate Valid()
      reads this
    {
      && IdsAscending(rows)
      && (forall i :: 0 <= i < |rows| ==> rows[i].id in issued && IsStoredText(rows[i].text))
      && (forall id :: id in issued ==> 0 < id <= lastId)
    }

    /** A freshly created, empty `todos` table. */
    constructor ()
      ensures Valid()
      ensures rows == [] && lastId == 0 && issued == {}
    {
      rows := [];
      lastId := 0;
      issued := {};
    }

    /**
     * `AddTodo`: on invalid text, the validation error and no change; otherwise
     * a new uncompleted row with the trimmed text, stamped `now`, under an id
     * above every id the table has ever issued.
     */
    method AddTodo(text: seq<byte>, now: int) returns (r: Result<Todo, TodoError>)
      requires Valid()
      modifies this
      ensures Valid()
      ensures ValidateTodoText(text).Some? ==>
        && r == Failure(ValidateTodoText(text).value)
        && rows == old(rows) && lastId == old(lastId) && issued == old(issued)
      ensures ValidateTodoText(text).None? ==>
        && r.Success?
        && r.value.id == old(lastId) + 1
        && (forall id :: id in old(issued) ==> id < r.value.id)
        && r.value.text == TrimSpace(text) && !r.value.completed && r.value.createdAt == now
        && rows == old(rows) + [r.value]
        && issued == old(issued) + {r.value.id} && lastId == r.value.id
    {
      var invalid := ValidateTodoText(text);
      if invalid.Some? {
        return Failure(invalid.value);
      }
      var trimmed := TrimSpace(text);
      // INSERT with AUTOINCREMENT: one past the largest id ever used
      var id := lastId + 1;
      var todo := Todo(id, trimmed, false, now);
      rows := rows + [todo];
      lastId := id;
      issued := issued + {id};
      r := Success(todo);
    }

    /**
     * `GetTodos`: every row exactly once, newest first. Rows with equal
     * timestamps come in some order; when rows were stamped in increasing
     * time order the listing is the table reversed.
     */
    method GetTodos() returns (todos: seq<Todo>)
      ensures NewestFirst(todos)
      ensures multiset(todos) == multiset(rows)
      ensures |todos| == |rows|
      ensures TimesAscending(rows) ==> forall k :: 0 <= k < |rows| ==> todos[k] == rows[|rows| - 1 - k]
    {
      // The scan over the query's result: each row read is placed by the
      // ORDER BY created_at DESC that SQLite applies before returning it.
      todos := [];
      var i := 0;
      while i < |rows|
        invariant 0 <= i <= |rows|
        invariant NewestFirst(todos)
        invariant multiset(todos) == multiset(rows[..i])
        invariant TimesAscending(rows) ==> ReversedPrefix(rows, i, todos)
      {
        ListingStep(rows, i, todos);
        todos := InsertNewestFirst(rows[i], todos);
        i := i + 1;
      }
      assert rows[..i] == rows;
      assert |todos| == |multiset(todos)| == |multiset(rows)| == |rows|;
    }

    /**
     * `ToggleTodo`: a non-positive id is refused before the table is touched;
     * an id matching no row is "todo not found" with nothing changed;
     * otherwise exactly that row's completed flag flips.
     */
    method ToggleTodo(id: int) returns (err: Option<TodoError>)
      requires Valid()
      modifies this
      ensures Valid() && lastId == old(lastId) && issued == old(issued)
      ensures id <= 0 ==> err == Some(InvalidId) && rows == old(rows)
      ensures id > 0 && !HasId(old(rows), id) ==> err == Some(NotFound) && rows == old(rows)
      ensures id > 0 && HasId(old(rows), id) ==> err == None && rows == Toggled(old(rows), id)
    {
      if id <= 0 {
        return Some(InvalidId);
      }
      // UPDATE ... WHERE id = ?, then RowsAffected
      var affected := CountId(rows, id);
      rows := Toggled(rows, id);
      if affected == 0 {
        ToggledAbsent(old(rows), id);
        return Some(NotFound);
      }
      err := None;
    }

    /**
     * `DeleteTodo`: a non-positive id is refused before the table is touched;
     * an id matching no row is "todo not found" with nothing changed;
     * otherwise exactly that row is removed, the rest kept in order. The id
     * stays issued, so AddTodo never hands it out again.
     */
    method DeleteTodo(id: int) returns (err: Option<TodoError>)
      requires Valid()
      modifies this
      ensures Valid() && lastId == old(lastId) && issued == old(issued)
      ensures id <= 0 ==> err == Some(InvalidId) && rows == old(rows)
      ensures id > 0 && !HasId(old(rows), id) ==> err == Some(NotFound) && rows == old(rows)
      ensures id > 0 && HasId(old(rows), id) ==>
        && err == None && |rows| == |old(rows)| - 1
        && forall k :: 0 <= k < |old(rows)| && old(rows)[k].id == id ==> rows == old(rows)[..k] + old(rows)[k + 1..]
    {
      if id <= 0 {
        return Some(InvalidId);
      }
      // DELETE ... WHERE id = ?, then RowsAffected
      var affected := CountId(rows, id);
      var before := rows;
      rows := Without(rows, id);
      WithoutAscending(before, id);
      if affected == 0 {
        WithoutAbsent(before, id);
        return Some(NotFound);
      }
      forall k | 0 <= k < |before| && before[k].id == id
        ensures rows == before[..k] + before[k + 1..]
      {
        WithoutRemovesOne(before, id, k);
      }
      err := None;
    }
  }

  /** A client's session on a new store: add, then list. */
  method SessionList(text: seq<byte>, now: int)
    requires IsStoredText(text)
  {
    StoredTextAccepted(text);
    var store := new TodoStore();
    var added := store.AddTodo(text, now);
    assert added == Success(Todo(1, text, false, now));
    var listed := store.GetTodos();
    assert listed == [added.value] by {
      assert listed[0] in multiset(listed);
    }
  }

  /** A client's session on a new store: add, toggle; the row is completed, then not. */
  method SessionToggle(text: seq<byte>, now: int)
    requires IsStoredText(text)
  {
    StoredTextAccepted(text);
    var store := new TodoStore();
    var added := store.AddTodo(text, now);
    assert store.rows == [Todo(1, text, false, now)];
    assert HasId(store.rows, 1) by { assert store.rows[0].id == 1; }
    var err := store.ToggleTodo(1);
    assert err == None && store.rows == [Todo(1, text, true, now)];
    assert HasId(store.rows, 1) by { assert store.rows[0].id == 1; }
    err := store.ToggleTodo(1);
    assert err == None && store.rows == [Todo(1, text, false, now)];
  }

  /** A client's session on a new store: add, delete, list, add again; the id is not reused. */
  method SessionDelete(text: seq<byte>, now: int, later: int)
    requires IsStoredText(text)
  {
    StoredTextAccepted(text);
    var store := new TodoStore();
    var added := store.AddTodo(text, now);
    assert store.rows == [Todo(1, text, false, now)];
    assert HasId(store.rows, 1) by { assert store.rows[0].id == 1; }
    var err := store.DeleteTodo(1);
    assert err == None && store.rows == [];
    var listed := store.GetTodos();
    assert listed == [];
    var again := store.AddTodo(text, later);
    assert again == Success(Todo(2, text, false, later));
  }

  /** The error cases a client sees on an empty store. */
  method SessionErrors(blank: seq<byte>, now: int)
    requires AllSpace(blank)
  {
    var store := new TodoStore();
    var err := store.ToggleTodo(99999);
    assert err == Some(NotFound);
    err := store.DeleteTodo(99999);
    assert err == Some(NotFound);
    err := store.ToggleTodo(0);
    assert err == Some(InvalidId);
    err := store.DeleteTodo(-1);
    assert err == Some(InvalidId);
    var added := store.AddTodo(blank, now);
    assert added == Failure(EmptyText) && store.rows == [];
  }
}
