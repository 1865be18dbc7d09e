# Todo store model

A Dafny model of the todo store of a small server-rendered todo application
(package `models`, file `internal/models/todo.go`). The store keeps todos in a
SQLite table `todos (id INTEGER PRIMARY KEY AUTOINCREMENT, text, completed,
created_at)` and offers four operations: `AddTodo`, `GetTodos`, `ToggleTodo` and
`DeleteTodo`, with `validateTodoText` guarding the input of `AddTodo`.

The model has four modules:

- `Wrappers` (`wrappers.dfy`): `Option` and `Result`, standing for Go's
  `error` and `(T, error)` returns.
- `Strings` (`strings.dfy`): Go's `strings.TrimSpace` over byte strings.
- `Table` (`table.dfy`): the `Todo` row and the SQL statements the store runs
  (`UPDATE ... SET completed = NOT completed WHERE id = ?`,
  `DELETE ... WHERE id = ?`, `ORDER BY created_at DESC`, and the rows a
  `WHERE id = ?` matches, which the driver reports as `RowsAffected`). Each is
  a function on the table's rows, with lemmas about it.
- `Models` (`models.dfy`): the error kinds and their messages,
  `ValidateTodoText`, and the class `TodoStore`.

`TodoStore` holds the table as a sequence of rows in rowid order (`rows`). It
also holds the AUTOINCREMENT counter (`lastId`, SQLite's `sqlite_sequence`
entry) and a ghost set of every id ever issued (`issued`). Its invariant
`Valid()` states three things:

- ids ascend in rowid order, so they are unique;
- every row's id was issued, and every issued id is positive and at most the counter;
- every stored text is trimmed, non-empty and at most 500 bytes.

Each method does what the Go code does, in the same order:

- the id check comes first;
- then the statement runs;
- then a row count of 0 becomes "todo not found".

Each method's postcondition gives the whole new state. The client methods
`Session*` at the end of `models.dfy` use only those contracts to walk
through these flows:

- add then list;
- toggle twice;
- delete then add again, where the id is not reused;
- the error cases.

Text is `seq<byte>`, because Go's `len` counts bytes. The code orders the
listing by `created_at` only, with no tie-break by id, so `GetTodos` promises
newest-first and nothing about rows with equal timestamps. The 500 limit
counts bytes, although the error message says characters.

## Model

| member | source | states |
|---|---|---|
| `Strings.TrimSpace` | internal/models/todo.go:101 | The trimmed text starts and ends with a non-space byte (or is empty), is no longer than the input, and is empty exactly when every input byte is white space. |
| `Strings.TrimSpacePadded` | internal/models/todo.go:117 | Surrounding a trimmed text with any white space and trimming gives back exactly that text (the "trims whitespace" case). |
| `Models.ValidateTodoText` | internal/models/todo.go:100-108 | Empty-text error exactly when the input is all white space; too-long error exactly when the trimmed text exceeds 500 bytes; no error exactly when the trimmed text is a valid stored text. |
| `Models.ValidateIgnoresPadding` | internal/models/todo.go:100-108 | Validation is unaffected by surrounding white space; a trimmed text passes exactly when it has 1 to 500 bytes, whatever white space it holds inside. |
| `Models.StoredTextAccepted` | internal/models/todo.go:113-117 | A text already trimmed and within bounds passes validation and is stored unchanged. |
| `Models.ValidateLengthBoundary` | internal/models/todo_test.go:77-78 | 500 bytes of `a` are accepted; 501 are refused as too long. |
| `Models.ValidateBlankAndNewline` | internal/models/todo_test.go:75-79 | The empty text and a blank text are refused as empty; a text with an inner newline is accepted. |
| `Models.Message` | internal/models/todo.go:103-198 | Each error kind has the text the code gives it: "todo text cannot be empty", "todo text cannot exceed 500 characters", "invalid todo ID", "todo not found". A given text belongs to exactly one kind. |
| `Models.MessagesDistinct` | internal/models/todo_test.go:222-240 | Different error kinds have different messages, so callers can tell them apart. |
| `Models.TodoStore.constructor` | internal/models/todo.go:77-93 | A new store has an empty table, a zero counter and no issued ids, and satisfies the invariant. |
| `Models.TodoStore.AddTodo` | internal/models/todo.go:111-143 | Invalid text gives its validation error and leaves the table, counter and issued ids unchanged. Valid text appends one row: the trimmed text, not completed, stamped with the given time. The row's id is the counter plus one, above every id ever issued. The invariant is preserved. |
| `Models.TodoStore.GetTodos` | internal/models/todo.go:145-174 | Returns every row exactly once (same multiset, same count), ordered newest first by timestamp. When rows were stamped in increasing time order, the listing is the table reversed. |
| `Models.ListingStep` | internal/models/todo.go:157-166 | Each step of the listing loop keeps the result a permutation of the rows scanned so far. Under increasing timestamps it puts the new row in front. |
| `Models.TodoStore.ToggleTodo` | internal/models/todo.go:176-202 | A non-positive id gives "invalid todo ID" with nothing changed. An absent id gives "todo not found" with nothing changed. Otherwise there is no error and the table is the toggled table. The counter and issued ids never change, and the invariant is preserved. |
| `Models.TodoStore.DeleteTodo` | internal/models/todo.go:204-230 | A non-positive id gives "invalid todo ID" with nothing changed. An absent id gives "todo not found" with nothing changed. Otherwise exactly the matching row is removed, the rest stay in order, and the count drops by one. The deleted id stays issued, so it is never handed out again. |
| `Table.CountId` | internal/models/todo.go:191-197 | The number of rows matching an id is zero exactly when no row has that id, and at most one in a table whose ids ascend. |
| `Table.Toggled` | internal/models/todo.go:184 | Same length. Every row keeps its id, text and timestamp. Exactly the rows with the given id have their completed flag flipped. |
| `Table.ToggledTwice` | internal/models/todo_test.go:193-220 | Toggling the same id twice restores the table. |
| `Table.ToggledAbsent` | internal/models/todo.go:197-199 | Toggling an id no row has leaves the table unchanged. |
| `Table.Without` | internal/models/todo.go:212 | No longer than the input. Every kept row comes from the table and has a different id. Every row with a different id is kept. |
| `Table.WithoutAbsent` | internal/models/todo.go:225-227 | Deleting an id no row has leaves the table unchanged. |
| `Table.WithoutRemovesOne` | internal/models/todo.go:212 | In a table with ascending ids, deleting the id at index k gives the table with exactly index k removed. |
| `Table.WithoutAscending` | internal/models/todo.go:80 | Deleting keeps ids ascending in rowid order. |
| `Table.IdsAscendingUnique` | internal/models/todo.go:80 | In rowid order, two rows with the same id are the same row. |
| `Table.InsertNewestFirst` | internal/models/todo.go:149 | Inserting a row into a newest-first listing keeps it newest first and adds exactly that row. A row no older than all the others goes in front. |
| `Table.NewestFirstUnique` | internal/models/todo.go:149 | When no two rows share a timestamp, two newest-first listings of the same rows are equal, so the missing tie-break cannot matter. |

## Left out

- `NewTodoStore` and `Close` (internal/models/todo.go:28-75, 95-97) are not modelled. They read `DB_PATH` and the connection-pool environment variables, open the SQLite file and configure the pool. That is environment and database I/O. The constructor models only a freshly created, empty table (`initDB`).
- The `sync.RWMutex` is not modelled. Each operation is atomic and sequential, which is what the lock guarantees. Concurrency itself is not modelled.
- `time.Now()` becomes the `now` parameter of `AddTodo`. No monotonicity is assumed, since wall-clock time can repeat or go back.
- Driver failures are not modelled: errors from `Exec`, `Query`, `LastInsertId`, `RowsAffected` and `rows.Err`, and rows skipped after a `Scan` error. The model has no storage layer that can fail.
- `Strings.TrimSpace` treats only the ASCII white-space bytes (tab, newline, vertical tab, form feed, carriage return, space) as space. Go also trims Unicode white space such as U+00A0 and U+2028, which the model does not.
- The id counter is unbounded. SQLite refuses inserts past the largest 64-bit rowid, and that limit is not modelled.
- `Models.TodoStore.GetTodos` fixes no order among rows with equal timestamps. It promises only newest-first, as the SQL query does.
- The HTTP handlers, router and server start-up (`internal/handlers`, `internal/router`, `cmd/server`) are transport plumbing outside the store.
