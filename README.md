# keep-clone notes store, modelled in Dafny

The backend of keep-clone keeps notes in one PostgreSQL table, `notes`. Each
note has an id, a title, optional content and two timestamps. An Express
router serves five JSON routes under `/api/notes` to list, read, create,
update and delete notes. A global error handler turns anything a route throws
into a 500.

This project models three parts of that backend:

- the store in `keep-clone-backend/db.js`:
  - the table's constraints (`SERIAL` id, `VARCHAR(255) NOT NULL` title,
    nullable content);
  - the `BEFORE UPDATE` trigger that stamps `updatedAt`;
  - `getAllNotes`, `getNoteById`, `createNote`, `updateNote` (with the SET
    list it builds field by field) and `deleteNote`.
- the five handlers in `keep-clone-backend/routes/notes.js`.
- the error handler in `keep-clone-backend/server.js`.

The modules are these:

- `Outcomes`: `Option`, `Result`, and the failures a call can end in.
- `Decimal`: how numbers are printed in decimal.
- `JsValues`: the JavaScript values a JSON body carries, truthiness and
  `String.prototype.trim`.
- `PgTypes`: what PostgreSQL does with a parameter:
  - the text node-pg sends for it;
  - the `integer` input function that reads an id (a character-by-character
    scanner);
  - assignment to a `varchar(n)` column.
- `NoteStore`:
  - the table as pure specification functions (`Lookup`, `Insert`, `Update`,
    `Statement`, `ByRecency`);
  - the class `Store`. Its fields `rows`, `lastId` (the SERIAL sequence) and
    `clock` change in place. The methods that run a statement are proved to
    leave the table and return the result that a specification function gives
    for the old table:
    - `CreateNote` matches `Insert`;
    - `AddRow` matches `InsertRow`;
    - `UpdateNote` matches `Update`;
    - `Send` matches `Statement`;
    - `RunSets` matches `RunSetList`.
  - `Write`, `Remove` and `DeleteNote` state their new fields directly.
    `GetAllNotes` states its listing. `GetNoteById` is `Lookup` on the current
    rows.
- `NoteRoutes`: the handlers, as methods on a `Store` that return a status and
  a body.

Two choices shape the model:

- The database's clock is a logical `clock`. It moves on each time a row is
  written. Because of this, `ORDER BY updatedAt DESC` has exactly one answer.
- Whether the database can be reached is a `reachable` parameter on every call.

Two facts about the code are easy to miss:

- The table has only `title` and `content` besides its id and timestamps.
- A `PUT` with neither field is not refused. `updateNote` then falls back to
  `getNoteById`, so the route answers 200 with the note, or 404
  (`UpdateWithoutFieldsIsLookup`).

Some behaviour follows from PostgreSQL and JavaScript rather than from the
handlers' own text. The model makes each of these explicit:

- An id that is not a 32-bit integer (`"abc"`, `"1.5"`, `"99999999999"`) is a
  database error. The route therefore answers 500, not 404.
- A title longer than 255 characters is an error, unless everything past the
  limit is spaces. In that case the spaces are cut off.
- The title is checked when the statement is planned:
  - an over-long title fails even when no row has the id;
  - a failing `INSERT` of that kind uses up no id.
- NOT NULL is checked on the row being written, after the sequence has moved.
- A title that is truthy but not a string (a number, `true`, an object) makes
  `title.trim()` throw a TypeError, and the route answers 500. So does a `PUT`
  with `"title": null`, where the TypeError is reading a property of `null`.

## Model

| member | source | states |
|---|---|---|
| JsValues.Truthy | keep-clone-backend/routes/notes.js:19 | `!title` is true exactly for `undefined`, `null`, `false`, `0` and `""`. |
| JsValues.Trim | keep-clone-backend/routes/notes.js:19 | `trim` gives the part of the text between a blank prefix and a blank suffix. The result is empty exactly when the text is blank. Otherwise it starts and ends with a character that is not white space. |
| PgTypes.ParamText | keep-clone-backend/db.js:69-71 | The parameter text is SQL NULL exactly for `undefined` and `null`. A string is sent unchanged. |
| PgTypes.ParseInt4 | keep-clone-backend/db.js:64 | An id that is read is a 32-bit integer. An id that is not read fails with an invalid-integer error naming the text. |
| PgTypes.ParseInt4Padded | keep-clone-backend/db.js:64 | Any integer printed in decimal, with any white space around it, reads back as itself when it fits in 32 bits. Otherwise it is rejected. |
| PgTypes.CoerceVarchar | keep-clone-backend/db.js:25 | A text is accepted for `varchar(n)` exactly when it fits, or when everything past `n` is spaces. A text that fits is kept whole. An over-long text is cut to exactly `n` characters, and only spaces are cut. A rejected text fails with a value-too-long error. |
| PgTypes.CoerceKeepsNonBlank | keep-clone-backend/db.js:25 | Cutting the spaces never turns a non-blank title blank. |
| NoteStore.TitleValue | keep-clone-backend/db.js:69-71 | The title column receives NULL exactly for `undefined` and `null`. A value it receives is at most 255 long. A string that fits is stored unchanged. The only possible failure is value-too-long. |
| NoteStore.BuildUpdate | keep-clone-backend/db.js:77-92 | There is no statement exactly when neither field is supplied. Otherwise the SET list and values obey `SetListFor`: one clause per supplied field, title first, numbered from `$1`, each value at its number, and the id last. |
| NoteStore.StatementText | keep-clone-backend/db.js:82-94 | The statement text is `UPDATE notes SET title = $1, content = $2 WHERE id = $3 RETURNING *` when both fields are supplied. With one field it is `title = $1` or `content = $1`, and the id is `$2`. |
| NoteStore.SetClauseTexts | keep-clone-backend/db.js:94 | `fields.join(', ')` gives `title = $1, content = $2`, `title = $1` or `content = $1`. |
| NoteStore.ClauseTexts | keep-clone-backend/db.js:82-86 | Each pushed clause reads `column = $n`, with `n` in decimal. |
| NoteStore.SetListShape | keep-clone-backend/db.js:77-88 | `SetListFor` holds of exactly one statement, `UpdateStatement`. |
| NoteStore.SetListDetermined | keep-clone-backend/db.js:77-88 | A statement that satisfies `SetListFor` is `UpdateStatement`. |
| NoteStore.StatementFitsSetList | keep-clone-backend/db.js:77-88 | `UpdateStatement` satisfies `SetListFor`. |
| NoteStore.SetListBinds | keep-clone-backend/db.js:94-97 | Every `$n` of the built statement names a value. Binding its parameters fails exactly when the supplied title is too long, and then with value-too-long. |
| NoteStore.SetListApplies | keep-clone-backend/db.js:94-97 | Running the built SET list on a row replaces exactly the supplied fields and keeps the others. |
| NoteStore.BindFailure | keep-clone-backend/db.js:94-97 | The only error while binding the SET parameters is value-too-long. |
| NoteStore.BindsWhenAllFit | keep-clone-backend/db.js:94-97 | Binding succeeds exactly when every SET parameter fits its column. |
| NoteStore.ApplySets | keep-clone-backend/db.js:94-97 | Each clause, in order, writes its parameter's value into its column. |
| NoteStore.ApplySetsKeeps | keep-clone-backend/db.js:94-97 | A column that no clause names keeps its value. |
| NoteStore.ApplySetsFits | keep-clone-backend/db.js:25 | No SET list writes a title longer than 255. |
| NoteStore.LatestExists | keep-clone-backend/db.js:59 | A non-empty table has a row written no earlier than any other. |
| NoteStore.ByRecency | keep-clone-backend/db.js:58-61 | The listing holds every row exactly once, in strictly decreasing `updatedAt`. |
| NoteStore.PrependLatest | keep-clone-backend/db.js:59 | The newest row followed by a newest-first listing of the others is a newest-first listing of all rows. |
| NoteStore.TailListsRest | keep-clone-backend/db.js:59 | Dropping the first row of a newest-first listing leaves a newest-first listing of the other rows. |
| NoteStore.NewestFirstUnique | keep-clone-backend/db.js:59 | Two newest-first listings of the same rows are equal. |
| NoteStore.RecencyOrderUnique | keep-clone-backend/db.js:59 | Any listing of the rows, each once, newest first, is `ByRecency`. `ORDER BY updatedAt DESC` therefore has one answer. |
| NoteStore.UpdatedRow | keep-clone-backend/db.js:35-48 | A partial update fails exactly when the title is set to NULL, with a not-null violation. Otherwise the row keeps its id and `createdAt`. It gets `updatedAt` from the trigger, the supplied fields' values, and the unsupplied fields' old values. |
| NoteStore.TableInvariant | keep-clone-backend/db.js:22-30 | What the table guarantees: rows filed under their ids, ids in `1..lastId`, titles within 255, `createdAt <= updatedAt < clock`, and no two rows with the same `updatedAt`. |
| NoteStore.WriteKeepsInvariant | keep-clone-backend/db.js:22-30 | Writing a row stamped with the current instant keeps the table invariant. The invariant covers rows filed under their ids, ids in `1..lastId`, titles within 255, `createdAt <= updatedAt < clock`, and distinct `updatedAt`. |
| NoteStore.RemoveKeepsInvariant | keep-clone-backend/db.js:22-30 | Deleting a row keeps the table invariant. |
| NoteStore.Lookup | keep-clone-backend/db.js:63-66 | `getNoteById` fails exactly when the database is unreachable or the id is not a 32-bit integer, and says which. It finds a row exactly when one is filed under that integer, and returns that row. |
| NoteStore.Insert | keep-clone-backend/db.js:68-74 | `createNote` fails exactly when:<br>- the database is unreachable;<br>- the title is too long;<br>- the sequence is exhausted;<br>- the title is `undefined` or `null`.<br>A failure adds no row and keeps the clock. The sequence moves on exactly when a row is added or NOT NULL fails: the title is checked while the statement is planned, before the sequence moves. |
| NoteStore.InsertRow | keep-clone-backend/db.js:69-73 | The planned `INSERT` fails exactly when the sequence is exhausted or the title is NULL. It is a not-null violation exactly in the second case. The sequence moves on unless it is exhausted, and a failure adds no row. |
| NoteStore.Update | keep-clone-backend/db.js:76-99 | `updateNote` never moves the sequence. It fails exactly when:<br>- the database is unreachable;<br>- the id is not a 32-bit integer;<br>- the title is too long;<br>- the row exists and the title is set to `null`.<br>A failure, or finding no row, leaves the table unchanged. |
| NoteStore.Statement | keep-clone-backend/db.js:94-97 | Sending a statement never moves the sequence. A failure, or finding no row, leaves the table unchanged. A success means the database was reachable and the id was read. |
| NoteStore.RunSetList | keep-clone-backend/db.js:94-97 | The executed UPDATE returns nothing exactly when no row has the id. Its only failure is a not-null violation, which, like returning nothing, changes nothing. A returned row keeps its key and `createdAt` and is stamped with the clock. It replaces the old row, and only the clock moves on. |
| NoteStore.SequenceNeverMovesBack | keep-clone-backend/db.js:24 | `createNote` moves the sequence on by at most one and never back. `updateNote` leaves it unchanged. So, with `deleteNote` also leaving it unchanged, an issued id is never issued again. |
| NoteStore.StatementMeansUpdate | keep-clone-backend/db.js:94-98 | The statement `updateNote` builds is well-formed. Sending it has the same effect as `Update` on the parsed id: same new table and same result. |
| NoteStore.StampedRowListedFirst | keep-clone-backend/db.js:35-48 | A row stored with the current instant keeps the invariant and comes first in `getAllNotes`. |
| NoteStore.InsertedNoteListedFirst | keep-clone-backend/db.js:68-74 | `createNote` keeps the table invariant. A created note carries:<br>- the posted title and content;<br>- the sequence's next value as its id, which is above every id in the table;<br>- the current instant as both `createdAt` and `updatedAt`.<br>The sequence's last value becomes that id. The table gains exactly that row, and it is listed first. |
| NoteStore.UpdateWithoutFieldsIsLookup | keep-clone-backend/db.js:90-92 | `updateNote` with neither field is `getNoteById` and changes nothing. |
| NoteStore.UpdateMissLeavesTable | keep-clone-backend/db.js:94-98 | An `updateNote` that fails or finds no row leaves the table as it was. |
| NoteStore.UpdateMissMeansAbsent | keep-clone-backend/routes/notes.js:51-60 | When `updateNote` finds no row, the database was reachable and the id is an integer no row has. The second `getNoteById` then finds none either. |
| NoteStore.UpdateCases | keep-clone-backend/db.js:76-99 | `updateNote` either leaves the table unchanged, returning at most the row already under the id, or rewrites just that row as `UpdatedRow` and moves the clock on. |
| NoteStore.UpdatedNoteListedFirst | keep-clone-backend/db.js:76-99 | `updateNote` keeps the table invariant. A note it writes keeps its id and `createdAt` and replaces the old row, and nothing else changes. It is listed first. |
| NoteStore.UpdatedRowListedFirst | keep-clone-backend/db.js:35-48 | A row rewritten by a partial update keeps its key and the invariant, and is listed first. |
| NoteStore.RowInvariant | keep-clone-backend/db.js:22-30 | Each row of a table that keeps the invariant is filed under its id, has an issued id and a title within 255, and was stamped before the current instant. |
| NoteStore.Store.constructor | keep-clone-backend/db.js:22-30 | A new table is empty, the sequence has issued nothing, and the invariant holds. |
| NoteStore.Store.Write | keep-clone-backend/db.js:35-48 | Storing a row replaces the row under its id and moves the clock on. Nothing else changes, and the invariant is kept. |
| NoteStore.Store.Remove | keep-clone-backend/db.js:102 | Deleting removes exactly the row under the key. Nothing else changes, and the invariant is kept. |
| NoteStore.Store.GetAllNotes | keep-clone-backend/db.js:58-61 | The listing fails exactly when the database is unreachable. Otherwise it holds every row once, newest first. |
| NoteStore.Store.CreateNote | keep-clone-backend/db.js:68-74 | The new table and the result are those of `Insert`, and the invariant is kept. |
| NoteStore.Store.AddRow | keep-clone-backend/db.js:69-73 | Running the planned `INSERT` gives the table and result of `InsertRow`: the sequence moves before the NOT NULL check, and it stops at the 32-bit maximum. |
| NoteStore.Store.UpdateNote | keep-clone-backend/db.js:76-99 | The new table and the result are those of `Update` on the parsed id, and the invariant is kept. |
| NoteStore.Store.Send | keep-clone-backend/db.js:94-97 | Sending a well-formed statement gives the table and result of `Statement`. |
| NoteStore.Store.RunSets | keep-clone-backend/db.js:94-97 | Executing a bound SET list gives the table and result of `RunSetList`. |
| NoteStore.Store.DeleteNote | keep-clone-backend/db.js:101-104 | Unreachable, or an id that is not an integer: a failure, and nothing changes. Otherwise the result says whether a row had the id, that row is gone, nothing else changes, and `getNoteById` then finds none. |
| NoteRoutes.CheckCreateTitle | keep-clone-backend/routes/notes.js:19 | A POST passes exactly when the title is a non-blank string. It is refused exactly when the title is falsy or a blank string. It throws exactly when the title is truthy but not a string. |
| NoteRoutes.CheckUpdateTitle | keep-clone-backend/routes/notes.js:48 | A PUT passes exactly when the title is absent or a non-blank string. It is refused exactly when the title is a blank string. It throws exactly when the title is present but not a string. |
| NoteRoutes.ErrorResponse | keep-clone-backend/server.js:21-32 | Every failure a route passes on is answered with status 500 and carries that failure. |
| NoteRoutes.StoreKeepsNonBlank | keep-clone-backend/routes/notes.js:19 | Storing a row with a non-blank title keeps every title non-blank. |
| NoteRoutes.CreateTitleStaysNonBlank | keep-clone-backend/routes/notes.js:19-22 | A title that passes the POST check and fits its column is stored non-NULL and non-blank. |
| NoteRoutes.UpdateTitleStaysNonBlank | keep-clone-backend/routes/notes.js:48-51 | With a title that passes the PUT check and fits, the rewrite never violates NOT NULL. It keeps a non-blank title non-blank. |
| NoteRoutes.CreateNeverNull | keep-clone-backend/routes/notes.js:19-22 | Through `POST /`, `createNote` never fails on the NOT NULL constraint. |
| NoteRoutes.CreateKeepsTitles | keep-clone-backend/routes/notes.js:19-22 | Through `POST /`, every stored title stays non-blank, the new note's included. |
| NoteRoutes.UpdateNeverNull | keep-clone-backend/routes/notes.js:48-51 | Through `PUT /:id`, `updateNote` never fails on the NOT NULL constraint. |
| NoteRoutes.UpdateKeepsTitles | keep-clone-backend/routes/notes.js:48-51 | Through `PUT /:id`, every stored title stays non-blank, the returned note's included. |
| NoteRoutes.RewriteKeepsTitles | keep-clone-backend/routes/notes.js:48-51 | Rewriting a row with a title that passed the PUT check succeeds and keeps every title non-blank. |
| NoteRoutes.ListNotes | keep-clone-backend/routes/notes.js:6-13 | `GET /` answers 500 exactly when the database is unreachable. Otherwise it answers 200 with every note once, newest first. |
| NoteRoutes.GetNote | keep-clone-backend/routes/notes.js:30-41 | `GET /:id` gives a connection failure or an invalid id as 500, the note under the id as 200, and no such note as 404 "Note not found". |
| NoteRoutes.CreateNote | keep-clone-backend/routes/notes.js:16-27 | `POST /` answers each case of the title check:<br>- refused: 400 "Title is required and cannot be empty", table unchanged;<br>- throws: 500, table unchanged;<br>- passes: the table becomes that of `Insert`, and the answer is 201 with the note or 500 with the failure.<br>Non-blank titles stay non-blank. |
| NoteRoutes.UpdateNote | keep-clone-backend/routes/notes.js:44-67 | `PUT /:id` answers each case of the title check:<br>- refused: 400 "Title cannot be empty", table unchanged;<br>- throws: 500, table unchanged;<br>- passes: the table becomes that of `Update`, and the answer is 200 with the note, 404 "Note not found", or 500 with the failure.<br>Non-blank titles stay non-blank. |
| NoteRoutes.Revise | keep-clone-backend/routes/notes.js:51-63 | After the check, `updateNote` and the fallback `getNoteById` together give `Update`'s table, and the answer is 200, 404 or 500 from `Update`'s result. The `res.json(undefined)` branch cannot be reached. |
| NoteRoutes.DeleteNote | keep-clone-backend/routes/notes.js:70-81 | `DELETE /:id`:<br>- unreachable, or an id that is not an integer: 500, table unchanged;<br>- otherwise 204 when a row had the id, 404 "Note not found" when none did.<br>Afterwards no row has the id. The rest of the rows, the sequence and the clock are unchanged, and non-blank titles stay non-blank. |

## Left out

- The connection pool is not modelled: its configuration from environment variables, its `error` event and `process.exit`. A failed connection is the `reachable` parameter.
- Connection failures are all-or-nothing per call. A connection lost between the two reads of `PUT /:id`, or part-way through a statement, is not modelled.
- Running `initDb`'s DDL is not modelled. The `Store` constructor stands for an empty table that already has its constraints and trigger. An error while creating them, which `initDb` only logs, is not modelled.
- Wall-clock time is not modelled. `CURRENT_TIMESTAMP` and `NOW()` are a logical clock that moves on each time a row is written, so two writes never share an instant.
- Concurrent requests are not modelled. Each call runs alone, which is why `res.json(updatedNote)` at `routes/notes.js:62` cannot be reached. Under concurrency, a row inserted between the two reads could reach it.
- JSON numbers are integers only. Fractions and exponents are not modelled: their printed form, and their effect on `varchar` and `integer` input.
- PgTypes.ParseInt4: the hexadecimal, octal, binary and underscore forms that PostgreSQL 16 accepts are not modelled. Syntax errors and out-of-range errors are one failure kind, since both are a 500.
- PgTypes.CoerceVarchar: texts are sequences of characters. A NUL character, which PostgreSQL refuses in text, and encoding errors are not modelled.
- Errors from the body parser (malformed JSON, a body that is too large) are not modelled. They happen before any route runs.
- The server's start-up, `app.listen`, CORS and the client code in the frontend are not part of this model.
- NoteRoutes.ErrorResponse: the body carries the failure itself rather than the message text PostgreSQL or V8 would give it.
- NoteStore.Store.GetNoteById delegates to NoteStore.Lookup and has no contract of its own. Its row is Lookup's.
- NoteStore.Statement requires the id parameter to be a string, as route parameters always are. A numeric id passed directly to `updateNote` is not modelled.
