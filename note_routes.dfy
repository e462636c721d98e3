/** The `/api/notes` routes of keep-clone-backend/routes/notes.js together with
    the global error handler of keep-clone-backend/server.js: each handler reads
    the request, validates the title, calls the note store and shapes the
    response. */
module NoteRoutes {
  import opened Outcomes
  import opened JsValues
  import opened PgTypes
  import opened NoteStore

  /** What a handler sends back as JSON (or nothing, for `Empty`). */
  datatype Body =
    | Empty                       // no body: 204, or `res.json(undefined)`
    | One(note: Note)             // a single row
    | Many(notes: seq<Note>)      // an array of rows
    | Message(error: string)      // `{ error: <message> }` from a handler
    | ServerError(failure: Failure)  // `{ error: { message } }` from the global error handler

  datatype Response = Response(status: int, body: Body)

  /** `const { title, content } = req.body`: the two fields a handler reads
      from the parsed JSON body, `Undefined` for one the body lacks. */
  datatype RequestBody = RequestBody(title: JsValue, content: JsValue)

  /** How a title check ends: the handler goes on, answers 400, or throws
      the TypeError of calling `trim` on a value that is not a string. */
  datatype Check = Pass | Refuse | Throw

  /** POST: `if (!title || title.trim() === "")`. */
  function CheckCreateTitle(title: JsValue): (c: Check)
    ensures c == Pass <==> title.Str? && !IsBlank(title.s)
    ensures c == Refuse <==> !Truthy(title) || (title.Str? && IsBlank(title.s))
    ensures c == Throw <==> Truthy(title) && !title.Str?
  {
    if !Truthy(title) then Refuse
    else if !title.Str? then Throw
    else if Trim(title.s) == "" then Refuse
    else Pass
  }

  /** PUT: `if (title !== undefined && title.trim() === "")`. */
  function CheckUpdateTitle(title: JsValue): (c: Check)
    ensures c == Pass <==> title == Undefined || (title.Str? && !IsBlank(title.s))
    ensures c == Refuse <==> title.Str? && IsBlank(title.s)
    ensures c == Throw <==> title != Undefined && !title.Str?
  {
    if title == Undefined then Pass
    else if !title.Str? then Throw
    else if Trim(title.s) == "" then Refuse
    else Pass
  }

  /** The global error handler: `err.status || 500`. No failure the store or
      a handler throws carries a `status`, so every one of them is a 500. */
  function ErrorResponse(f: Failure): (r: Response)
    ensures r.status == 500 && r.body.ServerError? && r.body.failure == f
  {
    Response(500, ServerError(f))
  }

  /** Every stored title has a character that is not white space. */
  predicate TitlesNonBlank(rows: map<int, Note>) {
    forall k :: k in rows ==> !IsBlank(rows[k].title)
  }

  lemma NonBlankAt(rows: map<int, Note>, key: int)
    requires TitlesNonBlank(rows) && key in rows
    ensures !IsBlank(rows[key].title)
  {
  }

  /** Storing a row with a non-blank title keeps every title non-blank. */
  lemma StoreKeepsNonBlank(rows: map<int, Note>, key: int, n: Note)
    requires TitlesNonBlank(rows) && !IsBlank(n.title)
    ensures TitlesNonBlank(rows[key := n])
  {
    var rows' := rows[key := n];
    forall k | k in rows' ensures !IsBlank(rows'[k].title) {
      if k != key {
        assert rows'[k] == rows[k];
      }
    }
  }

  /** A title the POST check lets through is stored non-blank. */
  lemma CreateTitleStaysNonBlank(title: JsValue)
    requires CheckCreateTitle(title) == Pass && TitleValue(title).Ok?
    ensures TitleValue(title).value.Some? && !IsBlank(TitleValue(title).value.value)
  {
    CoerceKeepsNonBlank(title.s, TitleLimit);
  }

  /** A title the PUT check lets through never writes NULL and, when it is
      supplied, is stored non-blank. */
  lemma UpdateTitleStaysNonBlank(was: Note, title: JsValue, content: JsValue, now: nat)
    requires CheckUpdateTitle(title) == Pass && TitleBinds(title)
    ensures UpdatedRow(was, title, content, now).Ok?
    ensures !IsBlank(was.title) ==> !IsBlank(UpdatedRow(was, title, content, now).value.title)
  {
    if title != Undefined {
      CoerceKeepsNonBlank(title.s, TitleLimit);
    }
  }

  /** Through POST /, the NOT NULL constraint is never what fails. */
  lemma CreateNeverNull(t: Table, title: JsValue, content: JsValue, reachable: bool)
    requires CheckCreateTitle(title) == Pass
    ensures Insert(t, title, content, reachable).result != Err(NotNullViolation)
  {
    if TitleValue(title).Ok? {
      CreateTitleStaysNonBlank(title);
    }
  }

  /** Through POST /, every stored title stays non-blank, the new note's too. */
  lemma CreateKeepsTitles(t: Table, title: JsValue, content: JsValue, reachable: bool)
    requires CheckCreateTitle(title) == Pass && TitlesNonBlank(t.rows)
    ensures var e := Insert(t, title, content, reachable);
            && TitlesNonBlank(e.table.rows)
            && (e.result.Ok? ==> !IsBlank(e.result.value.title))
  {
    var e := Insert(t, title, content, reachable);
    if e.result.Ok? {
      CreateTitleStaysNonBlank(title);
      StoreKeepsNonBlank(t.rows, e.result.value.id, e.result.value);
    }
  }

  /** Through PUT /, the NOT NULL constraint is never what fails. */
  lemma UpdateNeverNull(t: Table, id: string, title: JsValue, content: JsValue, reachable: bool)
    requires CheckUpdateTitle(title) == Pass
    ensures Update(t, ParseInt4(id), title, content, reachable).result != Err(NotNullViolation)
  {
    var key := ParseInt4(id);
    if reachable && key.Ok? && TitleBinds(title) && key.value in t.rows {
      UpdateTitleStaysNonBlank(t.rows[key.value], title, content, t.clock);
    }
  }

  /** Through PUT /, every stored title stays non-blank, the returned note's too. */
  lemma UpdateKeepsTitles(t: Table, key: Result<int>, title: JsValue, content: JsValue, reachable: bool)
    requires CheckUpdateTitle(title) == Pass && TitlesNonBlank(t.rows)
    ensures var e := Update(t, key, title, content, reachable);
            && TitlesNonBlank(e.table.rows)
            && (e.result.Ok? && e.result.value.Some? ==> !IsBlank(e.result.value.value.title))
  {
    UpdateCases(t, key, title, content, reachable);
    if reachable && key.Ok? && TitleBinds(title) && key.value in t.rows {
      NonBlankAt(t.rows, key.value);
      if title != Undefined || content != Undefined {
        RewriteKeepsTitles(t.rows, key.value, title, content, t.clock);
      }
    }
  }

  /** Rewriting a row with a title the PUT check lets through keeps every
      title non-blank. */
  lemma RewriteKeepsTitles(rows: map<int, Note>, key: int, title: JsValue, content: JsValue, now: nat)
    requires CheckUpdateTitle(title) == Pass && TitleBinds(title)
    requires TitlesNonBlank(rows) && key in rows
    ensures UpdatedRow(rows[key], title, content, now).Ok?
    ensures var n := UpdatedRow(rows[key], title, content, now).value;
            !IsBlank(n.title) && TitlesNonBlank(rows[key := n])
  {
    NonBlankAt(rows, key);
    UpdateTitleStaysNonBlank(rows[key], title, content, now);
    StoreKeepsNonBlank(rows, key, UpdatedRow(rows[key], title, content, now).value);
  }

  /** GET /: every note, most recently updated first. */
  method ListNotes(db: Store, reachable: bool) returns (res: Response)
    requires db.Valid()
    ensures !reachable ==> res == ErrorResponse(ConnectionLost)
    ensures reachable ==> res.status == 200 && res.body.Many?
    ensures reachable ==> ListsExactly(res.body.notes, db.rows) && NewestFirst(res.body.notes)
  {
    var notes := db.GetAllNotes(reachable);
    if notes.Err? {
      return ErrorResponse(notes.failure);
    }
    res := Response(200, Many(notes.value));
  }

  /** GET /:id: the note, or 404 when no row has that id. */
  method GetNote(db: Store, id: string, reachable: bool) returns (res: Response)
    ensures !reachable ==> res == ErrorResponse(ConnectionLost)
    ensures reachable && ParseInt4(id).Err? ==> res == ErrorResponse(InvalidInteger(id))
    ensures reachable && ParseInt4(id).Ok? && ParseInt4(id).value in db.rows ==>
              res == Response(200, One(db.rows[ParseInt4(id).value]))
    ensures reachable && ParseInt4(id).Ok? && ParseInt4(id).value !in db.rows ==>
              res == Response(404, Message("Note not found"))
  {
    var note := db.GetNoteById(id, reachable);
    if note.Err? {
      return ErrorResponse(note.failure);
    }
    if note.value.Some? {
      res := Response(200, One(note.value.value));
    } else {
      res := Response(404, Message("Note not found"));
    }
  }

  /** What POST / answers once the title has passed its check. */
  function Created(r: Result<Note>): Response {
    match r
    case Ok(n) => Response(201, One(n))
    case Err(f) => ErrorResponse(f)
  }

  /** POST /: validates the title, then inserts the note. */
  method CreateNote(db: Store, body: RequestBody, reachable: bool) returns (res: Response)
    requires db.Valid()
    modifies db
    ensures db.Valid()
    ensures TitlesNonBlank(old(db.rows)) ==> TitlesNonBlank(db.rows)
    ensures match CheckCreateTitle(body.title)
              case Refuse => res == Response(400, Message("Title is required and cannot be empty")) && unchanged(db)
              case Throw => res == ErrorResponse(TypeError) && unchanged(db)
              case Pass =>
                var e := Insert(old(db.Snapshot()), body.title, body.content, reachable);
                db.Snapshot() == e.table && res == Created(e.result)
  {
    var check := CheckCreateTitle(body.title);
    if check == Refuse {
      return Response(400, Message("Title is required and cannot be empty"));
    } else if check == Throw {
      return ErrorResponse(TypeError);
    }
    if TitlesNonBlank(db.rows) {
      CreateKeepsTitles(db.Snapshot(), body.title, body.content, reachable);
    }
    var created := db.CreateNote(body.title, body.content, reachable);
    res := Created(created);
  }

  /** What PUT /:id answers once the title has passed its check: 200 with the
      note, 404 when updateNote found no row (the second read then finds none
      either), the failure as a 500. */
  function Revised(r: Result<Option<Note>>): Response {
    match r
    case Ok(Some(n)) => Response(200, One(n))
    case Ok(None) => Response(404, Message("Note not found"))
    case Err(f) => ErrorResponse(f)
  }

  /** PUT /:id: validates a supplied title, then updates the fields the body
      carries. */
  method UpdateNote(db: Store, id: string, body: RequestBody, reachable: bool) returns (res: Response)
    requires db.Valid()
    modifies db
    ensures db.Valid()
    ensures TitlesNonBlank(old(db.rows)) ==> TitlesNonBlank(db.rows)
    ensures match CheckUpdateTitle(body.title)
              case Refuse => res == Response(400, Message("Title cannot be empty")) && unchanged(db)
              case Throw => res == ErrorResponse(TypeError) && unchanged(db)
              case Pass =>
                var e := Update(old(db.Snapshot()), ParseInt4(id), body.title, body.content, reachable);
                db.Snapshot() == e.table && res == Revised(e.result)
  {
    var check := CheckUpdateTitle(body.title);
    if check == Refuse {
      return Response(400, Message("Title cannot be empty"));
    } else if check == Throw {
      return ErrorResponse(TypeError);
    }
    res := Revise(db, id, body.title, body.content, reachable);
  }

  /** The part of PUT /:id after the title check: `db.updateNote`, and when it
      returns nothing, a second `db.getNoteById` to tell 404 from 200. */
  method Revise(db: Store, id: string, title: JsValue, content: JsValue, reachable: bool) returns (res: Response)
    requires db.Valid() && CheckUpdateTitle(title) == Pass
    modifies db
    ensures db.Valid()
    ensures TitlesNonBlank(old(db.rows)) ==> TitlesNonBlank(db.rows)
    ensures var e := Update(old(db.Snapshot()), ParseInt4(id), title, content, reachable);
            db.Snapshot() == e.table && res == Revised(e.result)
  {
    if TitlesNonBlank(db.rows) {
      UpdateKeepsTitles(db.Snapshot(), ParseInt4(id), title, content, reachable);
    }
    UpdateMissMeansAbsent(db.Snapshot(), id, title, content, reachable);
    var updated := db.UpdateNote(id, title, content, reachable);
    if updated.Err? {
      return ErrorResponse(updated.failure);
    }
    if updated.value.Some? {
      return Response(200, One(updated.value.value));
    }
    var existing := db.GetNoteById(id, reachable);
    if existing.Ok? && existing.value.None? {
      return Response(404, Message("Note not found"));
    }
    // Neither a failure of this second read (the database has just answered
    // updateNote) nor a note that exists although updateNote returned nothing
    // (the handler's `res.json(undefined)`) can occur.
    assert false;
    res := Response(200, Empty);
  }

  /** DELETE /:id: 204 when a row went, 404 when none had the id. */
  method DeleteNote(db: Store, id: string, reachable: bool) returns (res: Response)
    requires db.Valid()
    modifies db
    ensures db.Valid()
    ensures TitlesNonBlank(old(db.rows)) ==> TitlesNonBlank(db.rows)
    ensures !reachable ==> res == ErrorResponse(ConnectionLost) && unchanged(db)
    ensures reachable && ParseInt4(id).Err? ==> res == ErrorResponse(InvalidInteger(id)) && unchanged(db)
    ensures reachable && ParseInt4(id).Ok? ==>
              var key := ParseInt4(id).value;
              && res == (if key in old(db.rows) then Response(204, Empty) else Response(404, Message("Note not found")))
              && db.Snapshot() == old(db.Snapshot()).(rows := old(db.rows) - {key})
              && db.GetNoteById(id, true) == Ok(None)
  {
    var deleted := db.DeleteNote(id, reachable);
    if deleted.Err? {
      return ErrorResponse(deleted.failure);
    }
    if deleted.value {
      res := Response(204, Empty);
    } else {
      res := Response(404, Message("Note not found"));
    }
  }
}
