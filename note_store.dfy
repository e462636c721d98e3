/** The note store of keep-clone-backend/db.js: the `notes` table as a map from
    id to row, the SERIAL sequence that hands out ids, and a logical clock that
    stands for the database's `CURRENT_TIMESTAMP` and `NOW()`. */
module NoteStore {
  import opened Outcomes
  import opened Decimal
  import opened JsValues
  import opened PgTypes

  /** `title VARCHAR(255) NOT NULL` */
  const TitleLimit: nat := 255

  /** A row of the `notes` table, as `SELECT *` and `RETURNING *` give it back. */
  datatype Note = Note(id: int, title: string, content: Option<string>, createdAt: nat, updatedAt: nat)

  /** Every row is filed under its own id. */
  predicate Keyed(m: map<int, Note>) {
    forall k :: k in m ==> m[k].id == k
  }

  /** No two rows were last written at the same instant. */
  predicate DistinctUpdates(m: map<int, Note>) {
    forall i, j :: i in m && j in m && i != j ==> m[i].updatedAt != m[j].updatedAt
  }

  // ---------------------------------------------------------------------------
  // Values written into the two columns a caller can set

  /** The title parameter as the column receives it: NULL, or the text cut to
      the varchar(255) limit, or the error a too long text raises. */
  function TitleValue(v: JsValue): (r: Result<Option<string>>)
    ensures r == Ok(None) <==> v == Undefined || v == Null
    ensures r.Ok? && r.value.Some? ==> |r.value.value| <= TitleLimit
    ensures r.Err? ==> r.failure == ValueTooLong
    ensures v.Str? && |v.s| <= TitleLimit ==> r == Ok(Some(v.s))
  {
    match ParamText(v)
    case None => Ok(None)
    case Some(s) =>
      match CoerceVarchar(s, TitleLimit)
      case Ok(t) => Ok(Some(t))
      case Err(e) => Err(e)
  }

  datatype Column = Title | Content

  /** The value a SET clause for column `c` writes when its parameter is `v`. */
  function ColumnValue(c: Column, v: JsValue): Result<Option<string>> {
    match c
    case Title => TitleValue(v)
    case Content => Ok(ParamText(v))
  }

  // ---------------------------------------------------------------------------
  // The UPDATE statement that updateNote builds

  /** One clause of the SET list: `column = $param`. */
  datatype Assignment = Assignment(column: Column, param: nat)

  /** `UPDATE notes SET <sets> WHERE id = $<idParam> RETURNING *` with its
      parameter values, `values[n - 1]` bound to `$n`. */
  datatype UpdateQuery = UpdateQuery(sets: seq<Assignment>, values: seq<JsValue>, idParam: nat)

  function ColumnName(c: Column): string {
    match c
    case Title => "title"
    case Content => "content"
  }

  /** `column = $n`, as updateNote pushes it onto `fields`. */
  function ClauseText(a: Assignment): string {
    ColumnName(a.column) + " = $" + NatToDecimal(a.param)
  }

  /** `fields.join(', ')` */
  function SetClauses(sets: seq<Assignment>): string
    decreases |sets|
  {
    if sets == [] then ""
    else if |sets| == 1 then ClauseText(sets[0])
    else ClauseText(sets[0]) + ", " + SetClauses(sets[1..])
  }

  /** The text of the statement updateNote sends. */
  function QueryText(q: UpdateQuery): string {
    "UPDATE notes SET " + SetClauses(q.sets) + " WHERE id = $" + NatToDecimal(q.idParam) + " RETURNING *"
  }

  function Columns(sets: seq<Assignment>): seq<Column> {
    seq(|sets|, i requires 0 <= i < |sets| => sets[i].column)
  }

  /** The columns a partial update names: title, then content, each when the
      caller's field is not `undefined`. */
  function SuppliedColumns(title: JsValue, content: JsValue): seq<Column> {
    (if title != Undefined then [Title] else []) + (if content != Undefined then [Content] else [])
  }

  function FieldValue(c: Column, title: JsValue, content: JsValue): JsValue {
    match c
    case Title => title
    case Content => content
  }

  /** The statement updateNote sends for `(id, {title, content})`: one clause per
      supplied field, title first, numbered `$1..$k` in order, each clause's
      field value at the position its number names, and the id last, at `$(k+1)`. */
  predicate SetListFor(id: string, title: JsValue, content: JsValue, q: UpdateQuery) {
    && Columns(q.sets) == SuppliedColumns(title, content)
    && (forall i :: 0 <= i < |q.sets| ==> q.sets[i].param == i + 1)
    && q.idParam == |q.sets| + 1
    && |q.values| == q.idParam
    && (forall i :: 0 <= i < |q.sets| ==> q.values[i] == FieldValue(q.sets[i].column, title, content))
    && q.values[q.idParam - 1] == Str(id)
  }

  /** The SET list and value list of updateNote, pushed field by field; `None`
      when no field is supplied and the function falls back to a plain read. */
  method BuildUpdate(id: string, title: JsValue, content: JsValue) returns (q: Option<UpdateQuery>)
    ensures q.None? <==> title == Undefined && content == Undefined
    ensures q.Some? ==> SetListFor(id, title, content, q.value)
  {
    var sets: seq<Assignment> := [];
    var values: seq<JsValue> := [];
    var paramCount: nat := 1;
    if title != Undefined {
      sets := sets + [Assignment(Title, paramCount)];
      paramCount := paramCount + 1;
      values := values + [title];
    }
    if content != Undefined {
      sets := sets + [Assignment(Content, paramCount)];
      paramCount := paramCount + 1;
      values := values + [content];
    }
    if |sets| == 0 {
      return None;
    }
    values := values + [Str(id)];
    q := Some(UpdateQuery(sets, values, paramCount));
  }

  // ---------------------------------------------------------------------------
  // Executing the SET list on one row

  predicate ParamsInRange(sets: seq<Assignment>, values: seq<JsValue>) {
    forall i :: 0 <= i < |sets| ==> 1 <= sets[i].param <= |values|
  }

  /** The first error raised while the SET parameters are coerced to their
      columns' types, or `None` when every one of them fits. */
  function BindFailure(sets: seq<Assignment>, values: seq<JsValue>): (f: Option<Failure>)
    requires ParamsInRange(sets, values)
    ensures f.Some? ==> f.value == ValueTooLong
    decreases |sets|
  {
    if sets == [] then None
    else
      var v := ColumnValue(sets[0].column, values[sets[0].param - 1]);
      if v.Err? then Some(v.failure) else BindFailure(sets[1..], values)
  }

  /** The writable columns of a row before the NOT NULL check. */
  datatype Draft = Draft(title: Option<string>, content: Option<string>)

  /** The row after `SET`: each clause, in order, writes the value of the
      parameter it names into its column. */
  function ApplySets(d: Draft, sets: seq<Assignment>, values: seq<JsValue>): Draft
    requires ParamsInRange(sets, values) && BindFailure(sets, values) == None
    decreases sets
  {
    if sets == [] then d
    else
      var a := sets[0];
      var x := ColumnValue(a.column, values[a.param - 1]).value;
      var d' := if a.column == Title then d.(title := x) else d.(content := x);
      ApplySets(d', sets[1..], values)
  }

  /** Binding fails exactly when some SET parameter does not fit its column. */
  lemma {:induction false} BindsWhenAllFit(sets: seq<Assignment>, values: seq<JsValue>)
    requires ParamsInRange(sets, values)
    ensures BindFailure(sets, values) == None <==>
              forall i :: 0 <= i < |sets| ==> ColumnValue(sets[i].column, values[sets[i].param - 1]).Ok?
    decreases |sets|
  {
    if sets != [] {
      assert ParamsInRange(sets[1..], values);
      BindsWhenAllFit(sets[1..], values);
      assert forall i :: 1 <= i < |sets| ==> sets[i] == sets[1..][i - 1];
    }
  }

  /** A column no clause of the SET list names keeps its value. */
  lemma {:induction false} ApplySetsKeeps(d: Draft, sets: seq<Assignment>, values: seq<JsValue>)
    requires ParamsInRange(sets, values) && BindFailure(sets, values) == None
    ensures (forall i :: 0 <= i < |sets| ==> sets[i].column != Title) ==> ApplySets(d, sets, values).title == d.title
    ensures (forall i :: 0 <= i < |sets| ==> sets[i].column != Content) ==> ApplySets(d, sets, values).content == d.content
    decreases |sets|
  {
    if sets != [] {
      var a := sets[0];
      var x := ColumnValue(a.column, values[a.param - 1]).value;
      var d' := if a.column == Title then d.(title := x) else d.(content := x);
      assert ParamsInRange(sets[1..], values);
      ApplySetsKeeps(d', sets[1..], values);
      assert forall i :: 0 <= i < |sets[1..]| ==> sets[1..][i] == sets[i + 1];
    }
  }

  /** The SET list never writes a title longer than the column allows. */
  lemma {:induction false} ApplySetsFits(d: Draft, sets: seq<Assignment>, values: seq<JsValue>)
    requires ParamsInRange(sets, values) && BindFailure(sets, values) == None
    requires d.title.Some? ==> |d.title.value| <= TitleLimit
    ensures var e := ApplySets(d, sets, values); e.title.Some? ==> |e.title.value| <= TitleLimit
    decreases sets
  {
    if sets != [] {
      var a := sets[0];
      var x := ColumnValue(a.column, values[a.param - 1]).value;
      var d' := if a.column == Title then d.(title := x) else d.(content := x);
      assert ParamsInRange(sets[1..], values);
      ApplySetsFits(d', sets[1..], values);
    }
  }

  /** Whether the supplied title fits its column (an absent title trivially does). */
  predicate TitleBinds(title: JsValue) {
    title != Undefined ==> TitleValue(title).Ok?
  }

  /** A partial update as the caller means it: the supplied fields replaced,
      the others kept. */
  function PartialUpdate(d: Draft, title: JsValue, content: JsValue): Draft
    requires TitleBinds(title)
  {
    Draft(if title != Undefined then TitleValue(title).value else d.title,
          if content != Undefined then ParamText(content) else d.content)
  }

  /** The statement a partial update calls for, spelled out: a clause for the
      title, then one for the content, each when supplied, then the id. */
  function UpdateStatement(id: string, title: JsValue, content: JsValue): UpdateQuery {
    if title != Undefined && content != Undefined then
      UpdateQuery([Assignment(Title, 1), Assignment(Content, 2)], [title, content, Str(id)], 3)
    else if title != Undefined then UpdateQuery([Assignment(Title, 1)], [title, Str(id)], 2)
    else if content != Undefined then UpdateQuery([Assignment(Content, 1)], [content, Str(id)], 2)
    else UpdateQuery([], [Str(id)], 1)
  }

  /** The SQL text of the statement for each combination of supplied fields. */
  lemma StatementText(id: string, title: JsValue, content: JsValue)
    requires title != Undefined || content != Undefined
    ensures QueryText(UpdateStatement(id, title, content)) ==
              "UPDATE notes SET "
              + (if title != Undefined && content != Undefined then "title = $1, content = $2"
                 else if title != Undefined then "title = $1"
                 else "content = $1")
              + " WHERE id = $" + (if title != Undefined && content != Undefined then "3" else "2")
              + " RETURNING *"
  {
    var q := UpdateStatement(id, title, content);
    SetClauseTexts();
    assert NatToDecimal(2) == "2" && NatToDecimal(3) == "3";
  }

  /** The SET lists of the three statements, as text. */
  lemma SetClauseTexts()
    ensures SetClauses([Assignment(Title, 1), Assignment(Content, 2)]) == "title = $1, content = $2"
    ensures SetClauses([Assignment(Title, 1)]) == "title = $1"
    ensures SetClauses([Assignment(Content, 1)]) == "content = $1"
  {
    ClauseTexts();
    assert [Assignment(Title, 1), Assignment(Content, 2)][1..] == [Assignment(Content, 2)];
    assert "title = $1" + ", " + "content = $2" == "title = $1, content = $2";
  }

  lemma ClauseTexts()
    ensures ClauseText(Assignment(Title, 1)) == "title = $1"
    ensures ClauseText(Assignment(Content, 1)) == "content = $1"
    ensures ClauseText(Assignment(Content, 2)) == "content = $2"
  {
    assert NatToDecimal(1) == "1" && NatToDecimal(2) == "2";
  }

  /** The description of the SET list leaves no choice: it holds of exactly
      one statement. */
  lemma SetListShape(id: string, title: JsValue, content: JsValue, q: UpdateQuery)
    ensures SetListFor(id, title, content, q) <==> q == UpdateStatement(id, title, content)
  {
    if SetListFor(id, title, content, q) {
      SetListDetermined(id, title, content, q);
    }
    StatementFitsSetList(id, title, content);
  }

  lemma SetListDetermined(id: string, title: JsValue, content: JsValue, q: UpdateQuery)
    requires SetListFor(id, title, content, q)
    ensures q == UpdateStatement(id, title, content)
  {
    var u := UpdateStatement(id, title, content);
    var cols := SuppliedColumns(title, content);
    assert |q.sets| == |cols|;
    forall i | 0 <= i < |q.sets| ensures q.sets[i] == u.sets[i] {
      assert Columns(q.sets)[i] == q.sets[i].column;
    }
    assert q.sets == u.sets;
    assert q.values == u.values;
  }

  lemma StatementFitsSetList(id: string, title: JsValue, content: JsValue)
    ensures SetListFor(id, title, content, UpdateStatement(id, title, content))
  {
    var u := UpdateStatement(id, title, content);
    assert Columns(u.sets) == SuppliedColumns(title, content);
  }

  /** The coercions of the statement updateNote builds fail exactly when the
      supplied title is too long for its column. */
  lemma SetListBinds(id: string, title: JsValue, content: JsValue)
    ensures var q := UpdateStatement(id, title, content);
            && ParamsInRange(q.sets, q.values)
            && BindFailure(q.sets, q.values) == if TitleBinds(title) then None else Some(ValueTooLong)
  {
    var q := UpdateStatement(id, title, content);
    if title != Undefined && content != Undefined {
      assert q.sets[1..] == [Assignment(Content, 2)] && q.sets[1..][1..] == [];
    } else if title != Undefined || content != Undefined {
      assert q.sets[1..] == [];
    }
  }

  /** Running the SET list of the statement updateNote builds replaces exactly
      the supplied fields with their values and keeps the others. */
  lemma SetListApplies(id: string, title: JsValue, content: JsValue, d: Draft)
    requires TitleBinds(title)
    ensures var q := UpdateStatement(id, title, content);
            && ParamsInRange(q.sets, q.values) && BindFailure(q.sets, q.values) == None
            && ApplySets(d, q.sets, q.values) == PartialUpdate(d, title, content)
  {
    SetListBinds(id, title, content);
    var q := UpdateStatement(id, title, content);
    if title != Undefined && content != Undefined {
      var d1 := d.(title := TitleValue(title).value);
      var rest := q.sets[1..];
      assert rest == [Assignment(Content, 2)] && rest[1..] == [];
      assert ApplySets(d1, rest, q.values) == d1.(content := ParamText(content));
    } else if title != Undefined || content != Undefined {
      assert q.sets[1..] == [];
    }
  }

  // ---------------------------------------------------------------------------
  // getAllNotes: ORDER BY updatedAt DESC

  /** `k` names a row written no earlier than any other. */
  predicate IsLatest(m: map<int, Note>, k: int)
    requires k in m
  {
    forall j :: j in m ==> m[j].updatedAt <= m[k].updatedAt
  }

  ghost function SomeKey(m: map<int, Note>): (k: int)
    requires |m| > 0
    ensures k in m
  {
    assert |m.Items| == |m|;
    var p :| p in m.Items; p.0
  }

  lemma {:induction false} LatestExists(m: map<int, Note>)
    requires |m| > 0
    ensures exists k :: k in m && IsLatest(m, k)
    decreases |m|
  {
    var j := SomeKey(m);
    var rest := m - {j};
    if |rest| == 0 {
      forall i | i in m ensures m[i].updatedAt <= m[j].updatedAt {
        assert i !in rest;
      }
      assert IsLatest(m, j);
    } else {
      LatestExists(rest);
      var k :| k in rest && IsLatest(rest, k);
      forall i | i in m ensures i == j || i in rest {
      }
      if m[j].updatedAt <= m[k].updatedAt {
        assert IsLatest(m, k);
      } else {
        assert IsLatest(m, j);
      }
    }
  }

  /** `s` lists the rows of `m`, each exactly once. */
  predicate ListsExactly(s: seq<Note>, m: map<int, Note>) {
    && |s| == |m|
    && (forall i :: 0 <= i < |s| ==> s[i].id in m && m[s[i].id] == s[i])
    && (forall k :: k in m ==> m[k] in s)
  }

  /** Strictly decreasing `updatedAt`: the most recently written row first. */
  predicate NewestFirst(s: seq<Note>) {
    forall i, j :: 0 <= i < j < |s| ==> s[i].updatedAt > s[j].updatedAt
  }

  /** The rows of `m` ordered by `updatedAt`, newest first. */
  function ByRecency(m: map<int, Note>): (r: seq<Note>)
    requires Keyed(m) && DistinctUpdates(m)
    ensures ListsExactly(r, m) && NewestFirst(r)
    decreases |m|
  {
    if |m| == 0 then []
    else
      LatestExists(m);
      var k :| k in m && IsLatest(m, k);
      var rest := m - {k};
      assert rest.Keys == m.Keys - {k};
      var tail := ByRecency(rest);
      PrependLatest(m, k, tail);
      [m[k]] + tail
  }

  /** Putting the newest row in front of a listing of the others lists them all. */
  lemma PrependLatest(m: map<int, Note>, k: int, tail: seq<Note>)
    requires Keyed(m) && DistinctUpdates(m)
    requires k in m && IsLatest(m, k)
    requires ListsExactly(tail, m - {k}) && NewestFirst(tail)
    ensures ListsExactly([m[k]] + tail, m) && NewestFirst([m[k]] + tail)
  {
    PrependLists(m, k, tail);
    PrependOrdered(m, k, tail);
  }

  lemma PrependLists(m: map<int, Note>, k: int, tail: seq<Note>)
    requires Keyed(m) && k in m && ListsExactly(tail, m - {k})
    ensures ListsExactly([m[k]] + tail, m)
  {
    var rest := m - {k};
    var s := [m[k]] + tail;
    assert |rest| == |m| - 1 by {
      assert rest.Keys == m.Keys - {k};
    }
    forall j | j in m ensures m[j] in s {
      if j != k {
        assert j in rest && rest[j] in tail;
      }
    }
    forall i | 0 <= i < |s| ensures s[i].id in m && m[s[i].id] == s[i] {
      if i > 0 {
        assert s[i] == tail[i - 1];
        assert tail[i - 1].id in rest;
      }
    }
  }

  lemma PrependOrdered(m: map<int, Note>, k: int, tail: seq<Note>)
    requires Keyed(m) && DistinctUpdates(m)
    requires k in m && IsLatest(m, k)
    requires ListsExactly(tail, m - {k}) && NewestFirst(tail)
    ensures NewestFirst([m[k]] + tail)
  {
    var rest := m - {k};
    var s := [m[k]] + tail;
    forall i | 0 <= i < |tail| ensures tail[i].updatedAt < m[k].updatedAt {
      var j := tail[i].id;
      assert j in rest && rest[j] == tail[i];
      assert j in m && j != k && m[j] == tail[i];
    }
    forall i, j | 0 <= i < j < |s| ensures s[i].updatedAt > s[j].updatedAt {
      assert s[j] == tail[j - 1];
      if i > 0 {
        assert s[i] == tail[i - 1];
      }
    }
  }

  /** Two listings of the same rows, each newest first, are the same listing. */
  lemma {:induction false} NewestFirstUnique(m: map<int, Note>, s: seq<Note>, t: seq<Note>)
    requires Keyed(m)
    requires ListsExactly(s, m) && NewestFirst(s)
    requires ListsExactly(t, m) && NewestFirst(t)
    ensures s == t
    decreases |m|
  {
    if |m| > 0 {
      var k := s[0].id;
      assert k in m && s[0] == m[k];
      assert t[0] == m[k] by {
        var j :| 0 <= j < |t| && t[j] == m[k];
        var i :| 0 <= i < |s| && s[i] == m[t[0].id];
        assert s[i] == t[0];
        if i != 0 && j != 0 {
          assert false;
        }
      }
      TailListsRest(m, s, k);
      TailListsRest(m, t, k);
      NewestFirstUnique(m - {k}, s[1..], t[1..]);
    }
  }

  /** ORDER BY updatedAt DESC leaves no choice: any listing of the rows, each
      once, newest first, is the one ByRecency gives. */
  lemma RecencyOrderUnique(m: map<int, Note>, s: seq<Note>)
    requires Keyed(m) && DistinctUpdates(m)
    requires ListsExactly(s, m) && NewestFirst(s)
    ensures s == ByRecency(m)
  {
    NewestFirstUnique(m, s, ByRecency(m));
  }

  /** Dropping the newest row of a listing leaves a listing of the other rows. */
  lemma TailListsRest(m: map<int, Note>, s: seq<Note>, k: int)
    requires Keyed(m) && ListsExactly(s, m) && NewestFirst(s)
    requires k in m && s != [] && s[0] == m[k]
    ensures ListsExactly(s[1..], m - {k}) && NewestFirst(s[1..]) && Keyed(m - {k})
  {
    TailLists(m, s, k);
    var tail := s[1..];
    forall i, j | 0 <= i < j < |tail| ensures tail[i].updatedAt > tail[j].updatedAt {
      assert tail[i] == s[i + 1] && tail[j] == s[j + 1];
    }
  }

  lemma TailLists(m: map<int, Note>, s: seq<Note>, k: int)
    requires Keyed(m) && ListsExactly(s, m) && NewestFirst(s)
    requires k in m && s != [] && s[0] == m[k]
    ensures ListsExactly(s[1..], m - {k})
  {
    var rest := m - {k};
    var tail := s[1..];
    assert |rest| == |m| - 1 by {
      assert rest.Keys == m.Keys - {k};
    }
    forall i | 0 <= i < |tail| ensures tail[i].id in rest && rest[tail[i].id] == tail[i] {
      assert tail[i] == s[i + 1];
      assert s[0].updatedAt > s[i + 1].updatedAt;
    }
    forall j | j in rest ensures rest[j] in tail {
      var i :| 0 <= i < |s| && s[i] == m[j];
      assert i != 0;
      assert tail[i - 1] == s[i];
    }
  }

  // ---------------------------------------------------------------------------
  // A row after a partial update

  /** The row `was` after `UPDATE ... SET` with the supplied fields and the
      BEFORE UPDATE trigger, which stamps it with `now`; a NULL title fails the
      NOT NULL constraint. */
  function UpdatedRow(was: Note, title: JsValue, content: JsValue, now: nat): (r: Result<Note>)
    requires TitleBinds(title)
    ensures r.Err? <==> title == Null
    ensures r.Err? ==> r.failure == NotNullViolation
    ensures r.Ok? ==> r.value.id == was.id && r.value.createdAt == was.createdAt && r.value.updatedAt == now
    ensures r.Ok? ==> r.value.title == if title == Undefined then was.title else TitleValue(title).value.value
    ensures r.Ok? ==> r.value.content == if content == Undefined then was.content else ParamText(content)
    ensures r.Ok? ==> |r.value.title| <= TitleLimit || r.value.title == was.title
  {
    var d := PartialUpdate(Draft(Some(was.title), was.content), title, content);
    if d.title.None? then Err(NotNullViolation)
    else Ok(Note(was.id, d.title.value, d.content, was.createdAt, now))
  }

  // ---------------------------------------------------------------------------
  // The table

  /** What the table's constraints, its sequence and its trigger guarantee:
      rows filed under their ids, every id issued by the sequence, titles
      within varchar(255), each row stamped no later than its last write and
      before the clock's current instant, no two rows written at once. */
  predicate TableInvariant(rows: map<int, Note>, lastId: int, clock: nat) {
    && 0 <= lastId <= MaxInt4
    && Keyed(rows)
    && (forall k :: k in rows ==> 1 <= k <= lastId)
    && (forall k :: k in rows ==> |rows[k].title| <= TitleLimit)
    && (forall k :: k in rows ==> rows[k].createdAt <= rows[k].updatedAt < clock)
    && DistinctUpdates(rows)
  }

  /** Writing one row stamped with the clock's instant, then advancing the
      clock, keeps the invariant. */
  lemma WriteKeepsInvariant(rows: map<int, Note>, lastId: int, clock: nat, n: Note)
    requires TableInvariant(rows, lastId, clock)
    requires 1 <= n.id <= lastId && |n.title| <= TitleLimit && n.createdAt <= n.updatedAt == clock
    ensures TableInvariant(rows[n.id := n], lastId, clock + 1)
  {
    var rows' := rows[n.id := n];
    forall i, j | i in rows' && j in rows' && i != j ensures rows'[i].updatedAt != rows'[j].updatedAt {
      if i != n.id && j != n.id {
        assert rows'[i] == rows[i] && rows'[j] == rows[j];
      }
    }
  }

  /** Deleting a row keeps the invariant. */
  lemma RemoveKeepsInvariant(rows: map<int, Note>, lastId: int, clock: nat, key: int)
    requires TableInvariant(rows, lastId, clock)
    ensures TableInvariant(rows - {key}, lastId, clock)
  {
    var rows' := rows - {key};
    forall k | k in rows' ensures k in rows && rows'[k] == rows[k] {
    }
  }

  /** The table at one instant: its rows, the sequence's last value, the clock. */
  datatype Table = Table(rows: map<int, Note>, lastId: int, clock: nat)

  /** getNoteById: `SELECT * FROM notes WHERE id = $1`, the row whose id the
      text reads as, or none. */
  function Lookup(rows: map<int, Note>, id: string, reachable: bool): (r: Result<Option<Note>>)
    ensures r.Err? <==> !reachable || ParseInt4(id).Err?
    ensures r.Err? ==> r.failure == if reachable then InvalidInteger(id) else ConnectionLost
    ensures r.Ok? ==> (r.value.Some? <==> ParseInt4(id).value in rows)
    ensures r.Ok? && r.value.Some? ==> r.value.value == rows[ParseInt4(id).value]
  {
    if !reachable then Err(ConnectionLost)
    else
      var key := ParseInt4(id);
      if key.Err? then Err(key.failure)
      else Ok(if key.value in rows then Some(rows[key.value]) else None)
  }

  /** What a store call leaves behind: the table after it, and what it returns
      or throws. */
  datatype Effect<T> = Effect(table: Table, result: Result<T>)

  /** createNote on table `t`. The title is coerced to varchar(255) while the
      statement is planned, before anything else happens. */
  function Insert(t: Table, title: JsValue, content: JsValue, reachable: bool): (e: Effect<Note>)
    ensures e.result.Err? <==>
              !reachable || TitleValue(title).Err? || t.lastId == MaxInt4 || title == Undefined || title == Null
    ensures e.result.Err? ==> e.table.rows == t.rows && e.table.clock == t.clock
    ensures e.table.lastId == if e.result.Ok? || e.result == Err(NotNullViolation) then t.lastId + 1 else t.lastId
  {
    if !reachable then Effect(t, Err(ConnectionLost))
    else match TitleValue(title)
      case Err(f) => Effect(t, Err(f))
      case Ok(v) => InsertRow(t, v, ParamText(content))
  }

  /** Executing `INSERT ... RETURNING *` once its parameters are coerced: the
      sequence is advanced first, then the NOT NULL check is made, so an insert
      that fails it still uses up an id. A new row takes the next id and is
      stamped with the current instant for both its creation and its last
      update. */
  function InsertRow(t: Table, title: Option<string>, content: Option<string>): (e: Effect<Note>)
    ensures e.result.Err? <==> t.lastId == MaxInt4 || title.None?
    ensures e.result.Err? ==> e.table.rows == t.rows && e.table.clock == t.clock
    ensures e.result == Err(NotNullViolation) <==> t.lastId != MaxInt4 && title.None?
    ensures e.table.lastId == if t.lastId != MaxInt4 then t.lastId + 1 else t.lastId
  {
    if t.lastId == MaxInt4 then Effect(t, Err(SequenceExhausted))
    else if title.None? then Effect(t.(lastId := t.lastId + 1), Err(NotNullViolation))
    else
      var n := Note(t.lastId + 1, title.value, content, t.clock, t.clock);
      Effect(Table(t.rows[n.id := n], n.id, t.clock + 1), Ok(n))
  }

  /** updateNote on table `t`, `key` being the id as the integer input
      function reads it (ParseInt4 of the path parameter). The id is read
      first, then the supplied title is coerced to its column, then the row is
      looked up. With no field supplied this is getNoteById; otherwise the row
      becomes UpdatedRow and the clock moves on. */
  function Update(t: Table, key: Result<int>, title: JsValue, content: JsValue, reachable: bool): (e: Effect<Option<Note>>)
    ensures e.table.lastId == t.lastId
    ensures e.result.Err? <==> !reachable || key.Err? || !TitleBinds(title) || (key.value in t.rows && title == Null)
    ensures e.result.Err? || e.result == Ok(None) ==> e.table == t
  {
    if !reachable then Effect(t, Err(ConnectionLost))
    else if key.Err? then Effect(t, Err(key.failure))
    else if !TitleBinds(title) then Effect(t, Err(ValueTooLong))
    else if key.value !in t.rows then Effect(t, Ok(None))
    else if title == Undefined && content == Undefined then Effect(t, Ok(Some(t.rows[key.value])))
    else match UpdatedRow(t.rows[key.value], title, content, t.clock)
      case Err(e) => Effect(t, Err(e))
      case Ok(n) => Effect(t.(rows := t.rows[key.value := n], clock := t.clock + 1), Ok(Some(n)))
  }

  /** A statement whose every `$n` names one of its values, the id's among
      them a string. */
  predicate WellFormed(q: UpdateQuery) {
    && ParamsInRange(q.sets, q.values)
    && 1 <= q.idParam <= |q.values|
    && q.values[q.idParam - 1].Str?
  }

  /** Executing `UPDATE notes SET <sets> WHERE id = key RETURNING *` once its
      parameters are bound: nothing when no row has the id; otherwise the SET
      list is applied, the NOT NULL check made on the title, and the BEFORE
      UPDATE trigger stamps the row with the current instant. */
  function RunSetList(t: Table, key: int, sets: seq<Assignment>, values: seq<JsValue>): (e: Effect<Option<Note>>)
    requires ParamsInRange(sets, values) && BindFailure(sets, values) == None
    ensures e.result == Ok(None) <==> key !in t.rows
    ensures e.result.Err? ==> e.result.failure == NotNullViolation
    ensures e.result.Err? || e.result == Ok(None) ==> e.table == t
    ensures e.result.Ok? && e.result.value.Some? ==>
              var n := e.result.value.value;
              && n.id == key && n.createdAt == t.rows[key].createdAt && n.updatedAt == t.clock
              && e.table == Table(t.rows[key := n], t.lastId, t.clock + 1)
  {
    if key !in t.rows then Effect(t, Ok(None))
    else
      var was := t.rows[key];
      var d := ApplySets(Draft(Some(was.title), was.content), sets, values);
      if d.title.None? then Effect(t, Err(NotNullViolation))
      else
        var n := Note(key, d.title.value, d.content, was.createdAt, t.clock);
        Effect(t.(rows := t.rows[key := n], clock := t.clock + 1), Ok(Some(n)))
  }

  /** Sending statement `q` to the server: the id parameter is read by the
      integer input function, each SET parameter is coerced to its column's
      type, and then the statement runs. */
  function Statement(t: Table, q: UpdateQuery, reachable: bool): (e: Effect<Option<Note>>)
    requires WellFormed(q)
    ensures e.table.lastId == t.lastId
    ensures e.result.Err? || e.result == Ok(None) ==> e.table == t
    ensures e.result.Ok? ==> reachable && ParseInt4(q.values[q.idParam - 1].s).Ok?
  {
    if !reachable then Effect(t, Err(ConnectionLost))
    else
      var key := ParseInt4(q.values[q.idParam - 1].s);
      if key.Err? then Effect(t, Err(key.failure))
      else match BindFailure(q.sets, q.values)
        case Some(f) => Effect(t, Err(f))
        case None => RunSetList(t, key.value, q.sets, q.values)
  }

  /** The statement updateNote builds does what a partial update means: it is
      Update for the id it was built for. */
  lemma StatementMeansUpdate(t: Table, id: string, title: JsValue, content: JsValue, reachable: bool)
    requires Keyed(t.rows)
    requires title != Undefined || content != Undefined
    ensures WellFormed(UpdateStatement(id, title, content))
    ensures Statement(t, UpdateStatement(id, title, content), reachable) == Update(t, ParseInt4(id), title, content, reachable)
  {
    var q := UpdateStatement(id, title, content);
    SetListBinds(id, title, content);
    assert q.values[q.idParam - 1].s == id;
    var key := ParseInt4(id);
    if reachable && key.Ok? && TitleBinds(title) {
      assert Statement(t, q, reachable) == RunSetList(t, key.value, q.sets, q.values);
      if key.value in t.rows {
        var was := t.rows[key.value];
        var d := Draft(Some(was.title), was.content);
        SetListApplies(id, title, content, d);
        assert was.id == key.value;
      }
    }
  }

  /** A row stored with the current instant comes first in getAllNotes. */
  lemma StampedRowListedFirst(rows: map<int, Note>, lastId: int, clock: nat, n: Note)
    requires TableInvariant(rows, lastId, clock)
    requires 1 <= n.id <= lastId && |n.title| <= TitleLimit && n.createdAt <= n.updatedAt == clock
    ensures TableInvariant(rows[n.id := n], lastId, clock + 1)
    ensures ByRecency(rows[n.id := n])[0] == n
  {
    WriteKeepsInvariant(rows, lastId, clock, n);
    var rows' := rows[n.id := n];
    var s := ByRecency(rows');
    assert n in s by {
      assert n.id in rows' && rows'[n.id] == n;
    }
    var i :| 0 <= i < |s| && s[i] == n;
    var j := s[0].id;
    assert j in rows' && rows'[j] == s[0];
    assert s[0].updatedAt <= n.updatedAt;
    assert i == 0;
  }

  /** The note createNote returns carries the posted title and content, the
      sequence's next value as its id, which is above every id issued before
      (deleted rows' included), and the current instant as both timestamps. It
      is the one row added, and getAllNotes lists it first; the table keeps its
      invariant. */
  lemma InsertedNoteListedFirst(t: Table, title: JsValue, content: JsValue, reachable: bool)
    requires TableInvariant(t.rows, t.lastId, t.clock)
    ensures var e := Insert(t, title, content, reachable);
            TableInvariant(e.table.rows, e.table.lastId, e.table.clock)
    ensures var e := Insert(t, title, content, reachable);
            e.result.Ok? ==>
              && e.result.value == Note(t.lastId + 1, TitleValue(title).value.value, ParamText(content), t.clock, t.clock)
              && e.table.lastId == e.result.value.id
              && (forall k :: k in t.rows ==> k < e.result.value.id)
              && e.table.rows == t.rows[e.result.value.id := e.result.value]
              && ByRecency(e.table.rows)[0] == e.result.value
  {
    var e := Insert(t, title, content, reachable);
    if e.result.Ok? {
      StampedRowListedFirst(t.rows, t.lastId + 1, t.clock, e.result.value);
    }
  }

  /** The SERIAL sequence never moves back: createNote advances it or leaves
      it, updateNote leaves it (and so does deleteNote, Store.DeleteNote), so an
      id, once issued, is never issued again. */
  lemma SequenceNeverMovesBack(t: Table, key: Result<int>, title: JsValue, content: JsValue, reachable: bool)
    ensures t.lastId <= Insert(t, title, content, reachable).table.lastId <= t.lastId + 1
    ensures Update(t, key, title, content, reachable).table.lastId == t.lastId
  {
  }

  /** updateNote with no field supplied is getNoteById. */
  lemma UpdateWithoutFieldsIsLookup(t: Table, id: string, reachable: bool)
    ensures Update(t, ParseInt4(id), Undefined, Undefined, reachable) == Effect(t, Lookup(t.rows, id, reachable))
  {
  }

  /** An updateNote call that fails or finds no row leaves the table as it was. */
  lemma UpdateMissLeavesTable(t: Table, key: Result<int>, title: JsValue, content: JsValue, reachable: bool)
    ensures var e := Update(t, key, title, content, reachable);
            e.result.Err? || e.result == Ok(None) ==> e.table == t
  {
  }

  /** When updateNote finds no row, the id is a well-formed integer that no
      row has, so getNoteById right after finds none either. */
  lemma UpdateMissMeansAbsent(t: Table, id: string, title: JsValue, content: JsValue, reachable: bool)
    ensures var e := Update(t, ParseInt4(id), title, content, reachable);
            e.result == Ok(None) ==> reachable && e.table == t && Lookup(t.rows, id, true) == Ok(None)
  {
  }

  /** updateNote either leaves the table as it was, returning at most the row
      already filed under the id, or rewrites that one row as UpdatedRow and
      moves the clock on. */
  lemma UpdateCases(t: Table, key: Result<int>, title: JsValue, content: JsValue, reachable: bool)
    ensures var e := Update(t, key, title, content, reachable);
            || (&& e.table == t
                && (e.result.Ok? && e.result.value.Some? ==>
                      key.Ok? && key.value in t.rows && e.result.value.value == t.rows[key.value]))
            || (&& reachable && key.Ok? && TitleBinds(title) && key.value in t.rows
                && (title != Undefined || content != Undefined)
                && UpdatedRow(t.rows[key.value], title, content, t.clock).Ok?
                && var n := UpdatedRow(t.rows[key.value], title, content, t.clock).value;
                   e == Effect(t.(rows := t.rows[key.value := n], clock := t.clock + 1), Ok(Some(n))))
  {
  }

  /** The note updateNote writes keeps its id and creation instant, replaces
      the old row, and is listed first by getAllNotes; the table keeps its
      invariant. */
  lemma UpdatedNoteListedFirst(t: Table, key: Result<int>, title: JsValue, content: JsValue, reachable: bool)
    requires TableInvariant(t.rows, t.lastId, t.clock)
    ensures var e := Update(t, key, title, content, reachable);
            TableInvariant(e.table.rows, e.table.lastId, e.table.clock)
    ensures var e := Update(t, key, title, content, reachable);
            (title != Undefined || content != Undefined) && e.result.Ok? && e.result.value.Some? ==>
              var n := e.result.value.value;
              && n.id in t.rows && n.createdAt == t.rows[n.id].createdAt
              && e.table == Table(t.rows[n.id := n], t.lastId, t.clock + 1)
              && ByRecency(e.table.rows)[0] == n
  {
    var e := Update(t, key, title, content, reachable);
    UpdateMissLeavesTable(t, key, title, content, reachable);
    if reachable && key.Ok? && TitleBinds(title) && key.value in t.rows
       && (title != Undefined || content != Undefined)
    {
      var u := UpdatedRow(t.rows[key.value], title, content, t.clock);
      if u.Ok? {
        assert e == Effect(Table(t.rows[key.value := u.value], t.lastId, t.clock + 1), Ok(Some(u.value)));
        UpdatedRowListedFirst(t.rows, t.lastId, t.clock, key.value, title, content);
      }
    }
  }

  /** A row rewritten by a partial update is listed first afterwards. */
  lemma UpdatedRowListedFirst(rows: map<int, Note>, lastId: int, clock: nat, key: int, title: JsValue, content: JsValue)
    requires TableInvariant(rows, lastId, clock) && key in rows && TitleBinds(title)
    requires UpdatedRow(rows[key], title, content, clock).Ok?
    ensures var n := UpdatedRow(rows[key], title, content, clock).value;
            && n.id == key
            && TableInvariant(rows[key := n], lastId, clock + 1)
            && ByRecency(rows[key := n])[0] == n
  {
    var was := rows[key];
    RowInvariant(rows, lastId, clock, key);
    var n := UpdatedRow(was, title, content, clock).value;
    StampedRowListedFirst(rows, lastId, clock, n);
  }

  /** What the invariant says about one row. */
  lemma RowInvariant(rows: map<int, Note>, lastId: int, clock: nat, key: int)
    requires TableInvariant(rows, lastId, clock) && key in rows
    ensures rows[key].id == key && 1 <= key <= lastId && |rows[key].title| <= TitleLimit
    ensures rows[key].createdAt <= rows[key].updatedAt < clock
  {
  }

  class Store {
    /** The rows of `notes`, each under its id. */
    var rows: map<int, Note>
    /** The last value the SERIAL sequence handed out; every id ever issued,
        kept or deleted, lies in 1..lastId. */
    var lastId: int
    /** The logical clock: the instant the next written row is stamped with. */
    var clock: nat

    ghost predicate Valid()
      reads this
    {
      TableInvariant(rows, lastId, clock)
    }

    function Snapshot(): Table
      reads this
    {
      Table(rows, lastId, clock)
    }

    /** A freshly created, empty `notes` table. */
    constructor ()
      ensures Valid() && rows == map[] && lastId == 0 && clock == 0
    {
      rows, lastId, clock := map[], 0, 0;
    }

    /** Stores a row stamped with the current instant and advances the clock. */
    method Write(note: Note)
      requires Valid()
      requires 1 <= note.id <= lastId && |note.title| <= TitleLimit && note.createdAt <= note.updatedAt == clock
      modifies this
      ensures Valid()
      ensures rows == old(rows)[note.id := note] && lastId == old(lastId) && clock == old(clock) + 1
    {
      WriteKeepsInvariant(rows, lastId, clock, note);
      rows := rows[note.id := note];
      clock := clock + 1;
    }

    /** Drops the row filed under `key`, if there is one. */
    method Remove(key: int)
      requires Valid()
      modifies this
      ensures Valid()
      ensures rows == old(rows) - {key} && lastId == old(lastId) && clock == old(clock)
    {
      RemoveKeepsInvariant(rows, lastId, clock, key);
      rows := rows - {key};
    }

    /** getAllNotes: every row, most recently updated first. */
    function GetAllNotes(reachable: bool): (r: Result<seq<Note>>)
      requires Valid()
      reads this
      ensures r.Err? <==> !reachable
      ensures r.Err? ==> r.failure == ConnectionLost
      ensures r.Ok? ==> ListsExactly(r.value, rows) && NewestFirst(r.value)
    {
      if !reachable then Err(ConnectionLost) else Ok(ByRecency(rows))
    }

    /** getNoteById on this table. */
    function GetNoteById(id: string, reachable: bool): Result<Option<Note>>
      reads this
    {
      Lookup(rows, id, reachable)
    }

    /** createNote: `INSERT INTO notes (title, content) VALUES ($1, $2) RETURNING *`. */
    method CreateNote(title: JsValue, content: JsValue, reachable: bool) returns (r: Result<Note>)
      requires Valid()
      modifies this
      ensures Valid()
      ensures Effect(Snapshot(), r) == Insert(old(Snapshot()), title, content, reachable)
    {
      if !reachable {
        return Err(ConnectionLost);
      }
      var t := TitleValue(title);
      if t.Err? {
        return Err(t.failure);
      }
      r := AddRow(t.value, ParamText(content));
    }

    /** Runs a planned INSERT. */
    method AddRow(title: Option<string>, content: Option<string>) returns (r: Result<Note>)
      requires Valid() && (title.Some? ==> |title.value| <= TitleLimit)
      modifies this
      ensures Valid()
      ensures Effect(Snapshot(), r) == InsertRow(old(Snapshot()), title, content)
    {
      if lastId == MaxInt4 {
        return Err(SequenceExhausted);
      }
      lastId := lastId + 1;
      if title.None? {
        return Err(NotNullViolation);
      }
      var note := Note(lastId, title.value, content, clock, clock);
      Write(note);
      r := Ok(note);
    }

    /** updateNote: the statement BuildUpdate yields, sent to the server. With
        no field supplied it is getNoteById. */
    method UpdateNote(id: string, title: JsValue, content: JsValue, reachable: bool) returns (r: Result<Option<Note>>)
      requires Valid()
      modifies this
      ensures Valid()
      ensures Effect(Snapshot(), r) == Update(old(Snapshot()), ParseInt4(id), title, content, reachable)
    {
      var q := BuildUpdate(id, title, content);
      if q.None? {
        UpdateWithoutFieldsIsLookup(Snapshot(), id, reachable);
        return GetNoteById(id, reachable);
      }
      SetListShape(id, title, content, q.value);
      StatementMeansUpdate(Snapshot(), id, title, content, reachable);
      r := Send(q.value, reachable);
    }

    /** Sends an UPDATE statement: binds the id, coerces the SET parameters,
        then runs the statement. */
    method Send(q: UpdateQuery, reachable: bool) returns (r: Result<Option<Note>>)
      requires Valid() && WellFormed(q)
      modifies this
      ensures Valid()
      ensures Effect(Snapshot(), r) == Statement(old(Snapshot()), q, reachable)
    {
      if !reachable {
        return Err(ConnectionLost);
      }
      var key := ParseInt4(q.values[q.idParam - 1].s);
      if key.Err? {
        return Err(key.failure);
      }
      var bad := BindFailure(q.sets, q.values);
      if bad.Some? {
        return Err(bad.value);
      }
      r := RunSets(key.value, q.sets, q.values);
    }

    /** Runs a bound UPDATE statement against the row filed under `key`. */
    method RunSets(key: int, sets: seq<Assignment>, values: seq<JsValue>) returns (r: Result<Option<Note>>)
      requires Valid()
      requires ParamsInRange(sets, values) && BindFailure(sets, values) == None
      modifies this
      ensures Valid()
      ensures Effect(Snapshot(), r) == RunSetList(old(Snapshot()), key, sets, values)
    {
      if key !in rows {
        return Ok(None);
      }
      var was := rows[key];
      var d := ApplySets(Draft(Some(was.title), was.content), sets, values);
      if d.title.None? {
        return Err(NotNullViolation);
      }
      var note := Note(key, d.title.value, d.content, was.createdAt, clock);
      ApplySetsFits(Draft(Some(was.title), was.content), sets, values);
      Write(note);
      r := Ok(Some(note));
    }

    /** deleteNote: `DELETE FROM notes WHERE id = $1`, true when a row went. */
    method DeleteNote(id: string, reachable: bool) returns (r: Result<bool>)
      requires Valid()
      modifies this
      ensures Valid()
      ensures !reachable ==> r == Err(ConnectionLost) && unchanged(this)
      ensures reachable && ParseInt4(id).Err? ==> r == Err(InvalidInteger(id)) && unchanged(this)
      ensures reachable && ParseInt4(id).Ok? ==>
                var key := ParseInt4(id).value;
                && r == Ok(key in old(rows))
                && rows == old(rows) - {key}
                && lastId == old(lastId) && clock == old(clock)
                && GetNoteById(id, true) == Ok(None)
    {
      if !reachable {
        return Err(ConnectionLost);
      }
      var key := ParseInt4(id);
      if key.Err? {
        return Err(key.failure);
      }
      r := Ok(key.value in rows);
      Remove(key.value);
    }
  }
}
