/**
 * The relational repository: the same operations as the in-memory one,
 * over a table `todos` reached through JDBC. The model keeps the table's
 * rows in a field and gives each SQL statement its effect on them; what it
 * states in detail is the guard logic of getById, insertTodo and
 * updateTodo, the text of the update statement that updateTodo builds and
 * the parameter indices it binds.
 */
module SqlRepository {
  import opened JavaLang
  import opened TodoModel

  /** One row of table todos: columns id, title, description and isDone. */
  datatype Row = Row(id: string, title: Option<string>, description: Option<string>, isDone: bool)

  /** The row a Todo's fields make (and, read back, the Todo a row makes). */
  function RowOf(t: Todo): (r: Row)
    reads t
    ensures r.id == t.id && r.title == t.title && r.description == t.description && r.isDone == t.isDone
  {
    Row(t.id, t.title, t.description, t.isDone)
  }

  function RowsOf(ts: seq<Todo>): (r: seq<Row>)
    reads ts
    ensures |r| == |ts|
    ensures forall k :: 0 <= k < |ts| ==> r[k] == RowOf(ts[k])
  {
    if ts == [] then [] else [RowOf(ts[0])] + RowsOf(ts[1..])
  }

  predicate HasRow(rows: seq<Row>, id: string)
  {
    exists k :: 0 <= k < |rows| && rows[k].id == id
  }

  /** The rows of `select * from todos where id = ?`, in table order. */
  function RowsWithId(rows: seq<Row>, id: string): (r: seq<Row>)
    ensures forall x :: x in r <==> x in rows && x.id == id
    ensures r == [] <==> !HasRow(rows, id)
  {
    if rows == [] then []
    else (if rows[0].id == id then [rows[0]] else []) + RowsWithId(rows[1..], id)
  }

  /** The table after `delete from todos where id = ?`. */
  function RowsWithoutId(rows: seq<Row>, id: string): (r: seq<Row>)
    ensures forall x :: x in r <==> x in rows && x.id != id
    ensures |r| <= |rows|
  {
    if rows == [] then []
    else (if rows[0].id == id then [] else [rows[0]]) + RowsWithoutId(rows[1..], id)
  }

  /** No two rows share an id (what a primary key on column id ensures). */
  ghost predicate UniqueRowIds(rows: seq<Row>)
  {
    forall i, j :: 0 <= i < j < |rows| ==> rows[i].id != rows[j].id
  }

  lemma UniqueRowTail(rows: seq<Row>)
    requires UniqueRowIds(rows) && rows != []
    ensures UniqueRowIds(rows[1..])
    ensures forall x :: x in rows[1..] ==> x.id != rows[0].id
  {
    var tail := rows[1..];
    forall i, j | 0 <= i < j < |tail| ensures tail[i].id != tail[j].id {
      assert tail[i] == rows[i + 1] && tail[j] == rows[j + 1];
    }
    forall x | x in tail ensures x.id != rows[0].id {
      var m :| 0 <= m < |tail| && tail[m] == x;
      assert rows[m + 1] == x;
    }
  }

  lemma ConsRowUnique(x: Row, rest: seq<Row>)
    requires UniqueRowIds(rest) && forall y :: y in rest ==> y.id != x.id
    ensures UniqueRowIds([x] + rest)
  {
    var r := [x] + rest;
    forall i, j | 0 <= i < j < |r| ensures r[i].id != r[j].id {
      assert r[j] == rest[j - 1];
      if i > 0 {
        assert r[i] == rest[i - 1];
      }
    }
  }

  /** Deleting the rows with an id keeps the other ids unique. */
  lemma {:induction false} RowsWithoutIdUnique(rows: seq<Row>, id: string)
    requires UniqueRowIds(rows)
    ensures UniqueRowIds(RowsWithoutId(rows, id))
  {
    if rows != [] {
      UniqueRowTail(rows);
      RowsWithoutIdUnique(rows[1..], id);
      if rows[0].id != id {
        ConsRowUnique(rows[0], RowsWithoutId(rows[1..], id));
      }
    }
  }

  /** Appending a row whose id is absent keeps ids unique. */
  lemma AppendRowUnique(rows: seq<Row>, x: Row)
    requires UniqueRowIds(rows) && !HasRow(rows, x.id)
    ensures UniqueRowIds(rows + [x])
  {
    var r := rows + [x];
    forall i, j | 0 <= i < j < |r| ensures r[i].id != r[j].id {
      assert r[i] == rows[i];
      if j < |rows| {
        assert r[j] == rows[j];
      }
    }
  }

  // ---------------------------------------------------------------------
  // The update statement

  /** The columns an update may assign, in the order the builder considers them. */
  datatype Column = Title | Description | IsDone

  /** The column's name in the statement text; none holds a '?' or a ','. */
  function ColumnName(col: Column): string
  {
    match col
    case Title => "title"
    case Description => "description"
    case IsDone => "isDone"
  }

  function ColumnRank(col: Column): nat
  {
    match col
    case Title => 0
    case Description => 1
    case IsDone => 2
  }

  /** The columns an update assigns: title, description and isDone, in that
      order, each exactly when its argument is not null. */
  function AssignedColumns(title: Option<string>, description: Option<string>,
                           isDoneString: Option<string>): (cols: seq<Column>)
    ensures Title in cols <==> title.Some?
    ensures Description in cols <==> description.Some?
    ensures IsDone in cols <==> isDoneString.Some?
    ensures Ascending(cols)
    ensures |cols| == (if title.Some? then 1 else 0) + (if description.Some? then 1 else 0)
                      + (if isDoneString.Some? then 1 else 0)
  {
    (if title.Some? then [Title] else []) +
    (if description.Some? then [Description] else []) +
    (if isDoneString.Some? then [IsDone] else [])
  }

  /** The columns come in the builder's order, each at most once. */
  predicate Ascending(cols: seq<Column>)
  {
    forall i, j :: 0 <= i < j < |cols| ==> ColumnRank(cols[i]) < ColumnRank(cols[j])
  }

  /** One assignment of the SET clause. */
  function Assignment(col: Column): string
  {
    " " + ColumnName(col) + " = ?"
  }

  function Assignments(cols: seq<Column>): (r: seq<string>)
    ensures |r| == |cols|
    ensures forall k :: 0 <= k < |cols| ==> r[k] == Assignment(cols[k])
  {
    if cols == [] then [] else [Assignment(cols[0])] + Assignments(cols[1..])
  }

  /** The parts separated by commas: none before the first, none after the last. */
  function JoinWithCommas(parts: seq<string>): string
  {
    if parts == [] then ""
    else if |parts| == 1 then parts[0]
    else parts[0] + "," + JoinWithCommas(parts[1..])
  }

  /** "update todos set", written word by word. */
  const UPDATE_PREFIX := "update" + " todos" + " set"
  const UPDATE_SUFFIX := " where id = ?"

  /** The statement updateTodo prepares for the given SET columns. */
  function UpdateStatement(cols: seq<Column>): (r: string)
    ensures |r| >= |UPDATE_PREFIX| + |UPDATE_SUFFIX|
    ensures r[..|UPDATE_PREFIX|] == UPDATE_PREFIX
    ensures r[|r| - |UPDATE_SUFFIX|..] == UPDATE_SUFFIX
  {
    UPDATE_PREFIX + JoinWithCommas(Assignments(cols)) + UPDATE_SUFFIX
  }

  lemma {:induction false} JoinSnoc(parts: seq<string>, p: string)
    ensures JoinWithCommas(parts + [p]) == JoinWithCommas(parts) + (if parts == [] then "" else ",") + p
  {
    if |parts| == 1 {
      assert (parts + [p])[1..] == [p];
    } else if |parts| > 1 {
      assert (parts + [p])[0] == parts[0] && (parts + [p])[1..] == parts[1..] + [p];
      JoinSnoc(parts[1..], p);
    }
  }

  lemma AssignmentsSnoc(cols: seq<Column>, c: Column)
    ensures Assignments(cols + [c]) == Assignments(cols) + [Assignment(c)]
  {
    var l, r := Assignments(cols + [c]), Assignments(cols) + [Assignment(c)];
    assert |l| == |r|;
    forall k | 0 <= k < |l| ensures l[k] == r[k] {
      if k < |cols| {
        assert (cols + [c])[k] == cols[k];
      }
    }
  }

  /** The literal each `append` of the builder writes is that column's assignment. */
  lemma AssignmentLiterals()
    ensures Assignment(Title) == " title = ?"
    ensures Assignment(Description) == " description = ?"
    ensures Assignment(IsDone) == " isDone = ?"
  {
  }

  /** One step of the builder: with sql holding the prefix and the clause
      for cols, and commaRequired telling whether that clause is empty,
      appending a comma when required and then c's assignment gives the
      prefix and the clause for cols + [c]. */
  lemma BuilderStep(sql: string, prefix: string, cols: seq<Column>, commaRequired: bool, c: Column)
    requires sql == prefix + JoinWithCommas(Assignments(cols))
    requires commaRequired == (cols != [])
    ensures (if commaRequired then sql + "," else sql) + Assignment(c)
         == prefix + JoinWithCommas(Assignments(cols + [c]))
  {
    var j, a := JoinWithCommas(Assignments(cols)), Assignment(c);
    var sep := if commaRequired then "," else "";
    AssignmentsSnoc(cols, c);
    JoinSnoc(Assignments(cols), a);
    assert (if commaRequired then sql + "," else sql) == sql + sep;
    ConcatAssoc(prefix, j, sep, a);
  }

  lemma ConcatAssoc(p: string, j: string, sep: string, a: string)
    ensures ((p + j) + sep) + a == p + ((j + sep) + a)
  {
  }

  /** updateTodo's StringBuilder: "update todos set", then each supplied
      column's assignment, preceded by a comma once one has been written,
      then " where id = ?". */
  method BuildUpdateSql(title: Option<string>, description: Option<string>,
                        isDoneString: Option<string>) returns (sql: string)
    ensures sql == UpdateStatement(AssignedColumns(title, description, isDoneString))
  {
    AssignmentLiterals();
    ghost var cols: seq<Column> := [];
    var commaRequired := false;
    sql := UPDATE_PREFIX;

    if title.Some? {
      BuilderStep(sql, UPDATE_PREFIX, cols, commaRequired, Title);
      sql := sql + " title = ?";
      cols := cols + [Title];
      commaRequired := true;
    }

    if description.Some? {
      BuilderStep(sql, UPDATE_PREFIX, cols, commaRequired, Description);
      if commaRequired {
        sql := sql + ",";
      }
      sql := sql + " description = ?";
      cols := cols + [Description];
      commaRequired := true;
    }

    if isDoneString.Some? {
      BuilderStep(sql, UPDATE_PREFIX, cols, commaRequired, IsDone);
      if commaRequired {
        sql := sql + ",";
      }
      sql := sql + " isDone = ?";
      cols := cols + [IsDone];
      commaRequired := true;
    }
    assert cols == AssignedColumns(title, description, isDoneString);

    sql := sql + " where id = ?";
  }

  /** Occurrences of c in s. */
  function Count(s: string, c: char): nat
  {
    if s == [] then 0 else (if s[0] == c then 1 else 0) + Count(s[1..], c)
  }

  lemma {:induction false} CountConcat(a: string, b: string, c: char)
    ensures Count(a + b, c) == Count(a, c) + Count(b, c)
  {
    if a == [] {
      assert a + b == b;
    } else {
      assert (a + b)[0] == a[0] && (a + b)[1..] == a[1..] + b;
      CountConcat(a[1..], b, c);
    }
  }

  /** A character at no position of s occurs zero times. */
  lemma {:induction false} CountAbsent(s: string, c: char)
    requires forall i :: 0 <= i < |s| ==> s[i] != c
    ensures Count(s, c) == 0
  {
    if s != [] {
      CountAbsent(s[1..], c);
    }
  }

  /** No column name holds a placeholder or a comma. */
  lemma ColumnNameCounts(col: Column)
    ensures Count(ColumnName(col), '?') == 0 && Count(ColumnName(col), ',') == 0
  {
    var name := ColumnName(col);
    CountAbsent(name, '?');
    CountAbsent(name, ',');
  }

  /** An assignment holds one placeholder, at its end, and no comma; it
      starts with a blank. */
  lemma AssignmentCounts(col: Column)
    ensures Count(Assignment(col), '?') == 1 && Count(Assignment(col), ',') == 0
    ensures |Assignment(col)| > 0 && Assignment(col)[0] == ' '
    ensures Assignment(col)[|Assignment(col)| - 1] == '?'
  {
    ColumnNameCounts(col);
    CountConcat(" " + ColumnName(col), " = ?", '?');
    CountConcat(" ", ColumnName(col), '?');
    CountConcat(" " + ColumnName(col), " = ?", ',');
    CountConcat(" ", ColumnName(col), ',');
  }

  /** The SET clause of a non-empty column list starts with a blank and ends
      with a placeholder, so it has no comma at either end. */
  lemma {:induction false} SetClauseEnds(cols: seq<Column>)
    requires cols != []
    ensures var clause := JoinWithCommas(Assignments(cols));
      && |clause| > 0 && clause[0] == ' ' && clause[|clause| - 1] == '?'
  {
    var parts := Assignments(cols);
    AssignmentCounts(cols[0]);
    if |cols| > 1 {
      SetClauseEnds(cols[1..]);
      assert Assignments(cols[1..]) == parts[1..];
      var rest := JoinWithCommas(parts[1..]);
      assert JoinWithCommas(parts) == parts[0] + ("," + rest);
    }
  }

  /** The SET clause of a non-empty column list holds one comma between
      each two assignments and one placeholder per column. */
  lemma {:induction false} SetClauseCounts(cols: seq<Column>)
    requires cols != []
    ensures var clause := JoinWithCommas(Assignments(cols));
      && Count(clause, ',') == |cols| - 1
      && Count(clause, '?') == |cols|
  {
    var parts := Assignments(cols);
    AssignmentCounts(cols[0]);
    if |cols| > 1 {
      SetClauseCounts(cols[1..]);
      assert Assignments(cols[1..]) == parts[1..];
      var rest := JoinWithCommas(parts[1..]);
      assert JoinWithCommas(parts) == parts[0] + ("," + rest);
      CountConcat(parts[0], "," + rest, ',');
      CountConcat(parts[0], "," + rest, '?');
      CountConcat(",", rest, ',');
      CountConcat(",", rest, '?');
    }
  }

  /** The text before the SET clause holds no placeholder. */
  lemma PrefixCount()
    ensures Count(UPDATE_PREFIX, '?') == 0
  {
    CountAbsent("update", '?');
    CountAbsent(" todos", '?');
    CountAbsent(" set", '?');
    CountConcat("update", " todos", '?');
    CountConcat("update" + " todos", " set", '?');
  }

  /** The text after the SET clause holds one placeholder, the id's. */
  lemma SuffixCount()
    ensures Count(UPDATE_SUFFIX, '?') == 1
  {
    var n := |UPDATE_SUFFIX| - 1;
    assert UPDATE_SUFFIX == UPDATE_SUFFIX[..n] + UPDATE_SUFFIX[n..];
    CountAbsent(UPDATE_SUFFIX[..n], '?');
    CountConcat(UPDATE_SUFFIX[..n], UPDATE_SUFFIX[n..], '?');
  }

  /** The update statement holds one placeholder per assigned column and
      one for the id, so as many as updateTodo binds parameters. */
  lemma PlaceholderCount(cols: seq<Column>)
    requires cols != []
    ensures Count(UpdateStatement(cols), '?') == |cols| + 1
  {
    SetClauseCounts(cols);
    PrefixCount();
    SuffixCount();
    var clause := JoinWithCommas(Assignments(cols));
    CountConcat(UPDATE_PREFIX + clause, UPDATE_SUFFIX, '?');
    CountConcat(UPDATE_PREFIX, clause, '?');
  }

  /** The statement when only the title is supplied. */
  lemma UpdateStatementExample()
    ensures UpdateStatement([Title]) == UPDATE_PREFIX + " title = ?" + UPDATE_SUFFIX
  {
    AssignmentLiterals();
    assert Assignments([Title]) == [Assignment(Title)];
  }

  /** The statement when the title and the done flag are supplied: the
      assignments are separated by one comma. */
  lemma UpdateStatementCommaExample()
    ensures UpdateStatement([Title, IsDone]) == UPDATE_PREFIX + " title = ?" + "," + " isDone = ?" + UPDATE_SUFFIX
  {
    AssignmentLiterals();
    var parts := Assignments([Title, IsDone]);
    assert parts == [Assignment(Title), Assignment(IsDone)];
    assert parts[1..] == [Assignment(IsDone)];
    assert JoinWithCommas(parts) == " title = ?" + "," + " isDone = ?";
  }

  // ---------------------------------------------------------------------
  // Parameter binding

  /** A value given to PreparedStatement.setString or setBoolean. */
  datatype Param = StringParam(s: string) | BooleanParam(b: bool)

  /** statement.setX(index, value) */
  datatype Binding = Binding(index: int, param: Param)

  /** The value updateTodo binds for a SET column, when that column's
      argument is supplied. */
  function SuppliedValue(col: Column, title: Option<string>, description: Option<string>,
                         isDoneString: Option<string>): Option<Param>
  {
    match col
    case Title => if title.Some? then Some(StringParam(title.value)) else None
    case Description => if description.Some? then Some(StringParam(description.value)) else None
    case IsDone => if isDoneString.Some? then Some(BooleanParam(ParseBoolean(isDoneString))) else None
  }

  /** The first |cols| bindings number the placeholders 1, 2, ... in order
      and the k-th carries the value of the k-th column. */
  ghost predicate BindsColumns(bindings: seq<Binding>, cols: seq<Column>, title: Option<string>,
                               description: Option<string>, isDoneString: Option<string>)
  {
    && |bindings| >= |cols|
    && (forall k :: 0 <= k < |cols| ==>
          && bindings[k].index == k + 1
          && SuppliedValue(cols[k], title, description, isDoneString) == Some(bindings[k].param))
  }

  /** The bindings of updateTodo: one per placeholder, numbered 1, 2, ...;
      the one at the k-th placeholder of the SET clause carries the value of
      the k-th assigned column, and the last one, the id. */
  ghost predicate BindsFor(bindings: seq<Binding>, id: string, title: Option<string>,
                           description: Option<string>, isDoneString: Option<string>)
  {
    var cols := AssignedColumns(title, description, isDoneString);
    && |bindings| == |cols| + 1
    && BindsColumns(bindings, cols, title, description, isDoneString)
    && bindings[|cols|] == Binding(|cols| + 1, StringParam(id))
  }

  lemma BindStep(bindings: seq<Binding>, index: int, cols: seq<Column>, c: Column, p: Param,
                 title: Option<string>, description: Option<string>, isDoneString: Option<string>)
    requires |bindings| == |cols| && index == |cols| + 1
    requires BindsColumns(bindings, cols, title, description, isDoneString)
    requires SuppliedValue(c, title, description, isDoneString) == Some(p)
    ensures |bindings + [Binding(index, p)]| == |cols + [c]|
    ensures BindsColumns(bindings + [Binding(index, p)], cols + [c], title, description, isDoneString)
  {
    var b, cs := bindings + [Binding(index, p)], cols + [c];
    forall k | 0 <= k < |cs|
      ensures b[k].index == k + 1
      ensures SuppliedValue(cs[k], title, description, isDoneString) == Some(b[k].param)
    {
      if k < |cols| {
        assert b[k] == bindings[k] && cs[k] == cols[k];
      }
    }
  }

  lemma BindId(bindings: seq<Binding>, id: string, title: Option<string>, description: Option<string>,
                isDoneString: Option<string>)
    requires |bindings| == |AssignedColumns(title, description, isDoneString)|
    requires BindsColumns(bindings, AssignedColumns(title, description, isDoneString), title, description, isDoneString)
    ensures BindsFor(bindings + [Binding(|bindings| + 1, StringParam(id))], id, title, description, isDoneString)
  {
    var all := bindings + [Binding(|bindings| + 1, StringParam(id))];
    assert forall k :: 0 <= k < |bindings| ==> all[k] == bindings[k];
  }

  /** The first part of updateTodo's `int index = 1; ... setX(index++, ...)`
      sequence: one binding per supplied column, in the builder's order;
      index is left at the next free position. */
  method BindColumns(title: Option<string>, description: Option<string>,
                     isDoneString: Option<string>) returns (bindings: seq<Binding>, index: int)
    ensures |bindings| == |AssignedColumns(title, description, isDoneString)|
    ensures BindsColumns(bindings, AssignedColumns(title, description, isDoneString), title, description, isDoneString)
    ensures index == |bindings| + 1
  {
    ghost var cols: seq<Column> := [];
    bindings := [];
    index := 1;
    if title.Some? {
      BindStep(bindings, index, cols, Title, StringParam(title.value), title, description, isDoneString);
      bindings := bindings + [Binding(index, StringParam(title.value))];
      index := index + 1;
      cols := cols + [Title];
    }
    if description.Some? {
      BindStep(bindings, index, cols, Description, StringParam(description.value), title, description, isDoneString);
      bindings := bindings + [Binding(index, StringParam(description.value))];
      index := index + 1;
      cols := cols + [Description];
    }
    if isDoneString.Some? {
      BindStep(bindings, index, cols, IsDone, BooleanParam(ParseBoolean(isDoneString)), title, description, isDoneString);
      bindings := bindings + [Binding(index, BooleanParam(ParseBoolean(isDoneString)))];
      index := index + 1;
      cols := cols + [IsDone];
    }
    assert cols == AssignedColumns(title, description, isDoneString) by {
      if title.Some? { assert cols[0] == Title; }
    }
  }

  /** updateTodo's parameter bindings: the supplied columns' values, then
      the id at the last placeholder. */
  method BindParameters(id: string, title: Option<string>, description: Option<string>,
                        isDoneString: Option<string>) returns (bindings: seq<Binding>)
    ensures BindsFor(bindings, id, title, description, isDoneString)
  {
    var index;
    bindings, index := BindColumns(title, description, isDoneString);
    BindId(bindings, id, title, description, isDoneString);
    bindings := bindings + [Binding(index, StringParam(id))];
  }

  // ---------------------------------------------------------------------
  // What the update statement does to the table

  /** A row after its SET column col receives p. */
  function SetColumn(r: Row, col: Column, p: Param): Row
  {
    match col
    case Title => if p.StringParam? then r.(title := Some(p.s)) else r
    case Description => if p.StringParam? then r.(description := Some(p.s)) else r
    case IsDone => if p.BooleanParam? then r.(isDone := p.b) else r
  }

  /** A row after the SET columns cols[k..] receive their bound values. */
  function AssignFrom(r: Row, cols: seq<Column>, bindings: seq<Binding>, k: nat): Row
    requires k <= |cols| <= |bindings|
    decreases |cols| - k
  {
    if k == |cols| then r else AssignFrom(SetColumn(r, cols[k], bindings[k].param), cols, bindings, k + 1)
  }

  /** The database running the prepared update: every row whose id is the
      value bound after the SET columns gets those columns assigned. */
  function ExecuteUpdate(rows: seq<Row>, cols: seq<Column>, bindings: seq<Binding>): (r: seq<Row>)
    requires |cols| < |bindings|
    ensures |r| == |rows|
    ensures forall k :: 0 <= k < |rows| && StringParam(rows[k].id) != bindings[|cols|].param ==> r[k] == rows[k]
  {
    if rows == [] then []
    else
      [if StringParam(rows[0].id) == bindings[|cols|].param then AssignFrom(rows[0], cols, bindings, 0) else rows[0]]
      + ExecuteUpdate(rows[1..], cols, bindings)
  }

  /** An update's field rules on one row: a null argument keeps the old
      value, a non-null one replaces it, and isDone is parsed leniently. */
  function UpdatedRow(r: Row, title: Option<string>, description: Option<string>,
                      isDoneString: Option<string>): (u: Row)
    ensures u.id == r.id
    ensures title.None? && description.None? && isDoneString.None? ==> u == r
    ensures title.Some? ==> u.title == title
    ensures description.Some? ==> u.description == description
  {
    Row(r.id,
        if title.None? then r.title else title,
        if description.None? then r.description else description,
        if isDoneString.None? then r.isDone else ParseBoolean(isDoneString))
  }

  /** The field rules applied to the rows with the given id. */
  function ApplyUpdate(rows: seq<Row>, id: string, title: Option<string>, description: Option<string>,
                       isDoneString: Option<string>): (r: seq<Row>)
    ensures |r| == |rows|
    ensures forall k :: 0 <= k < |rows| ==>
      r[k] == if rows[k].id == id then UpdatedRow(rows[k], title, description, isDoneString) else rows[k]
  {
    if rows == [] then []
    else
      [if rows[0].id == id then UpdatedRow(rows[0], title, description, isDoneString) else rows[0]]
      + ApplyUpdate(rows[1..], id, title, description, isDoneString)
  }

  /** An update keeps every row's id, so ids stay unique. */
  lemma ApplyUpdateUnique(rows: seq<Row>, id: string, title: Option<string>, description: Option<string>,
                          isDoneString: Option<string>)
    ensures UniqueRowIds(rows) ==> UniqueRowIds(ApplyUpdate(rows, id, title, description, isDoneString))
  {
    var r := ApplyUpdate(rows, id, title, description, isDoneString);
    assert forall k :: 0 <= k < |r| ==> r[k].id == rows[k].id;
  }

  /** The argument of a column if that column is among cols, else null. */
  function OnlyIf(col: Column, cols: seq<Column>, arg: Option<string>): Option<string>
  {
    if col in cols then arg else None
  }

  /** Assigning one more column first, with the value bound for it, is
      the field rules with that column's argument supplied as well. */
  lemma SetColumnRule(r: Row, c: Column, p: Param, tail: seq<Column>, title: Option<string>,
                      description: Option<string>, isDoneString: Option<string>)
    requires c !in tail
    requires SuppliedValue(c, title, description, isDoneString) == Some(p)
    ensures UpdatedRow(SetColumn(r, c, p), OnlyIf(Title, tail, title), OnlyIf(Description, tail, description),
                       OnlyIf(IsDone, tail, isDoneString))
         == UpdatedRow(r, OnlyIf(Title, [c] + tail, title), OnlyIf(Description, [c] + tail, description),
                       OnlyIf(IsDone, [c] + tail, isDoneString))
  {
    assert forall x :: x in [c] + tail <==> x == c || x in tail;
  }

  /** Assigning the columns cols[k..] with their bound values is the update's
      field rules with only those columns' arguments supplied. */
  lemma {:induction false} AssignFromRules(r: Row, cols: seq<Column>, bindings: seq<Binding>, k: nat,
                                           title: Option<string>, description: Option<string>,
                                           isDoneString: Option<string>)
    requires Ascending(cols)
    requires k <= |cols| <= |bindings|
    requires BindsColumns(bindings, cols, title, description, isDoneString)
    ensures AssignFrom(r, cols, bindings, k)
         == UpdatedRow(r, OnlyIf(Title, cols[k..], title), OnlyIf(Description, cols[k..], description),
                          OnlyIf(IsDone, cols[k..], isDoneString))
    decreases |cols| - k
  {
    if k < |cols| {
      var p := bindings[k].param;
      assert AssignFrom(r, cols, bindings, k) == AssignFrom(SetColumn(r, cols[k], p), cols, bindings, k + 1);
      assert SuppliedValue(cols[k], title, description, isDoneString) == Some(p);
      AssignFromRules(SetColumn(r, cols[k], p), cols, bindings, k + 1, title, description, isDoneString);
      assert cols[k] !in cols[k + 1..] by {
        forall j | k + 1 <= j < |cols| ensures cols[j] != cols[k] {
          assert ColumnRank(cols[k]) < ColumnRank(cols[j]);
        }
      }
      SetColumnRule(r, cols[k], p, cols[k + 1..], title, description, isDoneString);
      assert cols[k..] == [cols[k]] + cols[k + 1..];
    } else {
      assert cols[k..] == [];
    }
  }

  /** Running the statement updateTodo builds, with the parameters it binds,
      applies the update's field rules to exactly the rows with that id
      and leaves every other row as it was. */
  lemma {:induction false} ExecutedUpdateMeaning(rows: seq<Row>, bindings: seq<Binding>, id: string,
                                                 title: Option<string>, description: Option<string>,
                                                 isDoneString: Option<string>)
    requires BindsFor(bindings, id, title, description, isDoneString)
    ensures ExecuteUpdate(rows, AssignedColumns(title, description, isDoneString), bindings)
         == ApplyUpdate(rows, id, title, description, isDoneString)
  {
    var cols := AssignedColumns(title, description, isDoneString);
    if rows != [] {
      ExecutedUpdateMeaning(rows[1..], bindings, id, title, description, isDoneString);
      AssignFromRules(rows[0], cols, bindings, 0, title, description, isDoneString);
      assert cols[0..] == cols;
    }
  }

  // ---------------------------------------------------------------------
  // The repository

  class TodoRepository {
    /** The rows of table todos in the database behind the DataSource. */
    var table: seq<Row>

    /** The id of every deleteTodoById call so far, in call order. */
    ghost var deleteRequests: seq<Option<string>>

    constructor (table: seq<Row>)
      ensures this.table == table && deleteRequests == []
    {
      this.table := table;
      deleteRequests := [];
    }

    /** The `while (resultSet.next())` loop: one new Todo per row, in order. */
    static method ReadTodos(rows: seq<Row>) returns (todos: seq<Todo>)
      ensures RowsOf(todos) == rows
      ensures forall k :: 0 <= k < |todos| ==> fresh(todos[k])
    {
      todos := [];
      var i := 0;
      while i < |rows|
        invariant 0 <= i <= |rows| && |todos| == i
        invariant forall k :: 0 <= k < i ==> fresh(todos[k]) && RowOf(todos[k]) == rows[k]
      {
        var row := rows[i];
        var todo := new Todo(row.id);
        todo.SetTitle(row.title);
        todo.SetDescription(row.description);
        todo.SetDone(row.isDone);
        todos := todos + [todo];
        i := i + 1;
      }
    }

    /** getAll: a new Todo for each row of the table. */
    method GetAll(contextId: Option<string>) returns (todos: seq<Todo>)
      ensures RowsOf(todos) == table
      ensures forall k :: 0 <= k < |todos| ==> fresh(todos[k])
    {
      todos := ReadTodos(table);
    }

    /** getById: empty for a null id without querying; otherwise the first
        row with that id, or empty when there is none. */
    method GetById(contextId: Option<string>, id: Option<string>) returns (todo: Option<Todo>)
      ensures todo.None? <==> id.None? || !HasRow(table, id.value)
      ensures todo.Some? ==> fresh(todo.value) && RowOf(todo.value) == RowsWithId(table, id.value)[0]
    {
      if id.None? {
        return None;
      }
      var todos := ReadTodos(RowsWithId(table, id.value));
      if |todos| > 0 {
        return Some(todos[0]);
      }
      return None;
    }

    /** insertTodo: false for a null Todo and for an id already present;
        otherwise the Todo's row joins the table. */
    method InsertTodo(contextId: Option<string>, todo: Todo?) returns (inserted: bool)
      modifies this
      ensures inserted <==> todo != null && !HasRow(old(table), todo.id)
      ensures table == if inserted then old(table) + [RowOf(todo)] else old(table)
      ensures UniqueRowIds(old(table)) ==> UniqueRowIds(table)
      ensures deleteRequests == old(deleteRequests)
    {
      if todo == null {
        return false;
      }
      var todoById := GetById(contextId, Some(todo.id));
      if todoById.Some? {
        return false;
      }
      if UniqueRowIds(table) {
        AppendRowUnique(table, RowOf(todo));
      }
      table := table + [RowOf(todo)];
      return true;
    }

    /** updateTodo: false for a null id, when no field is supplied, or when
        no row has the id; otherwise builds and binds the update statement,
        runs it, and answers true. */
    method UpdateTodo(contextId: Option<string>, id: Option<string>, title: Option<string>,
                      description: Option<string>, isDoneString: Option<string>) returns (updated: bool)
      modifies this
      ensures updated <==>
        id.Some? && (title.Some? || description.Some? || isDoneString.Some?) && HasRow(old(table), id.value)
      ensures table == if updated then ApplyUpdate(old(table), id.value, title, description, isDoneString)
                       else old(table)
      ensures UniqueRowIds(old(table)) ==> UniqueRowIds(table)
      ensures deleteRequests == old(deleteRequests)
    {
      if id.None? || (title.None? && description.None? && isDoneString.None?) {
        return false;
      }
      var todoById := GetById(contextId, id);
      if todoById.None? {
        return false;
      }
      ApplyUpdateUnique(table, id.value, title, description, isDoneString);
      RunUpdateStatement(id.value, title, description, isDoneString);
      return true;
    }

    /** The statement part of updateTodo: the SQL text is built, its
        parameters bound and the statement executed, which applies the
        field rules to the rows with the id. */
    method RunUpdateStatement(id: string, title: Option<string>, description: Option<string>,
                              isDoneString: Option<string>)
      modifies this
      ensures table == ApplyUpdate(old(table), id, title, description, isDoneString)
      ensures deleteRequests == old(deleteRequests)
    {
      // The text is pinned down by BuildUpdateSql's contract: the statement
      // for exactly the SET columns ExecuteUpdate is given below.
      var sql := BuildUpdateSql(title, description, isDoneString);
      assert sql == UpdateStatement(AssignedColumns(title, description, isDoneString));
      var bindings := BindParameters(id, title, description, isDoneString);
      ExecutedUpdateMeaning(table, bindings, id, title, description, isDoneString);
      table := ExecuteUpdate(table, AssignedColumns(title, description, isDoneString), bindings);
    }

    /** deleteAllTodos: `delete from todos`. */
    method DeleteAllTodos(contextId: Option<string>)
      modifies this
      ensures table == []
      ensures deleteRequests == old(deleteRequests)
    {
      table := [];
    }

    /** deleteTodoById: `delete from todos where id = ?` (with a null id no
        row matches) and true in every case. */
    method DeleteTodoById(contextId: Option<string>, id: Option<string>) returns (deleted: bool)
      modifies this
      ensures deleted
      ensures table == if id.None? then old(table) else RowsWithoutId(old(table), id.value)
      ensures deleteRequests == old(deleteRequests) + [id]
    {
      if id.Some? {
        table := RowsWithoutId(table, id.value);
      }
      deleteRequests := deleteRequests + [id];
      return true;
    }
  }
}
