/**
 * The service over the relational repository: the same views and
 * operations as the in-memory service, each taking a request id
 * (contextId) that it only passes on. Every getAll reads the table afresh
 * and builds new Todo objects, so the views are stated on the rows they
 * were read from.
 */
module SqlService {
  import opened JavaLang
  import opened TodoModel
  import opened TodoFilters
  import opened SqlRepository

  /** The rows whose done flag is the given one, in table order. */
  function RowsWithDone(rows: seq<Row>, done: bool): (r: seq<Row>)
    ensures forall x :: x in r <==> x in rows && x.isDone == done
    ensures |r| <= |rows|
    ensures (forall x :: x in rows ==> x.isDone != done) ==> r == []
  {
    if rows == [] then []
    else (if rows[0].isDone == done then [rows[0]] else []) + RowsWithDone(rows[1..], done)
  }

  /** A view of a table with unique ids has unique ids. */
  lemma {:induction false} RowsWithDoneUnique(rows: seq<Row>, done: bool)
    requires UniqueRowIds(rows)
    ensures UniqueRowIds(RowsWithDone(rows, done))
  {
    if rows != [] {
      UniqueRowTail(rows);
      RowsWithDoneUnique(rows[1..], done);
      var rest := RowsWithDone(rows[1..], done);
      if rows[0].isDone == done {
        forall y | y in rest ensures y.id != rows[0].id {
          var k :| 0 <= k < |rows[1..]| && rows[1..][k] == y;
        }
        ConsRowUnique(rows[0], rest);
      }
    }
  }

  /** Filtering the Todos read from a table is filtering its rows. */
  lemma {:induction false} RowsOfWithDone(ts: seq<Todo>, done: bool)
    ensures RowsOf(WithDone(ts, done)) == RowsWithDone(RowsOf(ts), done)
  {
    if ts != [] {
      RowsOfWithDone(ts[1..], done);
      var rows := RowsOf(ts);
      assert rows[0] == RowOf(ts[0]) && rows[1..] == RowsOf(ts[1..]);
      var head := if ts[0].isDone == done then [ts[0]] else [];
      assert WithDone(ts, done) == head + WithDone(ts[1..], done);
      RowsOfConcat(head, WithDone(ts[1..], done));
    }
  }

  lemma RowsOfConcat(a: seq<Todo>, b: seq<Todo>)
    ensures RowsOf(a + b) == RowsOf(a) + RowsOf(b)
  {
    var l, r := RowsOf(a + b), RowsOf(a) + RowsOf(b);
    assert |l| == |r|;
    forall k | 0 <= k < |l| ensures l[k] == r[k] {
      if k < |a| {
        assert (a + b)[k] == a[k];
      } else {
        assert (a + b)[k] == b[k - |a|];
      }
    }
  }

  /** The pending and the completed rows partition the table: it is a merge
      of the two, each in table order, and no row is in both. */
  lemma {:induction false} RowViewsPartition(rows: seq<Row>)
    ensures Interleaving(rows, RowsWithDone(rows, false), RowsWithDone(rows, true))
    ensures multiset(rows) == multiset(RowsWithDone(rows, false)) + multiset(RowsWithDone(rows, true))
    ensures forall x :: !(x in RowsWithDone(rows, false) && x in RowsWithDone(rows, true))
  {
    if rows != [] {
      RowViewsPartition(rows[1..]);
      assert RowsWithDone(rows, !rows[0].isDone) == RowsWithDone(rows[1..], !rows[0].isDone);
      assert RowsWithDone(rows, rows[0].isDone) == [rows[0]] + RowsWithDone(rows[1..], rows[0].isDone);
    }
    InterleavingMultiset(rows, RowsWithDone(rows, false), RowsWithDone(rows, true));
  }

  /** The rows whose id is not in ids, in table order. */
  function KeepRowIds(rows: seq<Row>, ids: set<string>): (r: seq<Row>)
    ensures forall x :: x in r ==> x in rows && x.id !in ids
  {
    if rows == [] then []
    else (if rows[0].id in ids then [] else [rows[0]]) + KeepRowIds(rows[1..], ids)
  }

  function IdsOfRows(rows: seq<Row>): (r: seq<string>)
    ensures |r| == |rows|
    ensures forall k :: 0 <= k < |rows| ==> r[k] == rows[k].id
  {
    if rows == [] then [] else [rows[0].id] + IdsOfRows(rows[1..])
  }

  /** The arguments of deleteTodoById calls for the given ids, in order. */
  function DeleteRequests(ids: seq<string>): (r: seq<Option<string>>)
    ensures |r| == |ids|
    ensures forall k :: 0 <= k < |ids| ==> r[k] == Some(ids[k])
  {
    if ids == [] then [] else [Some(ids[0])] + DeleteRequests(ids[1..])
  }

  function AsSet(ids: seq<string>): set<string>
  {
    set i | i in ids
  }

  lemma {:induction false} KeepRowIdsWithout(rows: seq<Row>, ids: set<string>, id: string)
    ensures RowsWithoutId(KeepRowIds(rows, ids), id) == KeepRowIds(rows, ids + {id})
  {
    if rows != [] {
      KeepRowIdsWithout(rows[1..], ids, id);
      var k := KeepRowIds(rows, ids);
      var rest := KeepRowIds(rows[1..], ids);
      if rows[0].id in ids {
        assert k == rest;
        assert KeepRowIds(rows, ids + {id}) == KeepRowIds(rows[1..], ids + {id});
      } else {
        assert k == [rows[0]] + rest;
        assert k[0] == rows[0] && k[1..] == rest;
        assert RowsWithoutId(k, id) == (if rows[0].id == id then [] else [rows[0]]) + RowsWithoutId(rest, id);
        assert KeepRowIds(rows, ids + {id})
            == (if rows[0].id == id then [] else [rows[0]]) + KeepRowIds(rows[1..], ids + {id});
      }
    }
  }

  lemma {:induction false} KeepRowIdsNone(rows: seq<Row>)
    ensures KeepRowIds(rows, {}) == rows
  {
    if rows != [] {
      KeepRowIdsNone(rows[1..]);
      assert rows == [rows[0]] + rows[1..];
    }
  }

  /** Deleting, after the ids ids[..i], the id ids[i] keeps the rows whose
      id is none of ids[..i + 1]. */
  lemma DeleteStep(rows: seq<Row>, ids: seq<string>, i: nat)
    requires i < |ids|
    ensures RowsWithoutId(KeepRowIds(rows, AsSet(ids[..i])), ids[i]) == KeepRowIds(rows, AsSet(ids[..i + 1]))
  {
    KeepRowIdsWithout(rows, AsSet(ids[..i]), ids[i]);
    assert ids[..i + 1] == ids[..i] + [ids[i]];
    assert AsSet(ids[..i + 1]) == AsSet(ids[..i]) + {ids[i]};
  }

  lemma RequestStep(requests: seq<Option<string>>, ids: seq<string>, i: nat)
    requires i < |ids|
    ensures requests + DeleteRequests(ids[..i + 1]) == (requests + DeleteRequests(ids[..i])) + [Some(ids[i])]
  {
    var l, r := DeleteRequests(ids[..i + 1]), DeleteRequests(ids[..i]) + [Some(ids[i])];
    assert |l| == |r|;
    assert forall k :: 0 <= k < |l| ==> l[k] == r[k];
  }

  /** If exactly the done rows have their id in ids, keeping the other ids
      keeps exactly the pending rows. */
  lemma {:induction false} KeepRowIdsPending(rows: seq<Row>, ids: set<string>)
    requires forall x :: x in rows ==> (x.id in ids <==> x.isDone)
    ensures KeepRowIds(rows, ids) == RowsWithDone(rows, false)
  {
    if rows != [] {
      assert forall x :: x in rows[1..] ==> x in rows;
      KeepRowIdsPending(rows[1..], ids);
      assert rows[0] in rows;
    }
  }

  /** Deleting the ids of the done rows leaves no done row. */
  lemma NoDoneRowRemains(rows: seq<Row>)
    ensures RowsWithDone(KeepRowIds(rows, AsSet(IdsOfRows(RowsWithDone(rows, true)))), true) == []
  {
    var done := RowsWithDone(rows, true);
    var ids := IdsOfRows(done);
    var after := KeepRowIds(rows, AsSet(ids));
    assert forall x :: x in after ==> !x.isDone;
  }

  /** In a table with unique ids, deleting the ids of the done rows leaves
      exactly the pending rows. */
  lemma DeleteCompletedLeavesPendingRows(rows: seq<Row>)
    requires UniqueRowIds(rows)
    ensures KeepRowIds(rows, AsSet(IdsOfRows(RowsWithDone(rows, true)))) == RowsWithDone(rows, false)
  {
    var done := RowsWithDone(rows, true);
    var ids := IdsOfRows(done);
    forall x | x in rows
      ensures x.id in AsSet(ids) <==> x.isDone
    {
      if x.id in AsSet(ids) {
        var k :| 0 <= k < |ids| && ids[k] == x.id;
        assert done[k] in rows;
        var a :| 0 <= a < |rows| && rows[a] == x;
        var b :| 0 <= b < |rows| && rows[b] == done[k];
        assert a == b;
      }
      if x.isDone {
        var k :| 0 <= k < |done| && done[k] == x;
        assert ids[k] == x.id;
      }
    }
    KeepRowIdsPending(rows, AsSet(ids));
  }

  /** What deleting the done rows' ids one by one leaves: no done row and,
      with unique ids, exactly the pending rows. */
  lemma DeleteCompletedOutcome(before: seq<Row>, after: seq<Row>)
    requires after == KeepRowIds(before, AsSet(IdsOfRows(RowsWithDone(before, true))))
    ensures RowsWithDone(after, true) == []
    ensures UniqueRowIds(before) ==> after == RowsWithDone(before, false)
  {
    NoDoneRowRemains(before);
    if UniqueRowIds(before) {
      DeleteCompletedLeavesPendingRows(before);
    }
  }

  /** A table with no done row is all pending and yields no delete request;
      so a second deleteCompletedTodos issues no delete and, with unique ids,
      leaves the table as it is. */
  lemma {:induction false} NoDoneRowsAllPending(rows: seq<Row>)
    requires RowsWithDone(rows, true) == []
    ensures RowsWithDone(rows, false) == rows
    ensures DeleteRequests(IdsOfRows(RowsWithDone(rows, true))) == []
  {
    assert forall i :: 0 <= i < |rows| ==> rows[i] in rows;
    RowsWithDoneKeepsAll(rows, false);
  }

  /** A table whose rows all carry the flag passes the filter unchanged. */
  lemma {:induction false} RowsWithDoneKeepsAll(rows: seq<Row>, done: bool)
    requires forall i :: 0 <= i < |rows| ==> rows[i].isDone == done
    ensures RowsWithDone(rows, done) == rows
  {
    if rows != [] {
      RowsWithDoneKeepsAll(rows[1..], done);
      assert rows == [rows[0]] + rows[1..];
    }
  }

  class TodoService {
    const todoRepository: TodoRepository

    constructor (todoRepository: TodoRepository)
      ensures this.todoRepository == todoRepository
    {
      this.todoRepository := todoRepository;
    }

    /** getAllTodos: a new Todo per row of the table; contextId is only passed on. */
    method GetAllTodos(contextId: Option<string>) returns (todos: seq<Todo>)
      ensures RowsOf(todos) == todoRepository.table
      ensures forall k :: 0 <= k < |todos| ==> fresh(todos[k])
    {
      todos := todoRepository.GetAll(contextId);
    }

    /** getPendingTodos: new Todos for exactly the rows that are not done, in table order. */
    method GetPendingTodos(contextId: Option<string>) returns (todos: seq<Todo>)
      ensures RowsOf(todos) == RowsWithDone(todoRepository.table, false)
      ensures forall t :: t in todos ==> fresh(t) && !t.isDone
    {
      var all := GetAllTodos(contextId);
      todos := WithDone(all, false);
      RowsOfWithDone(all, false);
    }

    /** getCompletedTodos: new Todos for exactly the done rows, in table order. */
    method GetCompletedTodos(contextId: Option<string>) returns (todos: seq<Todo>)
      ensures RowsOf(todos) == RowsWithDone(todoRepository.table, true)
      ensures forall t :: t in todos ==> fresh(t) && t.isDone
    {
      var all := GetAllTodos(contextId);
      todos := WithDone(all, true);
      RowsOfWithDone(all, true);
    }

    /** getTodoById: the Todo read from the first row with that id, or null. */
    method GetTodoById(contextId: Option<string>, id: Option<string>) returns (todo: Todo?)
      ensures todo == null <==> id.None? || !HasRow(todoRepository.table, id.value)
      ensures todo != null ==> fresh(todo) && RowOf(todo) == RowsWithId(todoRepository.table, id.value)[0]
    {
      var todoById := todoRepository.GetById(contextId, id);
      if todoById.Some? {
        return todoById.value;
      } else {
        return null;
      }
    }

    /** addTodo: the repository's insertTodo. */
    method AddTodo(contextId: Option<string>, todo: Todo?) returns (inserted: bool)
      modifies todoRepository
      ensures inserted <==> todo != null && !HasRow(old(todoRepository.table), todo.id)
      ensures todoRepository.table ==
        if inserted then old(todoRepository.table) + [RowOf(todo)] else old(todoRepository.table)
      ensures UniqueRowIds(old(todoRepository.table)) ==> UniqueRowIds(todoRepository.table)
      ensures todoRepository.deleteRequests == old(todoRepository.deleteRequests)
    {
      inserted := todoRepository.InsertTodo(contextId, todo);
    }

    /** updateTodo: the repository's updateTodo. */
    method UpdateTodo(contextId: Option<string>, id: Option<string>, title: Option<string>,
                      description: Option<string>, isDoneString: Option<string>) returns (updated: bool)
      modifies todoRepository
      ensures updated <==>
        id.Some? && (title.Some? || description.Some? || isDoneString.Some?)
        && HasRow(old(todoRepository.table), id.value)
      ensures todoRepository.table ==
        if updated then ApplyUpdate(old(todoRepository.table), id.value, title, description, isDoneString)
        else old(todoRepository.table)
      ensures UniqueRowIds(old(todoRepository.table)) ==> UniqueRowIds(todoRepository.table)
      ensures todoRepository.deleteRequests == old(todoRepository.deleteRequests)
    {
      updated := todoRepository.UpdateTodo(contextId, id, title, description, isDoneString);
    }

    /** deleteAllTodos: the repository's deleteAllTodos. */
    method DeleteAllTodos(contextId: Option<string>)
      modifies todoRepository
      ensures todoRepository.table == []
      ensures todoRepository.deleteRequests == old(todoRepository.deleteRequests)
    {
      todoRepository.DeleteAllTodos(contextId);
    }

    /** deleteTodoById: the repository's deleteTodoById, so always true. */
    method DeleteTodoById(contextId: Option<string>, id: Option<string>) returns (deleted: bool)
      modifies todoRepository
      ensures deleted
      ensures todoRepository.table ==
        if id.None? then old(todoRepository.table) else RowsWithoutId(old(todoRepository.table), id.value)
      ensures todoRepository.deleteRequests == old(todoRepository.deleteRequests) + [id]
    {
      deleted := todoRepository.DeleteTodoById(contextId, id);
    }

    /** The forEach of deleteCompletedTodos: deleteTodoById with the id of
        each of the Todos, in order. */
    method DeleteEachById(contextId: Option<string>, todos: seq<Todo>, ghost ids: seq<string>)
      requires |ids| == |todos| && forall k :: 0 <= k < |todos| ==> todos[k].id == ids[k]
      modifies todoRepository
      ensures todoRepository.table == KeepRowIds(old(todoRepository.table), AsSet(ids))
      ensures todoRepository.deleteRequests == old(todoRepository.deleteRequests) + DeleteRequests(ids)
    {
      ghost var before := todoRepository.table;
      ghost var requests := todoRepository.deleteRequests;
      KeepRowIdsNone(before);
      assert AsSet(ids[..0]) == {} && DeleteRequests(ids[..0]) == [];
      var i := 0;
      while i < |todos|
        invariant 0 <= i <= |todos|
        invariant todoRepository.table == KeepRowIds(before, AsSet(ids[..i]))
        invariant todoRepository.deleteRequests == requests + DeleteRequests(ids[..i])
      {
        DeleteStep(before, ids, i);
        RequestStep(requests, ids, i);
        var _ := todoRepository.DeleteTodoById(contextId, Some(todos[i].id));
        i := i + 1;
      }
      assert ids[..i] == ids;
    }

    /** deleteCompletedTodos: reads the completed Todos, then asks the
        repository to delete each of them by id. One delete is issued per
        row that was done, in table order; afterwards no done row remains,
        and when ids are unique the table holds exactly the rows that were
        pending. */
    method DeleteCompletedTodos(contextId: Option<string>)
      modifies todoRepository
      ensures todoRepository.deleteRequests == old(todoRepository.deleteRequests)
        + DeleteRequests(IdsOfRows(RowsWithDone(old(todoRepository.table), true)))
      ensures RowsWithDone(todoRepository.table, true) == []
      ensures UniqueRowIds(old(todoRepository.table)) ==>
        todoRepository.table == RowsWithDone(old(todoRepository.table), false)
      ensures UniqueRowIds(old(todoRepository.table)) ==> UniqueRowIds(todoRepository.table)
    {
      var completed := GetCompletedTodos(contextId);
      ghost var before := todoRepository.table;
      ghost var done := RowsWithDone(before, true);
      assert forall k :: 0 <= k < |completed| ==> done[k] == RowOf(completed[k]);
      DeleteEachById(contextId, completed, IdsOfRows(done));
      DeleteCompletedOutcome(before, todoRepository.table);
      if UniqueRowIds(before) {
        RowsWithDoneUnique(before, false);
      }
    }
  }
}
