/**
 * The service over the in-memory repository: the pending and completed
 * views, a lookup that answers null for a missing Todo, delete-completed,
 * and plain delegation for the rest. It keeps no state of its own beyond
 * the repository it was given.
 */
module MemoryService {
  import opened JavaLang
  import opened TodoModel
  import opened TodoFilters
  import opened MemoryRepository

  /** The Todos of s whose id is not in ids, in s's order. */
  function KeepIds(s: seq<Todo>, ids: set<string>): (r: seq<Todo>)
    ensures forall t :: t in r ==> t in s && t.id !in ids
  {
    if s == [] then []
    else (if s[0].id in ids then [] else [s[0]]) + KeepIds(s[1..], ids)
  }

  function IdsOf(d: seq<Todo>): set<string>
  {
    set t | t in d :: t.id
  }

  lemma {:induction false} KeepIdsWithout(s: seq<Todo>, ids: set<string>, id: string)
    ensures Without(KeepIds(s, ids), id) == KeepIds(s, ids + {id})
  {
    if s != [] {
      KeepIdsWithout(s[1..], ids, id);
      var k := KeepIds(s, ids);
      var rest := KeepIds(s[1..], ids);
      if s[0].id in ids {
        assert k == rest;
        assert KeepIds(s, ids + {id}) == KeepIds(s[1..], ids + {id});
      } else {
        assert k == [s[0]] + rest;
        assert k[0] == s[0] && k[1..] == rest;
        assert Without(k, id) == (if s[0].id == id then [] else [s[0]]) + Without(rest, id);
        assert KeepIds(s, ids + {id})
            == (if s[0].id == id then [] else [s[0]]) + KeepIds(s[1..], ids + {id});
      }
    }
  }

  lemma {:induction false} KeepIdsNone(s: seq<Todo>)
    ensures KeepIds(s, {}) == s
  {
    if s != [] {
      KeepIdsNone(s[1..]);
      assert s == [s[0]] + s[1..];
    }
  }

  /** Deleting, after the Todos of d[..i], the id of d[i] keeps the Todos
      whose id none of d[..i + 1] carries. */
  lemma DeleteStep(s: seq<Todo>, d: seq<Todo>, i: nat)
    requires i < |d|
    ensures Without(KeepIds(s, IdsOf(d[..i])), d[i].id) == KeepIds(s, IdsOf(d[..i + 1]))
  {
    KeepIdsWithout(s, IdsOf(d[..i]), d[i].id);
    assert d[..i + 1] == d[..i] + [d[i]];
    assert IdsOf(d[..i + 1]) == IdsOf(d[..i]) + {d[i].id};
  }

  /** If exactly the done Todos of s have their id in ids, keeping the
      other ids keeps exactly the pending Todos. */
  lemma {:induction false} KeepIdsPending(s: seq<Todo>, ids: set<string>)
    requires forall t :: t in s ==> (t.id in ids <==> t.isDone)
    ensures KeepIds(s, ids) == WithDone(s, false)
  {
    if s != [] {
      assert forall t :: t in s[1..] ==> t in s;
      KeepIdsPending(s[1..], ids);
      assert s[0] in s;
    }
  }

  /** In a store with unique ids, a Todo's id belongs to a completed Todo
      exactly when the Todo itself is done. */
  lemma CompletedIds(s: seq<Todo>)
    requires UniqueIds(s)
    ensures forall t :: t in s ==> (t.id in IdsOf(WithDone(s, true)) <==> t.isDone)
  {
    forall t | t in s
      ensures t.id in IdsOf(WithDone(s, true)) <==> t.isDone
    {
      if t.id in IdsOf(WithDone(s, true)) {
        var u :| u in WithDone(s, true) && u.id == t.id;
        var i :| 0 <= i < |s| && s[i] == t;
        var j :| 0 <= j < |s| && s[j] == u;
        assert i == j;
      }
    }
  }

  /** Deleting the ids of the completed Todos of a store with unique ids
      leaves exactly its pending Todos, so no done Todo remains. */
  lemma DeleteCompletedLeavesPending(s: seq<Todo>)
    requires UniqueIds(s)
    ensures KeepIds(s, IdsOf(WithDone(s, true))) == WithDone(s, false)
    ensures WithDone(WithDone(s, false), true) == []
  {
    CompletedIds(s);
    KeepIdsPending(s, IdsOf(WithDone(s, true)));
    var p := WithDone(s, false);
    WithDoneFlags(s, false);
    WithDoneKeepsAll(p, false);
    ViewsPartition(p);
    InterleavingMultiset(p, WithDone(p, false), WithDone(p, true));
  }

  class TodoService {
    const todoRepository: TodoRepository

    constructor (todoRepository: TodoRepository)
      ensures this.todoRepository == todoRepository
    {
      this.todoRepository := todoRepository;
    }

    /** getAllTodos: what the repository's getAll returns. */
    function GetAllTodos(): (r: seq<Todo>)
      reads todoRepository
      ensures r == todoRepository.todoStore
    {
      todoRepository.GetAll()
    }

    /** getPendingTodos: exactly the Todos of getAllTodos that are not done. */
    function GetPendingTodos(): (r: seq<Todo>)
      reads todoRepository, todoRepository.todoStore
      ensures forall t :: t in r ==> t in GetAllTodos() && !t.isDone
      ensures forall t :: t in GetAllTodos() && !t.isDone ==> t in r
    {
      WithDone(GetAllTodos(), false)
    }

    /** getCompletedTodos: exactly the Todos of getAllTodos that are done. */
    function GetCompletedTodos(): (r: seq<Todo>)
      reads todoRepository, todoRepository.todoStore
      ensures forall t :: t in r ==> t in GetAllTodos() && t.isDone
      ensures forall t :: t in GetAllTodos() && t.isDone ==> t in r
    {
      WithDone(GetAllTodos(), true)
    }

    /** The two views partition getAllTodos: it is a merge of them, each
        keeping its relative order, and they share no Todo. */
    lemma ViewsPartitionAll()
      ensures Interleaving(GetAllTodos(), GetPendingTodos(), GetCompletedTodos())
      ensures multiset(GetAllTodos()) == multiset(GetPendingTodos()) + multiset(GetCompletedTodos())
      ensures forall t :: !(t in GetPendingTodos() && t in GetCompletedTodos())
    {
      ViewsPartition(todoRepository.todoStore);
    }

    /** getTodoById: the stored Todo with that id, or null. */
    function GetTodoById(id: Option<string>): (r: Todo?)
      reads todoRepository
      ensures r == null <==> id.None? || !HasId(todoRepository.todoStore, id.value)
      ensures r != null ==> r in todoRepository.todoStore && r.id == id.value
      ensures r != null ==> todoRepository.GetById(id) == Some(r)
    {
      var todoById := todoRepository.GetById(id);
      if todoById.Some? then todoById.value else null
    }

    /** addTodo: the repository's insertTodo. */
    method AddTodo(todo: Todo) returns (inserted: bool)
      requires todoRepository.Valid()
      modifies todoRepository
      ensures todoRepository.Valid()
      ensures inserted <==> !HasId(old(todoRepository.todoStore), todo.id)
      ensures todoRepository.todoStore ==
        if inserted then old(todoRepository.todoStore) + [todo] else old(todoRepository.todoStore)
    {
      inserted := todoRepository.InsertTodo(todo);
    }

    /** updateTodo: the repository's updateTodo. */
    method UpdateTodo(id: Option<string>, title: Option<string>, description: Option<string>,
                      isDoneString: Option<string>) returns (updated: bool)
      requires todoRepository.Valid()
      modifies todoRepository
      ensures todoRepository.Valid()
      ensures updated <==> id.Some? && HasId(old(todoRepository.todoStore), id.value)
      ensures !updated ==> todoRepository.todoStore == old(todoRepository.todoStore)
      ensures updated ==>
        && |todoRepository.todoStore| == |old(todoRepository.todoStore)|
        && todoRepository.todoStore ==
             Without(old(todoRepository.todoStore), id.value) + [Last(todoRepository.todoStore)]
        && fresh(Last(todoRepository.todoStore))
        && IsReplacement(Last(todoRepository.todoStore), old(FindById(todoRepository.todoStore, id)).value,
                         title, description, isDoneString)
    {
      updated := todoRepository.UpdateTodo(id, title, description, isDoneString);
    }

    /** deleteAllTodos: the repository's deleteAllTodos. */
    method DeleteAllTodos()
      modifies todoRepository
      ensures todoRepository.Valid() && todoRepository.todoStore == []
    {
      todoRepository.DeleteAllTodos();
    }

    /** deleteTodoById: the repository's deleteTodoById. */
    method DeleteTodoById(id: Option<string>) returns (deleted: bool)
      requires todoRepository.Valid()
      modifies todoRepository
      ensures todoRepository.Valid()
      ensures deleted <==> id.Some? && HasId(old(todoRepository.todoStore), id.value)
      ensures todoRepository.todoStore ==
        if deleted then Without(old(todoRepository.todoStore), id.value) else old(todoRepository.todoStore)
    {
      deleted := todoRepository.DeleteTodoById(id);
    }

    /** deleteCompletedTodos: takes the completed view, then deletes each of
        its Todos by id. Afterwards the store holds exactly the Todos that
        were pending, and none that is done. */
    method DeleteCompletedTodos()
      requires todoRepository.Valid()
      modifies todoRepository
      ensures todoRepository.Valid()
      ensures todoRepository.todoStore == old(GetPendingTodos())
      ensures WithDone(todoRepository.todoStore, true) == []
    {
      var completed := GetCompletedTodos();
      ghost var before := todoRepository.todoStore;
      KeepIdsNone(before);
      assert IdsOf(completed[..0]) == {};
      var i := 0;
      while i < |completed|
        invariant 0 <= i <= |completed|
        invariant todoRepository.Valid()
        invariant todoRepository.todoStore == KeepIds(before, IdsOf(completed[..i]))
      {
        DeleteStep(before, completed, i);
        var deleted := todoRepository.DeleteTodoById(Some(completed[i].id));
        if !deleted {
          WithoutAbsent(todoRepository.todoStore, completed[i].id);
        }
        i := i + 1;
      }
      assert completed[..i] == completed;
      DeleteCompletedLeavesPending(before);
    }
  }
}
