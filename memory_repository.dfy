/**
 * The in-memory repository: a set of Todos (a HashSet keyed, through
 * Todo.equals and Todo.hashCode, by id) with get-all, get-by-id, insert,
 * update, delete-by-id and delete-all. The store is a sequence of Todo
 * references; the invariant Valid() says no two of them share an id.
 */
module MemoryRepository {
  import opened JavaLang
  import opened TodoModel

  /** No two Todos of s have the same id. */
  ghost predicate UniqueIds(s: seq<Todo>)
  {
    forall i, j :: 0 <= i < j < |s| ==> s[i].id != s[j].id
  }

  /** Some Todo of s has the given id. */
  predicate HasId(s: seq<Todo>, id: string)
  {
    exists i :: 0 <= i < |s| && s[i].id == id
  }

  /** todo.getId().equals(id): String.equals(null) is false. */
  predicate IdEquals(t: Todo, id: Option<string>): (r: bool)
    ensures r <==> id == Some(t.id)
  {
    id.Some? && t.id == id.value
  }

  /** Position of the first Todo of s whose id equals id, or |s| if none does. */
  function FirstMatch(s: seq<Todo>, id: Option<string>): (k: nat)
    ensures k <= |s|
    ensures k < |s| ==> IdEquals(s[k], id)
    ensures forall j :: 0 <= j < k ==> !IdEquals(s[j], id)
  {
    if s == [] then 0
    else if IdEquals(s[0], id) then 0
    else 1 + FirstMatch(s[1..], id)
  }

  /** stream().filter(todo -> todo.getId().equals(id)).findFirst() */
  function FindById(s: seq<Todo>, id: Option<string>): (r: Option<Todo>)
    ensures r.Some? <==> id.Some? && HasId(s, id.value)
    ensures r.Some? ==> r.value in s && r.value.id == id.value
    ensures UniqueIds(s) ==> forall t :: t in s && IdEquals(t, id) ==> r == Some(t)
  {
    var k := FirstMatch(s, id);
    if k < |s| then Some(s[k]) else None
  }

  /** The Todos of s whose id is not the given one, in s's order. */
  function Without(s: seq<Todo>, id: string): (r: seq<Todo>)
    ensures forall t :: t in r ==> t in s && t.id != id
    ensures forall t :: t in s && t.id != id ==> t in r
    ensures !HasId(r, id)
  {
    if s == [] then []
    else (if s[0].id == id then [] else [s[0]]) + Without(s[1..], id)
  }

  /** HashSet.add: the Todo joins the set unless an equal one (same id)
      is already there. */
  function SetAdd(s: seq<Todo>, t: Todo): (r: seq<Todo>)
    ensures HasId(r, t.id)
    ensures forall u :: u in s ==> u in r
    ensures forall u :: u in r ==> u in s || u == t
    ensures |r| == if HasId(s, t.id) then |s| else |s| + 1
  {
    if HasId(s, t.id) then s
    else
      assert (s + [t])[|s|] == t;
      s + [t]
  }

  /** HashSet.remove: drops the element equal to t, that is, with t's id. */
  function SetRemove(s: seq<Todo>, t: Todo): (r: seq<Todo>)
    ensures !HasId(r, t.id)
  {
    Without(s, t.id)
  }

  /** Removing an id that no Todo carries changes nothing. */
  lemma {:induction false} WithoutAbsent(s: seq<Todo>, id: string)
    requires !HasId(s, id)
    ensures Without(s, id) == s
  {
    if s != [] {
      assert !HasId(s[1..], id) by {
        forall i | 0 <= i < |s[1..]| ensures s[1..][i].id != id {
          assert s[1..][i] == s[i + 1];
        }
      }
      WithoutAbsent(s[1..], id);
      assert s == [s[0]] + s[1..];
    }
  }

  lemma UniqueTail(s: seq<Todo>)
    requires UniqueIds(s) && s != []
    ensures UniqueIds(s[1..])
    ensures !HasId(s[1..], s[0].id)
  {
    forall i | 0 <= i < |s[1..]| ensures s[1..][i].id != s[0].id {
      assert s[1..][i] == s[i + 1];
    }
  }

  lemma HasIdCons(s: seq<Todo>, id: string)
    requires s != []
    ensures HasId(s, id) <==> s[0].id == id || HasId(s[1..], id)
  {
    if HasId(s, id) && s[0].id != id {
      var k :| 0 <= k < |s| && s[k].id == id;
      assert s[1..][k - 1] == s[k];
    }
    if HasId(s[1..], id) {
      var k :| 0 <= k < |s[1..]| && s[1..][k].id == id;
      assert s[k + 1] == s[1..][k];
    }
  }

  /** Putting a Todo with a new id before a store with unique ids keeps
      ids unique. */
  lemma ConsUnique(t: Todo, rest: seq<Todo>)
    requires UniqueIds(rest) && forall u :: u in rest ==> u.id != t.id
    ensures UniqueIds([t] + rest)
  {
    var r := [t] + rest;
    forall i, j | 0 <= i < j < |r| ensures r[i].id != r[j].id {
      assert r[j] == rest[j - 1];
      if i > 0 {
        assert r[i] == rest[i - 1];
      }
    }
  }

  /** Removing an id keeps ids unique. */
  lemma {:induction false} WithoutUnique(s: seq<Todo>, id: string)
    requires UniqueIds(s)
    ensures UniqueIds(Without(s, id))
  {
    if s != [] {
      UniqueTail(s);
      WithoutUnique(s[1..], id);
      if s[0].id != id {
        forall u | u in Without(s[1..], id) ensures u.id != s[0].id {
          var k :| 0 <= k < |s[1..]| && s[1..][k] == u;
        }
        ConsUnique(s[0], Without(s[1..], id));
      }
    }
  }

  /** In a store with unique ids, removing an id removes exactly one Todo
      when the id is present and none otherwise. */
  lemma {:induction false} WithoutSize(s: seq<Todo>, id: string)
    requires UniqueIds(s)
    ensures |Without(s, id)| == if HasId(s, id) then |s| - 1 else |s|
  {
    if s != [] {
      UniqueTail(s);
      WithoutSize(s[1..], id);
      HasIdCons(s, id);
      if s[0].id == id {
        WithoutAbsent(s[1..], id);
      }
    }
  }

  /** Appending a Todo whose id is absent keeps ids unique. */
  lemma AppendUnique(s: seq<Todo>, t: Todo)
    requires UniqueIds(s) && !HasId(s, t.id)
    ensures UniqueIds(s + [t])
  {
    var r := s + [t];
    forall i, j | 0 <= i < j < |r| ensures r[i].id != r[j].id {
      if j == |s| {
        assert r[i] == s[i];
      } else {
        assert r[i] == s[i] && r[j] == s[j];
      }
    }
  }

  /** Removing an id after appending a Todo with that id is removing it. */
  lemma {:induction false} WithoutAppendSame(s: seq<Todo>, t: Todo)
    ensures Without(s + [t], t.id) == Without(s, t.id)
  {
    if s == [] {
      assert [t][1..] == [];
    } else {
      assert (s + [t])[0] == s[0] && (s + [t])[1..] == s[1..] + [t];
      WithoutAppendSame(s[1..], t);
    }
  }

  /** Removing the same id twice is removing it once. */
  lemma WithoutTwice(s: seq<Todo>, id: string)
    ensures Without(Without(s, id), id) == Without(s, id)
  {
    WithoutAbsent(Without(s, id), id);
  }

  /** The new Todo an update builds from the stored one: it keeps the id,
      each field not supplied (null) is carried over and each supplied one
      replaces the old value; done is parsed leniently. */
  ghost predicate IsReplacement(next: Todo, prev: Todo, title: Option<string>,
                                description: Option<string>, isDoneString: Option<string>): (r: bool)
    reads next, prev
    ensures r ==> next.Equals(prev) && next.HashCode() == prev.HashCode()
  {
    && next.id == prev.id
    && next.title == (if title.None? then prev.title else title)
    && next.description == (if description.None? then prev.description else description)
    && next.isDone == (if isDoneString.None? then prev.isDone else ParseBoolean(isDoneString))
  }

  function Last(s: seq<Todo>): Todo
    requires s != []
  {
    s[|s| - 1]
  }

  class TodoRepository {
    var todoStore: seq<Todo>

    ghost predicate Valid()
      reads this
    {
      UniqueIds(todoStore)
    }

    constructor ()
      ensures Valid() && todoStore == []
    {
      todoStore := [];
    }

    /** getAll: a list holding exactly the stored Todos. */
    function GetAll(): (r: seq<Todo>)
      reads this
      ensures r == todoStore
    {
      todoStore
    }

    /** getById: the stored Todo with that id, or empty when none has it
        (always so for a null id). */
    function GetById(id: Option<string>): (r: Option<Todo>)
      reads this
      ensures r.None? <==> id.None? || !HasId(todoStore, id.value)
      ensures r.Some? ==> r.value in todoStore && r.value.id == id.value
      ensures Valid() ==> forall t :: t in todoStore && IdEquals(t, id) ==> r == Some(t)
    {
      FindById(todoStore, id)
    }

    /** insertTodo: refuses a Todo whose id is already stored. */
    method InsertTodo(todo: Todo) returns (inserted: bool)
      requires Valid()
      modifies this
      ensures Valid()
      ensures inserted <==> !HasId(old(todoStore), todo.id)
      ensures todoStore == if inserted then old(todoStore) + [todo] else old(todoStore)
    {
      var todoById := GetById(Some(todo.id));
      if todoById.Some? {
        return false;
      }
      AppendUnique(todoStore, todo);
      todoStore := SetAdd(todoStore, todo);
      return true;
    }

    /** updateTodo: replaces the stored Todo with that id by a new one
        built from it and the supplied fields. */
    method UpdateTodo(id: Option<string>, title: Option<string>, description: Option<string>,
                      isDoneString: Option<string>) returns (updated: bool)
      requires Valid()
      modifies this
      ensures Valid()
      ensures updated <==> id.Some? && HasId(old(todoStore), id.value)
      ensures !updated ==> todoStore == old(todoStore)
      ensures updated ==>
        && |todoStore| == |old(todoStore)|
        && todoStore == Without(old(todoStore), id.value) + [Last(todoStore)]
        && fresh(Last(todoStore))
        && IsReplacement(Last(todoStore), old(FindById(todoStore, id)).value,
                         title, description, isDoneString)
    {
      var todoById := GetById(id);
      if todoById.None? {
        return false;
      }
      var oldTodo := todoById.value;
      var newTodo := new Todo(id.value);
      var titleToSet := if title.None? then oldTodo.title else title;
      newTodo.SetTitle(titleToSet);
      var descriptionToSet := if description.None? then oldTodo.description else description;
      newTodo.SetDescription(descriptionToSet);
      var isDoneToSet := if isDoneString.None? then oldTodo.isDone else ParseBoolean(isDoneString);
      newTodo.SetDone(isDoneToSet);

      WithoutUnique(todoStore, id.value);
      WithoutSize(todoStore, id.value);
      todoStore := SetRemove(todoStore, oldTodo);
      AppendUnique(todoStore, newTodo);
      todoStore := SetAdd(todoStore, newTodo);
      return true;
    }

    /** deleteAllTodos: empties the store. */
    method DeleteAllTodos()
      modifies this
      ensures Valid() && todoStore == []
    {
      todoStore := [];
    }

    /** deleteTodoById: false when no Todo has the id; otherwise removes
        that Todo and nothing else. */
    method DeleteTodoById(id: Option<string>) returns (deleted: bool)
      requires Valid()
      modifies this
      ensures Valid()
      ensures deleted <==> id.Some? && HasId(old(todoStore), id.value)
      ensures todoStore == if deleted then Without(old(todoStore), id.value) else old(todoStore)
      ensures deleted ==> |todoStore| == |old(todoStore)| - 1
    {
      var todoById := GetById(id);
      if todoById.None? {
        return false;
      }
      WithoutUnique(todoStore, id.value);
      WithoutSize(todoStore, id.value);
      todoStore := SetRemove(todoStore, todoById.value);
      return true;
    }
  }

  /** After a successful update the id is stored exactly once, the store
      keeps its size, and every Todo with another id is untouched. */
  lemma UpdateKeepsOthers(before: seq<Todo>, after: seq<Todo>, next: Todo)
    requires UniqueIds(before) && HasId(before, next.id)
    requires after == Without(before, next.id) + [next]
    ensures UniqueIds(after) && HasId(after, next.id)
    ensures |after| == |before|
    ensures Without(after, next.id) == Without(before, next.id)
  {
    WithoutUnique(before, next.id);
    WithoutSize(before, next.id);
    AppendUnique(Without(before, next.id), next);
    WithoutAppendSame(Without(before, next.id), next);
    WithoutTwice(before, next.id);
    assert after[|after| - 1] == next;
  }
}
