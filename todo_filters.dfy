/**
 * The two views both services derive from the list that get-all returns:
 * getPendingTodos keeps the Todos that are not done, getCompletedTodos the
 * ones that are, each by a stream filter that keeps the list's order.
 */
module TodoFilters {
  import opened TodoModel

  /** stream().filter(todo -> todo.isDone() == done).collect(toList()) */
  function WithDone(s: seq<Todo>, done: bool): (r: seq<Todo>)
    reads s
    ensures forall t :: t in r ==> t in s && t.isDone == done
    ensures forall t :: t in s && t.isDone == done ==> t in r
    ensures |r| <= |s|
  {
    if s == [] then []
    else (if s[0].isDone == done then [s[0]] else []) + WithDone(s[1..], done)
  }

  /** s is a merge of a and b: both are kept in s's order, and every
      position of s is taken from exactly one of them. */
  ghost predicate Interleaving<T>(s: seq<T>, a: seq<T>, b: seq<T>)
  {
    if s == [] then a == [] && b == []
    else
      (a != [] && a[0] == s[0] && Interleaving(s[1..], a[1..], b)) ||
      (b != [] && b[0] == s[0] && Interleaving(s[1..], a, b[1..]))
  }

  /** An interleaving loses nothing and duplicates nothing. */
  lemma {:induction false} InterleavingMultiset<T>(s: seq<T>, a: seq<T>, b: seq<T>)
    requires Interleaving(s, a, b)
    ensures multiset(s) == multiset(a) + multiset(b)
    ensures |s| == |a| + |b|
  {
    if s != [] {
      assert s == [s[0]] + s[1..];
      if a != [] && a[0] == s[0] && Interleaving(s[1..], a[1..], b) {
        InterleavingMultiset(s[1..], a[1..], b);
        assert a == [a[0]] + a[1..];
      } else {
        InterleavingMultiset(s[1..], a, b[1..]);
        assert b == [b[0]] + b[1..];
      }
    }
  }

  /** The pending and the completed views partition the list: the list is
      a merge of the two, each in the list's relative order, and no Todo
      is in both. */
  lemma {:induction false} ViewsPartition(s: seq<Todo>)
    ensures Interleaving(s, WithDone(s, false), WithDone(s, true))
    ensures multiset(s) == multiset(WithDone(s, false)) + multiset(WithDone(s, true))
    ensures forall t :: !(t in WithDone(s, false) && t in WithDone(s, true))
  {
    if s != [] {
      ViewsPartition(s[1..]);
      assert WithDone(s, !s[0].isDone) == WithDone(s[1..], !s[0].isDone);
      assert WithDone(s, s[0].isDone) == [s[0]] + WithDone(s[1..], s[0].isDone);
    }
    InterleavingMultiset(s, WithDone(s, false), WithDone(s, true));
  }

  /** A list whose Todos all carry the flag passes the filter unchanged. */
  lemma {:induction false} WithDoneKeepsAll(s: seq<Todo>, done: bool)
    requires forall i :: 0 <= i < |s| ==> s[i].isDone == done
    ensures WithDone(s, done) == s
  {
    if s != [] {
      WithDoneKeepsAll(s[1..], done);
      assert s == [s[0]] + s[1..];
    }
  }

  /** Filtering twice by the same flag is filtering once. */
  lemma WithDoneIdempotent(s: seq<Todo>, done: bool)
    ensures WithDone(WithDone(s, done), done) == WithDone(s, done)
  {
    WithDoneFlags(s, done);
    WithDoneKeepsAll(WithDone(s, done), done);
  }

  /** Every Todo of a filtered view carries the flag it was filtered for. */
  lemma WithDoneFlags(s: seq<Todo>, done: bool)
    ensures forall i :: 0 <= i < |WithDone(s, done)| ==> WithDone(s, done)[i].isDone == done
  {
    var r := WithDone(s, done);
    assert forall i :: 0 <= i < |r| ==> r[i] in r;
  }

  /** A list with no completed Todo is all pending; so once
      deleteCompletedTodos has run, running it again finds nothing to delete
      and leaves the store as it is. */
  lemma NoneCompletedAllPending(s: seq<Todo>)
    requires WithDone(s, true) == []
    ensures WithDone(s, false) == s
  {
    assert forall i :: 0 <= i < |s| ==> s[i] in s;
    WithDoneKeepsAll(s, false);
  }
}
