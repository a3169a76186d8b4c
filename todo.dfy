/**
 * The Todo entity: an id fixed when the object is built, and a title, a
 * description and a done flag that setters change in place. Identity
 * (equals and hashCode) is the id alone, which is what lets a set of Todos
 * act as a collection keyed by id.
 */
module TodoModel {
  import opened JavaLang

  class Todo {
    /** `const`: there is no setter, so the id can never change. */
    const id: string
    var title: Option<string>
    var description: Option<string>
    var isDone: bool

    /** Todo(id): the other fields take Java's defaults (null, null, false). */
    constructor (id: string)
      ensures this.id == id
      ensures title == None && description == None && !isDone
    {
      this.id := id;
      title := None;
      description := None;
      isDone := false;
    }

    method SetTitle(title: Option<string>)
      modifies this
      ensures this.title == title
      ensures description == old(description) && isDone == old(isDone)
    {
      this.title := title;
    }

    method SetDescription(description: Option<string>)
      modifies this
      ensures this.description == description
      ensures title == old(title) && isDone == old(isDone)
    {
      this.description := description;
    }

    method SetDone(done: bool)
      modifies this
      ensures isDone == done
      ensures title == old(title) && description == old(description)
    {
      isDone := done;
    }

    /** equals(Object): null is never equal, the object itself always is,
        an object of another class never is, and otherwise the ids decide. */
    predicate Equals(obj: object?)
      ensures Equals(obj) <==> obj != null && obj is Todo && (obj as Todo).id == id
      ensures obj == this ==> Equals(obj)
    {
      if obj == null then false
      else if obj == this then true
      else if !(obj is Todo) then false
      else id == (obj as Todo).id
    }

    /** hashCode(): the hash of the id, Java's String.hashCode. */
    function HashCode(): (r: int32)
      ensures Congruent(r as int, PolynomialHash(CodeUnits(id)))
    {
      StringHashCode(id)
    }
  }

  /** Two Todos with the same id are equal whatever their other fields,
      and Todos with different ids are not. */
  lemma EqualsIsIdEquality(a: Todo, b: Todo)
    ensures a.Equals(b) <==> a.id == b.id
  {
  }

  /** equals is an equivalence relation on Todos. */
  lemma EqualsIsEquivalence(a: Todo, b: Todo, c: Todo)
    ensures a.Equals(a)
    ensures a.Equals(b) ==> b.Equals(a)
    ensures a.Equals(b) && b.Equals(c) ==> a.Equals(c)
  {
  }

  /** Equal objects have equal hash codes, as the contract of
      Object.hashCode demands. */
  lemma EqualTodosHashAlike(a: Todo, obj: object?)
    requires a.Equals(obj)
    ensures obj is Todo && a.HashCode() == (obj as Todo).HashCode()
  {
  }
}
