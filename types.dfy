/** The records that the helpers and the session store share. */
module Types {

  datatype Option<+T> = None | Some(value: T)

  /** An identifier: the session store uses the text of a random UUID. */
  type Id = string

  /** One todo item, the dict with keys 'id', 'title' and 'completed'. */
  datatype Todo = Todo(id: Id, title: string, completed: bool)

  /** One list, the dict with keys 'id', 'title' and 'todos'. */
  datatype TodoList = TodoList(id: Id, title: string, todos: seq<Todo>)

  function TodoId(todo: Todo): Id { todo.id }

  function ListId(lst: TodoList): Id { lst.id }

  /** The position of the first element of `s` whose id is `target`, or `|s|` when there is none:
      the search behind `next(x for x in s if x['id'] == target)`. */
  function IndexOfId<T>(s: seq<T>, id: T -> Id, target: Id): (k: nat)
    ensures k <= |s|
    ensures k < |s| ==> id(s[k]) == target
    ensures forall j :: 0 <= j < k ==> id(s[j]) != target
    decreases |s|
  {
    if s == [] then 0
    else if id(s[0]) == target then 0
    else 1 + IndexOfId(s[1..], id, target)
  }

  /** An element appended under an id that no element has is found at the end. */
  lemma IndexOfIdAppended<T>(s: seq<T>, id: T -> Id, x: T)
    requires forall i :: 0 <= i < |s| ==> id(s[i]) != id(x)
    ensures IndexOfId(s + [x], id, id(x)) == |s|
  {
    var r := s + [x];
    assert r[|s|] == x;
    assert forall i :: 0 <= i < |s| ==> r[i] == s[i];
  }

  /** Replacing the first element with an id by another element with the same id leaves it first. */
  lemma IndexOfIdReplaced<T>(s: seq<T>, id: T -> Id, target: Id, x: T)
    requires IndexOfId(s, id, target) < |s| && id(x) == target
    ensures IndexOfId(s[IndexOfId(s, id, target) := x], id, target) == IndexOfId(s, id, target)
  {
    var k := IndexOfId(s, id, target);
    var r := s[k := x];
    assert r[k] == x;
    assert forall j :: 0 <= j < k ==> r[j] == s[j];
  }
}
