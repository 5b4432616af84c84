/** The in-memory store of todos/session_persistence.py: lists of todos kept in a browser session. */
module SessionStore {
  import opened Types
  import opened Filtering
  import Utils

  /** The filter `lst['id'] != id` of delete_list. */
  function ListIdIsNot(id: Id): TodoList -> bool
  {
    (lst: TodoList) => lst.id != id
  }

  /** The filter `todo['id'] != todo_id` of delete_todo_from_list. */
  function TodoIdIsNot(id: Id): Todo -> bool
  {
    (todo: Todo) => todo.id != id
  }

  /** No two elements of `s` share an id. */
  predicate DistinctIds<T>(s: seq<T>, id: T -> Id)
  {
    forall i, j :: 0 <= i < j < |s| ==> id(s[i]) != id(s[j])
  }

  /** No two lists share an id, and within each list no two todos share an id:
      what minting every id with `uuid4()` guarantees. */
  predicate UniqueIds(lists: seq<TodoList>)
  {
    && DistinctIds(lists, ListId)
    && (forall i :: 0 <= i < |lists| ==> DistinctIds(lists[i].todos, TodoId))
  }

  /** The hosting framework's per-user session: the `'lists'` entry, absent until first set,
      and the `modified` flag that tells the framework to store the session again. */
  class Session {
    var lists: Option<seq<TodoList>>
    var modified: bool

    constructor (stored: Option<seq<TodoList>>)
      ensures lists == stored && !modified
    {
      lists := stored;
      modified := false;
    }
  }

  class SessionPersistence {
    const session: Session

    /** The store is usable once the session holds a `'lists'` entry. */
    ghost predicate Valid()
      reads session
    {
      session.lists.Some?
    }

    /** Creates the `'lists'` entry as an empty collection when the session has none. */
    constructor (session: Session)
      modifies session
      ensures this.session == session && Valid()
      ensures old(session.lists).Some? ==> session.lists == old(session.lists)
      ensures old(session.lists).None? ==> session.lists == Some([])
      ensures session.modified == old(session.modified)
    {
      this.session := session;
      new;
      if session.lists.None? {
        session.lists := Some([]);
      }
    }

    /** The collection of lists held by the session. */
    function AllLists(): (r: seq<TodoList>)
      reads session
      requires Valid()
      ensures Some(r) == session.lists
    {
      session.lists.value
    }

    /** The first list whose id is `listId`, or None when no list has that id. */
    function FindList(listId: Id): (r: Option<TodoList>)
      reads session
      requires Valid()
      ensures r.None? <==> forall i :: 0 <= i < |AllLists()| ==> AllLists()[i].id != listId
      ensures r.Some? ==> exists k :: 0 <= k < |AllLists()| && AllLists()[k] == r.value && r.value.id == listId &&
                                      forall j :: 0 <= j < k ==> AllLists()[j].id != listId
    {
      var k := IndexOfId(AllLists(), ListId, listId);
      if k < |AllLists()| then Some(AllLists()[k]) else None
    }

    /** Appends a new, empty list with the given title; `freshId` stands for `str(uuid4())`. */
    method CreateNewList(title: string, freshId: Id)
      requires Valid()
      requires forall i :: 0 <= i < |AllLists()| ==> AllLists()[i].id != freshId
      modifies session
      ensures Valid() && session.modified
      ensures AllLists() == old(AllLists()) + [TodoList(freshId, title, [])]
      ensures FindList(freshId) == Some(TodoList(freshId, title, []))
      ensures UniqueIds(old(AllLists())) ==> UniqueIds(AllLists())
    {
      var lists := session.lists.value;
      assert lists == AllLists();
      IndexOfIdAppended(lists, ListId, TodoList(freshId, title, []));
      session.lists := Some(lists + [TodoList(freshId, title, [])]);
      session.modified := true;
    }

    /** Renames the first list with id `id`; when there is none, nothing changes. */
    method UpdateListById(id: Id, newTitle: string)
      requires Valid()
      modifies session
      ensures Valid()
      ensures old(FindList(id)).None? ==>
                AllLists() == old(AllLists()) && session.modified == old(session.modified)
      ensures old(FindList(id)).Some? ==>
                var k := IndexOfId(old(AllLists()), ListId, id);
                && AllLists() == old(AllLists())[k := old(AllLists())[k].(title := newTitle)]
                && FindList(id) == Some(old(FindList(id)).value.(title := newTitle))
                && session.modified
      ensures UniqueIds(old(AllLists())) ==> UniqueIds(AllLists())
    {
      var lists := session.lists.value;
      var k := IndexOfId(lists, ListId, id);
      if k < |lists| {
        session.lists := Some(lists[k := lists[k].(title := newTitle)]);
        session.modified := true;
        assert IndexOfId(AllLists(), ListId, id) == k by {
          assert forall j :: 0 <= j <= k ==> AllLists()[j].id == lists[j].id;
        }
      }
    }

    /** Removes every list whose id is `id`, keeping the others in order. */
    method DeleteList(id: Id)
      requires Valid()
      modifies session
      ensures Valid() && session.modified
      ensures AllLists() == Filter(old(AllLists()), ListIdIsNot(id))
      ensures FindList(id).None?
      ensures UniqueIds(old(AllLists())) ==> UniqueIds(AllLists())
    {
      var lists := session.lists.value;
      session.lists := Some(Filter(lists, ListIdIsNot(id)));
      session.modified := true;
      if UniqueIds(lists) {
        FilterDistinct(lists, ListId, ListIdIsNot(id));
        forall i | 0 <= i < |AllLists()| ensures DistinctIds(AllLists()[i].todos, TodoId) {
          var a :| 0 <= a < |lists| && lists[a] == AllLists()[i];
        }
      }
    }

    /** Appends a new, incomplete todo to the list with id `listId`; `freshId` stands for `str(uuid4())`. */
    method CreateNewTodo(listId: Id, todoTitle: string, freshId: Id)
      requires Valid() && FindList(listId).Some?
      requires forall i :: 0 <= i < |FindList(listId).value.todos| ==> FindList(listId).value.todos[i].id != freshId
      modifies session
      ensures Valid() && session.modified
      ensures var k := IndexOfId(old(AllLists()), ListId, listId);
              var lst := old(AllLists())[k];
              AllLists() == old(AllLists())[k := lst.(todos := lst.todos + [Todo(freshId, todoTitle, false)])]
      ensures FindList(listId).Some?
      ensures Utils.FindTodoById(freshId, FindList(listId).value.todos) == Some(Todo(freshId, todoTitle, false))
      ensures UniqueIds(old(AllLists())) ==> UniqueIds(AllLists())
    {
      var lists := session.lists.value;
      var k := IndexOfId(lists, ListId, listId);
      var lst := lists[k];
      var newTodo := Todo(freshId, todoTitle, false);
      IndexOfIdReplaced(lists, ListId, listId, lst.(todos := lst.todos + [newTodo]));
      IndexOfIdAppended(lst.todos, TodoId, newTodo);
      session.lists := Some(lists[k := lst.(todos := lst.todos + [newTodo])]);
      session.modified := true;
      assert FindList(listId) == Some(lst.(todos := lst.todos + [newTodo]));
    }

    /** Removes every todo with id `todoId` from the list with id `listId`, keeping the others in order. */
    method DeleteTodoFromList(listId: Id, todoId: Id)
      requires Valid() && FindList(listId).Some?
      modifies session
      ensures Valid() && session.modified
      ensures var k := IndexOfId(old(AllLists()), ListId, listId);
              var lst := old(AllLists())[k];
              AllLists() == old(AllLists())[k := lst.(todos := Filter(lst.todos, TodoIdIsNot(todoId)))]
      ensures FindList(listId).Some? && Utils.FindTodoById(todoId, FindList(listId).value.todos).None?
      ensures UniqueIds(old(AllLists())) ==> UniqueIds(AllLists())
    {
      var lists := session.lists.value;
      var k := IndexOfId(lists, ListId, listId);
      var lst := lists[k];
      IndexOfIdReplaced(lists, ListId, listId, lst.(todos := Filter(lst.todos, TodoIdIsNot(todoId))));
      session.lists := Some(lists[k := lst.(todos := Filter(lst.todos, TodoIdIsNot(todoId)))]);
      session.modified := true;
      assert FindList(listId) == Some(lst.(todos := Filter(lst.todos, TodoIdIsNot(todoId))));
      if UniqueIds(lists) {
        FilterDistinct(lst.todos, TodoId, TodoIdIsNot(todoId));
      }
    }

    /** Sets the completion of the first todo with id `todoId` in the list with id `listId`. */
    method UpdateTodoStatus(listId: Id, todoId: Id, newStatus: bool)
      requires Valid() && FindList(listId).Some?
      requires Utils.FindTodoById(todoId, FindList(listId).value.todos).Some?
      modifies session
      ensures Valid() && session.modified
      ensures var k := IndexOfId(old(AllLists()), ListId, listId);
              var lst := old(AllLists())[k];
              var j := IndexOfId(lst.todos, TodoId, todoId);
              AllLists() == old(AllLists())[k := lst.(todos := lst.todos[j := lst.todos[j].(completed := newStatus)])]
      ensures FindList(listId).Some?
      ensures Utils.FindTodoById(todoId, FindList(listId).value.todos)
                == Some(old(Utils.FindTodoById(todoId, FindList(listId).value.todos)).value.(completed := newStatus))
      ensures UniqueIds(old(AllLists())) ==> UniqueIds(AllLists())
    {
      var lists := session.lists.value;
      var k := IndexOfId(lists, ListId, listId);
      var lst := lists[k];
      var j := IndexOfId(lst.todos, TodoId, todoId);
      var updated := lst.(todos := lst.todos[j := lst.todos[j].(completed := newStatus)]);
      IndexOfIdReplaced(lists, ListId, listId, updated);
      IndexOfIdReplaced(lst.todos, TodoId, todoId, lst.todos[j].(completed := newStatus));
      session.lists := Some(lists[k := updated]);
      session.modified := true;
      assert FindList(listId) == Some(updated);
    }

    /** Marks every todo of the list with id `listId` as completed, one todo at a time. */
    method MarkAllTodosCompleted(listId: Id)
      requires Valid() && FindList(listId).Some?
      modifies session
      ensures Valid() && session.modified
      ensures var k := IndexOfId(old(AllLists()), ListId, listId);
              && |AllLists()| == |old(AllLists())|
              && (forall m :: 0 <= m < |AllLists()| && m != k ==> AllLists()[m] == old(AllLists())[m])
              && AllLists()[k].id == old(AllLists())[k].id
              && AllLists()[k].title == old(AllLists())[k].title
              && |AllLists()[k].todos| == |old(AllLists())[k].todos|
              && (forall j :: 0 <= j < |AllLists()[k].todos| ==>
                    AllLists()[k].todos[j] == old(AllLists())[k].todos[j].(completed := true))
              && Utils.TodosRemaining(AllLists()[k]) == 0
      ensures FindList(listId).Some? && Utils.TodosRemaining(FindList(listId).value) == 0
      ensures UniqueIds(old(AllLists())) ==> UniqueIds(AllLists())
    {
      var k := IndexOfId(session.lists.value, ListId, listId);
      ghost var before := session.lists.value;
      var i := 0;
      while i < |session.lists.value[k].todos|
        invariant session.lists.Some? && |session.lists.value| == |before|
        invariant forall m :: 0 <= m < |before| && m != k ==> session.lists.value[m] == before[m]
        invariant session.lists.value[k].id == before[k].id && session.lists.value[k].title == before[k].title
        invariant |session.lists.value[k].todos| == |before[k].todos|
        invariant 0 <= i <= |before[k].todos|
        invariant forall j :: 0 <= j < i ==>
                    session.lists.value[k].todos[j] == before[k].todos[j].(completed := true)
        invariant forall j :: i <= j < |before[k].todos| ==> session.lists.value[k].todos[j] == before[k].todos[j]
        invariant session.modified == old(session.modified)
      {
        var lists := session.lists.value;
        var todos := lists[k].todos;
        session.lists := Some(lists[k := lists[k].(todos := todos[i := todos[i].(completed := true)])]);
        i := i + 1;
      }
      session.modified := true;
      UniqueIdsAfterMarking(before, AllLists(), k);
      IndexOfIdReplaced(before, ListId, listId, AllLists()[k]);
      assert AllLists() == before[k := AllLists()[k]];
    }
  }

  /** Create a list, add a todo, complete it: the list reads back with that one completed todo. */
  method GroceriesRoundTrip() returns (found: Option<TodoList>)
    ensures found == Some(TodoList("list-1", "Groceries", [Todo("todo-1", "Milk", true)]))
  {
    var session := new Session(None);
    var store := new SessionPersistence(session);
    store.CreateNewList("Groceries", "list-1");
    assert store.AllLists() == [TodoList("list-1", "Groceries", [])];
    assert IndexOfId(store.AllLists(), ListId, "list-1") == 0;
    store.CreateNewTodo("list-1", "Milk", "todo-1");
    assert |store.AllLists()| == 1;
    assert store.AllLists()[0].todos == [Todo("todo-1", "Milk", false)];
    assert store.AllLists()[0] == TodoList("list-1", "Groceries", [Todo("todo-1", "Milk", false)]);
    assert store.AllLists() == [TodoList("list-1", "Groceries", [Todo("todo-1", "Milk", false)])];
    assert IndexOfId(store.AllLists(), ListId, "list-1") == 0;
    assert IndexOfId(store.AllLists()[0].todos, TodoId, "todo-1") == 0;
    store.UpdateTodoStatus("list-1", "todo-1", true);
    assert store.AllLists()[0].todos == [Todo("todo-1", "Milk", true)];
    assert store.AllLists()[0] == TodoList("list-1", "Groceries", [Todo("todo-1", "Milk", true)]);
    assert store.AllLists() == [TodoList("list-1", "Groceries", [Todo("todo-1", "Milk", true)])];
    found := store.FindList("list-1");
  }

  /** Deleting a list takes its todos with it: nothing of it can be found afterwards. */
  method DeleteListWithTodos() returns (found: Option<TodoList>, remaining: seq<TodoList>)
    ensures found == None && remaining == []
  {
    var session := new Session(None);
    var store := new SessionPersistence(session);
    store.CreateNewList("Chores", "list-1");
    store.CreateNewTodo("list-1", "Dishes", "todo-1");
    store.CreateNewTodo("list-1", "Laundry", "todo-2");
    store.DeleteList("list-1");
    found := store.FindList("list-1");
    remaining := store.AllLists();
  }

  /** Adds a todo to a store that holds a single list. */
  method AddToSingleList(store: SessionPersistence, lst: TodoList, todoTitle: string, freshId: Id)
    requires store.Valid() && store.AllLists() == [lst]
    requires forall i :: 0 <= i < |lst.todos| ==> lst.todos[i].id != freshId
    modifies store.session
    ensures store.Valid() && store.AllLists() == [lst.(todos := lst.todos + [Todo(freshId, todoTitle, false)])]
  {
    assert IndexOfId(store.AllLists(), ListId, lst.id) == 0;
    store.CreateNewTodo(lst.id, todoTitle, freshId);
  }

  /** A new session holding list "Errands" with three incomplete todos. */
  method ErrandsStore() returns (store: SessionPersistence)
    ensures fresh(store) && fresh(store.session) && store.Valid()
    ensures store.AllLists() == [TodoList("list-1", "Errands",
              [Todo("todo-1", "Bank", false), Todo("todo-2", "Post", false), Todo("todo-3", "Shop", false)])]
  {
    var session := new Session(None);
    store := new SessionPersistence(session);
    store.CreateNewList("Errands", "list-1");
    var bank, post, shop := Todo("todo-1", "Bank", false), Todo("todo-2", "Post", false), Todo("todo-3", "Shop", false);
    assert [] + [bank] == [bank] && [bank] + [post] == [bank, post] && [bank, post] + [shop] == [bank, post, shop];
    AddToSingleList(store, TodoList("list-1", "Errands", []), "Bank", "todo-1");
    AddToSingleList(store, TodoList("list-1", "Errands", [bank]), "Post", "todo-2");
    AddToSingleList(store, TodoList("list-1", "Errands", [bank, post]), "Shop", "todo-3");
  }

  /** Marking all todos of a list with two incomplete todos and one complete one completes all three. */
  method MarkAllOfThree() returns (found: Option<TodoList>)
    ensures found.Some? && |found.value.todos| == 3
    ensures forall i :: 0 <= i < 3 ==> found.value.todos[i].completed
    ensures Utils.IsListCompleted(found.value)
  {
    var store := ErrandsStore();
    var todos := store.AllLists()[0].todos;
    assert IndexOfId(store.AllLists(), ListId, "list-1") == 0;
    assert IndexOfId(todos, TodoId, "todo-2") == 1 by {
      assert todos[1..][0].id == "todo-2";
    }
    store.UpdateTodoStatus("list-1", "todo-2", true);
    store.MarkAllTodosCompleted("list-1");
    found := store.FindList("list-1");
  }

  lemma DistinctTail<T>(s: seq<T>, id: T -> Id)
    requires s != [] && DistinctIds(s, id)
    ensures DistinctIds(s[1..], id)
    ensures forall m :: 1 <= m < |s| ==> id(s[0]) != id(s[m])
  {
    var t := s[1..];
    forall i, j | 0 <= i < j < |t| ensures id(t[i]) != id(t[j]) {
      assert t[i] == s[i + 1] && t[j] == s[j + 1];
    }
  }

  lemma DistinctCons<T>(x: T, s: seq<T>, id: T -> Id)
    requires DistinctIds(s, id)
    requires forall m :: 0 <= m < |s| ==> id(x) != id(s[m])
    ensures DistinctIds([x] + s, id)
  {
    var r := [x] + s;
    forall i, j | 0 <= i < j < |r| ensures id(r[i]) != id(r[j]) {
      assert r[j] == s[j - 1];
      if i > 0 {
        assert r[i] == s[i - 1];
      }
    }
  }

  /** Filtering keeps ids distinct. */
  lemma {:induction false} FilterDistinct<T>(s: seq<T>, id: T -> Id, p: T -> bool)
    requires DistinctIds(s, id)
    ensures DistinctIds(Filter(s, p), id)
  {
    if s != [] {
      var t := s[1..];
      assert s == [s[0]] + t;
      DistinctTail(s, id);
      FilterDistinct(t, id, p);
      FilterCons(s[0], t, p);
      var f := Filter(t, p);
      if p(s[0]) {
        forall m | 0 <= m < |f| ensures id(s[0]) != id(f[m]) {
          var b :| 0 <= b < |t| && t[b] == f[m];
          assert s[b + 1] == f[m];
        }
        DistinctCons(s[0], f, id);
      } else {
        assert Filter(s, p) == f;
      }
    }
  }

  lemma UniqueIdsAfterMarking(before: seq<TodoList>, after: seq<TodoList>, k: nat)
    requires k < |before| == |after|
    requires forall m :: 0 <= m < |before| && m != k ==> after[m] == before[m]
    requires after[k].id == before[k].id && |after[k].todos| == |before[k].todos|
    requires forall j :: 0 <= j < |after[k].todos| ==> after[k].todos[j].id == before[k].todos[j].id
    ensures UniqueIds(before) ==> UniqueIds(after)
  {
  }
}
