/** The pure helpers of todos/utils.py: title validation, lookup, completion and ordering. */
module Utils {
  import opened Types
  import opened Text
  import opened Filtering
  import opened Sorting

  const UniqueTitleMessage: string := "The title must be unique."
  const ListTitleLengthMessage: string := "The title must be between 1 and 100 characters"
  const TodoTitleLengthMessage: string := "Todo title must be between 1 and 100 characters"

  /** A title of an acceptable length: 1 to 100 characters. */
  predicate ValidTitleLength(title: string)
  {
    1 <= |title| <= 100
  }

  /** `any(lst['title'] == title for lst in lists)`. */
  function AnyListTitled(lists: seq<TodoList>, title: string): (b: bool)
    ensures b <==> exists i :: 0 <= i < |lists| && lists[i].title == title
    decreases |lists|
  {
    if lists == [] then false
    else lists[0].title == title || AnyListTitled(lists[1..], title)
  }

  /** The error for a proposed list title: a duplicate title is reported first, then a bad length. */
  function ErrorForListTitle(title: string, lists: seq<TodoList>): (r: Option<string>)
    ensures (exists i :: 0 <= i < |lists| && lists[i].title == title) ==> r == Some(UniqueTitleMessage)
    ensures r == Some(ListTitleLengthMessage) <==>
              (forall i :: 0 <= i < |lists| ==> lists[i].title != title) && !(1 <= |title| <= 100)
    ensures r == None <==> (forall i :: 0 <= i < |lists| ==> lists[i].title != title) && 1 <= |title| <= 100
  {
    if AnyListTitled(lists, title) then Some(UniqueTitleMessage)
    else if !ValidTitleLength(title) then Some(ListTitleLengthMessage)
    else None
  }

  /** The error for a proposed todo title: only its length is checked. */
  function ErrorForTodo(title: string): (r: Option<string>)
    ensures r == None <==> 1 <= |title| <= 100
    ensures r != None ==> r == Some(TodoTitleLengthMessage)
  {
    if !ValidTitleLength(title) then Some(TodoTitleLengthMessage) else None
  }

  /** The first todo whose id is `todoId`, or None when no todo has that id. */
  function FindTodoById(todoId: Id, todos: seq<Todo>): (r: Option<Todo>)
    ensures r.None? <==> forall i :: 0 <= i < |todos| ==> todos[i].id != todoId
    ensures r.Some? ==> exists k :: 0 <= k < |todos| && todos[k] == r.value && r.value.id == todoId &&
                                    forall j :: 0 <= j < k ==> todos[j].id != todoId
  {
    var k := IndexOfId(todos, TodoId, todoId);
    if k < |todos| then Some(todos[k]) else None
  }

  /** `todo['completed']`, the selector used to order the todos of a list. */
  function IsTodoCompleted(todo: Todo): (b: bool)
    ensures b <==> todo.completed
  {
    todo.completed
  }

  /** The number of incomplete todos in a sequence. */
  function CountIncomplete(todos: seq<Todo>): (n: nat)
    ensures n <= |todos|
    ensures n == 0 <==> forall i :: 0 <= i < |todos| ==> todos[i].completed
    ensures n == |todos| <==> forall i :: 0 <= i < |todos| ==> !todos[i].completed
    decreases |todos|
  {
    if todos == [] then 0
    else (if todos[0].completed then 0 else 1) + CountIncomplete(todos[1..])
  }

  /** The number of todos of a list that are not completed. */
  function TodosRemaining(lst: TodoList): (n: nat)
    ensures n <= |lst.todos|
    ensures n == 0 <==> forall i :: 0 <= i < |lst.todos| ==> lst.todos[i].completed
  {
    CountIncomplete(lst.todos)
  }

  /** The remaining count is the number of incomplete todos that the ordering's first group keeps. */
  lemma {:induction false} TodosRemainingIsIncompleteGroup(todos: seq<Todo>)
    ensures CountIncomplete(todos) == |Filter(todos, Not(IsTodoCompleted))|
  {
    if todos != [] {
      TodosRemainingIsIncompleteGroup(todos[1..]);
      assert todos == [todos[0]] + todos[1..];
      FilterCons(todos[0], todos[1..], Not(IsTodoCompleted));
    }
  }

  /** A list is completed when it has at least one todo and none of its todos remains. */
  function IsListCompleted(lst: TodoList): (b: bool)
    ensures b <==> |lst.todos| > 0 && forall i :: 0 <= i < |lst.todos| ==> lst.todos[i].completed
  {
    |lst.todos| > 0 && TodosRemaining(lst) == 0
  }

  /** Marks every todo of a list as completed, one todo at a time. */
  method MarkAllCompleted(lst: TodoList) returns (marked: TodoList)
    ensures marked.id == lst.id && marked.title == lst.title
    ensures |marked.todos| == |lst.todos|
    ensures forall i :: 0 <= i < |lst.todos| ==>
              marked.todos[i] == lst.todos[i].(completed := true)
    ensures TodosRemaining(marked) == 0
    ensures IsListCompleted(marked) <==> |lst.todos| > 0
  {
    var todos := lst.todos;
    var i := 0;
    while i < |todos|
      invariant 0 <= i <= |todos| == |lst.todos|
      invariant forall j :: 0 <= j < i ==> todos[j] == lst.todos[j].(completed := true)
      invariant forall j :: i <= j < |todos| ==> todos[j] == lst.todos[j]
    {
      todos := todos[i := todos[i].(completed := true)];
      i := i + 1;
    }
    marked := lst.(todos := todos);
  }

  /** The sort key of an item: its title, lower-cased. */
  function SortKey<T>(title: T -> string): T -> string
  {
    item => Lower(title(item))
  }

  /** Sorts by lower-cased title, then puts the incomplete items before the complete ones. */
  function SortItems<T>(items: seq<T>, title: T -> string, selectCompleted: T -> bool): (r: seq<T>)
    ensures multiset(r) == multiset(items)
    ensures |r| == |items|
  {
    var sorted := StableSort(items, SortKey(title));
    FilterSplit(sorted, selectCompleted);
    Filter(sorted, Not(selectCompleted)) + Filter(sorted, selectCompleted)
  }

  /** The sorted items hold as many incomplete items as the input does. */
  lemma SortItemsFirstGroupSize<T>(items: seq<T>, title: T -> string, selectCompleted: T -> bool)
    ensures |Filter(StableSort(items, SortKey(title)), Not(selectCompleted))| == |Filter(items, Not(selectCompleted))|
  {
    var f := Filter(items, Not(selectCompleted));
    FilterStableSort(items, SortKey(title), Not(selectCompleted));
    assert |multiset(StableSort(f, SortKey(title)))| == |multiset(f)|;
  }

  /** The first group holds exactly as many items as the input has incomplete ones; they are all
      incomplete and every later item is complete, so no complete item precedes an incomplete one. */
  lemma SortItemsPartitioned<T>(items: seq<T>, title: T -> string, selectCompleted: T -> bool)
    ensures var r := SortItems(items, title, selectCompleted);
            var n := |Filter(items, Not(selectCompleted))|;
            && n <= |r|
            && (forall i :: 0 <= i < n ==> !selectCompleted(r[i]))
            && (forall i :: n <= i < |r| ==> selectCompleted(r[i]))
    ensures var r := SortItems(items, title, selectCompleted);
            forall i, j :: 0 <= i < j < |r| && selectCompleted(r[i]) ==> selectCompleted(r[j])
  {
    SortItemsFirstGroupSize(items, title, selectCompleted);
    var sorted := StableSort(items, SortKey(title));
    SplitOrdered(sorted, selectCompleted);
    var r := SortItems(items, title, selectCompleted);
    forall i, j | 0 <= i < j < |r| && selectCompleted(r[i])
      ensures selectCompleted(r[j])
    {
      assert |Filter(sorted, Not(selectCompleted))| <= i;
    }
  }

  /** `todo['title']`, the title a list's todos are ordered by. */
  function TodoTitle(todo: Todo): string { todo.title }

  /** Ordering a list's todos puts exactly `todos_remaining` of them first, all incomplete,
      and every todo after them is completed. */
  lemma TodosRemainingIsFirstGroup(todos: seq<Todo>)
    ensures var r := SortItems(todos, TodoTitle, IsTodoCompleted);
            var n := CountIncomplete(todos);
            && n <= |r|
            && (forall i :: 0 <= i < n ==> !r[i].completed)
            && (forall i :: n <= i < |r| ==> r[i].completed)
  {
    TodosRemainingIsIncompleteGroup(todos);
    SortItemsPartitioned(todos, TodoTitle, IsTodoCompleted);
  }

  /** Each of the two groups of the ordering is itself in ascending key order. */
  lemma SortItemsEachGroupSorted<T>(items: seq<T>, title: T -> string, selectCompleted: T -> bool)
    ensures var r := SortItems(items, title, selectCompleted);
            var n := |Filter(items, Not(selectCompleted))|;
            && (forall i, j :: 0 <= i < j < n ==> LexLe(SortKey(title)(r[i]), SortKey(title)(r[j])))
            && (forall i, j :: n <= i < j < |r| ==> LexLe(SortKey(title)(r[i]), SortKey(title)(r[j])))
  {
    var key := SortKey(title);
    var sorted := StableSort(items, key);
    SortItemsFirstGroupSize(items, title, selectCompleted);
    StableSortSorted(items, key);
    FilterSorted(sorted, Not(selectCompleted), key);
    FilterSorted(sorted, selectCompleted, key);
    SortedHalves(Filter(sorted, Not(selectCompleted)), Filter(sorted, selectCompleted), key);
  }

  /** Within the incomplete group and within the complete group, lower-cased titles ascend. */
  lemma SortItemsGroupsSorted<T>(items: seq<T>, title: T -> string, selectCompleted: T -> bool)
    ensures var r := SortItems(items, title, selectCompleted);
            forall i, j :: 0 <= i < j < |r| && selectCompleted(r[i]) == selectCompleted(r[j]) ==>
              LexLe(Lower(title(r[i])), Lower(title(r[j])))
  {
    var r := SortItems(items, title, selectCompleted);
    var n := |Filter(items, Not(selectCompleted))|;
    SortItemsPartitioned(items, title, selectCompleted);
    SortItemsEachGroupSorted(items, title, selectCompleted);
    forall i, j | 0 <= i < j < |r| && selectCompleted(r[i]) == selectCompleted(r[j])
      ensures LexLe(Lower(title(r[i])), Lower(title(r[j])))
    {
      assert LexLe(SortKey(title)(r[i]), SortKey(title)(r[j]));
    }
  }

  /** Filtering the ordered items splits the filtered input into its incomplete and complete parts. */
  lemma FilterSortItems<T>(items: seq<T>, title: T -> string, selectCompleted: T -> bool, p: T -> bool)
    requires forall i, j :: 0 <= i < |items| && 0 <= j < |items| && p(items[i]) && p(items[j]) ==>
               Lower(title(items[i])) == Lower(title(items[j]))
    ensures var g := Filter(items, p);
            Filter(SortItems(items, title, selectCompleted), p) == Filter(g, Not(selectCompleted)) + Filter(g, selectCompleted)
  {
    var key := SortKey(title);
    var sorted := StableSort(items, key);
    FilterConcat(Filter(sorted, Not(selectCompleted)), Filter(sorted, selectCompleted), p);
    StableSortKeepsTies(items, key, p);
    FilterCommute(sorted, Not(selectCompleted), p);
    FilterCommute(sorted, selectCompleted, p);
  }

  /** Items that agree on lower-cased title and on completion keep their input order. */
  lemma SortItemsStable<T>(items: seq<T>, title: T -> string, selectCompleted: T -> bool, p: T -> bool)
    requires forall i, j :: 0 <= i < |items| && 0 <= j < |items| && p(items[i]) && p(items[j]) ==>
               Lower(title(items[i])) == Lower(title(items[j])) &&
               selectCompleted(items[i]) == selectCompleted(items[j])
    ensures Filter(SortItems(items, title, selectCompleted), p) == Filter(items, p)
  {
    FilterSortItems(items, title, selectCompleted, p);
    var g := Filter(items, p);
    forall k | 0 <= k < |g|
      ensures selectCompleted(g[k]) == selectCompleted(g[0])
    {
      var a :| 0 <= a < |items| && items[a] == g[k];
      var b :| 0 <= b < |items| && items[b] == g[0];
    }
    FilterSplitUniform(g, selectCompleted);
  }

  /** Ordering an already ordered sequence changes nothing. */
  lemma SortItemsIdempotent<T>(items: seq<T>, title: T -> string, selectCompleted: T -> bool)
    ensures SortItems(SortItems(items, title, selectCompleted), title, selectCompleted) ==
            SortItems(items, title, selectCompleted)
  {
    var key := SortKey(title);
    var sorted := StableSort(items, key);
    var incomplete := Filter(sorted, Not(selectCompleted));
    var complete := Filter(sorted, selectCompleted);
    var r := incomplete + complete;
    assert r == SortItems(items, title, selectCompleted);
    StableSortSorted(items, key);
    FilterSorted(sorted, Not(selectCompleted), key);
    FilterSorted(sorted, selectCompleted, key);
    FilterStableSort(r, key, Not(selectCompleted));
    FilterStableSort(r, key, selectCompleted);
    FilterConcat(incomplete, complete, Not(selectCompleted));
    FilterConcat(incomplete, complete, selectCompleted);
    FilterKeepsAll(incomplete, Not(selectCompleted));
    FilterDropsAll(complete, Not(selectCompleted));
    FilterDropsAll(incomplete, selectCompleted);
    FilterKeepsAll(complete, selectCompleted);
    assert incomplete + [] == incomplete;
    assert [] + complete == complete;
    StableSortOfSorted(incomplete, key);
    StableSortOfSorted(complete, key);
  }
}
