# Todo lists: helpers and session store, in Dafny

This project models the core of a multi-list todo manager. Users create named lists, add todos
to a list, complete or delete them, and view lists and todos ordered by completion. Two parts
of the program hold its logic, and both are modelled here:

- `todos/utils.py`, the pure helpers. They validate list and todo titles, find a todo by id,
  count the todos that remain and decide when a list is completed. They also mark every todo of
  a list completed and order items: incomplete items first, complete ones last, each group by
  lower-cased title.
- `todos/session_persistence.py`, the store that keeps all lists in the user's browser session.
  It finds, creates, renames and deletes lists. It also creates, deletes and completes todos
  within a list. Every change raises the session's `modified` flag.

Files:

- `types.dfy` (module `Types`): the `Todo` and `TodoList` records, `Option`, and the search for the first element with a given id.
- `filtering.dfy` (module `Filtering`): `Filter`, the list comprehension `[x for x in s if p(x)]`, and its algebra.
- `text.dfy` (module `Text`): ASCII lower-casing and Python's order on strings (`LexLe`), which is
  reflexive, total, transitive and antisymmetric.
- `sorting.dfy` (module `Sorting`): `StableSort`, the behaviour of `sorted(s, key=...)`. It is
  written as an insertion sort. The file proves the sort sorted, a permutation, the identity on
  sorted input, and commuting with every filter. That last fact is what "stable" means.
- `utils.dfy` (module `Utils`): the helpers of `todos/utils.py`.
- `session_persistence.dfy` (module `SessionStore`): the classes `Session` and
  `SessionPersistence`. `Session` stands for the framework's session: its `'lists'` entry and
  its `modified` flag. `SessionPersistence` holds the operations. The file also has three client
  scenarios built only from the operations' contracts.

The store's methods change the session in place (`modifies session`). Each method's
postcondition gives the whole new collection of lists as a function of the old one. It also
says whether `modified` is raised, and that unique ids stay unique.

## Model

| member | source | states |
|---|---|---|
| `Utils.AnyListTitled` | todos/utils.py:4 | true exactly when some list has exactly this title |
| `Utils.ErrorForListTitle` | todos/utils.py:3-9 | a duplicate title yields the uniqueness message even when the length is also bad; otherwise a length outside 1..100 yields the length message; no error exactly when no list has the title and 1 <= length <= 100 |
| `Utils.ErrorForTodo` | todos/utils.py:11-15 | no error exactly when 1 <= length <= 100; otherwise the todo length message |
| `Types.IndexOfId` | todos/utils.py:17-18 | the position of the first element with the id, or the length when none has it; the same search finds lists in `find_list` |
| `Types.IndexOfIdAppended` | todos/session_persistence.py:16-23 | an element appended under an id that no element has is found at the end, so a new list or todo is found by its id |
| `Types.IndexOfIdReplaced` | todos/session_persistence.py:25-29 | replacing the first element with an id by one with the same id leaves it first, so an updated list or todo is still found by its id |
| `Utils.FindTodoById` | todos/utils.py:17-18 | None exactly when no todo has the id; otherwise the first todo with that id |
| `Utils.IsTodoCompleted` | todos/utils.py:23-24 | a todo is completed exactly when its `completed` flag is set |
| `Utils.CountIncomplete` | todos/utils.py:42-43 | at most the number of todos; 0 exactly when all are completed; the full length exactly when none is |
| `Utils.TodosRemaining` | todos/utils.py:42-43 | between 0 and the number of todos of the list, and 0 exactly when every todo is completed |
| `Utils.TodosRemainingIsIncompleteGroup` | todos/utils.py:42-43 | the remaining count equals the number of todos that the incomplete filter `not todo['completed']` keeps |
| `Utils.TodosRemainingIsFirstGroup` | todos/utils.py:32-43 | ordering a list's todos puts exactly the remaining count of them first, all incomplete, and every todo after them is completed |
| `Utils.IsListCompleted` | todos/utils.py:20-21 | true exactly when the list has at least one todo and every todo is completed |
| `Utils.MarkAllCompleted` | todos/utils.py:26-30 | every todo becomes completed, with its id and title unchanged; the list keeps its id, title and number of todos; afterwards no todo remains, and the list counts as completed exactly when it has todos |
| `Utils.SortItems` | todos/utils.py:32-40 | the result is a permutation of the input |
| `Utils.SortItemsFirstGroupSize` | todos/utils.py:33-36 | the sorted items hold as many incomplete items as the input, so the first group's size is the input's incomplete count |
| `Utils.SortItemsPartitioned` | todos/utils.py:35-40 | the first n items are incomplete and all later ones complete, n being the number of incomplete items of the input; so no complete item comes before an incomplete one |
| `Utils.SortItemsEachGroupSorted` | todos/utils.py:33-40 | the first n items, n being the number of incomplete items of the input, ascend by lower-cased title, and so do the items after them |
| `Utils.SortItemsGroupsSorted` | todos/utils.py:33-40 | any two items with the same completion appear in ascending order of lower-cased title |
| `Utils.SortItemsStable` | todos/utils.py:33-40 | items that share both lower-cased title and completion keep their input order |
| `Utils.SortItemsIdempotent` | todos/utils.py:32-40 | ordering an ordered sequence again changes nothing |
| `Text.Lower` | todos/utils.py:33 | same length; each upper-case ASCII letter becomes its lower-case letter and every other character is kept |
| `Text.LowerEqualIgnoringCase` | todos/utils.py:33 | two titles get the same key exactly when they differ only in the case of ASCII letters |
| `Text.LexLeTotal` | todos/utils.py:33 | any two keys are comparable |
| `Text.LexLeTransitive` | todos/utils.py:33 | the order on keys is transitive |
| `Text.LexLeAntisymmetric` | todos/utils.py:33 | two keys that are each at most the other are equal |
| `Sorting.StableSort` | todos/utils.py:33 | `sorted` returns a permutation of its input |
| `Sorting.StableSortSorted` | todos/utils.py:33 | `sorted` returns its items in ascending key order |
| `Sorting.StableSortOfSorted` | todos/utils.py:33 | sorting input that is already in key order returns it unchanged |
| `Sorting.FilterStableSort` | todos/utils.py:33-38 | filtering the sorted items equals sorting the filtered items |
| `Sorting.StableSortKeepsTies` | todos/utils.py:33 | items with equal keys keep their input order |
| `Filtering.Filter` | todos/utils.py:35-38 | the result holds exactly the input elements that pass the test, and is no longer than the input |
| `Filtering.FilterSplit` | todos/utils.py:35-40 | the two groups of a split together hold every item exactly once |
| `Filtering.SplitOrdered` | todos/utils.py:35-40 | in the failing elements followed by the passing ones, every failing element comes first and every passing one after |
| `Filtering.FilterCommute` | todos/utils.py:35-38 | two filters may be applied in either order |
| `SessionStore.SessionPersistence.constructor` | todos/session_persistence.py:4-7 | an absent `'lists'` entry becomes an empty collection; an existing one is left as it is; `modified` is untouched |
| `SessionStore.SessionPersistence.FindList` | todos/session_persistence.py:9-11 | None exactly when no list has the id; otherwise the first list with that id |
| `SessionStore.SessionPersistence.AllLists` | todos/session_persistence.py:13-14 | the collection stored under the session's `'lists'` entry |
| `SessionStore.SessionPersistence.CreateNewList` | todos/session_persistence.py:16-23 | exactly one list, with the title, no todos and the fresh id, is appended; earlier lists are unchanged; the new list is found by its id; `modified` is set; unique ids stay unique |
| `SessionStore.SessionPersistence.UpdateListById` | todos/session_persistence.py:25-29 | with the id present, only that list's title changes and `modified` is set; with it absent, nothing changes and `modified` keeps its value |
| `SessionStore.SessionPersistence.DeleteList` | todos/session_persistence.py:31-33 | every list with the id is removed and the rest keep their order; the id is no longer found; `modified` is set even when nothing was removed |
| `SessionStore.SessionPersistence.CreateNewTodo` | todos/session_persistence.py:35-42 | the list must exist; one incomplete todo with the fresh id is appended to its todos; other lists are unchanged; looking the new todo up by its id in that list returns it; `modified` is set |
| `SessionStore.SessionPersistence.DeleteTodoFromList` | todos/session_persistence.py:44-47 | the list must exist; exactly the todos with the id are removed from it and the others keep their order; other lists are unchanged; the todo id is no longer found in the list; `modified` is set |
| `SessionStore.SessionPersistence.UpdateTodoStatus` | todos/session_persistence.py:49-53 | the list and the todo must exist; only the first todo with the id gets the new status; everything else is unchanged; looking the todo up again returns the old todo with the new status; `modified` is set |
| `SessionStore.SessionPersistence.MarkAllTodosCompleted` | todos/session_persistence.py:55-59 | the list must exist; each of its todos becomes completed with id and title unchanged; other lists are unchanged; the list looked up again has no todo remaining; `modified` is set |
| `SessionStore.FilterDistinct` | todos/session_persistence.py:31-33 | removing lists, or todos, never makes two ids equal |
| `SessionStore.GroceriesRoundTrip` | todos/session_persistence.py:16-53 | creating list "Groceries", adding todo "Milk" and completing it reads back as that list with exactly that one completed todo |
| `SessionStore.DeleteListWithTodos` | todos/session_persistence.py:16-42 | after a list with two todos is deleted, the list is not found and no list, and so no todo, remains |
| `SessionStore.MarkAllOfThree` | todos/session_persistence.py:35-59 | marking all todos of a list with two incomplete todos and one complete one leaves all three completed, and the list completed |

## Left out

- `uuid4()`: each creating operation takes the new id as a parameter (`freshId`). It must differ
  from the ids already in use: among the lists for a new list, and among the target list's todos
  for a new todo. This stands in for the uniqueness of random UUIDs.
- The framework's session object: `Session` keeps only the `'lists'` entry and the `modified`
  flag. Other keys, and how the framework stores the session between requests, are not modelled.
  The framework also flags a session as modified when a top-level key is assigned. The model does
  not do that, so the constructor leaves `modified` as it was.
- Crashes: `create_new_todo`, `delete_todo_from_list`, `update_todo_status` and
  `mark_all_todos_completed` fail with a Python exception when the list is missing. So does
  `update_todo_status` when the todo is missing (`StopIteration`). The model turns these into
  preconditions and does not model the exception.
- Aliasing: in the source, `find_list` and `all_lists` return the live dicts, and
  `mark_all_completed` mutates the caller's todo dicts. The model works on values:
  `Utils.MarkAllCompleted` returns the updated list, and `FindList` returns a copy of the list.
- `Utils.SortItems`: `str.lower()` is modelled as ASCII lower-casing only. Unicode case mapping
  is not modelled.
- `Utils.SortItems`: Python's `sorted` is Timsort. The model uses an insertion sort, which is
  also stable. A stable sort by one key yields one result, but the model does not prove that.
- Python values are untyped. The model types every record field (`id`, `title`, `completed`, `todos`).
- `todos/database_persistence.py` is not part of this model. It is connection handling and SQL,
  and its behaviour (serial ids, cascade delete) lives in the database.
- `app.py` is not part of this model. It is a single web route that returns a constant page.
- The relational store deletes a todo by list id and todo id (todos/database_persistence.py:118-124)
  and keeps a `list_id` column on each todo (todos/database_persistence.py:39-40). The session
  store's code removes every todo with the given id from the list and stores no `list_id`. The
  model follows the session store.
