# To-do store model

A Dafny model of the to-do list store of a small React application
(`src/store/todoStore.ts`). The store holds four fields: the list of todos,
the status filter (`all`, `active`, `completed`), the search query and the
colour theme. Its actions replace those fields:

- `addTodo`, `toggleTodo`, `deleteTodo`, `updateTodo` and `clearCompleted` change the list.
- `reorderTodos` handles drag and drop.
- `setFilter`, `setSearchQuery` and `toggleTheme` change the other fields.
- `getFilteredTodos` searches, filters and sorts the list into a view.
- The persistence hooks are `partialize` (what is saved) and `onRehydrateStorage` (the migration applied on load).

The project has these modules:

- `TodoTypes` (`todo.dfy`): the records and enumerations of `src/types/todo.ts`. `Option` is there too.
- `JsStrings` (`strings.dfy`): `trim`, `toLowerCase` and `includes`.
- `Seqs` (`seqs.dfy`): `filter` and `map` over sequences, and the two `splice` calls as `RemoveAt`, `InsertAt` and `Move`.
- `TodoLists` (`lists.dfy`): what each list action computes. These are the `filter`/`map`/spread expressions inside `addTodo`, `toggleTodo`, `deleteTodo`, `updateTodo` and `clearCompleted`, with lemmas stating what each result is.
- `TodoView` (`view.dfy`): the search, the status filter and the comparator. The stable sort is `SortView`, a stable insertion sort. `InsertInPlace` and `SortInPlace` sort an array in place and are proved against `SortView`. Because the comparator is a total preorder, every stable sort gives the same result.
- `TodoReorder` (`reorder.dfy`): the guard of `reorderTodos` and the list it produces.
- `TodoPersistence` (`persistence.dfy`): the persisted slice, the stored form of a todo (its `description` may be missing), and the load migration.
- `TodoStoreModel` (`store.dfy`): the store as a class `TodoStore`, with one method per action. Each method's `ensures` gives the new value of every field in terms of the list functions. The class invariant `Valid` (all ids distinct) is kept by every action, given a fresh id for `addTodo`.
- `TodoScenarios` (`scenarios.dfy`): small worked cases of the store's less obvious behaviour.

Behaviours of the code that the model keeps:

- **Toggle repartitions by storage position.** The flipped list is split into its active and its completed items, each group in storage order. The whole list is then renumbered by index, so completed items get ranks starting at the number of active items.
- **Toggle with an unknown id.** Nothing flips, but the list is still repartitioned and renumbered.
- **Delete does not renumber.** The ranks it leaves can have gaps.
- **`addTodo` can reuse a rank.** It gives the new todo the rank "number of active todos", which can equal a rank already in use. After deletes the new todo can rank below an older one and then be viewed first (`AddAfterDeletesIsViewedFirst`). Equal ranks keep storage order because the sort is stable (`EqualRanksKeepStorageOrder`).
- **The search query.** Searching happens only when the trimmed query is non-empty. The match itself uses the untrimmed, lower-cased query, so a leading space can make a todo disappear (`SearchUsesUntrimmedQuery`).
- **The sort aliases the store's own array.** `Array.prototype.sort` sorts in place. With the `all` filter and no search, the array it sorts is the store's own `todos`. `GetFilteredTodos` therefore writes the sorted list back into `todos`, and its contract shows that the view is unchanged by this.
- **Reorder always renumbers.** It moves an item within the sorted list and renumbers every todo by its index, even when the item is dropped where it was (`ReorderSameIndex`).
- **Reorder can leave storage unpartitioned.** A drag can place an active todo after a completed one in storage, so storage is not always active-then-completed. The view is partitioned whatever the storage order (`ViewSpec`).
- **No empty-title check in the store.** `addTodo` and `updateTodo` accept a text that trims to the empty string; only the input components refuse one.

## Model

| member | source | states |
|---|---|---|
| TodoStoreModel.TodoStore.constructor | src/store/todoStore.ts:27-30 | the initial state: no todos, the `all` filter, an empty query, the light theme; the id invariant holds |
| TodoStoreModel.TodoStore.AddTodo | src/store/todoStore.ts:32-51 | the new list is the old active todos, then the new todo, then the old completed todos. The new todo has the given id and clock reading, trimmed text and description, `completed = false` and rank = the number of active todos before the call. Other fields are unchanged and distinct ids stay distinct |
| TodoLists.NewTodo | src/store/todoStore.ts:34-41 | the todo that `addTodo` builds: the given id and clock reading, trimmed text and description, not completed, and the given rank (the store passes the active count). The trimming is stated by `JsStrings.TrimSpec` |
| TodoLists.AddTodos | src/store/todoStore.ts:44-48 | the new list of an add: the active todos, the new todo, then the completed todos. What that list holds is stated by `TodoLists.AddTodosGroups` |
| TodoLists.ActiveTodos | src/store/todoStore.ts:44 | the active todos in storage order, a `Seqs.Filter` |
| TodoLists.CompletedTodos | src/store/todoStore.ts:45 | the completed todos in storage order, a `Seqs.Filter` |
| TodoLists.AddTodosGroups | src/store/todoStore.ts:44-48 | adding an active todo grows the list by one and puts the todo at the end of the active group. The active todos gain exactly it at their end, the completed todos are unchanged, and the multiset of items gains exactly it |
| TodoLists.AddTodosActive | src/store/todoStore.ts:44-48 | the active todos after an add are the old active todos followed by the new one |
| TodoLists.AddTodosCompleted | src/store/todoStore.ts:45-48 | the completed todos are unchanged by an add |
| TodoLists.AddTodosKeepsIdsUnique | src/store/todoStore.ts:44-48 | adding a todo whose id is not yet used keeps all ids distinct |
| TodoLists.NewTodoKeepsIdsUnique | src/store/todoStore.ts:33-48 | the todo that `addTodo` builds from a fresh id keeps all ids distinct |
| TodoStoreModel.TodoStore.ToggleTodo | src/store/todoStore.ts:53-68 | the new list is the toggled list; other fields are unchanged and distinct ids stay distinct |
| TodoLists.FlipMatching | src/store/todoStore.ts:55-57 | the first step of a toggle: every todo with the id changes status, the others stay. Stated by `TodoLists.ToggleTodosItems` |
| TodoLists.ToggleTodos | src/store/todoStore.ts:55-65 | the new list of a toggle: the flipped list regrouped by storage position into active then completed todos, renumbered by index. Stated by `TodoLists.ToggleTodosShape` and `TodoLists.ToggleTodosItems` |
| TodoLists.Renumber | src/store/todoStore.ts:62-65 | every todo gets its index as its rank. Stated by `TodoLists.RenumberGroups` and `TodoReorder.UnnumberedRenumber` |
| TodoLists.ToggleTodosShape | src/store/todoStore.ts:55-66 | after a toggle the list has the same length, is partitioned active-then-completed and has every rank equal to its index. Position `i < #active` holds the i-th active item of the flipped list, and the completed items follow in storage order ranked from #active |
| TodoLists.ToggleTodosItems | src/store/todoStore.ts:55-65 | the flip changes `completed` exactly on the items with the id and nothing else. Up to ranks, the result is a permutation of the flipped list, and the ids are a permutation of the old ids |
| TodoLists.ToggleTodosKeepsIdsUnique | src/store/todoStore.ts:53-68 | a toggle keeps ids distinct |
| TodoLists.ToggleUnknownId | src/store/todoStore.ts:55-65 | with an unknown id, the toggle is the repartition and renumbering of the unchanged list, which is the list itself when it is already partitioned and numbered by index |
| TodoLists.RenumberGroups | src/store/todoStore.ts:59-65 | renumbering an active group followed by a completed group gives a partitioned list whose ranks are the indices, keeping each group's items in order |
| TodoLists.PartitionSplit | src/store/todoStore.ts:44-45 | the active and the completed todos together are exactly the whole list (as a multiset and by count) |
| TodoLists.PartitionedIsActiveThenCompleted | src/store/todoStore.ts:44-48 | a partitioned list is its active todos followed by its completed todos |
| TodoStoreModel.TodoStore.DeleteTodo | src/store/todoStore.ts:70-74 | the new list is the old one without the todos with that id; other fields are unchanged and distinct ids stay distinct |
| TodoLists.DeleteTodos | src/store/todoStore.ts:72 | the new list of a delete: the todos with another id, in order. Stated by `TodoLists.DeleteTodosSpec` |
| TodoLists.DeleteTodosSpec | src/store/todoStore.ts:72 | a todo survives if and only if it was present and has another id. The survivors and the removed todos together make up the old list. An unknown id changes nothing, and distinct ids stay distinct |
| TodoLists.DeleteTodosConcat | src/store/todoStore.ts:72 | deleting from a concatenation deletes from each part, so the survivors keep their relative order |
| TodoStoreModel.TodoStore.UpdateTodo | src/store/todoStore.ts:76-88 | the new list is the updated list; other fields are unchanged and distinct ids stay distinct |
| TodoLists.UpdateTodos | src/store/todoStore.ts:78-86 | the new list of an update: matching todos get the trimmed text and, when given, the trimmed description. Stated by `TodoLists.UpdateTodosSpec` |
| TodoLists.UpdateTodosSpec | src/store/todoStore.ts:78-86 | an update keeps length, ids, `completed`, `createdAt` and rank at every position. Non-matching todos are unchanged. A matching todo gets the trimmed text and either the trimmed new description or, when none is given, its old one. Distinct ids stay distinct, and the update commutes with taking the active todos |
| TodoLists.UpdateTodosConcat | src/store/todoStore.ts:78-86 | an update of a concatenation is the concatenation of the updates |
| TodoLists.UpdateCommutesWithActive | src/store/todoStore.ts:78-86 | updating then taking the active todos equals taking the active todos then updating, because an update never changes `completed` |
| TodoStoreModel.TodoStore.SetFilter | src/store/todoStore.ts:90-92 | the filter becomes the given one and nothing else changes |
| TodoStoreModel.TodoStore.SetSearchQuery | src/store/todoStore.ts:94-96 | the query becomes the given string, untrimmed, and nothing else changes |
| TodoStoreModel.TodoStore.ClearCompleted | src/store/todoStore.ts:98-102 | the new list is the active todos; other fields are unchanged and distinct ids stay distinct |
| TodoLists.ClearCompletedTodos | src/store/todoStore.ts:100 | the new list of clearing completed todos: the active ones. Stated by `TodoLists.ClearCompletedSpec` |
| TodoLists.ClearCompletedSpec | src/store/todoStore.ts:100 | a todo survives if and only if it was present and active. The survivors and the completed todos make up the old list. Clearing is idempotent, changes nothing when no todo is completed, and keeps ids distinct |
| TodoStoreModel.TodoStore.ReorderTodos | src/store/todoStore.ts:104-127 | outside the unsearched `all` view the list is unchanged. Otherwise it becomes the sorted list with the item at `startIndex` moved to `endIndex` and every todo renumbered by index. Other fields are unchanged and distinct ids stay distinct |
| TodoView.UnsearchedAllView | src/store/todoStore.ts:108 | the guard of a reorder: the filter is `all` and the trimmed query is empty. It is also the case in which the sort works on the store's own array (line 137) |
| TodoReorder.ReorderedTodos | src/store/todoStore.ts:113-124 | the new list of an allowed reorder: the sorted list with one item moved, renumbered by index. Stated by `TodoReorder.ReorderSpec` |
| TodoReorder.ReorderBySplices | src/store/todoStore.ts:116-124 | removing the item at `from` of the sorted list, inserting it at `to` and renumbering is the reorder |
| TodoReorder.ReorderSpec | src/store/todoStore.ts:113-124 | the reorder keeps the length and numbers every todo by its index. The moved item sits at `to`, the other items keep their sorted order around it, and the items (up to ranks) and the ids are permutations of the old ones |
| TodoReorder.ReorderKeepsIdsUnique | src/store/todoStore.ts:113-126 | a reorder keeps ids distinct |
| TodoReorder.ReorderSameIndex | src/store/todoStore.ts:113-124 | dropping an item where it was gives the sorted list renumbered by index, which is the list itself when it was partitioned and numbered by index |
| TodoReorder.UnnumberedRenumber | src/store/todoStore.ts:121-124 | renumbering changes only ranks: up to ranks, and in its ids, the list is the same |
| TodoReorder.RenumberNumbered | src/store/todoStore.ts:121-124 | a list already numbered by index is its own renumbering |
| TodoReorder.PartitionedNumberedSorted | src/store/todoStore.ts:158-163 | a partitioned list numbered by index is in the comparator's order |
| Seqs.Filter | src/store/todoStore.ts:44-45 | filtering keeps at most the input's elements, each of them satisfying the test |
| Seqs.Map | src/store/todoStore.ts:55-57 | mapping: the function applied to every element, in order |
| Seqs.RemoveAt | src/store/todoStore.ts:117 | `splice(i, 1)`: one item shorter, the items before `i` unchanged and those after shifted down by one |
| Seqs.InsertAt | src/store/todoStore.ts:118 | `splice(i, 0, x)`: one item longer with `x` at `i`, and removing it gives back the list |
| Seqs.Move | src/store/todoStore.ts:117-118 | the moved list has the same length and items, holds the moved item at `to`, and without it equals the old list without the item at `from` |
| Seqs.MoveInPlace | src/store/todoStore.ts:117-118 | moving an item to its own index changes nothing |
| TodoStoreModel.TodoStore.ToggleTheme | src/store/todoStore.ts:129-133 | the theme becomes the other one and nothing else changes |
| TodoStoreModel.ToggledTheme | src/store/todoStore.ts:131 | the toggled theme always differs from the old one |
| TodoStoreModel.ToggledThemeTwice | src/store/todoStore.ts:131 | toggling twice restores the theme |
| TodoStoreModel.TodoStore.GetFilteredTodos | src/store/todoStore.ts:135-164 | the result is the view of the todos. In the unsearched `all` view, the store's todos become that sorted list; otherwise they are unchanged. The view of the new todos is the same result, the other fields are unchanged, and distinct ids stay distinct |
| TodoView.View | src/store/todoStore.ts:135-164 | the result of the filtered view: search, then the status filter, then the stable sort. Stated by `TodoView.ViewSpec` |
| TodoView.MatchesQuery | src/store/todoStore.ts:141-145 | the lower-cased text or description contains the lower-cased, untrimmed query. Lower-casing and containment are stated by `JsStrings.ToLower` and `JsStrings.Includes` |
| TodoView.SearchTodos | src/store/todoStore.ts:140-147 | the search step: the list unchanged when the trimmed query is empty, otherwise the matching todos in order. Stated with the status step by `TodoView.FilteredIsVisible` |
| TodoView.StatusTodos | src/store/todoStore.ts:150-154 | the status step: all todos, the active ones or the completed ones. Stated with the search step by `TodoView.FilteredIsVisible` |
| TodoView.Precedes | src/store/todoStore.ts:159-162 | where the comparator is negative: active before completed, then the lower rank first. Stated by `TodoView.PrecedesStrictOrder` |
| TodoView.SortView | src/store/todoStore.ts:158 | the stable sort by the comparator. Stated by `TodoView.SortViewPermutes`, `TodoView.SortViewSorted` and `TodoView.FilterSortView` |
| TodoView.InsertSorted | src/store/todoStore.ts:158 | one step of the stable sort: the item placed after every item it does not precede. Stated by `TodoView.InsertSortedPermutes` and `TodoView.InsertSortedKeepsSorted` |
| TodoView.ViewSpec | src/store/todoStore.ts:135-164 | the view is a permutation of the todos that pass the search and the status test. A todo is in it if and only if it is in the store and passes both tests. All active todos come before all completed ones, and ranks do not decrease within each group |
| TodoView.FilteredIsVisible | src/store/todoStore.ts:139-154 | searching and then applying the status filter keeps exactly the todos that pass both tests, in storage order |
| TodoView.ViewStable | src/store/todoStore.ts:158-163 | todos of the same status and rank appear in the view in storage order |
| TodoView.ViewOfSortedStore | src/store/todoStore.ts:136-163 | the view of the sorted list equals the view of the list, so the in-place sort of the store's array does not change any later view |
| TodoView.UnfilteredView | src/store/todoStore.ts:137-158 | in the unsearched `all` view the view is the sorted list of all todos |
| TodoView.SortInPlace | src/store/todoStore.ts:158-163 | sorting the array in place leaves in it the stable sort of its old contents |
| TodoView.InsertInPlace | src/store/todoStore.ts:158-163 | one insertion step in place: the first `i + 1` cells become the sorted prefix with the old `a[i]` inserted, and the rest of the array is unchanged |
| TodoView.InsertSortedPermutes | src/store/todoStore.ts:158-163 | one insertion step adds exactly the inserted item |
| TodoView.SortViewPermutes | src/store/todoStore.ts:158-163 | the sort is a permutation |
| TodoView.SortViewSorted | src/store/todoStore.ts:158-163 | the sort's result is in the comparator's order |
| TodoView.InsertSortedKeepsSorted | src/store/todoStore.ts:158-163 | inserting into a sorted list keeps it sorted |
| TodoView.SortedFixpoint | src/store/todoStore.ts:158-163 | sorting a sorted list changes nothing |
| TodoView.PrecedesStrictOrder | src/store/todoStore.ts:159-162 | the comparator is a strict order whose incomparability is transitive: irreflexive, asymmetric, and "not before" is transitive |
| TodoView.FilterSortView | src/store/todoStore.ts:139-163 | filtering the sorted list equals sorting the filtered list, so the sort is stable |
| TodoView.SortViewStable | src/store/todoStore.ts:158-163 | items the comparator cannot tell apart (same status and rank) keep their storage order |
| TodoView.SortedGroups | src/store/todoStore.ts:156-163 | a list in the comparator's order is partitioned, with non-decreasing ranks within each group |
| JsStrings.TrimSpec | src/store/todoStore.ts:36-37 | the trimmed string is a contiguous part of the input with only white space before it and only white space after it. It neither starts nor ends with white space, and it is empty if and only if the input is all white space |
| JsStrings.Trim | src/store/todoStore.ts:36-37 | trimming: the input without its leading and trailing white space. Stated by `JsStrings.TrimSpec` |
| JsStrings.ToLower | src/store/todoStore.ts:141-145 | lower-casing keeps the length, replaces every upper-case ASCII letter by the same letter in lower case, and changes no other character |
| JsStrings.LowerChar | src/store/todoStore.ts:141 | an upper-case ASCII letter becomes the same letter in lower case; any other character is kept |
| JsStrings.Includes | src/store/todoStore.ts:144-145 | `includes` holds if and only if the query occurs at some position |
| TodoStoreModel.TodoStore.Partialize | src/store/todoStore.ts:168-171 | the persisted slice, written and loaded back through the migration, gives the same todos and theme |
| TodoPersistence.PersistRoundTrip | src/store/todoStore.ts:168-178 | writing the slice and migrating it on load gives back the same todos and theme |
| TodoStoreModel.TodoStore.Rehydrate | src/store/todoStore.ts:172-180 | a loaded slice replaces the todos (migrated) and the theme; a load with no state changes nothing; filter and query are unchanged. The id invariant holds afterwards when the stored ids are distinct, or, with no state loaded, when it held before |
| TodoPersistence.MigrateTodo | src/store/todoStore.ts:175-178 | one loaded todo with a missing description replaced by the empty string |
| TodoPersistence.MigrateTodos | src/store/todoStore.ts:175-178 | the migration of every loaded todo, in order. Stated by `TodoPersistence.MigrateTodosSpec` |
| TodoPersistence.MigrateTodosSpec | src/store/todoStore.ts:175-178 | the migration fills a missing description with the empty string, keeps a present one, and changes no other field and no position |
| TodoPersistence.MigrateKeepsIds | src/store/todoStore.ts:175-178 | the migration keeps every id at its position, so stored todos with distinct ids load as todos with distinct ids |
| TodoScenarios.AddAfterDeletesIsViewedFirst | src/store/todoStore.ts:33-48 | three active todos ranked 0, 1, 2; deleting the first two leaves the third, the next new todo is ranked 1 and stored after it, and the view shows the new todo first |
| TodoScenarios.LowerRankViewedFirst | src/store/todoStore.ts:158-163 | an active todo stored second but ranked lower is viewed first |
| TodoScenarios.EqualRanksKeepStorageOrder | src/store/todoStore.ts:158-163 | two active todos with the same rank are viewed in storage order |
| TodoScenarios.ToggleUnknownIdRenumbers | src/store/todoStore.ts:55-65 | toggling an unknown id still moves the active todo first and renumbers both todos |
| TodoScenarios.PaddedQueryTrimsAlike | src/store/todoStore.ts:140 | a leading space does not change the trimmed query |
| TodoScenarios.QueryFindsItsText | src/store/todoStore.ts:140-146 | a query that is not all white space finds a todo whose text it is |
| TodoScenarios.LongerQueryMisses | src/store/todoStore.ts:140-146 | a non-blank query longer than a todo's text and description does not find it |
| TodoScenarios.SearchUsesUntrimmedQuery | src/store/todoStore.ts:140-146 | a query and the same query with a leading space trim alike, yet the first finds a todo whose text is the query and the second misses it |
| TodoScenarios.DragFirstToLast | src/store/todoStore.ts:113-124 | dragging the first of three active todos ranked 0, 1, 2 to the end moves it behind the other two and renumbers all three |

## Left out

- The Zustand plumbing (`create`, `set`/`get`, the `persist` middleware, `STORAGE_KEY`) and the JSON read and write of local storage. These are library code and I/O. The model keeps the slice that `partialize` selects, and `Rehydrate` receives the result of a load as a value.
- `crypto.randomUUID()` and `Date.now()`: foreign calls, passed to `AddTodo` as the `id` and `createdAt` parameters.
- TodoStoreModel.TodoStore.AddTodo: requires a fresh id, which stands in for the uniqueness of a random UUID.
- TodoStoreModel.TodoStore.ReorderTodos: requires both indices to be in range when the reorder is allowed. The array's `splice` accepts other indices: a negative index counts from the end, an `endIndex` past the end appends the item, and a `startIndex` at or past the end removes nothing, so `undefined` is inserted and renumbered into a malformed todo. The model does not represent any of these.
- JsStrings.ToLower: maps only the ASCII letters `A`–`Z`. Unicode case mapping (accented letters, special cases such as `İ`) is not modelled.
- JsStrings.Trim: strings are sequences of characters. There is no UTF-16 surrogate handling, and white space is the ECMAScript white-space and line-terminator set.
- TodoPersistence.MigrateTodo: a stored description that is present but falsy can only be the empty string here. A non-string falsy value (`0`, `false`) that a corrupted store could hold is not representable.
- The empty-title guards in the input components and the `source != destination` check of the list component. They sit outside the store and only narrow what the store is called with.
- The React components, their styling and the `data-theme` attribute: UI code.
- Concurrency: the store's actions are modelled as atomic, sequential calls.
- JavaScript numbers: `createdAt` and `order` are unbounded integers, with no floating point and no `NaN`.
