/**
 * The store itself: one object holding `todos`, `filter`, `searchQuery` and
 * `theme`, whose actions replace those fields. Each action's new state is
 * given by the list computations of the other modules.
 */
module TodoStoreModel {
  import opened TodoTypes
  import opened Seqs
  import opened JsStrings
  import opened TodoLists
  import opened TodoView
  import opened TodoReorder
  import opened TodoPersistence

  /** The theme after a toggle: light becomes dark and dark becomes light. */
  function ToggledTheme(t: Theme): (r: Theme)
    ensures r != t
  {
    if t == Light then Dark else Light
  }

  /** Toggling the theme twice restores it. */
  lemma ToggledThemeTwice(t: Theme)
    ensures ToggledTheme(ToggledTheme(t)) == t
  {
  }

  class TodoStore {
    var todos: seq<Todo>
    var filter: FilterType
    var searchQuery: string
    var theme: Theme

    /** Every todo has its own id. The actions keep this; a loaded list has it
        when the stored one did. */
    ghost predicate Valid()
      reads this
    {
      UniqueIds(todos)
    }

    /** The initial state: no todos, the `all` filter, no search, light theme. */
    constructor ()
      ensures todos == [] && filter == All && searchQuery == [] && theme == Light
      ensures Valid()
    {
      todos := [];
      filter := All;
      searchQuery := "";
      theme := Light;
    }

    /** Adding a todo; the description defaults to empty, and the fresh id and
        the clock reading are passed in. */
    method AddTodo(id: string, createdAt: int, text: string, description: string := "")
      requires id !in Ids(todos)
      modifies this
      ensures todos == AddTodos(old(todos), NewTodo(id, text, description, createdAt, |ActiveTodos(old(todos))|))
      ensures filter == old(filter) && searchQuery == old(searchQuery) && theme == old(theme)
      ensures old(Valid()) ==> Valid()
    {
      if Valid() {
        NewTodoKeepsIdsUnique(todos, id, text, description, createdAt);
      }
      var activeTodos := ActiveTodos(todos);
      var newTodo := NewTodo(id, text, description, createdAt, |activeTodos|);
      todos := AddTodos(todos, newTodo);
    }

    method ToggleTodo(id: string)
      modifies this
      ensures todos == ToggleTodos(old(todos), id)
      ensures filter == old(filter) && searchQuery == old(searchQuery) && theme == old(theme)
      ensures old(Valid()) ==> Valid()
    {
      if Valid() {
        ToggleTodosKeepsIdsUnique(todos, id);
      }
      todos := ToggleTodos(todos, id);
    }

    method DeleteTodo(id: string)
      modifies this
      ensures todos == DeleteTodos(old(todos), id)
      ensures filter == old(filter) && searchQuery == old(searchQuery) && theme == old(theme)
      ensures old(Valid()) ==> Valid()
    {
      DeleteTodosSpec(todos, id);
      todos := DeleteTodos(todos, id);
    }

    /** Updating a todo's text and description; `None` is an omitted
        description. */
    method UpdateTodo(id: string, text: string, description: Option<string>)
      modifies this
      ensures todos == UpdateTodos(old(todos), id, text, description)
      ensures filter == old(filter) && searchQuery == old(searchQuery) && theme == old(theme)
      ensures old(Valid()) ==> Valid()
    {
      UpdateTodosSpec(todos, id, text, description);
      todos := UpdateTodos(todos, id, text, description);
    }

    method SetFilter(f: FilterType)
      modifies this
      ensures filter == f
      ensures todos == old(todos) && searchQuery == old(searchQuery) && theme == old(theme)
    {
      filter := f;
    }

    /** The query is stored as typed, untrimmed. */
    method SetSearchQuery(query: string)
      modifies this
      ensures searchQuery == query
      ensures todos == old(todos) && filter == old(filter) && theme == old(theme)
    {
      searchQuery := query;
    }

    method ClearCompleted()
      modifies this
      ensures todos == ClearCompletedTodos(old(todos))
      ensures filter == old(filter) && searchQuery == old(searchQuery) && theme == old(theme)
      ensures old(Valid()) ==> Valid()
    {
      ClearCompletedSpec(todos);
      todos := ClearCompletedTodos(todos);
    }

    method ToggleTheme()
      modifies this
      ensures theme == ToggledTheme(old(theme))
      ensures todos == old(todos) && filter == old(filter) && searchQuery == old(searchQuery)
    {
      theme := ToggledTheme(theme);
    }

    /** The filtered view. The result is the view of the todos. With no
        search and the `all` filter the array sorted in place is the store's own,
        so `todos` becomes the sorted list; the view of the new `todos` is the
        same as before. */
    method GetFilteredTodos() returns (r: seq<Todo>)
      modifies this
      ensures r == View(old(todos), filter, searchQuery)
      ensures todos == if UnsearchedAllView(filter, searchQuery) then r else old(todos)
      ensures View(todos, filter, searchQuery) == r
      ensures filter == old(filter) && searchQuery == old(searchQuery) && theme == old(theme)
      ensures old(Valid()) ==> Valid()
    {
      var query := searchQuery;
      var filtered := todos;
      if Trim(query) != [] {
        filtered := Filter(filtered, (t: Todo) => MatchesQuery(t, query));
      }
      if filter == Active {
        filtered := ActiveTodos(filtered);
      } else if filter == Completed {
        filtered := CompletedTodos(filtered);
      }
      assert filtered == StatusTodos(SearchTodos(todos, query), filter);
      var a := new Todo[|filtered|](i requires 0 <= i < |filtered| => filtered[i]);
      assert a[..] == filtered;
      SortInPlace(a);
      r := a[..];
      ViewOfSortedStore(todos, filter, query);
      if UnsearchedAllView(filter, query) {
        SortViewPermutes(todos);
        if Valid() {
          UniqueIdsSubMultiset(todos, r);
        }
        todos := r;
      }
    }

    /** Drag and drop: nothing happens unless the view is
        the unsearched `all` view; then the item at `startIndex` of the view is
        moved to `endIndex` and every todo is renumbered by its index. */
    method ReorderTodos(startIndex: int, endIndex: int)
      requires UnsearchedAllView(filter, searchQuery) ==> 0 <= startIndex < |todos| && 0 <= endIndex < |todos|
      modifies this
      ensures todos == if UnsearchedAllView(old(filter), old(searchQuery))
                       then ReorderedTodos(old(todos), startIndex, endIndex)
                       else old(todos)
      ensures filter == old(filter) && searchQuery == old(searchQuery) && theme == old(theme)
      ensures old(Valid()) ==> Valid()
    {
      if !UnsearchedAllView(filter, searchQuery) {
        return;
      }
      ghost var before := todos;
      ghost var query, th, valid := searchQuery, theme, Valid();
      UnfilteredView(todos, filter, searchQuery);
      ReorderBySplices(todos, startIndex, endIndex);
      var filtered := GetFilteredTodos();
      assert filter == All && searchQuery == query && theme == th;
      var reordered := filtered;
      var removed := reordered[startIndex];
      reordered := RemoveAt(reordered, startIndex);
      reordered := InsertAt(reordered, endIndex, removed);
      todos := Renumber(reordered);
      assert todos == ReorderedTodos(before, startIndex, endIndex);
      if valid {
        ReorderKeepsIdsUnique(before, startIndex, endIndex);
      }
    }

    /** `partialize`: the persisted slice. Writing it and loading it back gives
        the same todos and theme. */
    function Partialize(): (p: Slice)
      reads this
      ensures MigrateTodos(WrittenSlice(p).todos) == todos && WrittenSlice(p).theme == theme
    {
      PersistRoundTrip(Slice(todos, theme));
      Slice(todos, theme)
    }

    /** Loading: the stored slice replaces `todos` and `theme`, and then the
        migration of `onRehydrateStorage` fills in missing descriptions. `None`
        is a load that yields no state, which changes nothing. */
    method Rehydrate(loaded: Option<StoredSlice>)
      modifies this
      ensures loaded.None? ==> todos == old(todos) && theme == old(theme)
      ensures loaded.Some? ==> todos == MigrateTodos(loaded.value.todos) && theme == loaded.value.theme
      ensures filter == old(filter) && searchQuery == old(searchQuery)
      ensures loaded.None? && old(Valid()) ==> Valid()
      ensures loaded.Some? && UniqueStoredIds(loaded.value.todos) ==> Valid()
    {
      if loaded.Some? {
        MigrateKeepsIds(loaded.value.todos);
        theme := loaded.value.theme;
        todos := MigrateTodos(loaded.value.todos);
      }
    }
  }
}
