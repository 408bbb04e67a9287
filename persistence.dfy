/**
 * What the store persists and how it migrates what it loads: `partialize`
 * keeps `todos` and `theme`, and `onRehydrateStorage` gives every loaded todo
 * an empty description when it has none.
 */
module TodoPersistence {
  import opened TodoTypes
  import opened TodoLists

  /** The persisted slice of the state: the todos and the theme. */
  datatype Slice = Slice(todos: seq<Todo>, theme: Theme)

  /** A todo as read back from storage: a list written by an older version may
      lack `description` (missing, `null` or `undefined` are all `None`). */
  datatype StoredTodo = StoredTodo(
    id: string, text: string, description: Option<string>,
    completed: bool, createdAt: int, order: int)

  /** A slice as read back from storage. */
  datatype StoredSlice = StoredSlice(todos: seq<StoredTodo>, theme: Theme)

  /** A todo as it is written: every field present. */
  function Written(t: Todo): StoredTodo {
    StoredTodo(t.id, t.text, Some(t.description), t.completed, t.createdAt, t.order)
  }

  /** The slice as it is written. */
  function WrittenSlice(p: Slice): StoredSlice {
    StoredSlice(seq(|p.todos|, i requires 0 <= i < |p.todos| => Written(p.todos[i])), p.theme)
  }

  /** One loaded todo with a missing description replaced by the empty
      string. */
  function MigrateTodo(t: StoredTodo): Todo {
    var description := match t.description
      case None => ""
      case Some(d) => d;
    Todo(t.id, t.text, description, t.completed, t.createdAt, t.order)
  }

  /** The migration applied to every loaded todo. */
  function MigrateTodos(s: seq<StoredTodo>): seq<Todo> {
    seq(|s|, i requires 0 <= i < |s| => MigrateTodo(s[i]))
  }

  /** The migration fills in a missing description with `""`, keeps a present
      one, and changes no other field and no position. */
  lemma MigrateTodosSpec(s: seq<StoredTodo>)
    ensures var r := MigrateTodos(s);
      && |r| == |s|
      && (forall i :: 0 <= i < |s| ==>
            && r[i].description == (if s[i].description.Some? then s[i].description.value else "")
            && r[i].id == s[i].id && r[i].text == s[i].text
            && r[i].completed == s[i].completed && r[i].createdAt == s[i].createdAt
            && r[i].order == s[i].order)
  {
  }

  /** No two stored todos share an id. */
  predicate UniqueStoredIds(s: seq<StoredTodo>) {
    forall i, j :: 0 <= i < |s| && 0 <= j < |s| && s[i].id == s[j].id ==> i == j
  }

  /** The migration keeps every id where it was, so a stored list with
      distinct ids loads as a list with distinct ids. */
  lemma MigrateKeepsIds(s: seq<StoredTodo>)
    ensures |Ids(MigrateTodos(s))| == |s|
    ensures forall i :: 0 <= i < |s| ==> Ids(MigrateTodos(s))[i] == s[i].id
    ensures UniqueStoredIds(s) ==> UniqueIds(MigrateTodos(s))
  {
    var r := MigrateTodos(s);
    assert forall i :: 0 <= i < |s| ==> r[i].id == s[i].id;
  }

  /** Writing the slice and loading it back through the migration gives the
      same todos and theme. */
  lemma PersistRoundTrip(p: Slice)
    ensures var w := WrittenSlice(p);
      MigrateTodos(w.todos) == p.todos && w.theme == p.theme
  {
  }
}
