/**
 * The list computations inside the store's actions `addTodo`, `toggleTodo`,
 * `deleteTodo`, `updateTodo` and `clearCompleted`: each one builds the new
 * `todos` list from the old one with `filter`, `map` and spreads.
 */
module TodoLists {
  import opened TodoTypes
  import opened Seqs
  import opened JsStrings

  predicate IsActive(t: Todo) { !t.completed }

  predicate IsCompleted(t: Todo) { t.completed }

  /** The active todos, in storage order. */
  function ActiveTodos(s: seq<Todo>): seq<Todo> {
    Filter(s, IsActive)
  }

  /** The completed todos, in storage order. */
  function CompletedTodos(s: seq<Todo>): seq<Todo> {
    Filter(s, IsCompleted)
  }

  function Ids(s: seq<Todo>): seq<string> {
    Map(s, (t: Todo) => t.id)
  }

  /** The list with every `order` blanked, to compare lists up to their ranks. */
  function Unnumbered(s: seq<Todo>): seq<Todo> {
    Map(s, (t: Todo) => t.(order := 0))
  }

  /** Every todo given its index in the list as its rank. */
  function Renumber(s: seq<Todo>): seq<Todo> {
    seq(|s|, i requires 0 <= i < |s| => s[i].(order := i))
  }

  /** No two positions hold the same id. */
  predicate UniqueIds(s: seq<Todo>) {
    forall i, j :: 0 <= i < |s| && 0 <= j < |s| && s[i].id == s[j].id ==> i == j
  }

  /** Every active todo comes before every completed one. */
  predicate Partitioned(s: seq<Todo>) {
    forall i, j :: 0 <= i < j < |s| && s[i].completed ==> s[j].completed
  }

  /** Every todo's `order` is its index. */
  predicate NumberedByIndex(s: seq<Todo>) {
    forall i :: 0 <= i < |s| ==> s[i].order == i
  }

  // ---------------------------------------------------------------------------
  // Facts about the partition and about ids

  /** The active and the completed todos together are the whole list. */
  lemma PartitionSplit(s: seq<Todo>)
    ensures multiset(ActiveTodos(s)) + multiset(CompletedTodos(s)) == multiset(s)
    ensures |ActiveTodos(s)| + |CompletedTodos(s)| == |s|
  {
    FilterSplit(s, IsActive, IsCompleted);
    assert |multiset(ActiveTodos(s)) + multiset(CompletedTodos(s))| == |multiset(s)|;
  }

  /** A partitioned list is its active todos followed by its completed ones. */
  lemma {:induction false} PartitionedIsActiveThenCompleted(s: seq<Todo>)
    requires Partitioned(s)
    ensures ActiveTodos(s) + CompletedTodos(s) == s
  {
    if s != [] {
      if s[0].completed {
        OnlyCompleted(s);
      } else {
        var tail := s[1..];
        assert Partitioned(tail);
        PartitionedIsActiveThenCompleted(tail);
        assert ActiveTodos(s) == [s[0]] + ActiveTodos(tail);
        assert CompletedTodos(s) == CompletedTodos(tail);
        assert s == [s[0]] + tail;
      }
    }
  }

  lemma OnlyCompleted(s: seq<Todo>)
    requires forall k :: 0 <= k < |s| ==> s[k].completed
    ensures ActiveTodos(s) == [] && CompletedTodos(s) == s
  {
    FilterKeepsAll(s, IsCompleted);
    FilterKeepsNone(s, IsActive);
  }

  lemma OnlyActive(s: seq<Todo>)
    requires forall k :: 0 <= k < |s| ==> !s[k].completed
    ensures ActiveTodos(s) == s && CompletedTodos(s) == []
  {
    FilterKeepsAll(s, IsActive);
    FilterKeepsNone(s, IsCompleted);
  }

  lemma {:induction false} TwiceInMultiset(r: seq<Todo>, i: int, j: int)
    requires 0 <= i < j < |r| && r[i] == r[j]
    ensures multiset(r)[r[i]] >= 2
  {
    assert r == r[..j] + [r[j]] + r[j + 1..];
    assert r[i] in r[..j];
  }

  lemma {:induction false} TwoPositions(s: seq<Todo>, x: Todo)
    requires multiset(s)[x] >= 2
    ensures exists a, b :: 0 <= a < |s| && 0 <= b < |s| && a != b && s[a] == x && s[b] == x
  {
    assert x in s;
    var a :| 0 <= a < |s| && s[a] == x;
    assert s == s[..a] + [x] + s[a + 1..];
    assert x in multiset(s[..a]) + multiset(s[a + 1..]);
    if x in s[..a] {
      var b :| 0 <= b < a && s[..a][b] == x;
      assert s[b] == x;
    } else {
      assert x in s[a + 1..];
      var b :| 0 <= b < |s| - a - 1 && s[a + 1..][b] == x;
      assert s[a + 1 + b] == x;
    }
  }

  /** Ids stay unique in any list whose items are drawn, without repetition,
      from a list with unique ids. */
  lemma UniqueIdsSubMultiset(s: seq<Todo>, r: seq<Todo>)
    requires UniqueIds(s) && multiset(r) <= multiset(s)
    ensures UniqueIds(r)
  {
    forall i, j | 0 <= i < |r| && 0 <= j < |r| && r[i].id == r[j].id
      ensures i == j
    {
      if i != j {
        var lo, hi := if i < j then i else j, if i < j then j else i;
        if r[lo] == r[hi] {
          TwiceInMultiset(r, lo, hi);
          TwoPositions(s, r[lo]);
        } else {
          SameIdSameItem(s, r[i], r[j]);
        }
      }
    }
  }

  lemma SameIdSameItem(s: seq<Todo>, x: Todo, y: Todo)
    requires UniqueIds(s) && x in multiset(s) && y in multiset(s) && x.id == y.id
    ensures x == y
  {
    var a :| 0 <= a < |s| && s[a] == x;
    var b :| 0 <= b < |s| && s[b] == y;
  }

  /** Uniqueness depends only on the ids, position by position. */
  lemma UniqueIdsSameIds(s: seq<Todo>, r: seq<Todo>)
    requires Ids(r) == Ids(s) && UniqueIds(s)
    ensures UniqueIds(r)
  {
    assert |r| == |Ids(r)|;
    forall i, j | 0 <= i < |r| && 0 <= j < |r| && r[i].id == r[j].id
      ensures i == j
    {
      assert Ids(r)[i] == r[i].id && Ids(r)[j] == r[j].id;
    }
  }

  // ---------------------------------------------------------------------------
  // addTodo

  /** The item `addTodo` creates: trimmed text and description, not completed,
      ranked `order` (the number of active items at the call). */
  function NewTodo(id: string, text: string, description: string, createdAt: int, order: int): Todo {
    Todo(id, Trim(text), Trim(description), false, createdAt, order)
  }

  /** The new list of an add: the active todos, then `t`, then the completed
      todos. */
  function AddTodos(s: seq<Todo>, t: Todo): seq<Todo> {
    ActiveTodos(s) + [t] + CompletedTodos(s)
  }

  /** The new active item lands at the end of the active group: the active todos
      gain exactly `t` at their end, the completed todos stay as they were, and
      the list grows by one. */
  lemma AddTodosGroups(s: seq<Todo>, t: Todo)
    requires !t.completed
    ensures var r := AddTodos(s, t);
      && |r| == |s| + 1
      && r[|ActiveTodos(s)|] == t
      && ActiveTodos(r) == ActiveTodos(s) + [t]
      && CompletedTodos(r) == CompletedTodos(s)
      && multiset(r) == multiset(s) + multiset{t}
  {
    var a, c := ActiveTodos(s), CompletedTodos(s);
    PartitionSplit(s);
    AddTodosActive(s, t);
    AddTodosCompleted(s, t);
    assert multiset(AddTodos(s, t)) == multiset(a) + multiset{t} + multiset(c);
  }

  lemma AddTodosActive(s: seq<Todo>, t: Todo)
    requires !t.completed
    ensures ActiveTodos(AddTodos(s, t)) == ActiveTodos(s) + [t]
  {
    var a, c := ActiveTodos(s), CompletedTodos(s);
    FilterConcat(a + [t], c, IsActive);
    FilterConcat(a, [t], IsActive);
    assert [t][1..] == [];
    assert Filter([t], IsActive) == [t];
    OnlyActive(a);
    OnlyCompleted(c);
  }

  lemma AddTodosCompleted(s: seq<Todo>, t: Todo)
    requires !t.completed
    ensures CompletedTodos(AddTodos(s, t)) == CompletedTodos(s)
  {
    var a, c := ActiveTodos(s), CompletedTodos(s);
    FilterConcat(a + [t], c, IsCompleted);
    FilterConcat(a, [t], IsCompleted);
    assert [t][1..] == [];
    assert Filter([t], IsCompleted) == [];
    OnlyActive(a);
    OnlyCompleted(c);
  }

  /** With a fresh id, adding keeps the ids unique. */
  lemma AddTodosKeepsIdsUnique(s: seq<Todo>, t: Todo)
    requires UniqueIds(s) && t.id !in Ids(s)
    ensures UniqueIds(AddTodos(s, t))
  {
    var a, c := ActiveTodos(s), CompletedTodos(s);
    PartitionSplit(s);
    UniqueIdsSubMultiset(s, a + c);
    IdsOfSubMultiset(s, a + c);
    assert AddTodos(s, t) == InsertAt(a + c, |a|, t);
    UniqueIdsInsert(a + c, |a|, t);
  }

  /** The item `addTodo` builds from a fresh id keeps the ids unique. */
  lemma NewTodoKeepsIdsUnique(s: seq<Todo>, id: string, text: string, description: string, createdAt: int)
    requires UniqueIds(s) && id !in Ids(s)
    ensures UniqueIds(AddTodos(s, NewTodo(id, text, description, createdAt, |ActiveTodos(s)|)))
  {
    AddTodosKeepsIdsUnique(s, NewTodo(id, text, description, createdAt, |ActiveTodos(s)|));
  }

  lemma IdsOfSubMultiset(s: seq<Todo>, r: seq<Todo>)
    requires multiset(r) <= multiset(s)
    ensures forall id :: id in Ids(r) ==> id in Ids(s)
  {
    forall id | id in Ids(r) ensures id in Ids(s) {
      var k :| 0 <= k < |r| && Ids(r)[k] == id;
      assert r[k] in multiset(s);
      var m :| 0 <= m < |s| && s[m] == r[k];
      assert Ids(s)[m] == id;
    }
  }

  lemma UniqueIdsInsert(u: seq<Todo>, i: nat, t: Todo)
    requires i <= |u| && UniqueIds(u) && t.id !in Ids(u)
    ensures UniqueIds(InsertAt(u, i, t))
  {
    assert forall k :: 0 <= k < |u| ==> u[k].id != t.id by {
      forall k | 0 <= k < |u| ensures u[k].id != t.id {
        assert Ids(u)[k] == u[k].id;
      }
    }
    InsertAtOthers(u, i, t);
    var r := InsertAt(u, i, t);
    forall a, b | 0 <= a < |r| && 0 <= b < |r| && r[a].id == r[b].id
      ensures a == b
    {
      if a != i && b != i {
        var a', b' := if a < i then a else a - 1, if b < i then b else b - 1;
        assert r[a] == u[a'] && r[b] == u[b'];
      }
    }
  }

  /** Every position of `InsertAt(u, i, t)` except `i` holds an item of `u`. */
  lemma InsertAtOthers(u: seq<Todo>, i: nat, t: Todo)
    requires i <= |u|
    ensures forall k :: 0 <= k < i ==> InsertAt(u, i, t)[k] == u[k]
    ensures forall k :: i < k <= |u| ==> InsertAt(u, i, t)[k] == u[k - 1]
  {
    var r := InsertAt(u, i, t);
    assert r == u[..i] + [t] + u[i..];
  }

  // ---------------------------------------------------------------------------
  // toggleTodo

  /** The first step of a toggle: the todos with that id change status, the
      others stay as they are. */
  function FlipMatching(s: seq<Todo>, id: string): seq<Todo> {
    seq(|s|, i requires 0 <= i < |s| =>
      if s[i].id == id then s[i].(completed := !s[i].completed) else s[i])
  }

  /** Flip the matching items, put the active ones first and the completed ones
      after, each group in storage order, and renumber the whole list. */
  function ToggleTodos(s: seq<Todo>, id: string): seq<Todo> {
    var f := FlipMatching(s, id);
    Renumber(ActiveTodos(f) + CompletedTodos(f))
  }

  /** After a toggle the list is partitioned, every `order` is the index in the
      whole list, the active group is the flipped list's active items in storage
      order, and the completed group follows with ranks starting at the number
      of active items. */
  lemma ToggleTodosShape(s: seq<Todo>, id: string)
    ensures var r, f := ToggleTodos(s, id), FlipMatching(s, id);
      var a, c := ActiveTodos(f), CompletedTodos(f);
      && |r| == |s|
      && NumberedByIndex(r)
      && Partitioned(r)
      && (forall i :: 0 <= i < |a| ==> r[i] == a[i].(order := i))
      && (forall j :: 0 <= j < |c| ==> r[|a| + j] == c[j].(order := |a| + j))
  {
    var f := FlipMatching(s, id);
    var a, c := ActiveTodos(f), CompletedTodos(f);
    assert |a| + |c| == |s| by {
      PartitionSplit(f);
    }
    RenumberGroups(a, c);
    assert ToggleTodos(s, id) == Renumber(a + c);
  }

  /** Renumbering active items followed by completed ones gives a partitioned
      list ranked by index, the completed ranks starting after the active ones. */
  lemma RenumberGroups(a: seq<Todo>, c: seq<Todo>)
    requires forall i :: 0 <= i < |a| ==> !a[i].completed
    requires forall j :: 0 <= j < |c| ==> c[j].completed
    ensures var r := Renumber(a + c);
      && |r| == |a| + |c|
      && NumberedByIndex(r)
      && Partitioned(r)
      && (forall i :: 0 <= i < |a| ==> r[i] == a[i].(order := i))
      && (forall j :: 0 <= j < |c| ==> r[|a| + j] == c[j].(order := |a| + j))
  {
    var ac: seq<Todo> := a + c;
    var r := Renumber(ac);
    assert forall i :: 0 <= i < |a| ==> ac[i] == a[i];
    assert forall j :: 0 <= j < |c| ==> ac[|a| + j] == c[j];
    assert forall i :: 0 <= i < |r| ==> r[i].completed == (i >= |a|) by {
      forall i | 0 <= i < |r| ensures r[i].completed == (i >= |a|) {
        if i >= |a| {
          assert ac[|a| + (i - |a|)] == c[i - |a|];
        }
      }
    }
  }

  /** Toggling only flips `completed` on the items with that id and reorders:
      up to their ranks, the items of the result are the items of the list with
      the matching ones flipped, and the ids are the same. */
  lemma ToggleTodosItems(s: seq<Todo>, id: string)
    ensures var r, f := ToggleTodos(s, id), FlipMatching(s, id);
      && multiset(Unnumbered(r)) == multiset(Unnumbered(f))
      && multiset(Ids(r)) == multiset(Ids(s))
      && (forall i :: 0 <= i < |s| ==>
            f[i].completed == (s[i].completed != (s[i].id == id))
            && f[i].(completed := s[i].completed) == s[i])
  {
    var f := FlipMatching(s, id);
    var a, c := ActiveTodos(f), CompletedTodos(f);
    var r := ToggleTodos(s, id);
    PartitionSplit(f);
    assert Unnumbered(r) == Unnumbered(a + c);
    assert Ids(r) == Ids(a + c);
    assert Ids(f) == Ids(s);
    MapPermutation(a + c, f, (t: Todo) => t.(order := 0));
    MapPermutation(a + c, f, (t: Todo) => t.id);
  }

  /** Toggling keeps ids unique. */
  lemma ToggleTodosKeepsIdsUnique(s: seq<Todo>, id: string)
    requires UniqueIds(s)
    ensures UniqueIds(ToggleTodos(s, id))
  {
    var f := FlipMatching(s, id);
    var a, c := ActiveTodos(f), CompletedTodos(f);
    assert Ids(f) == Ids(s);
    UniqueIdsSameIds(s, f);
    PartitionSplit(f);
    UniqueIdsSubMultiset(f, a + c);
    assert Ids(ToggleTodos(s, id)) == Ids(a + c);
    UniqueIdsSameIds(a + c, ToggleTodos(s, id));
  }

  /** An unknown id flips nothing, but the list is still repartitioned and
      renumbered; a list already partitioned and numbered by index comes back
      unchanged. */
  lemma ToggleUnknownId(s: seq<Todo>, id: string)
    requires id !in Ids(s)
    ensures ToggleTodos(s, id) == Renumber(ActiveTodos(s) + CompletedTodos(s))
    ensures Partitioned(s) && NumberedByIndex(s) ==> ToggleTodos(s, id) == s
  {
    forall i | 0 <= i < |s| ensures s[i].id != id {
      assert Ids(s)[i] == s[i].id;
    }
    assert FlipMatching(s, id) == s;
    if Partitioned(s) && NumberedByIndex(s) {
      PartitionedIsActiveThenCompleted(s);
    }
  }

  // ---------------------------------------------------------------------------
  // deleteTodo

  /** The todos whose id is not `id`, in storage order. */
  function DeleteTodos(s: seq<Todo>, id: string): seq<Todo> {
    Filter(s, (t: Todo) => t.id != id)
  }

  /** Delete removes exactly the items with that id; the others keep their
      values (their `order` included) and their relative order; an unknown id
      changes nothing. */
  lemma DeleteTodosSpec(s: seq<Todo>, id: string)
    ensures var r := DeleteTodos(s, id);
      && (forall t :: t in r <==> t in s && t.id != id)
      && multiset(r) + multiset(Filter(s, (t: Todo) => t.id == id)) == multiset(s)
      && (id !in Ids(s) ==> r == s)
      && (UniqueIds(s) ==> UniqueIds(r))
  {
    var r := DeleteTodos(s, id);
    FilterMembers(s, (t: Todo) => t.id != id);
    FilterSplit(s, (t: Todo) => t.id != id, (t: Todo) => t.id == id);
    if id !in Ids(s) {
      forall k | 0 <= k < |s| ensures s[k].id != id {
        assert Ids(s)[k] == s[k].id;
      }
      FilterKeepsAll(s, (t: Todo) => t.id != id);
    }
    if UniqueIds(s) {
      UniqueIdsSubMultiset(s, r);
    }
  }

  /** Deleting from a concatenation deletes from each part: survivors keep
      their relative order. */
  lemma DeleteTodosConcat(a: seq<Todo>, b: seq<Todo>, id: string)
    ensures DeleteTodos(a + b, id) == DeleteTodos(a, id) + DeleteTodos(b, id)
  {
    FilterConcat(a, b, (t: Todo) => t.id != id);
  }

  // ---------------------------------------------------------------------------
  // updateTodo

  /** The new list of an update: each todo with that id gets the trimmed text
      and, when one is given, the trimmed description; the others stay. */
  function UpdateTodos(s: seq<Todo>, id: string, text: string, description: Option<string>): seq<Todo> {
    seq(|s|, i requires 0 <= i < |s| =>
      if s[i].id == id then
        s[i].(text := Trim(text),
              description := if description.Some? then Trim(description.value) else s[i].description)
      else s[i])
  }

  /** Update changes only text and description of the matching items and
      keeps everything else, list order and length included. */
  lemma UpdateTodosSpec(s: seq<Todo>, id: string, text: string, description: Option<string>)
    ensures var r := UpdateTodos(s, id, text, description);
      && |r| == |s|
      && Ids(r) == Ids(s)
      && (forall i :: 0 <= i < |s| ==>
            && r[i].completed == s[i].completed
            && r[i].createdAt == s[i].createdAt
            && r[i].order == s[i].order)
      && (forall i :: 0 <= i < |s| && s[i].id != id ==> r[i] == s[i])
      && (forall i :: 0 <= i < |s| && s[i].id == id ==>
            && r[i].text == Trim(text)
            && r[i].description == (if description.Some? then Trim(description.value) else s[i].description))
      && (UniqueIds(s) ==> UniqueIds(r))
      && ActiveTodos(r) == UpdateTodos(ActiveTodos(s), id, text, description)
  {
    var r := UpdateTodos(s, id, text, description);
    assert Ids(r) == Ids(s);
    if UniqueIds(s) {
      UniqueIdsSameIds(s, r);
    }
    UpdateCommutesWithActive(s, id, text, description);
  }

  lemma UpdateTodosConcat(a: seq<Todo>, b: seq<Todo>, id: string, text: string, description: Option<string>)
    ensures UpdateTodos(a + b, id, text, description)
         == UpdateTodos(a, id, text, description) + UpdateTodos(b, id, text, description)
  {
  }

  lemma {:induction false} UpdateCommutesWithActive(s: seq<Todo>, id: string, text: string, description: Option<string>)
    ensures ActiveTodos(UpdateTodos(s, id, text, description)) == UpdateTodos(ActiveTodos(s), id, text, description)
  {
    if s != [] {
      var h, t := [s[0]], s[1..];
      assert s == h + t;
      var uh, ut := UpdateTodos(h, id, text, description), UpdateTodos(t, id, text, description);
      UpdateTodosConcat(h, t, id, text, description);
      UpdateCommutesWithActive(t, id, text, description);
      FilterConcat(uh, ut, IsActive);
      FilterConcat(h, t, IsActive);
      UpdateTodosConcat(ActiveTodos(h), ActiveTodos(t), id, text, description);
      assert uh[0].completed == s[0].completed;
      assert uh[1..] == [] && h[1..] == [];
      assert ActiveTodos(uh) == UpdateTodos(ActiveTodos(h), id, text, description);
    }
  }

  // ---------------------------------------------------------------------------
  // clearCompleted

  /** The new list of clearing the completed todos: the active ones. */
  function ClearCompletedTodos(s: seq<Todo>): seq<Todo> {
    ActiveTodos(s)
  }

  /** Clearing keeps exactly the active items, unchanged and in order, drops
      exactly the completed ones, and is idempotent. */
  lemma ClearCompletedSpec(s: seq<Todo>)
    ensures var r := ClearCompletedTodos(s);
      && (forall t :: t in r <==> t in s && !t.completed)
      && multiset(r) + multiset(CompletedTodos(s)) == multiset(s)
      && ClearCompletedTodos(r) == r
      && (CompletedTodos(s) == [] ==> r == s)
      && (UniqueIds(s) ==> UniqueIds(r))
  {
    var r := ClearCompletedTodos(s);
    PartitionSplit(s);
    FilterMembers(s, IsActive);
    OnlyActive(r);
    if CompletedTodos(s) == [] {
      FilterMembers(s, IsCompleted);
      assert forall k :: 0 <= k < |s| ==> !s[k].completed by {
        forall k | 0 <= k < |s| ensures !s[k].completed {
          assert s[k] in s;
        }
      }
      OnlyActive(s);
    }
    if UniqueIds(s) {
      UniqueIdsSubMultiset(s, r);
    }
  }
}
