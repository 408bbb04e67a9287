/**
 * Small worked cases of the store's less obvious behaviour, each stated on
 * concrete lists.
 */
module TodoScenarios {
  import opened TodoTypes
  import opened Seqs
  import opened JsStrings
  import opened TodoLists
  import opened TodoView
  import opened TodoReorder

  function Item(id: string, completed: bool, order: int): Todo {
    Todo(id, id, "", completed, 0, order)
  }

  /** An active todo stored after another but ranked below it is viewed first. */
  lemma LowerRankViewedFirst(c: Todo, d: Todo)
    requires !c.completed && !d.completed && d.order < c.order
    ensures View([c, d], All, "") == [d, c]
  {
    assert SearchTodos([c, d], "") == [c, d] by { TrimSpec(""); }
    assert StatusTodos([c, d], All) == [c, d];
    assert [c, d][..1] == [c] && [c][..0] == [];
    assert SortView([c]) == [c] by { assert SortView([]) == []; }
    assert InsertSorted([], d) == [d];
    assert InsertSorted([c], d) == [d, c];
  }

  /** After deleting the first two of three active todos, ranked 0, 1 and 2,
      the next added todo is ranked 1, below the survivor's rank 2 although it
      is stored after it; the view puts it first, and with the `all` filter
      and no search the in-place sort writes that order back into `todos`. */
  lemma AddAfterDeletesIsViewedFirst(a: Todo, b: Todo, c: Todo, id: string, text: string, description: string, createdAt: int)
    requires !a.completed && !b.completed && !c.completed
    requires a.order == 0 && b.order == 1 && c.order == 2
    requires a.id != b.id && a.id != c.id && b.id != c.id
    ensures var s := DeleteTodos(DeleteTodos([a, b, c], a.id), b.id);
      var n := NewTodo(id, text, description, createdAt, |ActiveTodos(s)|);
      && s == [c]
      && n.order == 1
      && AddTodos(s, n) == [c, n]
      && View(AddTodos(s, n), All, "") == [n, c]
  {
    assert DeleteTodos(DeleteTodos([a, b, c], a.id), b.id) == [c] by {
      assert [a, b, c][1..] == [b, c] && [b, c][1..] == [c] && [c][1..] == [];
      assert DeleteTodos([c], a.id) == [c];
      assert DeleteTodos([b, c], a.id) == [b, c];
      assert DeleteTodos([a, b, c], a.id) == [b, c];
      assert DeleteTodos([c], b.id) == [c];
      assert DeleteTodos([b, c], b.id) == [c];
    }
    assert [c][1..] == [];
    assert ActiveTodos([c]) == [c];
    assert CompletedTodos([c]) == [];
    var n := NewTodo(id, text, description, createdAt, 1);
    assert AddTodos([c], n) == [c, n];
    LowerRankViewedFirst(c, n);
  }

  /** Two active todos can share a rank; the view keeps them in storage order. */
  lemma EqualRanksKeepStorageOrder()
    ensures View([Item("b", false, 1), Item("c", false, 1)], All, "") == [Item("b", false, 1), Item("c", false, 1)]
  {
    var b, c := Item("b", false, 1), Item("c", false, 1);
    assert SortView([b]) == [b];
    assert [b, c][..1] == [b];
  }

  /** Toggling an id that no todo has still moves the active todos first and
      renumbers everything by index. */
  lemma ToggleUnknownIdRenumbers()
    ensures ToggleTodos([Item("x", true, 0), Item("y", false, 5)], "z")
         == [Item("y", false, 0), Item("x", true, 1)]
  {
    var x, y := Item("x", true, 0), Item("y", false, 5);
    assert FlipMatching([x, y], "z") == [x, y];
    assert [x, y][1..] == [y] && [y][1..] == [];
    assert ActiveTodos([y]) == [y];
    assert ActiveTodos([x, y]) == [y];
    assert CompletedTodos([y]) == [];
    assert CompletedTodos([x, y]) == [x];
    assert [y] + [x] == [y, x];
  }

  /** A leading space does not change the trimmed query. */
  lemma PaddedQueryTrimsAlike(q: string)
    ensures Trim(" " + q) == Trim(q)
  {
    var padded := " " + q;
    assert padded[1..] == q;
    assert LeadingWhiteSpace(padded) == 1 + LeadingWhiteSpace(q);
    assert padded[LeadingWhiteSpace(padded)..] == q[LeadingWhiteSpace(q)..];
  }

  /** A query that is not all white space finds a todo whose text it is. */
  lemma QueryFindsItsText(t: Todo, q: string)
    requires t.text == q && !AllWhiteSpace(q)
    ensures SearchTodos([t], q) == [t]
  {
    TrimSpec(q);
    var lower := ToLower(q);
    assert OccursAt(lower, lower, 0);
    assert MatchesQuery(t, q);
  }

  /** A non-blank query longer than a todo's text and description misses it. */
  lemma LongerQueryMisses(t: Todo, q: string)
    requires !AllWhiteSpace(q) && |t.text| < |q| && |t.description| < |q|
    ensures SearchTodos([t], q) == []
  {
    TrimSpec(q);
    assert |ToLower(t.text)| < |ToLower(q)| && |ToLower(t.description)| < |ToLower(q)|;
    assert !MatchesQuery(t, q);
  }

  /** The query decides whether to search after trimming but matches as typed:
      a query and the same query after a leading space trim alike, yet a todo
      whose text is the query is found by the first and missed by the second
      when its description is no longer than the query. */
  lemma SearchUsesUntrimmedQuery(t: Todo, q: string)
    requires t.text == q && !AllWhiteSpace(q) && |t.description| <= |q|
    ensures Trim(" " + q) == Trim(q)
    ensures SearchTodos([t], q) == [t]
    ensures SearchTodos([t], " " + q) == []
  {
    PaddedQueryTrimsAlike(q);
    QueryFindsItsText(t, q);
    assert !AllWhiteSpace(" " + q) by {
      var k :| 0 <= k < |q| && !IsWhiteSpace(q[k]);
      assert (" " + q)[k + 1] == q[k];
    }
    LongerQueryMisses(t, " " + q);
  }

  /** Dragging the first of three active todos, ranked 0, 1, 2, to the end
      moves it behind the other two and renumbers all three. */
  lemma DragFirstToLast(a: Todo, b: Todo, c: Todo)
    requires !a.completed && !b.completed && !c.completed
    requires a.order == 0 && b.order == 1 && c.order == 2
    ensures var r := ReorderedTodos([a, b, c], 0, 2);
      |r| == 3 && r[0] == b.(order := 0) && r[1] == c.(order := 1) && r[2] == a.(order := 2)
  {
    var s := [a, b, c];
    assert SortView(s) == s by {
      assert Partitioned(s) && NumberedByIndex(s);
      PartitionedNumberedSorted(s);
      SortedFixpoint(s);
    }
    var m := Move(s, 0, 2);
    assert m == [b, c, a] by {
      assert RemoveAt(m, 2)[0] == m[0] && RemoveAt(m, 2)[1] == m[1];
    }
  }
}
