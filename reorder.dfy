/**
 * The list computation of `reorderTodos`: take the sorted view, move one item
 * with the two `splice` calls, and give every item its new index as `order`.
 */
module TodoReorder {
  import opened TodoTypes
  import opened Seqs
  import opened JsStrings
  import opened TodoLists
  import opened TodoView

  /** The new `todos` of an allowed reorder: the item at `from` of the sorted
      list moved to `to`, then everything renumbered by index. */
  function ReorderedTodos(s: seq<Todo>, from: nat, to: nat): seq<Todo>
    requires from < |s| && to < |s|
  {
    Renumber(Move(SortView(s), from, to))
  }

  /** The two `splice` calls on the sorted list compute the reorder. */
  lemma ReorderBySplices(s: seq<Todo>, from: nat, to: nat)
    requires from < |s| && to < |s|
    ensures var v := SortView(s);
      Renumber(InsertAt(RemoveAt(v, from), to, v[from])) == ReorderedTodos(s, from, to)
  {
  }

  /** Blanking the ranks forgets a renumbering. */
  lemma UnnumberedRenumber(s: seq<Todo>)
    ensures Unnumbered(Renumber(s)) == Unnumbered(s)
    ensures Ids(Renumber(s)) == Ids(s)
  {
  }

  /** A list already numbered by index is its own renumbering. */
  lemma RenumberNumbered(s: seq<Todo>)
    requires NumberedByIndex(s)
    ensures Renumber(s) == s
  {
  }

  /** A partitioned list numbered by index is sorted for the view. */
  lemma PartitionedNumberedSorted(s: seq<Todo>)
    requires Partitioned(s) && NumberedByIndex(s)
    ensures Sorted(s)
  {
  }

  /** What an allowed reorder produces, read against the sorted view `v`: the
      moved item sits at `to`, the others keep their view order around it, every
      rank is the new index, and the items, ids and length are the same. */
  lemma ReorderSpec(s: seq<Todo>, from: nat, to: nat)
    requires from < |s| && to < |s|
    ensures var r, v := ReorderedTodos(s, from, to), SortView(s);
      && |r| == |s|
      && NumberedByIndex(r)
      && r[to] == v[from].(order := to)
      && (forall k :: 0 <= k < to ==> r[k] == RemoveAt(v, from)[k].(order := k))
      && (forall k :: to < k < |r| ==> r[k] == RemoveAt(v, from)[k - 1].(order := k))
      && multiset(Unnumbered(r)) == multiset(Unnumbered(s))
      && multiset(Ids(r)) == multiset(Ids(s))
  {
    var v := SortView(s);
    var m := Move(v, from, to);
    var r := Renumber(m);
    forall k | 0 <= k < to ensures r[k] == RemoveAt(v, from)[k].(order := k) {
      assert RemoveAt(m, to)[k] == m[k];
    }
    forall k | to < k < |r| ensures r[k] == RemoveAt(v, from)[k - 1].(order := k) {
      assert RemoveAt(m, to)[k - 1] == m[k];
    }
    SortViewPermutes(s);
    UnnumberedRenumber(m);
    MapPermutation(m, s, (t: Todo) => t.(order := 0));
    MapPermutation(m, s, (t: Todo) => t.id);
  }

  /** Reordering keeps ids unique. */
  lemma ReorderKeepsIdsUnique(s: seq<Todo>, from: nat, to: nat)
    requires from < |s| && to < |s| && UniqueIds(s)
    ensures UniqueIds(ReorderedTodos(s, from, to))
  {
    var m := Move(SortView(s), from, to);
    SortViewPermutes(s);
    UniqueIdsSubMultiset(s, m);
    UnnumberedRenumber(m);
    UniqueIdsSameIds(m, Renumber(m));
  }

  /** Dropping an item where it was still renumbers: the result is the sorted
      list numbered by index, which is the list itself when it was already
      partitioned and numbered by index. */
  lemma ReorderSameIndex(s: seq<Todo>, i: nat)
    requires i < |s|
    ensures ReorderedTodos(s, i, i) == Renumber(SortView(s))
    ensures Partitioned(s) && NumberedByIndex(s) ==> ReorderedTodos(s, i, i) == s
  {
    var v := SortView(s);
    MoveInPlace(v, i);
    assert ReorderedTodos(s, i, i) == Renumber(v);
    if Partitioned(s) && NumberedByIndex(s) {
      PartitionedNumberedSorted(s);
      SortedFixpoint(s);
      RenumberNumbered(s);
    }
  }
}
