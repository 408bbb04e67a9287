/**
 * The derived view of `getFilteredTodos`: a search step, a status step, then
 * the array's built-in sort with the store's comparator. The sort is stable
 * (ECMAScript 2019 and later), so its result is fixed by the comparator; here
 * it is specified by a stable insertion sort (`SortView`) and done in place on
 * an array by `SortInPlace`.
 */
module TodoView {
  import opened TodoTypes
  import opened Seqs
  import opened JsStrings
  import opened TodoLists

  // ---------------------------------------------------------------------------
  // Search and status filter

  /** The lower-cased text or description contains the lower-cased query. */
  predicate MatchesQuery(t: Todo, searchQuery: string) {
    var query := ToLower(searchQuery);
    Includes(ToLower(t.text), query) || Includes(ToLower(t.description), query)
  }

  /** The search step: it applies only when the trimmed query is non-empty, and
      then matches with the untrimmed query. */
  function SearchTodos(s: seq<Todo>, searchQuery: string): seq<Todo> {
    if Trim(searchQuery) == [] then s
    else Filter(s, (t: Todo) => MatchesQuery(t, searchQuery))
  }

  /** The status step. */
  function StatusTodos(s: seq<Todo>, filter: FilterType): seq<Todo> {
    match filter
    case All => s
    case Active => ActiveTodos(s)
    case Completed => CompletedTodos(s)
  }

  predicate PassesSearch(t: Todo, searchQuery: string) {
    Trim(searchQuery) == [] || MatchesQuery(t, searchQuery)
  }

  predicate PassesStatus(t: Todo, filter: FilterType) {
    match filter
    case All => true
    case Active => !t.completed
    case Completed => t.completed
  }

  /** A todo the view shows: it passes both the search and the status test. */
  predicate IsVisible(t: Todo, filter: FilterType, searchQuery: string) {
    PassesSearch(t, searchQuery) && PassesStatus(t, filter)
  }

  /** `IsVisible` as the test handed to `Filter`. */
  function Visibility(filter: FilterType, searchQuery: string): Todo -> bool {
    (t: Todo) => IsVisible(t, filter, searchQuery)
  }

  // ---------------------------------------------------------------------------
  // The comparator and the stable sort

  /** Where the store's comparator is negative: an active todo comes before a
      completed one, and between todos of the same status the lower rank comes
      first. */
  predicate Precedes(a: Todo, b: Todo) {
    if a.completed != b.completed then !a.completed else a.order < b.order
  }

  /** No later item should come before an earlier one. */
  predicate Sorted(s: seq<Todo>) {
    forall i, j :: 0 <= i < j < |s| ==> !Precedes(s[j], s[i])
  }

  /** Inserts `x` after every item it does not precede, scanning from the end:
      one step of a stable insertion sort. */
  function InsertSorted(s: seq<Todo>, x: Todo): (r: seq<Todo>)
    ensures |r| == |s| + 1
  {
    if s == [] || !Precedes(x, s[|s| - 1]) then s + [x]
    else
      var init := s[..|s| - 1];
      assert s == init + [s[|s| - 1]];
      InsertSorted(init, x) + [s[|s| - 1]]
  }

  /** The stable sort by `Precedes`: insertion sort taking the items in storage
      order. */
  function SortView(s: seq<Todo>): (r: seq<Todo>)
    ensures |r| == |s|
  {
    if s == [] then []
    else
      var init := s[..|s| - 1];
      assert s == init + [s[|s| - 1]];
      InsertSorted(SortView(init), s[|s| - 1])
  }

  /** One insertion step adds exactly `x`. */
  lemma {:induction false} InsertSortedPermutes(s: seq<Todo>, x: Todo)
    ensures multiset(InsertSorted(s, x)) == multiset(s) + multiset{x}
  {
    if s != [] && Precedes(x, s[|s| - 1]) {
      var init := s[..|s| - 1];
      assert s == init + [s[|s| - 1]];
      InsertSortedPermutes(init, x);
    }
  }

  /** The sort is a permutation. */
  lemma {:induction false} SortViewPermutes(s: seq<Todo>)
    ensures multiset(SortView(s)) == multiset(s)
  {
    if s != [] {
      var init := s[..|s| - 1];
      assert s == init + [s[|s| - 1]];
      SortViewPermutes(init);
      InsertSortedPermutes(SortView(init), s[|s| - 1]);
    }
  }

  lemma PrecedesStrictOrder(a: Todo, b: Todo, c: Todo)
    ensures !Precedes(a, a)
    ensures Precedes(a, b) ==> !Precedes(b, a)
    ensures !Precedes(a, b) && !Precedes(b, c) ==> !Precedes(a, c)
  {
  }

  /** Everything in a sorted list comes no later than its last item. */
  lemma SortedLast(s: seq<Todo>, k: int)
    requires Sorted(s) && 0 <= k < |s|
    ensures !Precedes(s[|s| - 1], s[k])
  {
  }

  lemma {:induction false} InsertSortedKeepsSorted(s: seq<Todo>, x: Todo)
    requires Sorted(s)
    ensures Sorted(InsertSorted(s, x))
  {
    var r := InsertSorted(s, x);
    if s == [] || !Precedes(x, s[|s| - 1]) {
      forall i | 0 <= i < |s| ensures !Precedes(x, s[i]) {
        PrecedesStrictOrder(x, s[|s| - 1], s[i]);
      }
    } else {
      var init, e := s[..|s| - 1], s[|s| - 1];
      assert Sorted(init);
      InsertSortedKeepsSorted(init, x);
      var m := InsertSorted(init, x);
      InsertSortedPermutes(init, x);
      forall k | 0 <= k < |m| ensures !Precedes(e, m[k]) {
        assert m[k] in multiset(init) + multiset{x};
        if m[k] == x {
          PrecedesStrictOrder(x, e, x);
        } else {
          assert m[k] in init;
        }
      }
      assert r == m + [e];
    }
  }

  /** The view sort yields a sorted list. */
  lemma {:induction false} SortViewSorted(s: seq<Todo>)
    ensures Sorted(SortView(s))
  {
    if s != [] {
      SortViewSorted(s[..|s| - 1]);
      InsertSortedKeepsSorted(SortView(s[..|s| - 1]), s[|s| - 1]);
    }
  }

  /** Sorting a sorted list changes nothing. */
  lemma {:induction false} SortedFixpoint(s: seq<Todo>)
    requires Sorted(s)
    ensures SortView(s) == s
  {
    if s != [] {
      var init := s[..|s| - 1];
      assert Sorted(init);
      SortedFixpoint(init);
      if |s| > 1 {
        assert !Precedes(s[|s| - 1], s[|s| - 2]);
      }
      assert s == init + [s[|s| - 1]];
    }
  }

  /** Filtering commutes with one insertion step into a sorted list. */
  lemma {:induction false} FilterInsertSorted(s: seq<Todo>, x: Todo, p: Todo -> bool)
    requires Sorted(s)
    ensures Filter(InsertSorted(s, x), p)
         == if p(x) then InsertSorted(Filter(s, p), x) else Filter(s, p)
  {
    if s == [] || !Precedes(x, s[|s| - 1]) {
      FilterInsertAtEnd(s, x, p);
    } else {
      var init, e := s[..|s| - 1], s[|s| - 1];
      assert Sorted(init);
      FilterInsertSorted(init, x, p);
      FilterInsertBeforeLast(init, e, x, p);
      assert s == init + [e];
    }
  }

  lemma FilterInsertAtEnd(s: seq<Todo>, x: Todo, p: Todo -> bool)
    requires Sorted(s) && (s == [] || !Precedes(x, s[|s| - 1]))
    ensures Filter(InsertSorted(s, x), p)
         == if p(x) then InsertSorted(Filter(s, p), x) else Filter(s, p)
  {
    var f := Filter(s, p);
    FilterConcat(s, [x], p);
    assert [x][1..] == [];
    if p(x) && f != [] {
      FilterMembers(s, p);
      assert f[|f| - 1] in s;
      var k :| 0 <= k < |s| && s[k] == f[|f| - 1];
      SortedLast(s, k);
      PrecedesStrictOrder(x, s[|s| - 1], s[k]);
    }
  }

  lemma FilterInsertBeforeLast(init: seq<Todo>, e: Todo, x: Todo, p: Todo -> bool)
    requires Precedes(x, e)
    requires Filter(InsertSorted(init, x), p)
          == if p(x) then InsertSorted(Filter(init, p), x) else Filter(init, p)
    ensures Filter(InsertSorted(init + [e], x), p)
         == if p(x) then InsertSorted(Filter(init + [e], p), x) else Filter(init + [e], p)
  {
    var m := InsertSorted(init, x);
    InsertSortedSnoc(init, e, x);
    FilterSnoc(m, e, p);
    FilterSnoc(init, e, p);
    var fm, fi := Filter(m, p), Filter(init, p);
    if !p(e) {
      assert fm + [] == fm && fi + [] == fi;
    } else if p(x) {
      InsertSortedSnoc(fi, e, x);
    }
  }

  /** Inserting before a last item that `x` precedes goes under it. */
  lemma InsertSortedSnoc(s: seq<Todo>, e: Todo, x: Todo)
    requires Precedes(x, e)
    ensures InsertSorted(s + [e], x) == InsertSorted(s, x) + [e]
  {
    assert (s + [e])[..|s|] == s;
  }

  /** Filtering after the stable sort is sorting after the filter. */
  lemma {:induction false} FilterSortView(s: seq<Todo>, p: Todo -> bool)
    ensures Filter(SortView(s), p) == SortView(Filter(s, p))
  {
    if s != [] {
      var init, e := s[..|s| - 1], s[|s| - 1];
      assert s == init + [e];
      FilterSortView(init, p);
      SortViewSorted(init);
      FilterInsertSorted(SortView(init), e, p);
      FilterConcat(init, [e], p);
      assert [e][1..] == [];
      var fi := Filter(init, p);
      if p(e) {
        assert Filter(s, p) == fi + [e];
        assert (fi + [e])[..|fi|] == fi;
      } else {
        assert Filter(s, p) == fi;
      }
    }
  }

  /** Stability: the items that compare equal (same completion, same `order`)
      keep their storage order. */
  lemma SortViewStable(s: seq<Todo>, completed: bool, order: int)
    ensures Filter(SortView(s), (t: Todo) => t.completed == completed && t.order == order)
         == Filter(s, (t: Todo) => t.completed == completed && t.order == order)
  {
    var p := (t: Todo) => t.completed == completed && t.order == order;
    FilterSortView(s, p);
    var f := Filter(s, p);
    assert Sorted(f);
    SortedFixpoint(f);
  }

  // ---------------------------------------------------------------------------
  // The view

  /** The unsearched `all` view: the filter is `all` and the query is blank.
      Only there does the sort work on the store's own array, and only there
      is drag and drop allowed. */
  predicate UnsearchedAllView(filter: FilterType, searchQuery: string) {
    filter == All && Trim(searchQuery) == []
  }

  /** What `getFilteredTodos` returns: search, then the status filter, then
      the sort. */
  function View(s: seq<Todo>, filter: FilterType, searchQuery: string): seq<Todo> {
    SortView(StatusTodos(SearchTodos(s, searchQuery), filter))
  }

  lemma FilterTwice(s: seq<Todo>, p: Todo -> bool, q: Todo -> bool, pq: Todo -> bool)
    requires forall t :: pq(t) == (p(t) && q(t))
    ensures Filter(Filter(s, p), q) == Filter(s, pq)
  {
    if s != [] {
      FilterTwice(s[1..], p, q, pq);
      FilterConcat(if p(s[0]) then [s[0]] else [], Filter(s[1..], p), q);
    }
  }

  /** The two filter steps keep exactly the visible todos, in storage order. */
  lemma {:induction false} FilteredIsVisible(s: seq<Todo>, filter: FilterType, searchQuery: string)
    ensures StatusTodos(SearchTodos(s, searchQuery), filter)
         == Filter(s, Visibility(filter, searchQuery))
  {
    var vis := Visibility(filter, searchQuery);
    var st := (t: Todo) => PassesStatus(t, filter);
    var srch := SearchTodos(s, searchQuery);
    if Trim(searchQuery) == [] {
      match filter
      case All => FilterKeepsAll(s, vis);
      case Active => FilterTwice(s, (t: Todo) => true, IsActive, vis); FilterKeepsAll(s, (t: Todo) => true);
      case Completed => FilterTwice(s, (t: Todo) => true, IsCompleted, vis); FilterKeepsAll(s, (t: Todo) => true);
    } else {
      var m := (t: Todo) => MatchesQuery(t, searchQuery);
      match filter
      case All => FilterTwice(s, m, (t: Todo) => true, vis); FilterKeepsAll(srch, (t: Todo) => true);
      case Active => FilterTwice(s, m, IsActive, vis);
      case Completed => FilterTwice(s, m, IsCompleted, vis);
    }
  }

  /** What `getFilteredTodos` returns: the visible todos, stably sorted; so it
      holds exactly the visible todos, every active one before every completed
      one, ranks non-decreasing inside each group, and equal-ranked todos in
      storage order. */
  lemma ViewSpec(s: seq<Todo>, filter: FilterType, searchQuery: string)
    ensures var v, shown := View(s, filter, searchQuery), Filter(s, Visibility(filter, searchQuery));
      && v == SortView(shown)
      && multiset(v) == multiset(shown)
      && (forall t :: t in v <==> t in s && IsVisible(t, filter, searchQuery))
      && Partitioned(v)
      && (forall i, j :: 0 <= i < j < |v| && v[i].completed == v[j].completed ==> v[i].order <= v[j].order)
  {
    var shown := Filter(s, Visibility(filter, searchQuery));
    FilteredIsVisible(s, filter, searchQuery);
    var v := View(s, filter, searchQuery);
    assert v == SortView(shown);
    SortViewPermutes(shown);
    assert forall t :: t in v <==> t in s && IsVisible(t, filter, searchQuery) by {
      FilterMembers(s, Visibility(filter, searchQuery));
      forall t ensures t in v <==> t in shown {
        assert t in v <==> t in multiset(v);
      }
    }
    SortViewSorted(shown);
    SortedGroups(v);
  }

  /** A list sorted for the view has its active todos first, and ranks that do
      not decrease inside each group. */
  lemma SortedGroups(v: seq<Todo>)
    requires Sorted(v)
    ensures Partitioned(v)
    ensures forall i, j :: 0 <= i < j < |v| && v[i].completed == v[j].completed ==> v[i].order <= v[j].order
  {
  }

  /** Stability of the view: todos with equal completion and rank appear in
      their storage order. */
  lemma ViewStable(s: seq<Todo>, filter: FilterType, searchQuery: string, completed: bool, order: int)
    ensures var same := (t: Todo) => t.completed == completed && t.order == order;
      Filter(View(s, filter, searchQuery), same)
      == Filter(Filter(s, Visibility(filter, searchQuery)), same)
  {
    FilteredIsVisible(s, filter, searchQuery);
    SortViewStable(Filter(s, Visibility(filter, searchQuery)), completed, order);
  }

  /** The in-place sort leaves the store's `todos` sorted when the view is
      unfiltered; every later view of the sorted list is the same as the view of
      the list before, whatever the filter and search. */
  lemma ViewOfSortedStore(s: seq<Todo>, filter: FilterType, searchQuery: string)
    ensures View(SortView(s), filter, searchQuery) == View(s, filter, searchQuery)
  {
    var vis := Visibility(filter, searchQuery);
    FilteredIsVisible(s, filter, searchQuery);
    FilteredIsVisible(SortView(s), filter, searchQuery);
    FilterSortView(s, vis);
    SortViewSorted(Filter(s, vis));
    SortedFixpoint(SortView(Filter(s, vis)));
  }

  /** With no search and the `all` filter, the view is the stable sort of the
      whole list (the array the sort works on is the store's own). */
  lemma UnfilteredView(s: seq<Todo>, filter: FilterType, searchQuery: string)
    requires UnsearchedAllView(filter, searchQuery)
    ensures View(s, filter, searchQuery) == SortView(s)
  {
  }

  // ---------------------------------------------------------------------------
  // The sort in place

  /** `x` lands right after the last item it does not precede. */
  lemma {:induction false} InsertSortedAt(s: seq<Todo>, x: Todo, j: nat)
    requires j <= |s| && (j == 0 || !Precedes(x, s[j - 1]))
    requires forall k :: j <= k < |s| ==> Precedes(x, s[k])
    ensures InsertSorted(s, x) == s[..j] + [x] + s[j..]
    decreases |s|
  {
    if j < |s| {
      var init := s[..|s| - 1];
      assert init[..j] == s[..j];
      InsertSortedAt(init, x, j);
      assert s[j..] == init[j..] + [s[|s| - 1]];
    }
  }

  lemma SortViewPrefix(s: seq<Todo>, i: nat)
    requires i < |s|
    ensures SortView(s[..i + 1]) == InsertSorted(SortView(s[..i]), s[i])
  {
    assert s[..i + 1][..i] == s[..i];
  }

  /** One pass of insertion sort: shifts the items before `a[i]` that it
      precedes one place up and drops it into the gap. */
  method InsertInPlace(a: array<Todo>, i: nat)
    requires i < a.Length
    modifies a
    ensures a[..i + 1] == InsertSorted(old(a[..i]), old(a[i]))
    ensures forall k :: i < k < a.Length ==> a[k] == old(a[k])
  {
    var x := a[i];
    ghost var sorted := a[..i];
    var j := i;
    while j > 0 && Precedes(x, a[j - 1])
      invariant 0 <= j <= i
      invariant forall k :: 0 <= k < j ==> a[k] == sorted[k]
      invariant forall k :: j < k <= i ==> a[k] == sorted[k - 1]
      invariant forall k :: i < k < a.Length ==> a[k] == old(a[k])
      invariant forall k :: j <= k < i ==> Precedes(x, sorted[k])
    {
      a[j] := a[j - 1];
      j := j - 1;
    }
    a[j] := x;
    InsertSortedAt(sorted, x, j);
    ghost var target := sorted[..j] + [x] + sorted[j..];
    forall k | 0 <= k <= i ensures a[k] == target[k] {
      if k > j {
        assert target[k] == sorted[k - 1];
      }
    }
    assert a[..i + 1] == target;
  }

  /** The built-in stable sort of an array with the comparator: ends with `SortView` of the
      old contents. */
  method SortInPlace(a: array<Todo>)
    modifies a
    ensures a[..] == SortView(old(a[..]))
  {
    ghost var input := a[..];
    var i := 0;
    while i < a.Length
      invariant 0 <= i <= a.Length
      invariant a[..i] == SortView(input[..i])
      invariant forall k :: i <= k < a.Length ==> a[k] == input[k]
    {
      InsertInPlace(a, i);
      SortViewPrefix(input, i);
      i := i + 1;
    }
    assert input[..a.Length] == input;
  }
}
