/**
 * The JavaScript array operations the store builds on: `Array.prototype.filter`,
 * `Array.prototype.map` and the `splice` pair that moves one element of a list.
 */
module Seqs {

  /** Filtering: the elements of `s` that satisfy `p`, in their order in `s`. */
  function Filter<T(!new)>(s: seq<T>, p: T -> bool): (r: seq<T>)
    ensures |r| <= |s|
    ensures forall k :: 0 <= k < |r| ==> p(r[k])
  {
    if s == [] then []
    else
      assert s == [s[0]] + s[1..];
      (if p(s[0]) then [s[0]] else []) + Filter(s[1..], p)
  }

  /** The kept elements are elements of `s`, each kept at most as often as it
      occurs in `s`, and every element of `s` that satisfies `p` is kept. */
  lemma {:induction false} FilterMembers<T(!new)>(s: seq<T>, p: T -> bool)
    ensures multiset(Filter(s, p)) <= multiset(s)
    ensures forall x :: x in Filter(s, p) <==> x in s && p(x)
  {
    if s != [] {
      FilterMembers(s[1..], p);
      assert s == [s[0]] + s[1..];
    }
  }

  /** Filtering distributes over concatenation, so the kept elements stay in
      their relative order. */
  lemma {:induction false} FilterConcat<T(!new)>(a: seq<T>, b: seq<T>, p: T -> bool)
    ensures Filter(a + b, p) == Filter(a, p) + Filter(b, p)
  {
    if a == [] {
      assert a + b == b;
    } else {
      assert (a + b)[1..] == a[1..] + b;
      FilterConcat(a[1..], b, p);
    }
  }

  /** Filtering a list with one more element at its end. */
  lemma FilterSnoc<T(!new)>(s: seq<T>, x: T, p: T -> bool)
    ensures Filter(s + [x], p) == Filter(s, p) + (if p(x) then [x] else [])
  {
    FilterConcat(s, [x], p);
    assert [x][1..] == [];
  }

  /** Filtering by `p` and by its complement splits `s` without loss. */
  lemma {:induction false} FilterSplit<T(!new)>(s: seq<T>, p: T -> bool, q: T -> bool)
    requires forall x :: q(x) == !p(x)
    ensures multiset(Filter(s, p)) + multiset(Filter(s, q)) == multiset(s)
  {
    if s != [] {
      var h, t := s[0], s[1..];
      FilterSplit(t, p, q);
      assert multiset(s) == multiset{h} + multiset(t) by {
        assert s == [h] + t;
      }
      FilterCons(s, p);
      FilterCons(s, q);
      if p(h) {
        assert !q(h);
        assert multiset(Filter(s, p)) == multiset{h} + multiset(Filter(t, p));
        assert multiset(Filter(s, q)) == multiset(Filter(t, q));
      } else {
        assert q(h);
        assert multiset(Filter(s, p)) == multiset(Filter(t, p));
        assert multiset(Filter(s, q)) == multiset{h} + multiset(Filter(t, q));
      }
    }
  }

  /** One step of `Filter`: the head is kept exactly when it passes. */
  lemma FilterCons<T(!new)>(s: seq<T>, p: T -> bool)
    requires s != []
    ensures multiset(Filter(s, p)) == (if p(s[0]) then multiset{s[0]} else multiset{}) + multiset(Filter(s[1..], p))
  {
  }

  /** A filter that every element passes changes nothing. */
  lemma {:induction false} FilterKeepsAll<T(!new)>(s: seq<T>, p: T -> bool)
    requires forall k :: 0 <= k < |s| ==> p(s[k])
    ensures Filter(s, p) == s
  {
    if s != [] {
      FilterKeepsAll(s[1..], p);
      assert s == [s[0]] + s[1..];
    }
  }

  /** A filter that no element passes leaves nothing. */
  lemma {:induction false} FilterKeepsNone<T(!new)>(s: seq<T>, p: T -> bool)
    requires forall k :: 0 <= k < |s| ==> !p(s[k])
    ensures Filter(s, p) == []
  {
    if s != [] {
      FilterKeepsNone(s[1..], p);
    }
  }

  /** Mapping: `g` applied to every element, in order. */
  function Map<T, U>(s: seq<T>, g: T -> U): seq<U> {
    seq(|s|, k requires 0 <= k < |s| => g(s[k]))
  }

  /** Taking one element out of a list takes its image out of the mapped
      list. */
  lemma MapRemove<T, U>(b: seq<T>, k: nat, g: T -> U)
    requires k < |b|
    ensures multiset(Map(b, g)) == multiset(Map(b[..k] + b[k + 1..], g)) + multiset{g(b[k])}
  {
    assert Map(b, g) == Map(b[..k], g) + [g(b[k])] + Map(b[k + 1..], g);
    assert Map(b[..k] + b[k + 1..], g) == Map(b[..k], g) + Map(b[k + 1..], g);
  }

  /** Taking one occurrence of `a[0]` out of a permutation `b` of `a` leaves a
      permutation of `a[1..]`. */
  lemma RemoveMatching<T>(a: seq<T>, b: seq<T>, k: nat)
    requires multiset(a) == multiset(b) && a != [] && k < |b| && b[k] == a[0]
    ensures multiset(b[..k] + b[k + 1..]) == multiset(a[1..])
  {
    assert b == b[..k] + [b[k]] + b[k + 1..];
    assert a == [a[0]] + a[1..];
    calc {
      multiset(b[..k] + b[k + 1..]);
      multiset(b[..k]) + multiset(b[k + 1..]);
      multiset(b) - multiset{a[0]};
      multiset(a) - multiset{a[0]};
      multiset(a[1..]);
    }
  }

  /** Mapping over a permutation gives a permutation of the mapped list. */
  lemma {:induction false} MapPermutation<T, U>(a: seq<T>, b: seq<T>, g: T -> U)
    requires multiset(a) == multiset(b)
    ensures multiset(Map(a, g)) == multiset(Map(b, g))
    decreases |a|
  {
    if a == [] {
      assert |multiset(b)| == 0;
    } else {
      var x := a[0];
      assert x in multiset(b);
      var k :| 0 <= k < |b| && b[k] == x;
      var rest := b[..k] + b[k + 1..];
      RemoveMatching(a, b, k);
      MapPermutation(a[1..], rest, g);
      MapRemove(b, k, g);
      assert multiset(Map(a, g)) == multiset{g(x)} + multiset(Map(a[1..], g)) by {
        assert Map(a, g) == [g(x)] + Map(a[1..], g);
      }
    }
  }

  /** Removing one element: the list without its element at `i`. */
  function RemoveAt<T>(s: seq<T>, i: nat): (r: seq<T>)
    requires i < |s|
    ensures |r| == |s| - 1
    ensures forall k :: 0 <= k < i ==> r[k] == s[k]
    ensures forall k :: i <= k < |r| ==> r[k] == s[k + 1]
  {
    s[..i] + s[i + 1..]
  }

  /** Inserting one element: the list with `x` inserted before index `i`. */
  function InsertAt<T>(s: seq<T>, i: nat, x: T): (r: seq<T>)
    requires i <= |s|
    ensures |r| == |s| + 1 && r[i] == x
    ensures RemoveAt(r, i) == s
  {
    assert (s[..i] + [x] + s[i..])[..i] == s[..i];
    assert (s[..i] + [x] + s[i..])[i + 1..] == s[i..];
    s[..i] + [x] + s[i..]
  }

  /** Takes the element at `from` out and puts it back at `to`: the result
      holds `s[from]` at `to`, and without it is `s` without `s[from]`. */
  function Move<T>(s: seq<T>, from: nat, to: nat): (r: seq<T>)
    requires from < |s| && to < |s|
    ensures |r| == |s| && r[to] == s[from]
    ensures RemoveAt(r, to) == RemoveAt(s, from)
    ensures multiset(r) == multiset(s)
  {
    var rest := RemoveAt(s, from);
    var r := InsertAt(rest, to, s[from]);
    assert s == s[..from] + [s[from]] + s[from + 1..];
    assert r == rest[..to] + [s[from]] + rest[to..];
    assert rest == rest[..to] + rest[to..];
    assert multiset(r) == multiset(rest) + multiset{s[from]};
    assert multiset(s) == multiset(rest) + multiset{s[from]};
    r
  }

  /** Moving an element onto its own index changes nothing. */
  lemma MoveInPlace<T>(s: seq<T>, i: nat)
    requires i < |s|
    ensures Move(s, i, i) == s
  {
    assert s == s[..i] + [s[i]] + s[i + 1..];
  }
}
