/** Generic sequence operations used to model table scans, list filters and
    pagination: `.filter`, `.first()`, `.count()`, `.offset().limit()`. */
module Seqs {
  import opened Wrappers

  function Min(a: int, b: int): int {
    if a <= b then a else b
  }

  /** The elements of `xs` satisfying `p`, in their original order. */
  function Filter<T>(xs: seq<T>, p: T -> bool): (r: seq<T>)
    ensures |r| <= |xs|
    ensures forall i :: 0 <= i < |r| ==> p(r[i])
    decreases |xs|
  {
    if xs == [] then []
    else (if p(xs[0]) then [xs[0]] else []) + Filter(xs[1..], p)
  }

  /** Filtering distributes over concatenation: it keeps the relative order
      of the surviving elements. */
  lemma {:induction false} FilterConcat<T>(a: seq<T>, b: seq<T>, p: T -> bool)
    ensures Filter(a + b, p) == Filter(a, p) + Filter(b, p)
    decreases |a|
  {
    if a == [] {
      assert a + b == b;
    } else {
      assert (a + b)[1..] == a[1..] + b;
      FilterConcat(a[1..], b, p);
    }
  }

  /** An element survives filtering exactly when it is in the input and
      satisfies the predicate. */
  lemma {:induction false} FilterMembership<T>(xs: seq<T>, p: T -> bool, x: T)
    ensures x in Filter(xs, p) <==> x in xs && p(x)
    decreases |xs|
  {
    if xs != [] {
      FilterMembership(xs[1..], p, x);
      assert xs == [xs[0]] + xs[1..];
    }
  }

  /** Filtering with a predicate every element satisfies changes nothing. */
  lemma {:induction false} FilterKeepsAll<T>(xs: seq<T>, p: T -> bool)
    requires forall i :: 0 <= i < |xs| ==> p(xs[i])
    ensures Filter(xs, p) == xs
    decreases |xs|
  {
    if xs != [] {
      FilterKeepsAll(xs[1..], p);
    }
  }

  /** Filtering keeps every element's multiplicity when the predicate holds
      of it, and drops it otherwise. */
  lemma {:induction false} FilterMultiset<T>(xs: seq<T>, p: T -> bool, x: T)
    ensures multiset(Filter(xs, p))[x] == if p(x) then multiset(xs)[x] else 0
    decreases |xs|
  {
    if xs != [] {
      FilterMultiset(xs[1..], p, x);
      assert xs == [xs[0]] + xs[1..];
    }
  }

  /** Filtering with a predicate no element satisfies leaves nothing. */
  lemma {:induction false} FilterNone<T>(xs: seq<T>, p: T -> bool)
    requires forall i :: 0 <= i < |xs| ==> !p(xs[i])
    ensures Filter(xs, p) == []
    decreases |xs|
  {
    if xs != [] {
      FilterNone(xs[1..], p);
    }
  }

  /** Filtering by a predicate that implies an earlier filter's predicate
      sees through the earlier filter. */
  lemma {:induction false} FilterFilter<T>(xs: seq<T>, q: T -> bool, p: T -> bool)
    requires forall i :: 0 <= i < |xs| && p(xs[i]) ==> q(xs[i])
    ensures Filter(Filter(xs, q), p) == Filter(xs, p)
    decreases |xs|
  {
    if xs != [] {
      FilterFilter(xs[1..], q, p);
      FilterConcat(if q(xs[0]) then [xs[0]] else [], Filter(xs[1..], q), p);
      assert Filter([xs[0]], p) == (if p(xs[0]) then [xs[0]] else []) + Filter([], p);
    }
  }

  /** The number of elements satisfying `p` (SQL `COUNT(*) ... WHERE p`). */
  function Count<T>(xs: seq<T>, p: T -> bool): nat {
    |Filter(xs, p)|
  }

  lemma CountAppend<T>(xs: seq<T>, x: T, p: T -> bool)
    ensures Count(xs + [x], p) == Count(xs, p) + (if p(x) then 1 else 0)
  {
    FilterConcat(xs, [x], p);
    assert Filter([x], p) == (if p(x) then [x] else []) + Filter([], p);
  }

  /** Removing the element at `i` lowers the count by one exactly when that
      element satisfied the predicate. */
  lemma CountRemoveAt<T>(xs: seq<T>, i: nat, p: T -> bool)
    requires i < |xs|
    ensures Count(RemoveAt(xs, i), p) == Count(xs, p) - (if p(xs[i]) then 1 else 0)
  {
    assert xs == xs[..i] + ([xs[i]] + xs[i + 1..]);
    FilterConcat(xs[..i], [xs[i]] + xs[i + 1..], p);
    FilterConcat([xs[i]], xs[i + 1..], p);
    FilterConcat(xs[..i], xs[i + 1..], p);
    assert Filter([xs[i]], p) == (if p(xs[i]) then [xs[i]] else []) + Filter([], p);
  }

  /** A count is positive exactly when some element satisfies the predicate. */
  lemma CountPositive<T>(xs: seq<T>, i: nat, p: T -> bool)
    requires i < |xs| && p(xs[i])
    ensures Count(xs, p) >= 1
  {
    assert xs == xs[..i] + ([xs[i]] + xs[i + 1..]);
    FilterConcat(xs[..i], [xs[i]] + xs[i + 1..], p);
    FilterConcat([xs[i]], xs[i + 1..], p);
  }

  /** The index of the first element satisfying `p` (SQL `.first()`). */
  function FirstIndex<T>(xs: seq<T>, p: T -> bool): (r: Option<nat>)
    ensures r.Some? ==> r.value < |xs| && p(xs[r.value])
    ensures r.Some? ==> forall j :: 0 <= j < r.value ==> !p(xs[j])
    ensures r.None? <==> forall j :: 0 <= j < |xs| ==> !p(xs[j])
    decreases |xs|
  {
    if xs == [] then None
    else if p(xs[0]) then Some(0)
    else
      match FirstIndex(xs[1..], p)
      case None => None
      case Some(i) => Some(i + 1)
  }

  /** Replacing the first match by another match keeps it the first. */
  lemma FirstIndexReplace<T>(xs: seq<T>, i: nat, y: T, p: T -> bool)
    requires FirstIndex(xs, p) == Some(i) && p(y)
    ensures FirstIndex(xs[i := y], p) == Some(i)
  {
    var ys := xs[i := y];
    assert forall j :: 0 <= j < i ==> ys[j] == xs[j];
    assert p(ys[i]);
    var r := FirstIndex(ys, p);
    assert r.value >= i;
  }

  /** An element appended after no earlier match is the first match. */
  lemma {:induction false} FirstIndexAppend<T>(xs: seq<T>, x: T, p: T -> bool)
    requires FirstIndex(xs, p).None? && p(x)
    ensures FirstIndex(xs + [x], p) == Some(|xs|)
    decreases |xs|
  {
    if xs == [] {
      assert xs + [x] == [x];
    } else {
      assert !p(xs[0]);
      assert FirstIndex(xs[1..], p).None?;
      FirstIndexAppend(xs[1..], x, p);
      assert (xs + [x])[1..] == xs[1..] + [x];
    }
  }

  /** `xs` without its element at position `i`. */
  function RemoveAt<T>(xs: seq<T>, i: nat): (r: seq<T>)
    requires i < |xs|
    ensures |r| == |xs| - 1
    ensures forall j :: 0 <= j < i ==> r[j] == xs[j]
    ensures forall j :: i <= j < |r| ==> r[j] == xs[j + 1]
  {
    xs[..i] + xs[i + 1..]
  }

  lemma RemoveAtMultiset<T>(xs: seq<T>, i: nat)
    requires i < |xs|
    ensures multiset(RemoveAt(xs, i)) + multiset{xs[i]} == multiset(xs)
  {
    assert xs == xs[..i] + [xs[i]] + xs[i + 1..];
  }

  /** No two elements share a key (a primary key constraint). */
  predicate DistinctBy<T, K(==)>(xs: seq<T>, key: T -> K) {
    forall i, j :: 0 <= i < j < |xs| ==> key(xs[i]) != key(xs[j])
  }

  /** Rewriting rows without touching their keys keeps a primary key. */
  lemma SameKeysDistinct<T, K>(xs: seq<T>, ys: seq<T>, key: T -> K)
    requires DistinctBy(xs, key) && |ys| == |xs|
    requires forall j :: 0 <= j < |xs| ==> key(ys[j]) == key(xs[j])
    ensures DistinctBy(ys, key)
  {
    forall a, b | 0 <= a < b < |ys|
      ensures key(ys[a]) != key(ys[b])
    {
      assert key(ys[a]) == key(xs[a]) && key(ys[b]) == key(xs[b]);
    }
  }

  /** Deleting a row keeps a primary key. */
  lemma RemoveAtDistinct<T, K>(xs: seq<T>, k: nat, key: T -> K)
    requires k < |xs| && DistinctBy(xs, key)
    ensures DistinctBy(RemoveAt(xs, k), key)
  {
    var rest := RemoveAt(xs, k);
    forall a, b | 0 <= a < b < |rest|
      ensures key(rest[a]) != key(rest[b])
    {
      var a' := if a < k then a else a + 1;
      var b' := if b < k then b else b + 1;
      assert rest[a] == xs[a'] && rest[b] == xs[b'];
    }
  }

  /** Deleting the rows a filter drops keeps a primary key. */
  lemma {:induction false} FilterDistinct<T, K>(xs: seq<T>, p: T -> bool, key: T -> K)
    requires DistinctBy(xs, key)
    ensures DistinctBy(Filter(xs, p), key)
    decreases |xs|
  {
    if xs != [] {
      var tail := Filter(xs[1..], p);
      FilterDistinct(xs[1..], p, key);
      forall x | x in tail
        ensures key(x) != key(xs[0])
      {
        FilterMembership(xs[1..], p, x);
        var j :| 0 <= j < |xs[1..]| && xs[1..][j] == x;
        assert xs[j + 1] == x;
      }
      var head := if p(xs[0]) then [xs[0]] else [];
      assert Filter(xs, p) == head + tail;
      forall a, b | 0 <= a < b < |head + tail|
        ensures key((head + tail)[a]) != key((head + tail)[b])
      {
        if a < |head| {
          assert (head + tail)[b] in tail;
        }
      }
    }
  }

  /** SQL `OFFSET offset LIMIT limit`: at most `limit` elements starting at
      position `offset`. */
  function Window<T>(xs: seq<T>, offset: nat, limit: nat): (r: seq<T>)
    ensures |r| == if offset >= |xs| then 0 else Min(limit, |xs| - offset)
    ensures forall i :: 0 <= i < |r| ==> offset + i < |xs| && r[i] == xs[offset + i]
  {
    if offset >= |xs| then [] else xs[offset..offset + Min(limit, |xs| - offset)]
  }

  /** A window from the start that is at least as long as the sequence
      is the whole sequence. */
  lemma WindowWhole<T>(xs: seq<T>, limit: nat)
    requires |xs| <= limit
    ensures Window(xs, 0, limit) == xs
  {
  }

  /** Two consecutive pages tile the window that spans both of them. */
  lemma WindowsTile<T>(xs: seq<T>, offset: nat, a: nat, b: nat)
    ensures Window(xs, offset, a) + Window(xs, offset + a, b) == Window(xs, offset, a + b)
  {
    var l := Window(xs, offset, a);
    var rr := Window(xs, offset + a, b);
    var w := Window(xs, offset, a + b);
    assert |l + rr| == |w|;
    forall i | 0 <= i < |w|
      ensures (l + rr)[i] == w[i]
    {
      if i < |l| {
      } else {
        assert rr[i - |l|] == xs[offset + a + (i - |l|)];
      }
    }
  }
}
