/** SQL `ORDER BY` over the model's tables. Every ordering the routers use is
    a descending lexicographic order on a three-part integer key:
    `(is_pinned, present, value)` for discussions and `(0, present, value)`
    for single-column orders, where `present` is 0 for a NULL timestamp so
    that NULLs sort last under DESC, as in SQLite. Ascending orders negate the
    key. Ties are left in table order (the sort is stable, `SortDescStable`),
    which is one of the orders the database may return. */
module Ordering {
  import Seqs

  datatype Key = Key(major: int, present: int, minor: int)

  /** `a` may come before `b` in a descending order. */
  predicate AtLeast(a: Key, b: Key) {
    a.major > b.major
    || (a.major == b.major && (a.present > b.present
        || (a.present == b.present && a.minor >= b.minor)))
  }

  /** The key whose descending order is the ascending order of `k`. */
  function Reverse(k: Key): Key {
    Key(-k.major, -k.present, -k.minor)
  }

  lemma ReverseFlipsOrder(a: Key, b: Key)
    ensures AtLeast(Reverse(a), Reverse(b)) <==> AtLeast(b, a)
  {
  }

  /** Neighbours are in descending key order. */
  predicate Adjacent<T>(xs: seq<T>, key: T -> Key) {
    forall i :: 0 <= i < |xs| - 1 ==> AtLeast(key(xs[i]), key(xs[i + 1]))
  }

  /** Every earlier element has a key at least that of every later one. */
  predicate SortedDesc<T>(xs: seq<T>, key: T -> Key) {
    forall i, j :: 0 <= i < j < |xs| ==> AtLeast(key(xs[i]), key(xs[j]))
  }

  /** Ordered neighbours make a fully ordered sequence. */
  lemma {:induction false} AdjacentIsSorted<T>(xs: seq<T>, key: T -> Key)
    requires Adjacent(xs, key)
    ensures SortedDesc(xs, key)
    decreases |xs|
  {
    if |xs| > 1 {
      AdjacentIsSorted(xs[1..], key);
      forall j | 1 <= j < |xs|
        ensures AtLeast(key(xs[0]), key(xs[j]))
      {
        if j > 1 {
          assert AtLeast(key(xs[1]), key(xs[j]));
        }
      }
    }
  }

  /** Inserts `x` into a descending sequence after every element whose key
      is at least its own, so `x` follows the elements it ties with. */
  function Insert<T>(x: T, xs: seq<T>, key: T -> Key): (r: seq<T>)
    requires Adjacent(xs, key)
    ensures Adjacent(r, key)
    ensures multiset(r) == multiset(xs) + multiset{x}
    ensures r[0] == x || (xs != [] && r[0] == xs[0])
    decreases |xs|
  {
    if xs == [] || !AtLeast(key(xs[0]), key(x)) then [x] + xs
    else
      var rest := Insert(x, xs[1..], key);
      assert xs == [xs[0]] + xs[1..];
      [xs[0]] + rest
  }

  /** A stable insertion sort into descending key order. */
  function SortDesc<T>(xs: seq<T>, key: T -> Key): (r: seq<T>)
    ensures Adjacent(r, key)
    ensures multiset(r) == multiset(xs)
    ensures |r| == |xs|
    decreases |xs|
  {
    if xs == [] then []
    else
      var r := Insert(xs[|xs| - 1], SortDesc(xs[..|xs| - 1], key), key);
      assert xs == xs[..|xs| - 1] + [xs[|xs| - 1]];
      assert |r| == |multiset(r)|;
      r
  }

  /** The sorted sequence is in descending order at every pair of
      positions, and holds exactly the input's elements. */
  lemma SortDescSpec<T>(xs: seq<T>, key: T -> Key)
    ensures SortedDesc(SortDesc(xs, key), key)
    ensures multiset(SortDesc(xs, key)) == multiset(xs)
  {
    AdjacentIsSorted(SortDesc(xs, key), key);
  }

  // ==================== stability ====================

  function HasKey<T>(key: T -> Key, k: Key): T -> bool {
    (x: T) => key(x) == k
  }

  /** No element of a descending sequence ties with a key strictly above
      its first element. */
  lemma NoTiesAbove<T>(xs: seq<T>, key: T -> Key, k: Key)
    requires Adjacent(xs, key) && xs != [] && !AtLeast(key(xs[0]), k)
    ensures Seqs.Filter(xs, HasKey(key, k)) == []
  {
    AdjacentIsSorted(xs, key);
    forall j | 0 <= j < |xs|
      ensures key(xs[j]) != k
    {
      if j > 0 {
        assert AtLeast(key(xs[0]), key(xs[j]));
      }
    }
    Seqs.FilterNone(xs, HasKey(key, k));
  }

  /** Inserting `x` places it after every element that shares its key. */
  lemma {:induction false} InsertAfterTies<T>(x: T, xs: seq<T>, key: T -> Key, k: Key)
    requires Adjacent(xs, key)
    ensures Seqs.Filter(Insert(x, xs, key), HasKey(key, k))
      == Seqs.Filter(xs, HasKey(key, k)) + Seqs.Filter([x], HasKey(key, k))
    decreases |xs|
  {
    var p := HasKey(key, k);
    if xs == [] || !AtLeast(key(xs[0]), key(x)) {
      Seqs.FilterConcat([x], xs, p);
      if p(x) && xs != [] {
        NoTiesAbove(xs, key, k);
      }
    } else {
      InsertAfterTies(x, xs[1..], key, k);
      assert Insert(x, xs, key) == [xs[0]] + Insert(x, xs[1..], key);
      assert xs == [xs[0]] + xs[1..];
      ConsKeepsTrailing(xs[0], xs[1..], Insert(x, xs[1..], key), x, p);
    }
  }

  /** Putting one element in front of two sequences whose filters differ
      by a trailing `x` keeps that difference. */
  lemma ConsKeepsTrailing<T>(y: T, tail: seq<T>, ins: seq<T>, x: T, p: T -> bool)
    requires Seqs.Filter(ins, p) == Seqs.Filter(tail, p) + Seqs.Filter([x], p)
    ensures Seqs.Filter([y] + ins, p) == Seqs.Filter([y] + tail, p) + Seqs.Filter([x], p)
  {
    Seqs.FilterConcat([y], ins, p);
    Seqs.FilterConcat([y], tail, p);
  }

  /** The sort is stable: the elements sharing any one key come out in the
      order they had in the input. */
  lemma {:induction false} SortDescStable<T>(xs: seq<T>, key: T -> Key, k: Key)
    ensures Seqs.Filter(SortDesc(xs, key), HasKey(key, k)) == Seqs.Filter(xs, HasKey(key, k))
    decreases |xs|
  {
    if xs != [] {
      var init, last, p := xs[..|xs| - 1], xs[|xs| - 1], HasKey(key, k);
      assert xs == init + [last];
      var sorted := SortDesc(init, key);
      assert SortDesc(xs, key) == Insert(last, sorted, key);
      SortDescStable(init, key, k);
      InsertAfterTies(last, sorted, key, k);
      Seqs.FilterConcat(init, [last], p);
      calc {
        Seqs.Filter(SortDesc(xs, key), p);
        Seqs.Filter(sorted, p) + Seqs.Filter([last], p);
        Seqs.Filter(init, p) + Seqs.Filter([last], p);
        Seqs.Filter(xs, p);
      }
    }
  }
}
