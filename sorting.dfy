/** Python's `sorted(xs, key=k)` for a real-valued key: a stable sort,
    written as an insertion sort, together with an independent
    characterisation of "stable sort" and the proof that it pins the
    result down uniquely. */
module Sorting {

  /** No element is followed by one with a smaller key. */
  predicate SortedBy<T>(s: seq<T>, key: T -> real)
  {
    forall i, j :: 0 <= i < j < |s| ==> key(s[i]) <= key(s[j])
  }

  /** The elements of `s` whose key is `k`, in their order in `s`. */
  function KeyFilter<T>(s: seq<T>, key: T -> real, k: real): (r: seq<T>)
    ensures forall x :: x in r ==> x in s && key(x) == k
  {
    if s == [] then []
    else (if key(s[0]) == k then [s[0]] else []) + KeyFilter(s[1..], key, k)
  }

  /** `r` is a stable sort of `s`: it is sorted, and for every key the
      elements carrying that key appear in `r` exactly as they appear in `s`. */
  ghost predicate IsStableSortOf<T>(r: seq<T>, s: seq<T>, key: T -> real)
  {
    SortedBy(r, key) && forall k :: KeyFilter(r, key, k) == KeyFilter(s, key, k)
  }

  /** Inserts `x` in front of the first element whose key is not smaller. */
  function Insert<T>(x: T, s: seq<T>, key: T -> real): (r: seq<T>)
    ensures multiset(r) == multiset(s) + multiset{x}
  {
    if s == [] || key(x) <= key(s[0]) then [x] + s
    else
      assert s == [s[0]] + s[1..];
      [s[0]] + Insert(x, s[1..], key)
  }

  /** The stable sort: the head goes in front of all equal keys of the
      already sorted tail, so earlier elements stay earlier. */
  function SortBy<T>(s: seq<T>, key: T -> real): (r: seq<T>)
    ensures multiset(r) == multiset(s)
  {
    if s == [] then []
    else
      assert s == [s[0]] + s[1..];
      Insert(s[0], SortBy(s[1..], key), key)
  }

  /** Applies `f` to every element. */
  function MapSeq<T, U>(s: seq<T>, f: T -> U): (r: seq<U>)
  {
    seq(|s|, i requires 0 <= i < |s| => f(s[i]))
  }

  lemma {:induction false} InsertSorted<T>(x: T, s: seq<T>, key: T -> real)
    requires SortedBy(s, key)
    ensures SortedBy(Insert(x, s, key), key)
  {
    if s == [] || key(x) <= key(s[0]) {
      assert forall j :: 0 <= j < |s| ==> key(s[0]) <= key(s[j]);
    } else {
      var rest := Insert(x, s[1..], key);
      InsertSorted(x, s[1..], key);
      forall j | 0 <= j < |rest|
        ensures key(s[0]) <= key(rest[j])
      {
        assert rest[j] in multiset(rest);
        assert rest[j] == x || rest[j] in s[1..];
      }
    }
  }

  lemma {:induction false} InsertKeyFilter<T>(x: T, s: seq<T>, key: T -> real, k: real)
    ensures KeyFilter(Insert(x, s, key), key, k)
         == (if key(x) == k then [x] else []) + KeyFilter(s, key, k)
  {
    var own := if key(x) == k then [x] else [];
    if s == [] || key(x) <= key(s[0]) {
      var t := [x] + s;
      assert t[0] == x && t[1..] == s;
      assert KeyFilter(t, key, k) == own + KeyFilter(s, key, k);
    } else {
      var rest := Insert(x, s[1..], key);
      var t := [s[0]] + rest;
      assert t[0] == s[0] && t[1..] == rest;
      var head := if key(s[0]) == k then [s[0]] else [];
      InsertKeyFilter(x, s[1..], key, k);
      assert KeyFilter(t, key, k) == head + (own + KeyFilter(s[1..], key, k));
      assert KeyFilter(s, key, k) == head + KeyFilter(s[1..], key, k);
      assert head == [] || own == [];
    }
  }

  /** `SortBy` is a stable sort. */
  lemma {:induction false} SortByIsStableSort<T>(s: seq<T>, key: T -> real)
    ensures IsStableSortOf(SortBy(s, key), s, key)
  {
    if s != [] {
      var sortedTail := SortBy(s[1..], key);
      SortByIsStableSort(s[1..], key);
      InsertSorted(s[0], sortedTail, key);
      forall k
        ensures KeyFilter(SortBy(s, key), key, k) == KeyFilter(s, key, k)
      {
        InsertKeyFilter(s[0], sortedTail, key, k);
      }
    }
  }

  /** Dropping the head of `s` drops it from the filter of its own key
      and from no other filter. */
  lemma FilterOfTail<T>(s: seq<T>, key: T -> real, k: real)
    requires s != []
    ensures KeyFilter(s, key, k) == (if key(s[0]) == k then [s[0]] else []) + KeyFilter(s[1..], key, k)
    ensures key(s[0]) == k ==> KeyFilter(s, key, k)[0] == s[0] && KeyFilter(s, key, k)[1..] == KeyFilter(s[1..], key, k)
    ensures key(s[0]) != k ==> KeyFilter(s, key, k) == KeyFilter(s[1..], key, k)
  {
  }

  /** In a sorted sequence the head carries the least key. */
  lemma HeadKeyLeast<T>(s: seq<T>, key: T -> real, x: T)
    requires SortedBy(s, key) && x in s
    ensures key(s[0]) <= key(x)
  {
  }

  /** Two sorted sequences that agree on every key's filter are equal. */
  lemma {:induction false} SortedFiltersDetermine<T>(a: seq<T>, b: seq<T>, key: T -> real)
    requires SortedBy(a, key) && SortedBy(b, key)
    requires forall k :: KeyFilter(a, key, k) == KeyFilter(b, key, k)
    ensures a == b
    decreases |a|
  {
    if a == [] {
      if b != [] {
        FilterOfTail(b, key, key(b[0]));
      }
    } else if b == [] {
      FilterOfTail(a, key, key(a[0]));
    } else {
      var ka, kb := key(a[0]), key(b[0]);
      FilterOfTail(a, key, ka);
      FilterOfTail(b, key, kb);
      var fb := KeyFilter(b, key, ka);
      assert fb == KeyFilter(a, key, ka);
      assert fb[0] in fb;
      HeadKeyLeast(b, key, fb[0]);
      var fa := KeyFilter(a, key, kb);
      assert fa == KeyFilter(b, key, kb);
      assert fa[0] in fa;
      HeadKeyLeast(a, key, fa[0]);
      assert ka == kb;
      assert a[0] == b[0];
      forall k
        ensures KeyFilter(a[1..], key, k) == KeyFilter(b[1..], key, k)
      {
        FilterOfTail(a, key, k);
        FilterOfTail(b, key, k);
        assert KeyFilter(a, key, k) == KeyFilter(b, key, k);
      }
      SortedFiltersDetermine(a[1..], b[1..], key);
      assert a == [a[0]] + a[1..] && b == [b[0]] + b[1..];
    }
  }

  /** A stable sort is unique: `SortBy` is the only sequence that is a
      stable sort of `s`, which is what Python's `sorted` returns. */
  lemma StableSortUnique<T>(r: seq<T>, s: seq<T>, key: T -> real)
    requires IsStableSortOf(r, s, key)
    ensures r == SortBy(s, key)
  {
    SortByIsStableSort(s, key);
    SortedFiltersDetermine(r, SortBy(s, key), key);
  }

  lemma MapSeqAppend<T, U>(p: seq<T>, q: seq<T>, f: T -> U)
    ensures MapSeq(p + q, f) == MapSeq(p, f) + MapSeq(q, f)
  {
  }

  /** The image of `front + [x] + back` is that of `front + back` plus `f(x)`. */
  lemma MapSplitImage<T, U>(s: seq<T>, front: seq<T>, x: T, back: seq<T>, f: T -> U)
    requires s == front + [x] + back
    ensures multiset(MapSeq(s, f)) == multiset{f(x)} + multiset(MapSeq(front + back, f))
  {
    MapSeqAppend(front + [x], back, f);
    MapSeqAppend(front, [x], f);
    MapSeqAppend(front, back, f);
    assert MapSeq([x], f) == [f(x)];
  }

  /** Cutting out the element at `j`. */
  lemma SplitAt<T>(b: seq<T>, j: nat)
    requires j < |b|
    ensures b == b[..j] + [b[j]] + b[j + 1..]
    ensures multiset(b[..j] + b[j + 1..]) == multiset(b) - multiset{b[j]}
  {
  }

  /** Reordering a sequence reorders its image under `f`. */
  lemma {:induction false} PermutationMaps<T, U>(a: seq<T>, b: seq<T>, f: T -> U)
    requires multiset(a) == multiset(b)
    ensures multiset(MapSeq(a, f)) == multiset(MapSeq(b, f))
    decreases |a|
  {
    if a == [] {
      assert |b| == |multiset(b)| == 0;
    } else {
      var x := a[0];
      assert x in multiset(b);
      var j :| 0 <= j < |b| && b[j] == x;
      var rest, front, back := a[1..], b[..j], b[j + 1..];
      assert a == [] + [x] + rest;
      assert multiset(rest) == multiset(a) - multiset{x};
      SplitAt(b, j);
      PermutationMaps(rest, front + back, f);
      MapSplitImage(a, [], x, rest, f);
      assert [] + rest == rest;
      MapSplitImage(b, front, x, back, f);
    }
  }
}
