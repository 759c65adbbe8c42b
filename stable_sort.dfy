/**
 * Python's `sorted(items, key=key, reverse=True)`: a stable sort into
 * non-increasing key order. Reversing does not disturb stability, so items
 * with equal keys keep the order they had in the input. The model is an
 * insertion sort; any stable sort by the same key gives the same sequence.
 */
module StableSort {

  /** Keys never increase from left to right. */
  ghost predicate SortedDesc<T>(r: seq<T>, key: T -> nat)
  {
    forall i, j :: 0 <= i < j < |r| ==> key(r[i]) >= key(r[j])
  }

  /** `a` comes before `b` in a stable descending ranking: a larger key, or
      the same key and an earlier position in the input. */
  ghost predicate Outranks<T>(a: T, b: T, key: T -> nat, pos: T -> int)
  {
    key(a) > key(b) || (key(a) == key(b) && pos(a) < pos(b))
  }

  /** `r` is in non-increasing key order and, among equal keys, in increasing
      `pos` order: what a stable sort produces from an input listed by `pos`. */
  ghost predicate Ranked<T>(r: seq<T>, key: T -> nat, pos: T -> int)
  {
    forall i, j :: 0 <= i < j < |r| ==> Outranks(r[i], r[j], key, pos)
  }

  /** Inserts `x` before the first element whose key is not larger. */
  function Insert<T>(x: T, r: seq<T>, key: T -> nat): (out: seq<T>)
    ensures multiset(out) == multiset(r) + multiset{x}
  {
    if r == [] then [x]
    else if key(x) >= key(r[0]) then [x] + r
    else
      assert r == [r[0]] + r[1..];
      [r[0]] + Insert(x, r[1..], key)
  }

  lemma {:induction false} InsertSorted<T>(x: T, r: seq<T>, key: T -> nat)
    requires SortedDesc(r, key)
    ensures SortedDesc(Insert(x, r, key), key)
  {
    if r != [] && key(x) < key(r[0]) {
      var rest := r[1..];
      InsertSorted(x, rest, key);
      var tail := Insert(x, rest, key);
      forall j | 0 <= j < |tail| ensures key(r[0]) >= key(tail[j]) {
        assert tail[j] in multiset(tail);
        if tail[j] != x {
          assert tail[j] in rest;
        }
      }
    }
  }

  /** The stably sorted sequence, largest keys first. */
  function SortDesc<T>(s: seq<T>, key: T -> nat): (r: seq<T>)
    ensures multiset(r) == multiset(s)
    ensures |r| == |s|
    ensures SortedDesc(r, key)
  {
    if s == [] then []
    else
      assert s == [s[0]] + s[1..];
      InsertSorted(s[0], SortDesc(s[1..], key), key);
      Insert(s[0], SortDesc(s[1..], key), key)
  }
  /** Every element of the sorted list comes from the input. */
  lemma SortDescMembers<T>(s: seq<T>, key: T -> nat)
    ensures forall i :: 0 <= i < |SortDesc(s, key)| ==> SortDesc(s, key)[i] in s
  {
    var r := SortDesc(s, key);
    forall i | 0 <= i < |r|
      ensures r[i] in s
    {
      assert r[i] in multiset(r);
    }
  }


  /** The first `n` elements, or all of them when there are fewer: `s[:n]`. */
  function Take<T>(s: seq<T>, n: nat): (r: seq<T>)
    ensures |r| == if n < |s| then n else |s|
    ensures forall i :: 0 <= i < |r| ==> r[i] == s[i]
  {
    if n < |s| then s[..n] else s
  }

  lemma {:induction false} InsertRanked<T>(x: T, r: seq<T>, key: T -> nat, pos: T -> int)
    requires Ranked(r, key, pos)
    requires forall y :: y in r ==> pos(x) < pos(y)
    ensures Ranked(Insert(x, r, key), key, pos)
  {
    if r != [] && key(x) < key(r[0]) {
      var rest := r[1..];
      InsertRanked(x, rest, key, pos);
      var tail := Insert(x, rest, key);
      forall j | 0 <= j < |tail|
        ensures key(r[0]) > key(tail[j]) || (key(r[0]) == key(tail[j]) && pos(r[0]) < pos(tail[j]))
      {
        assert tail[j] in multiset(tail);
        if tail[j] != x {
          assert tail[j] in rest;
          var k :| 0 <= k < |rest| && rest[k] == tail[j];
          assert r[k + 1] == tail[j];
        }
      }
    }
  }

  /** Stability: sorting an input listed in increasing `pos` order leaves
      equal keys in increasing `pos` order. */
  lemma {:induction false} SortRanked<T>(s: seq<T>, key: T -> nat, pos: T -> int)
    requires forall i, j :: 0 <= i < j < |s| ==> pos(s[i]) < pos(s[j])
    ensures Ranked(SortDesc(s, key), key, pos)
  {
    if s != [] {
      var sorted := SortDesc(s[1..], key);
      SortRanked(s[1..], key, pos);
      forall y | y in sorted ensures pos(s[0]) < pos(y) {
        assert y in multiset(sorted);
        var k :| 0 <= k < |s[1..]| && s[1..][k] == y;
        assert s[k + 1] == y;
      }
      InsertRanked(s[0], sorted, key, pos);
    }
  }

  /** Cutting a stable ranking of `s` to its first `n` elements keeps the
      ranking, keeps only elements of `s`, and leaves out nothing whose key
      beats a kept one. */
  lemma TakeOfRanked<T>(s: seq<T>, sorted: seq<T>, key: T -> nat, pos: T -> int, n: nat)
    requires multiset(sorted) == multiset(s)
    requires Ranked(sorted, key, pos)
    ensures |Take(sorted, n)| == if n < |s| then n else |s|
    ensures Ranked(Take(sorted, n), key, pos)
    ensures forall y :: y in Take(sorted, n) ==> y in s
    ensures forall x :: x in s && x !in Take(sorted, n) ==>
      forall i :: 0 <= i < |Take(sorted, n)| ==> Outranks(Take(sorted, n)[i], x, key, pos)
  {
    var top := Take(sorted, n);
    assert |sorted| == |s| by {
      assert |multiset(sorted)| == |multiset(s)|;
    }
    forall y | y in top ensures y in s {
      assert y in multiset(sorted);
    }
    forall x | x in s && x !in top
      ensures forall i :: 0 <= i < |top| ==> Outranks(top[i], x, key, pos)
    {
      assert x in multiset(sorted);
      var k :| 0 <= k < |sorted| && sorted[k] == x;
      assert k >= |top|;
    }
  }

  /** What `sorted(s, key=key, reverse=True)[:n]` delivers for an input listed
      in increasing `pos` order: the right number of elements, all from `s`,
      stably ranked, and none left out that beats one kept. */
  lemma TopOfRanking<T>(s: seq<T>, key: T -> nat, pos: T -> int, n: nat)
    requires forall i, j :: 0 <= i < j < |s| ==> pos(s[i]) < pos(s[j])
    ensures |Take(SortDesc(s, key), n)| == if n < |s| then n else |s|
    ensures Ranked(Take(SortDesc(s, key), n), key, pos)
    ensures forall y :: y in Take(SortDesc(s, key), n) ==> y in s
    ensures forall x :: x in s && x !in Take(SortDesc(s, key), n) ==>
      forall i :: 0 <= i < |Take(SortDesc(s, key), n)| ==> Outranks(Take(SortDesc(s, key), n)[i], x, key, pos)
  {
    SortRanked(s, key, pos);
    TakeOfRanked(s, SortDesc(s, key), key, pos, n);
  }
}
