/**
 * Counting occurrences in a sequence the way `collections.Counter` and an
 * insertion-ordered `dict` see it: each distinct value is listed once, in the
 * order in which it first appears. All definitions peel off the LAST element,
 * matching loops that append as they scan.
 */
module Frequencies {

  /** Number of occurrences of `x` in `s`. */
  function Count<T(==)>(s: seq<T>, x: T): (c: nat)
    ensures c <= |s|
    ensures c > 0 <==> x in s
  {
    if s == [] then 0
    else
      assert s == s[..|s| - 1] + [s[|s| - 1]];
      Count(s[..|s| - 1], x) + (if s[|s| - 1] == x then 1 else 0)
  }

  /** The distinct values of `s`, each once, in order of first appearance. */
  function Distinct<T(==)>(s: seq<T>): (d: seq<T>)
    ensures forall i :: 0 <= i < |d| ==> d[i] in s
    ensures forall i :: 0 <= i < |s| ==> s[i] in d
    ensures forall i, j :: 0 <= i < j < |d| ==> d[i] != d[j]
    ensures |d| <= |s|
  {
    if s == [] then []
    else
      assert s == s[..|s| - 1] + [s[|s| - 1]];
      var d := Distinct(s[..|s| - 1]);
      if s[|s| - 1] in d then d else d + [s[|s| - 1]]
  }

  /** One more element extends the distinct list exactly when it is new. */
  lemma DistinctSnoc<T>(s: seq<T>, x: T)
    ensures Distinct(s + [x]) == if x in s then Distinct(s) else Distinct(s) + [x]
  {
    var d := Distinct(s);
    assert (s + [x])[..|s|] == s;
    if x in s {
      var j :| 0 <= j < |s| && s[j] == x;
      assert s[j] in d;
    }
  }

  /** Index of the first occurrence of `x` in `s`, or |s| when `x` is absent. */
  function FirstIndex<T(==)>(s: seq<T>, x: T): (k: nat)
    ensures k <= |s|
    ensures k < |s| <==> x in s
    ensures k < |s| ==> s[k] == x && x !in s[..k]
  {
    if s == [] then 0
    else
      assert s == s[..|s| - 1] + [s[|s| - 1]];
      if x in s[..|s| - 1] then FirstIndex(s[..|s| - 1], x)
      else if s[|s| - 1] == x then |s| - 1
      else |s|
  }

  /** The (value, count) pairs a Counter holds after counting `s`: one entry
      per distinct value, each with its true number of occurrences. */
  function Tally<T(==)>(s: seq<T>): (t: seq<(T, nat)>)
    ensures |t| == |Distinct(s)|
    ensures forall i :: 0 <= i < |t| ==> t[i].0 in s && t[i].1 == Count(s, t[i].0) && t[i].1 > 0
    ensures forall i, j :: 0 <= i < j < |t| ==> t[i].0 != t[j].0
  {
    var d := Distinct(s);
    seq(|d|, i requires 0 <= i < |d| => (d[i], Count(s, d[i])))
  }

  /** The elements of `s` that satisfy `keep`, in order: a list
      comprehension with an `if` clause, or a loop that appends. */
  function Filter<T(==,!new)>(s: seq<T>, keep: T -> bool): (r: seq<T>)
    ensures |r| <= |s|
    ensures forall i :: 0 <= i < |r| ==> keep(r[i]) && r[i] in s
    ensures forall i :: 0 <= i < |s| && keep(s[i]) ==> s[i] in r
    ensures |r| == |s| <==> forall i :: 0 <= i < |s| ==> keep(s[i])
    ensures |r| == |s| ==> r == s
  {
    if s == [] then []
    else
      var init := s[..|s| - 1];
      var last := s[|s| - 1];
      assert s == init + [last];
      assert forall i :: 0 <= i < |init| ==> init[i] == s[i];
      var r := Filter(init, keep);
      if keep(last) then r + [last] else r
  }

  /** Filtering keeps every occurrence of a kept value. */
  lemma {:induction false} FilterCounts<T(!new)>(s: seq<T>, keep: T -> bool)
    ensures forall x :: keep(x) ==> Count(Filter(s, keep), x) == Count(s, x)
  {
    if s != [] {
      var init := s[..|s| - 1];
      var last := s[|s| - 1];
      var r := Filter(init, keep);
      FilterCounts(init, keep);
      if keep(last) {
        assert (r + [last])[..|r|] == r;
      }
    }
  }

  /** Where a value first appears once one more element is appended. */
  lemma FirstIndexSnoc<T>(s: seq<T>, x: T, u: T)
    ensures FirstIndex(s + [x], u) == if u in s then FirstIndex(s, u) else if x == u then |s| else |s| + 1
  {
    assert (s + [x])[..|s|] == s;
  }

  /** Filtering keeps the order in which the kept values first appear. */
  lemma {:induction false} FilterKeepsFirstOccurrenceOrder<T(!new)>(s: seq<T>, keep: T -> bool)
    ensures forall u, v :: u in Filter(s, keep) && v in Filter(s, keep) ==>
      (FirstIndex(Filter(s, keep), u) < FirstIndex(Filter(s, keep), v) <==> FirstIndex(s, u) < FirstIndex(s, v))
  {
    if s != [] {
      var init := s[..|s| - 1];
      var last := s[|s| - 1];
      var p := Filter(init, keep);
      var r := Filter(s, keep);
      FilterKeepsFirstOccurrenceOrder(init, keep);
      assert s == init + [last];
      forall u | u in r
        ensures u in p ==> FirstIndex(r, u) == FirstIndex(p, u) < |p| && FirstIndex(s, u) == FirstIndex(init, u) < |init|
        ensures u !in p ==> FirstIndex(r, u) == |p| && FirstIndex(s, u) == |init|
      {
        FirstIndexSnoc(init, last, u);
        FirstIndexSnoc(p, last, u);
        if u in p {
          var j :| 0 <= j < |p| && p[j] == u;
          assert p[j] in init;
        } else {
          assert keep(u);
          assert u !in init;
        }
      }
    }
  }

  /** Sum of the counts in `s` of the values listed in `d`. */
  function SumCounts<T(==)>(d: seq<T>, s: seq<T>): nat
  {
    if d == [] then 0 else SumCounts(d[..|d| - 1], s) + Count(s, d[|d| - 1])
  }

  /** Distinct lists its values in order of first appearance. */
  lemma {:induction false} DistinctInFirstOccurrenceOrder<T>(s: seq<T>)
    ensures forall i, j :: 0 <= i < j < |Distinct(s)| ==>
      FirstIndex(s, Distinct(s)[i]) < FirstIndex(s, Distinct(s)[j])
  {
    if s != [] {
      var p := s[..|s| - 1];
      DistinctInFirstOccurrenceOrder(p);
      var dp := Distinct(p);
      forall i | 0 <= i < |dp| ensures FirstIndex(s, dp[i]) == FirstIndex(p, dp[i]) < |p| {
        assert dp[i] in p;
      }
    }
  }

  /** The number of distinct values is the number of elements of the set of `s`. */
  lemma {:induction false} DistinctCardinality<T>(s: seq<T>)
    ensures |Distinct(s)| == |set x | x in s|
  {
    if s != [] {
      var p, x := s[..|s| - 1], s[|s| - 1];
      DistinctCardinality(p);
      var all, before := set y | y in s, set y | y in p;
      assert s == p + [x];
      assert all == before + {x};
      if x in Distinct(p) {
        assert Distinct(s) == Distinct(p);
        assert x in before;
        assert all == before;
      } else {
        assert Distinct(s) == Distinct(p) + [x];
        assert x !in p;
        assert x !in before;
        assert |all| == |before| + 1;
      }
    }
  }

  /** Appending one more element to the counted sequence adds one to the sum
      exactly when that element is listed. */
  lemma {:induction false} SumCountsSnoc<T>(d: seq<T>, s: seq<T>)
    requires s != []
    requires forall i, j :: 0 <= i < j < |d| ==> d[i] != d[j]
    ensures SumCounts(d, s) == SumCounts(d, s[..|s| - 1]) + (if s[|s| - 1] in d then 1 else 0)
  {
    if d != [] {
      var d' := d[..|d| - 1];
      SumCountsSnoc(d', s);
      assert d == d' + [d[|d| - 1]];
      assert s[|s| - 1] in d <==> s[|s| - 1] in d' || s[|s| - 1] == d[|d| - 1];
      assert d[|d| - 1] !in d';
    }
  }

  /** The counts of the distinct values add up to the length: counting
      partitions the sequence. */
  lemma {:induction false} CountsOfDistinctSumToLength<T>(s: seq<T>)
    ensures SumCounts(Distinct(s), s) == |s|
  {
    if s != [] {
      var p := s[..|s| - 1];
      var x := s[|s| - 1];
      CountsOfDistinctSumToLength(p);
      SumCountsSnoc(Distinct(p), s);
      if x !in Distinct(p) {
        var d := Distinct(p) + [x];
        assert d[..|d| - 1] == Distinct(p);
      }
    }
  }
}
