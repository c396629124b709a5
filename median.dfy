/** The batch median used to fill missing Electric Range values: the middle value of the
    present values in sorted order, or the mean of the two middle values when their number
    is even; there is no median of no values. */
module Median {
  import opened Wrappers

  predicate IsSorted(s: seq<real>) {
    forall i, j :: 0 <= i < j < |s| ==> s[i] <= s[j]
  }

  /** Inserts `x` into the sorted sequence `s`. */
  function Insert(x: real, s: seq<real>): (r: seq<real>)
    requires IsSorted(s)
    ensures IsSorted(r)
    ensures multiset(r) == multiset(s) + multiset{x}
  {
    if s == [] then [x]
    else if x <= s[0] then
      SortedCons(x, s);
      [x] + s
    else
      var t := Insert(x, s[1..]);
      BoundedByHead(s, x, t);
      SortedCons(s[0], t);
      assert s == [s[0]] + s[1..];
      [s[0]] + t
  }

  /** Putting a value no larger than every element in front keeps a sequence sorted. */
  lemma SortedCons(x: real, t: seq<real>)
    requires IsSorted(t)
    requires forall i :: 0 <= i < |t| ==> x <= t[i]
    ensures IsSorted([x] + t)
  {
    var r := [x] + t;
    forall i, j | 0 <= i < j < |r| ensures r[i] <= r[j] {
      if i == 0 {
        assert r[j] == t[j - 1];
      } else {
        assert r[i] == t[i - 1] && r[j] == t[j - 1];
      }
    }
  }

  /** The head of a sorted sequence is a lower bound of what inserting a larger value into its
      tail gives. */
  lemma BoundedByHead(s: seq<real>, x: real, t: seq<real>)
    requires s != [] && IsSorted(s) && s[0] < x
    requires multiset(t) == multiset(s[1..]) + multiset{x}
    ensures forall i :: 0 <= i < |t| ==> s[0] <= t[i]
  {
    forall i | 0 <= i < |t| ensures s[0] <= t[i] {
      assert t[i] in multiset(t);
      if t[i] != x {
        assert t[i] in multiset(s[1..]);
        var k :| 0 <= k < |s[1..]| && s[1..][k] == t[i];
        assert s[k + 1] == t[i];
      }
    }
  }

  /** The values of `s` in ascending order. */
  function Sort(s: seq<real>): (r: seq<real>)
    ensures IsSorted(r)
    ensures multiset(r) == multiset(s)
  {
    if s == [] then []
    else
      assert s == [s[0]] + s[1..];
      Insert(s[0], Sort(s[1..]))
  }

  /** How many values of `s` lie at or below `m` (when `below`), or at or above it. */
  function Count(s: seq<real>, m: real, below: bool): (n: nat)
    ensures n <= |s|
  {
    if s == [] then 0
    else (if (if below then s[0] <= m else s[0] >= m) then 1 else 0) + Count(s[1..], m, below)
  }

  /** `median()`: None when there is no value, otherwise the middle of the sorted values. */
  function MedianOf(s: seq<real>): (m: Option<real>)
    ensures m.None? <==> s == []
    ensures m.Some? ==> 2 * Count(s, m.value, true) >= |s| && 2 * Count(s, m.value, false) >= |s|
  {
    if s == [] then None
    else
      var t := Sort(s);
      MedianHalves(s, t, Middle(t));
      Some(Middle(t))
  }

  /** The middle value of a non-empty sorted sequence, or the mean of its two middle values
      when its length is even. */
  function Middle(t: seq<real>): real
    requires t != []
  {
    var h := |t| / 2;
    if |t| % 2 == 1 then t[h] else (t[h - 1] + t[h]) / 2.0
  }

  lemma {:induction false} CountAppend(a: seq<real>, b: seq<real>, m: real, below: bool)
    ensures Count(a + b, m, below) == Count(a, m, below) + Count(b, m, below)
  {
    if a == [] {
      assert a + b == b;
    } else {
      assert (a + b)[1..] == a[1..] + b;
      CountAppend(a[1..], b, m, below);
    }
  }

  /** Counting a sequence is counting it without its element `k`, plus that element. */
  lemma CountRemove(b: seq<real>, k: nat, m: real, below: bool)
    requires k < |b|
    ensures Count(b, m, below) == Count([b[k]], m, below) + Count(b[..k] + b[k + 1..], m, below)
  {
    assert b == b[..k] + [b[k]] + b[k + 1..];
    CountAppend(b[..k] + [b[k]], b[k + 1..], m, below);
    CountAppend(b[..k], [b[k]], m, below);
    CountAppend(b[..k], b[k + 1..], m, below);
  }

  /** Count depends only on the multiset of values. */
  lemma {:induction false} CountPermutation(a: seq<real>, b: seq<real>, m: real, below: bool)
    requires multiset(a) == multiset(b)
    ensures Count(a, m, below) == Count(b, m, below)
    decreases |a|
  {
    if a == [] {
      assert |b| == |multiset(b)| == 0;
    } else {
      var x := a[0];
      assert x in multiset(a);
      var k :| 0 <= k < |b| && b[k] == x;
      MultisetRemove(b, k);
      MultisetTail(a);
      CountPermutation(a[1..], b[..k] + b[k + 1..], m, below);
      CountRemove(b, k, m, below);
      assert a == [x] + a[1..];
      CountAppend([x], a[1..], m, below);
    }
  }

  lemma MultisetRemove(b: seq<real>, k: nat)
    requires k < |b|
    ensures multiset(b[..k] + b[k + 1..]) == multiset(b) - multiset{b[k]}
  {
    assert b == b[..k] + [b[k]] + b[k + 1..];
  }

  /** If the values at positions lo..hi-1 all lie on the counted side of `m`, at least
      hi - lo values are counted. */
  lemma {:induction false} CountRange(s: seq<real>, m: real, below: bool, lo: nat, hi: nat)
    requires lo <= hi <= |s|
    requires forall i :: lo <= i < hi ==> if below then s[i] <= m else s[i] >= m
    ensures Count(s, m, below) >= hi - lo
  {
    if lo < hi {
      if lo == 0 {
        CountRange(s[1..], m, below, 0, hi - 1);
      } else {
        CountRange(s[1..], m, below, lo - 1, hi - 1);
      }
    }
  }

  lemma MedianHalves(s: seq<real>, t: seq<real>, v: real)
    requires t != [] && IsSorted(t) && multiset(t) == multiset(s)
    requires v == Middle(t)
    ensures 2 * Count(s, v, true) >= |s| && 2 * Count(s, v, false) >= |s|
  {
    var h := |t| / 2;
    assert |t| == |multiset(t)| == |s|;
    if |t| % 2 == 1 {
      CountRange(t, v, true, 0, h + 1);
      CountRange(t, v, false, h, |t|);
    } else {
      CountRange(t, v, true, 0, h);
      CountRange(t, v, false, h, |t|);
    }
    CountPermutation(s, t, v, true);
    CountPermutation(s, t, v, false);
  }

  /** The tail of a sorted sequence is sorted. */
  lemma SortedTail(a: seq<real>)
    requires a != [] && IsSorted(a)
    ensures IsSorted(a[1..])
  {
    forall i, j | 0 <= i < j < |a[1..]| ensures a[1..][i] <= a[1..][j] {
      assert a[1..][i] == a[i + 1] && a[1..][j] == a[j + 1];
    }
  }

  /** A sorted sequence and its least element: the head is at most every value it holds. */
  lemma HeadIsLeast(a: seq<real>, x: real)
    requires a != [] && IsSorted(a) && x in multiset(a)
    ensures a[0] <= x
  {
    var k :| 0 <= k < |a| && a[k] == x;
    if k > 0 {
      assert a[0] <= a[k];
    }
  }

  lemma MultisetTail(s: seq<real>)
    requires s != []
    ensures multiset(s[1..]) == multiset(s) - multiset{s[0]}
  {
    assert s == [s[0]] + s[1..];
  }

  /** Two ascending sequences holding the same values are equal. */
  lemma {:induction false} SortedUnique(a: seq<real>, b: seq<real>)
    requires IsSorted(a) && IsSorted(b) && multiset(a) == multiset(b)
    ensures a == b
    decreases |a|
  {
    if a == [] {
      assert |b| == |multiset(b)| == 0;
    } else {
      assert |b| == |multiset(b)| == |a|;
      HeadIsLeast(a, b[0]);
      HeadIsLeast(b, a[0]);
      SortedTails(a, b);
      SortedUnique(a[1..], b[1..]);
      assert a == [a[0]] + a[1..] && b == [b[0]] + b[1..];
    }
  }

  /** Two non-empty sorted sequences with the same values and the same head keep the same
      values in their tails. */
  lemma SortedTails(a: seq<real>, b: seq<real>)
    requires a != [] && b != [] && IsSorted(a) && IsSorted(b) && multiset(a) == multiset(b)
    requires a[0] <= b[0] && b[0] <= a[0]
    ensures IsSorted(a[1..]) && IsSorted(b[1..]) && multiset(a[1..]) == multiset(b[1..])
  {
    MultisetTail(a);
    MultisetTail(b);
    SortedTail(a);
    SortedTail(b);
  }

  /** The fill value does not depend on the order of the batch: only on which values are present. */
  lemma MedianOrderIndependent(a: seq<real>, b: seq<real>)
    requires multiset(a) == multiset(b)
    ensures MedianOf(a) == MedianOf(b)
  {
    assert |a| == |multiset(a)| == |b|;
    SortedUnique(Sort(a), Sort(b));
  }
}
