/** The three table operations the warehouse build is made of, on plain sequences:
    `drop_duplicates()` (first occurrence wins, input order kept), the surrogate key
    column `range(1, n + 1)`, and a left `merge` that brings back one key column. */
module Frames {
  import opened Wrappers

  /** A dimension row: its surrogate key and the attributes it was built from. */
  datatype Keyed<T> = Keyed(id: int, attrs: T)

  /** No element occurs twice. */
  predicate NoDuplicates<T(==)>(s: seq<T>) {
    forall i, j :: 0 <= i < j < |s| ==> s[i] != s[j]
  }

  /** Position of the first occurrence of `x` in `s`. */
  function FirstIndex<T(==)>(s: seq<T>, x: T): (i: nat)
    requires x in s
    ensures i < |s| && s[i] == x && x !in s[..i]
  {
    if s[0] == x then 0
    else
      var j := FirstIndex(s[1..], x);
      assert s[..j + 1] == [s[0]] + s[1..][..j];
      j + 1
  }

  /** `drop_duplicates()`: walks `s` in order and keeps an element the first time it is seen. */
  function Distinct<T(==)>(s: seq<T>): (d: seq<T>)
    ensures |d| <= |s|
    ensures forall i :: 0 <= i < |s| ==> s[i] in d
    ensures forall i :: 0 <= i < |d| ==> d[i] in s
    ensures NoDuplicates(d)
    decreases |s|
  {
    if s == [] then []
    else
      var p := s[..|s| - 1];
      var d := Distinct(p);
      assert s == p + [s[|s| - 1]];
      if s[|s| - 1] in d then d else d + [s[|s| - 1]]
  }

  /** The surrogate key column `range(1, len(d) + 1)` put beside the rows of `d`. */
  function Number<T>(d: seq<T>): seq<Keyed<T>> {
    seq(|d|, i requires 0 <= i < |d| => Keyed(i + 1, d[i]))
  }

  /** `frame[cols].drop_duplicates()` followed by the surrogate key column, where `s` is the
      frame already projected onto `cols`. */
  function DedupAndKey<T(==)>(s: seq<T>): seq<Keyed<T>> {
    Number(Distinct(s))
  }

  /** The surrogate key that `DedupAndKey(s)` gives to the tuple `x`. */
  function SurrogateKey<T(==)>(s: seq<T>, x: T): (k: int)
    requires x in s
    ensures 1 <= k <= |DedupAndKey(s)|
    ensures DedupAndKey(s)[k - 1].attrs == x
  {
    FirstIndex(Distinct(s), x) + 1
  }

  lemma FirstIndexOfPrefix<T>(s: seq<T>, k: nat, x: T)
    requires k <= |s| && x in s[..k]
    ensures FirstIndex(s, x) == FirstIndex(s[..k], x)
  {
    var a, b := FirstIndex(s, x), FirstIndex(s[..k], x);
    assert s[..k][..b] == s[..b];
  }

  /** Distinct keeps first-seen order: an earlier output element was first seen earlier. */
  lemma {:induction false} DistinctFirstSeenOrder<T>(s: seq<T>, i: nat, j: nat)
    requires i < j < |Distinct(s)|
    ensures FirstIndex(s, Distinct(s)[i]) < FirstIndex(s, Distinct(s)[j])
    decreases |s|
  {
    var p := s[..|s| - 1];
    if j < |Distinct(p)| {
      DistinctFirstSeenOrder(p, i, j);
      OrderFromPrefix(s, i, j);
    } else {
      OrderWithNewLast(s, i, j);
    }
  }

  /** Two elements the prefix already lists keep the order the prefix gives them. */
  lemma OrderFromPrefix<T>(s: seq<T>, i: nat, j: nat)
    requires s != [] && i < j < |Distinct(s[..|s| - 1])|
    requires FirstIndex(s[..|s| - 1], Distinct(s[..|s| - 1])[i]) < FirstIndex(s[..|s| - 1], Distinct(s[..|s| - 1])[j])
    ensures j < |Distinct(s)| && FirstIndex(s, Distinct(s)[i]) < FirstIndex(s, Distinct(s)[j])
  {
    var dp := Distinct(s[..|s| - 1]);
    assert Distinct(s)[i] == dp[i] && Distinct(s)[j] == dp[j];
    FirstIndexOfPrefix(s, |s| - 1, dp[i]);
    FirstIndexOfPrefix(s, |s| - 1, dp[j]);
  }

  /** An element the prefix lists comes before the last element when that one is new. */
  lemma OrderWithNewLast<T>(s: seq<T>, i: nat, j: nat)
    requires s != [] && i < j < |Distinct(s)| && j >= |Distinct(s[..|s| - 1])|
    ensures FirstIndex(s, Distinct(s)[i]) < FirstIndex(s, Distinct(s)[j])
  {
    var dp := Distinct(s[..|s| - 1]);
    assert s[|s| - 1] !in dp && Distinct(s)[j] == s[|s| - 1];
    assert Distinct(s)[i] == dp[i];
    FirstSeenBeforeNew(s, dp[i]);
  }

  /** An element of the prefix was first seen before a last element that is new. */
  lemma FirstSeenBeforeNew<T>(s: seq<T>, x: T)
    requires s != [] && s[|s| - 1] !in s[..|s| - 1] && x in s[..|s| - 1]
    ensures FirstIndex(s, x) < FirstIndex(s, s[|s| - 1])
  {
    FirstIndexOfPrefix(s, |s| - 1, x);
  }

  /** The first row of the input is the first row of the deduplicated table. */
  lemma DistinctHead<T>(s: seq<T>)
    requires s != []
    ensures Distinct(s) != [] && Distinct(s)[0] == s[0]
  {
    var d := Distinct(s);
    assert s[0] in d;
    if d[0] != s[0] {
      var k :| 0 <= k < |d| && d[k] == s[0];
      DistinctFirstSeenOrder(s, 0, k);
    }
  }

  /** Two rows of a keyed dimension never carry the same tuple. */
  lemma KeyedApart<T>(s: seq<T>, i: nat, i2: nat)
    requires i < |DedupAndKey(s)| && i2 < |DedupAndKey(s)| && i != i2
    ensures DedupAndKey(s)[i].attrs != DedupAndKey(s)[i2].attrs
  {
    var d := Distinct(s);
    assert DedupAndKey(s)[i].attrs == d[i] && DedupAndKey(s)[i2].attrs == d[i2];
    assert NoDuplicates(d);
  }

  /** What `DedupAndKey` promises: keys are exactly 1..n in row order, no tuple is listed twice,
      rows come in order of first occurrence, every input tuple is listed under its surrogate
      key, and the first input tuple gets key 1. */
  lemma DedupAndKeyProperties<T>(s: seq<T>)
    ensures |DedupAndKey(s)| <= |s|
    ensures forall i :: 0 <= i < |DedupAndKey(s)| ==> DedupAndKey(s)[i].id == i + 1
    ensures forall i, j :: 0 <= i < j < |DedupAndKey(s)| ==>
              DedupAndKey(s)[i].attrs != DedupAndKey(s)[j].attrs
    ensures forall i, j :: 0 <= i < j < |DedupAndKey(s)| ==>
              FirstIndex(s, DedupAndKey(s)[i].attrs) < FirstIndex(s, DedupAndKey(s)[j].attrs)
    ensures forall k :: 0 <= k < |s| ==> DedupAndKey(s)[SurrogateKey(s, s[k]) - 1].attrs == s[k]
    ensures s != [] ==> DedupAndKey(s)[0].attrs == s[0] && SurrogateKey(s, s[0]) == 1
  {
    var t := DedupAndKey(s);
    var d := Distinct(s);
    forall i, j | 0 <= i < j < |t|
      ensures FirstIndex(s, t[i].attrs) < FirstIndex(s, t[j].attrs)
    {
      DistinctFirstSeenOrder(s, i, j);
    }
    if s != [] {
      DistinctHead(s);
    }
  }

  /** `m` is `t` with some elements left out, the rest kept in order. */
  predicate IsSubsequence<T(==)>(m: seq<T>, t: seq<T>)
    decreases |t|
  {
    m == [] || (t != [] && ((m[0] == t[0] && IsSubsequence(m[1..], t[1..])) || IsSubsequence(m, t[1..])))
  }

  /** The rows of `table` whose key equals `k`, in table order. */
  function Matches<A, K(==)>(table: seq<Keyed<A>>, key: A -> K, k: K): (m: seq<Keyed<A>>)
    ensures |m| <= |table|
    ensures forall i :: 0 <= i < |m| ==> m[i] in table && key(m[i].attrs) == k
    ensures forall i :: 0 <= i < |table| && key(table[i].attrs) == k ==> table[i] in m
  {
    if table == [] then []
    else (if key(table[0].attrs) == k then [table[0]] else []) + Matches(table[1..], key, k)
  }

  /** The matches of a key keep the table's order: they are the table with rows left out. */
  lemma {:induction false} MatchesInOrder<A, K>(table: seq<Keyed<A>>, key: A -> K, k: K)
    ensures IsSubsequence(Matches(table, key, k), table)
  {
    if table != [] {
      var m, rest := Matches(table, key, k), Matches(table[1..], key, k);
      MatchesInOrder(table[1..], key, k);
      if key(table[0].attrs) == k {
        assert m == [table[0]] + rest && m[0] == table[0] && m[1..] == rest;
      } else {
        assert m == rest;
      }
    }
  }

  /** The matches of a key hold each table row carrying that key as often as the table does,
      and no other row. */
  lemma {:induction false} MatchesCount<A, K>(table: seq<Keyed<A>>, key: A -> K, k: K, r: Keyed<A>)
    ensures multiset(Matches(table, key, k))[r] == if key(r.attrs) == k then multiset(table)[r] else 0
  {
    if table != [] {
      var rest := Matches(table[1..], key, k);
      MatchesCount(table[1..], key, k, r);
      assert table == [table[0]] + table[1..];
      assert multiset(table)[r] == multiset([table[0]])[r] + multiset(table[1..])[r];
      if key(table[0].attrs) == k {
        assert Matches(table, key, k) == [table[0]] + rest;
        assert multiset(Matches(table, key, k))[r] == multiset([table[0]])[r] + multiset(rest)[r];
      } else {
        assert Matches(table, key, k) == rest;
      }
    }
  }

  /** A key that no table row carries has no matches. */
  lemma {:induction false} MatchesNone<A, K>(table: seq<Keyed<A>>, key: A -> K, k: K)
    requires forall j :: 0 <= j < |table| ==> key(table[j].attrs) != k
    ensures Matches(table, key, k) == []
  {
    if table != [] {
      forall j | 0 <= j < |table[1..]| ensures key(table[1..][j].attrs) != k {
        assert table[1..][j] == table[j + 1];
      }
      MatchesNone(table[1..], key, k);
    }
  }

  /** A key that exactly one table row carries is matched by that row alone. */
  lemma {:induction false} MatchesSingle<A, K>(table: seq<Keyed<A>>, key: A -> K, k: K, i: nat)
    requires i < |table| && key(table[i].attrs) == k
    requires forall j :: 0 <= j < |table| && j != i ==> key(table[j].attrs) != k
    ensures Matches(table, key, k) == [table[i]]
  {
    var rest := Matches(table[1..], key, k);
    if i == 0 {
      assert forall j :: 0 <= j < |table[1..]| ==> key(table[1..][j].attrs) != k by {
        forall j | 0 <= j < |table[1..]| ensures key(table[1..][j].attrs) != k {
          assert table[1..][j] == table[j + 1];
        }
      }
      MatchesNone(table[1..], key, k);
    } else {
      forall j | 0 <= j < |table[1..]| && j != i - 1
        ensures key(table[1..][j].attrs) != k
      {
        assert table[1..][j] == table[j + 1];
      }
      MatchesSingle(table[1..], key, k, i - 1);
    }
  }

  /** In a deduplicated, keyed table joined on all its columns, a tuple of the input matches
      exactly the row that carries its surrogate key. */
  lemma MatchesDedup<T>(s: seq<T>, key: T -> T, x: T)
    requires forall t :: key(t) == t
    requires x in s
    ensures Matches(DedupAndKey(s), key, x) == [DedupAndKey(s)[SurrogateKey(s, x) - 1]]
  {
    var t := DedupAndKey(s);
    var i := SurrogateKey(s, x) - 1;
    forall j | 0 <= j < |t| && j != i
      ensures key(t[j].attrs) != x
    {
      if j < i {
        assert t[j].attrs != t[i].attrs;
      } else {
        assert t[i].attrs != t[j].attrs;
      }
    }
    MatchesSingle(t, key, x, i);
  }

  /** The output rows one left row gives in a left merge with the rows `m` it matches: the
      contract counts them and attaches one key per position. That `Matches` lists the matching
      table rows in table order is `MatchesInOrder`, and that it lists each one exactly as often
      as it occurs in the table is `MatchesCount`. */
  function Fan<L, A>(l: L, m: seq<Keyed<A>>, attach: (L, Option<int>) -> L): (f: seq<L>)
    ensures |f| == if m == [] then 1 else |m|
    ensures forall i :: 0 <= i < |f| ==> f[i] == if m == [] then attach(l, None) else attach(l, Some(m[i].id))
  {
    if m == [] then [attach(l, None)]
    else seq(|m|, i requires 0 <= i < |m| => attach(l, Some(m[i].id)))
  }

  /** `left.merge(table, on=…, how='left')` keeping the surrogate key of `table`: every left row in
      order, once per table row with the same key (in table order), or once with a missing key
      when no table row matches. `attach` writes the key column into a left row. */
  function MergeLeft<L, A, K(==)>(left: seq<L>, table: seq<Keyed<A>>, leftKey: L -> K, key: A -> K,
                                 attach: (L, Option<int>) -> L): (out: seq<L>)
    ensures |out| >= |left|
  {
    if left == [] then []
    else
      Fan(left[0], Matches(table, key, leftKey(left[0])), attach)
      + MergeLeft(left[1..], table, leftKey, key, attach)
  }

  /** A left merge keeps every left row joined with each table row it matches, with that row's key
      (how many times, and where, is `MergeLeftBlock`). */
  lemma {:induction false} MergeLeftKeeps<L, A, K>(left: seq<L>, table: seq<Keyed<A>>, leftKey: L -> K,
                                                   key: A -> K, attach: (L, Option<int>) -> L, x: L, r: Keyed<A>)
    requires x in left && r in table && key(r.attrs) == leftKey(x)
    ensures attach(x, Some(r.id)) in MergeLeft(left, table, leftKey, key, attach)
  {
    var m := Matches(table, key, leftKey(left[0]));
    var f := Fan(left[0], m, attach);
    if x == left[0] {
      var t :| 0 <= t < |table| && table[t] == r;
      var p :| 0 <= p < |m| && m[p] == r;
      assert f[p] == attach(x, Some(r.id));
    } else {
      assert x in left[1..];
      MergeLeftKeeps(left[1..], table, leftKey, key, attach, x, r);
    }
  }

  /** A left merge keeps a left row that matches nothing, with a missing key. */
  lemma {:induction false} MergeLeftKeepsUnmatched<L, A, K>(left: seq<L>, table: seq<Keyed<A>>, leftKey: L -> K,
                                                            key: A -> K, attach: (L, Option<int>) -> L, x: L)
    requires x in left && Matches(table, key, leftKey(x)) == []
    ensures attach(x, None) in MergeLeft(left, table, leftKey, key, attach)
  {
    if x == left[0] {
      assert Fan(x, Matches(table, key, leftKey(x)), attach)[0] == attach(x, None);
    } else {
      assert x in left[1..];
      MergeLeftKeepsUnmatched(left[1..], table, leftKey, key, attach, x);
    }
  }

  /** The middle part of `before + block + after` starts at `|before|`. */
  lemma BlockAt<T>(before: seq<T>, block: seq<T>, after: seq<T>)
    ensures |before| + |block| <= |before + block + after|
    ensures forall i :: 0 <= i < |block| ==> (before + block + after)[|before| + i] == block[i]
  {
  }

  /** Merging two frames one after the other gives the merge of each, in turn. */
  lemma {:induction false} MergeLeftAppend<L, A, K>(a: seq<L>, b: seq<L>, table: seq<Keyed<A>>, leftKey: L -> K,
                                                    key: A -> K, attach: (L, Option<int>) -> L)
    ensures MergeLeft(a + b, table, leftKey, key, attach)
            == MergeLeft(a, table, leftKey, key, attach) + MergeLeft(b, table, leftKey, key, attach)
    decreases |a|
  {
    if a == [] {
      assert a + b == b;
    } else {
      assert (a + b)[0] == a[0];
      assert (a + b)[1..] == a[1..] + b;
      MergeLeftAppend(a[1..], b, table, leftKey, key, attach);
    }
  }

  /** Left row `j` gives one block of the output, after the blocks of the rows before it and before
      those of the rows after it: with `Fan`'s contract, one row per table row it matches, in table
      order and with that row's key, or a single row with a missing key when it matches nothing. */
  lemma MergeLeftBlock<L, A, K>(left: seq<L>, table: seq<Keyed<A>>, leftKey: L -> K,
                                key: A -> K, attach: (L, Option<int>) -> L, j: nat)
    requires j < |left|
    ensures MergeLeft(left, table, leftKey, key, attach)
            == MergeLeft(left[..j], table, leftKey, key, attach)
               + Fan(left[j], Matches(table, key, leftKey(left[j])), attach)
               + MergeLeft(left[j + 1..], table, leftKey, key, attach)
  {
    var rest := [left[j]] + left[j + 1..];
    assert left == left[..j] + rest;
    MergeLeftAppend(left[..j], rest, table, leftKey, key, attach);
    assert rest[0] == left[j] && rest[1..] == left[j + 1..];
  }

  /** A left merge keeps the row count exactly when no left row matches two table rows. */
  lemma {:induction false} MergeLeftLength<L, A, K>(left: seq<L>, table: seq<Keyed<A>>, leftKey: L -> K,
                                                    key: A -> K, attach: (L, Option<int>) -> L)
    ensures |MergeLeft(left, table, leftKey, key, attach)| == |left|
        <==> forall i :: 0 <= i < |left| ==> |Matches(table, key, leftKey(left[i]))| <= 1
  {
    if left != [] {
      var m := Matches(table, key, leftKey(left[0]));
      MergeLeftLength(left[1..], table, leftKey, key, attach);
      if |m| <= 1 {
        forall i | 0 < i < |left|
          ensures Matches(table, key, leftKey(left[i])) == Matches(table, key, leftKey(left[1..][i - 1]))
        {
        }
      }
    }
  }

  /** When every left row matches exactly one table row, the merge is row-for-row: row `i` of the
      output is left row `i` with the key of its match. */
  lemma {:induction false} MergeLeftOneToOne<L, A, K>(left: seq<L>, table: seq<Keyed<A>>, leftKey: L -> K,
                                                      key: A -> K, attach: (L, Option<int>) -> L)
    requires forall i :: 0 <= i < |left| ==> |Matches(table, key, leftKey(left[i]))| == 1
    ensures |MergeLeft(left, table, leftKey, key, attach)| == |left|
    ensures forall i :: 0 <= i < |left| ==>
              MergeLeft(left, table, leftKey, key, attach)[i]
              == attach(left[i], Some(Matches(table, key, leftKey(left[i]))[0].id))
  {
    if left != [] {
      var tail := left[1..];
      forall i | 0 <= i < |tail|
        ensures |Matches(table, key, leftKey(tail[i]))| == 1
      {
        assert tail[i] == left[i + 1];
      }
      MergeLeftOneToOne(tail, table, leftKey, key, attach);
      forall i | 1 <= i < |left|
        ensures MergeLeft(tail, table, leftKey, key, attach)[i - 1]
                == attach(left[i], Some(Matches(table, key, leftKey(left[i]))[0].id))
      {
        assert tail[i - 1] == left[i];
      }
      MergeLeftStep(left, table, leftKey, key, attach);
    }
  }

  /** One step of the row-for-row merge: a first row with one match, then the rest row for row. */
  lemma MergeLeftStep<L, A, K>(left: seq<L>, table: seq<Keyed<A>>, leftKey: L -> K,
                               key: A -> K, attach: (L, Option<int>) -> L)
    requires left != [] && forall i :: 0 <= i < |left| ==> |Matches(table, key, leftKey(left[i]))| == 1
    requires |MergeLeft(left[1..], table, leftKey, key, attach)| == |left| - 1
    requires forall i :: 1 <= i < |left| ==>
               MergeLeft(left[1..], table, leftKey, key, attach)[i - 1]
               == attach(left[i], Some(Matches(table, key, leftKey(left[i]))[0].id))
    ensures |MergeLeft(left, table, leftKey, key, attach)| == |left|
    ensures forall i :: 0 <= i < |left| ==>
              MergeLeft(left, table, leftKey, key, attach)[i]
              == attach(left[i], Some(Matches(table, key, leftKey(left[i]))[0].id))
  {
    var rest := MergeLeft(left[1..], table, leftKey, key, attach);
    var out := MergeLeft(left, table, leftKey, key, attach);
    MergeLeftCons(left, table, leftKey, key, attach);
    forall i | 1 <= i < |left|
      ensures out[i] == attach(left[i], Some(Matches(table, key, leftKey(left[i]))[0].id))
    {
      assert out[i] == rest[i - 1];
    }
  }

  /** A first row with exactly one match contributes exactly one output row. */
  lemma MergeLeftCons<L, A, K>(left: seq<L>, table: seq<Keyed<A>>, leftKey: L -> K,
                               key: A -> K, attach: (L, Option<int>) -> L)
    requires left != [] && |Matches(table, key, leftKey(left[0]))| == 1
    ensures MergeLeft(left, table, leftKey, key, attach)
            == [attach(left[0], Some(Matches(table, key, leftKey(left[0]))[0].id))]
               + MergeLeft(left[1..], table, leftKey, key, attach)
  {
    var m := Matches(table, key, leftKey(left[0]));
    assert Fan(left[0], m, attach) == [attach(left[0], Some(m[0].id))];
  }

  /** Referential integrity of a left merge: when every left row satisfies `P` and matches at
      least one table row, and attaching the key of a matching row to a `P` row yields a `Q`
      row, then every output row satisfies `Q` (no output row has a missing key). */
  lemma {:induction false} MergeLeftResolves<L, A, K>(left: seq<L>, table: seq<Keyed<A>>, leftKey: L -> K,
                                                      key: A -> K, attach: (L, Option<int>) -> L,
                                                      P: L -> bool, Q: L -> bool)
    requires forall i :: 0 <= i < |left| ==> P(left[i]) && Matches(table, key, leftKey(left[i])) != []
    requires forall l, r :: P(l) && r in table && key(r.attrs) == leftKey(l) ==> Q(attach(l, Some(r.id)))
    ensures forall x :: x in MergeLeft(left, table, leftKey, key, attach) ==> Q(x)
  {
    if left != [] {
      var m := Matches(table, key, leftKey(left[0]));
      var f := Fan(left[0], m, attach);
      forall x | x in f ensures Q(x) {
        var i :| 0 <= i < |f| && f[i] == x;
        assert m[i] in m;
      }
      forall i | 0 <= i < |left[1..]|
        ensures P(left[1..][i]) && Matches(table, key, leftKey(left[1..][i])) != []
      {
        assert left[1..][i] == left[i + 1];
      }
      MergeLeftResolves(left[1..], table, leftKey, key, attach, P, Q);
    }
  }
}
