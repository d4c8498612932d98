/**
 The avg query: records are grouped by (ancestor cell at a resolution, cell_id),
 groups keep the order in which their key was first seen, and each group is
 reduced to the element at index len // 2 of its sorted levels.
 */
module Aggregation {
  import opened Grid
  import opened Records

  // ---------------------------------------------------------------------------
  // Sorting and the median

  predicate IsSorted(s: seq<int>)
  {
    forall i, j :: 0 <= i < j < |s| ==> s[i] <= s[j]
  }

  function Insert(x: int, s: seq<int>): (r: seq<int>)
    ensures |r| == |s| + 1
    ensures forall y :: y in r <==> y == x || y in s
    ensures multiset(r) == multiset(s) + multiset{x}
  {
    if s == [] || x <= s[0] then [x] + s
    else
      assert s == [s[0]] + s[1..];
      [s[0]] + Insert(x, s[1..])
  }

  /** A bound below the inserted value and below the sequence stays below the result. */
  lemma InsertAbove(x: int, s: seq<int>, b: int)
    requires b <= x && forall i :: 0 <= i < |s| ==> b <= s[i]
    ensures forall k :: 0 <= k < |Insert(x, s)| ==> b <= Insert(x, s)[k]
  {
    var r := Insert(x, s);
    forall k | 0 <= k < |r|
      ensures b <= r[k]
    {
      assert r[k] in r;
    }
  }

  lemma {:induction false} InsertSorted(x: int, s: seq<int>)
    requires IsSorted(s)
    ensures IsSorted(Insert(x, s))
  {
    if s != [] && x > s[0] {
      var tail := s[1..];
      assert IsSorted(tail);
      InsertSorted(x, tail);
      InsertAbove(x, tail, s[0]);
      var rest := Insert(x, tail);
      var r := Insert(x, s);
      assert r == [s[0]] + rest;
      forall i, j | 0 <= i < j < |r|
        ensures r[i] <= r[j]
      {
        assert r[j] == rest[j - 1];
        if i > 0 {
          assert r[i] == rest[i - 1];
        }
      }
    }
  }

  /** sorted(): an ascending permutation of its input. */
  function Sort(v: seq<int>): (r: seq<int>)
    ensures |r| == |v|
    ensures IsSorted(r) && multiset(r) == multiset(v)
  {
    if v == [] then []
    else
      assert v == [v[0]] + v[1..];
      InsertSorted(v[0], Sort(v[1..]));
      Insert(v[0], Sort(v[1..]))
  }

  lemma SortedHeadIsLeast(a: seq<int>, x: int)
    requires IsSorted(a) && x in multiset(a)
    ensures a[0] <= x
  {
    var i :| 0 <= i < |a| && a[i] == x;
  }

  lemma SortedTail(a: seq<int>)
    requires IsSorted(a) && a != []
    ensures IsSorted(a[1..])
  {
    forall i, j | 0 <= i < j < |a| - 1
      ensures a[1..][i] <= a[1..][j]
    {
      assert a[1..][i] == a[i + 1] && a[1..][j] == a[j + 1];
    }
  }

  /** Two ascending orderings of the same values are equal, so the median does not depend on the sort. */
  lemma {:induction false} SortedUnique(a: seq<int>, b: seq<int>)
    requires IsSorted(a) && IsSorted(b) && multiset(a) == multiset(b)
    ensures a == b
  {
    assert |a| == |multiset(a)| == |multiset(b)| == |b|;
    if a != [] {
      assert a[0] in multiset(b) && b[0] in multiset(a);
      SortedHeadIsLeast(b, a[0]);
      SortedHeadIsLeast(a, b[0]);
      var a', b' := a[1..], b[1..];
      SortedTail(a);
      SortedTail(b);
      assert a[0] == b[0];
      assert multiset(a') == multiset(b') by {
        assert a == [a[0]] + a' && b == [b[0]] + b';
        assert multiset(a') == multiset(a) - multiset{a[0]};
        assert multiset(b') == multiset(b) - multiset{b[0]};
      }
      SortedUnique(a', b');
      assert a == [a[0]] + a' && b == [b[0]] + b';
    }
  }

  /** sorted(v)[len(v) // 2]: the upper median of a group. */
  function Median(v: seq<int>): int
    requires |v| > 0
  {
    Sort(v)[|v| / 2]
  }

  function Min(v: seq<int>): int
    requires |v| > 0
  {
    if |v| == 1 then v[0] else var m := Min(v[1..]); if v[0] <= m then v[0] else m
  }

  function Max(v: seq<int>): int
    requires |v| > 0
  {
    if |v| == 1 then v[0] else var m := Max(v[1..]); if v[0] >= m then v[0] else m
  }

  lemma {:induction false} MinMaxBound(v: seq<int>, i: int)
    requires 0 <= i < |v|
    ensures Min(v) <= v[i] <= Max(v)
  {
    if i > 0 {
      assert v[1..][i - 1] == v[i];
      MinMaxBound(v[1..], i - 1);
    }
  }

  /** The median is one of the group's levels and lies between its minimum and maximum. */
  lemma MedianInGroup(v: seq<int>)
    requires |v| > 0
    ensures Median(v) in v
    ensures Min(v) <= Median(v) <= Max(v)
  {
    var s := Sort(v);
    assert s[|v| / 2] in multiset(s);
    var i :| 0 <= i < |v| && v[i] == Median(v);
    MinMaxBound(v, i);
  }

  /** The median of levels already in ascending order is the element at index len // 2. */
  lemma MedianOfSorted(v: seq<int>)
    requires |v| > 0 && IsSorted(v)
    ensures Median(v) == v[|v| / 2]
  {
    SortedUnique(Sort(v), v);
  }

  /** The median depends only on the multiset of levels, not on the order they were appended in. */
  lemma MedianOfPermutation(v: seq<int>, w: seq<int>)
    requires |v| > 0 && multiset(v) == multiset(w)
    ensures |w| == |v| && Median(v) == Median(w)
  {
    assert |v| == |multiset(v)| == |multiset(w)| == |w|;
    SortedUnique(Sort(v), Sort(w));
  }

  /** An odd-sized group gives the middle of its sorted levels. */
  lemma MedianOfThree()
    ensures Median([10, 20, 30]) == 20
  {
    MedianOfSorted([10, 20, 30]);
  }

  /** An even-sized group gives the upper of the two middle levels (index 2 of 4). */
  lemma MedianOfFour()
    ensures Median([10, 20, 30, 40]) == 30
  {
    var v := [10, 20, 30, 40];
    assert IsSorted(v) by {
      assert forall i :: 0 <= i < |v| ==> v[i] == 10 * (i + 1);
    }
    MedianOfSorted(v);
  }

  /** The same group appended in another order has the same median. */
  lemma MedianOfUnsorted()
    ensures Median([40, 10, 30, 20]) == 30
  {
    var v, w := [40, 10, 30, 20], [10, 20, 30, 40];
    assert multiset(v) == multiset(w);
    MedianOfPermutation(v, w);
    MedianOfFour();
  }

  // ---------------------------------------------------------------------------
  // Grouping of (key, level) pairs in first-seen key order

  /** A group key: (ancestor cell at the requested resolution, cell_id). */
  type Key = (Cell, int)

  function KeySet(ps: seq<(Key, int)>): set<Key>
  {
    set p | p in ps :: p.0
  }

  lemma KeySetSnoc(ps: seq<(Key, int)>, p: (Key, int))
    ensures KeySet(ps + [p]) == KeySet(ps) + {p.0}
  {
    assert forall x :: x in ps + [p] <==> x in ps || x == p;
  }

  /** The keys of result_dict, in insertion order. */
  function Keys(ps: seq<(Key, int)>): (ks: seq<Key>)
    ensures forall i, j :: 0 <= i < j < |ks| ==> ks[i] != ks[j]
    ensures forall k :: k in ks <==> k in KeySet(ps)
  {
    if ps == [] then []
    else
      var init, last := ps[..|ps| - 1], ps[|ps| - 1];
      assert ps == init + [last];
      KeySetSnoc(init, last);
      var ks := Keys(init);
      if last.0 in ks then ks else ks + [last.0]
  }

  /** The levels appended under key k, in record order. */
  function Group(ps: seq<(Key, int)>, k: Key): seq<int>
  {
    if ps == [] then []
    else
      var init, last := ps[..|ps| - 1], ps[|ps| - 1];
      Group(init, k) + (if last.0 == k then [last.1] else [])
  }

  lemma GroupSnoc(ps: seq<(Key, int)>, p: (Key, int), k: Key)
    ensures Group(ps + [p], k) == Group(ps, k) + (if p.0 == k then [p.1] else [])
  {
    assert (ps + [p])[..|ps|] == ps;
  }

  lemma KeysSnoc(ps: seq<(Key, int)>, p: (Key, int))
    ensures Keys(ps + [p]) == if p.0 in Keys(ps) then Keys(ps) else Keys(ps) + [p.0]
  {
    assert (ps + [p])[..|ps|] == ps;
  }

  /**
   keys and groups are result_dict after the pairs ps: its keys in insertion
   order and, under each, the levels appended so far.
   */
  ghost predicate Grouped(ps: seq<(Key, int)>, keys: seq<Key>, groups: map<Key, seq<int>>)
  {
    && keys == Keys(ps)
    && (forall k :: k in groups <==> k in keys)
    && (forall k :: k in groups ==> groups[k] == Group(ps, k) && |groups[k]| > 0)
  }

  /** A step of the avg loop on a key not seen before: the key is added with a group of one level. */
  lemma GroupedNewKey(ps: seq<(Key, int)>, keys: seq<Key>, groups: map<Key, seq<int>>, key: Key, level: int)
    requires Grouped(ps, keys, groups) && key !in groups
    ensures Grouped(ps + [(key, level)], keys + [key], groups[key := [level]])
  {
    var ps', keys', groups' := ps + [(key, level)], keys + [key], groups[key := [level]];
    KeysSnoc(ps, (key, level));
    assert key !in keys;
    assert keys' == Keys(ps');
    assert forall k :: k in groups' <==> k in keys';
    GroupNonEmpty(ps, key);
    forall k | k in groups'
      ensures groups'[k] == Group(ps', k) && |groups'[k]| > 0
    {
      GroupSnoc(ps, (key, level), k);
    }
  }

  /** A step of the avg loop on a key already seen: the level is appended to its group. */
  lemma GroupedOldKey(ps: seq<(Key, int)>, keys: seq<Key>, groups: map<Key, seq<int>>, key: Key, level: int)
    requires Grouped(ps, keys, groups) && key in groups
    ensures Grouped(ps + [(key, level)], keys, groups[key := groups[key] + [level]])
  {
    var ps', groups' := ps + [(key, level)], groups[key := groups[key] + [level]];
    KeysSnoc(ps, (key, level));
    forall k | k in groups'
      ensures groups'[k] == Group(ps', k)
    {
      GroupSnoc(ps, (key, level), k);
    }
  }

  /** A key has a non-empty group exactly when some pair carries it. */
  lemma {:induction false} GroupNonEmpty(ps: seq<(Key, int)>, k: Key)
    ensures |Group(ps, k)| > 0 <==> k in KeySet(ps)
  {
    if ps != [] {
      var init, last := ps[..|ps| - 1], ps[|ps| - 1];
      assert ps == init + [last];
      KeySetSnoc(init, last);
      GroupNonEmpty(init, k);
    }
  }

  /** The position of the first pair with key k. */
  function FirstIndex(ps: seq<(Key, int)>, k: Key): (i: nat)
    requires k in KeySet(ps)
    ensures i < |ps| && ps[i].0 == k
    ensures forall j :: 0 <= j < i ==> ps[j].0 != k
  {
    var init, last := ps[..|ps| - 1], ps[|ps| - 1];
    assert ps == init + [last];
    KeySetSnoc(init, last);
    if k in KeySet(init) then FirstIndex(init, k) else |ps| - 1
  }

  /** The output keys are ordered by the position at which each was first seen. */
  lemma {:induction false} KeysFirstSeen(ps: seq<(Key, int)>, j: int, j': int)
    requires 0 <= j < j' < |Keys(ps)|
    ensures FirstIndex(ps, Keys(ps)[j]) < FirstIndex(ps, Keys(ps)[j'])
  {
    var init, last := ps[..|ps| - 1], ps[|ps| - 1];
    assert ps == init + [last];
    KeySetSnoc(init, last);
    var ks, ks0 := Keys(ps), Keys(init);
    assert ks[j] in KeySet(init) by {
      if last.0 !in ks0 {
        assert j < |ks0| && ks[j] == ks0[j];
        assert ks0[j] in ks0;
      } else {
        assert ks[j] in ks0;
      }
    }
    if j' < |ks0| {
      assert ks[j] == ks0[j] && ks[j'] == ks0[j'];
      assert ks0[j'] in ks0;
      KeysFirstSeen(init, j, j');
    } else {
      assert ks[j'] == last.0 && last.0 !in KeySet(init);
    }
  }

  /** The summed sizes of the groups of the keys ks. */
  function SumSizes(ps: seq<(Key, int)>, ks: seq<Key>): nat
  {
    if ks == [] then 0 else SumSizes(ps, ks[..|ks| - 1]) + |Group(ps, ks[|ks| - 1])|
  }

  lemma {:induction false} SumSizesSnoc(ps: seq<(Key, int)>, p: (Key, int), ks: seq<Key>)
    requires forall i, j :: 0 <= i < j < |ks| ==> ks[i] != ks[j]
    ensures SumSizes(ps + [p], ks) == SumSizes(ps, ks) + (if p.0 in ks then 1 else 0)
  {
    if ks != [] {
      var init := ks[..|ks| - 1];
      assert ks == init + [ks[|ks| - 1]];
      SumSizesSnoc(ps, p, init);
      assert (ps + [p])[..|ps|] == ps;
    }
  }

  /** Every pair lands in exactly one group: the group sizes add up to the number of pairs. */
  lemma {:induction false} GroupSizesSum(ps: seq<(Key, int)>)
    ensures SumSizes(ps, Keys(ps)) == |ps|
  {
    if ps != [] {
      var init, last := ps[..|ps| - 1], ps[|ps| - 1];
      assert ps == init + [last];
      var ks := Keys(init);
      GroupSizesSum(init);
      SumSizesSnoc(init, last, ks);
      if last.0 !in ks {
        assert (ks + [last.0])[..|ks|] == ks;
        GroupNonEmpty(init, last.0);
        assert Group(init, last.0) == [];
      }
    }
  }

  // ---------------------------------------------------------------------------
  // The avg result over records

  /** One element of the avg result: [parent cell, cell_id, median level]. */
  datatype Aggregate = Aggregate(cell: Cell, cellId: int, level: int)

  function KeyOf(a: Aggregate): Key
  {
    (a.cell, a.cellId)
  }

  /** cell_to_parent accepts every record's cell at this resolution. */
  predicate Resolvable(geo: Geometry, res: int, hs: seq<Record>)
  {
    forall i :: 0 <= i < |hs| ==> geo.parent(hs[i].cell, res).Some?
  }

  /** Each record as its group key and level. */
  function Pairs(geo: Geometry, res: int, hs: seq<Record>): (ps: seq<(Key, int)>)
    requires Resolvable(geo, res, hs)
  {
    seq(|hs|, i requires 0 <= i < |hs| => ((geo.parent(hs[i].cell, res).value, hs[i].cellId), hs[i].level))
  }

  lemma PairsSnoc(geo: Geometry, res: int, hs: seq<Record>, h: Record)
    requires Resolvable(geo, res, hs) && geo.parent(h.cell, res).Some?
    ensures Resolvable(geo, res, hs + [h])
    ensures Pairs(geo, res, hs + [h]) == Pairs(geo, res, hs) + [((geo.parent(h.cell, res).value, h.cellId), h.level)]
  {
    var hs' := hs + [h];
    assert forall i :: 0 <= i < |hs| ==> hs'[i] == hs[i];
  }

  /** One aggregate per key, in first-seen order, holding the median of that key's levels. */
  function Summary(ps: seq<(Key, int)>): seq<Aggregate>
  {
    var ks := Keys(ps);
    seq(|ks|, j requires 0 <= j < |ks| =>
      GroupNonEmpty(ps, ks[j]);
      Aggregate(ks[j].0, ks[j].1, Median(Group(ps, ks[j]))))
  }

  /** The output has no key twice, and a key occurs in it exactly when some record carries it. */
  lemma SummaryKeys(ps: seq<(Key, int)>)
    ensures var out := Summary(ps);
      && (forall j, j' :: 0 <= j < j' < |out| ==> KeyOf(out[j]) != KeyOf(out[j']))
      && (forall k :: k in KeySet(ps) <==> exists j :: 0 <= j < |out| && KeyOf(out[j]) == k)
  {
    var out, ks := Summary(ps), Keys(ps);
    assert forall j :: 0 <= j < |out| ==> KeyOf(out[j]) == ks[j];
    forall k | k in KeySet(ps)
      ensures exists j :: 0 <= j < |out| && KeyOf(out[j]) == k
    {
      var j :| 0 <= j < |ks| && ks[j] == k;
      assert KeyOf(out[j]) == k;
    }
    forall k | exists j :: 0 <= j < |out| && KeyOf(out[j]) == k
      ensures k in KeySet(ps)
    {
      var j :| 0 <= j < |out| && KeyOf(out[j]) == k;
      assert ks[j] in ks;
    }
  }

  /** The output lists the keys in the order in which they are first seen among the records. */
  lemma SummaryOrder(ps: seq<(Key, int)>, j: int, j': int)
    requires 0 <= j < j' < |Summary(ps)|
    ensures FirstIndex(ps, KeyOf(Summary(ps)[j])) < FirstIndex(ps, KeyOf(Summary(ps)[j']))
  {
    var ks := Keys(ps);
    assert ks[j] in ks && ks[j'] in ks;
    KeysFirstSeen(ps, j, j');
  }

  /** Each output level is the median of a non-empty group: one of its levels, between its minimum and maximum. */
  lemma SummaryLevel(ps: seq<(Key, int)>, j: int)
    requires 0 <= j < |Summary(ps)|
    ensures var a, g := Summary(ps)[j], Group(ps, KeyOf(Summary(ps)[j]));
      |g| > 0 && a.level == Median(g) && a.level in g && Min(g) <= a.level <= Max(g)
  {
    var ks := Keys(ps);
    assert ks[j] in ks;
    GroupNonEmpty(ps, ks[j]);
    MedianInGroup(Group(ps, ks[j]));
  }

  /** The groups of the output keys together hold every record exactly once. */
  lemma SummarySizes(ps: seq<(Key, int)>)
    ensures var out := Summary(ps);
      SumSizes(ps, seq(|out|, j requires 0 <= j < |out| => KeyOf(out[j]))) == |ps|
  {
    var out, ks := Summary(ps), Keys(ps);
    assert seq(|out|, j requires 0 <= j < |out| => KeyOf(out[j])) == ks;
    GroupSizesSum(ps);
  }
}
