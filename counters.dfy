/**
 * Python's `dict` and `collections.Counter` over keys of one type, as an
 * association list in insertion order (the order `most_common` breaks ties
 * by): `Counter(iterable)`, `dict(pairs)`, `__getitem__`, `__setitem__` and
 * `Counter.__add__`.
 */
module Counters {
  import opened SeqFacts
  import opened Ranking

  /** Entries `(key, count)` in insertion order. */
  type Counter<K> = seq<(K, int)>

  function Keys<K>(c: Counter<K>): (ks: seq<K>)
    ensures |ks| == |c|
    ensures forall i :: 0 <= i < |c| ==> ks[i] == c[i].0
  {
    if c == [] then [] else [c[0].0] + Keys(c[1..])
  }

  lemma KeysAppend<K>(a: Counter<K>, b: Counter<K>)
    ensures Keys(a + b) == Keys(a) + Keys(b)
  {
    assert forall i :: 0 <= i < |a + b| ==> Keys(a + b)[i] == (Keys(a) + Keys(b))[i];
  }

  ghost predicate DistinctKeys<K>(c: Counter<K>)
  {
    forall i, j :: 0 <= i < j < |c| ==> c[i].0 != c[j].0
  }

  ghost predicate AllPositive<K>(c: Counter<K>)
  {
    forall i :: 0 <= i < |c| ==> c[i].1 > 0
  }

  /** `c[k]` on a Counter: the key's count, 0 when the key is absent. */
  function Get<K(==)>(c: Counter<K>, k: K): int
  {
    if c == [] then 0 else if c[0].0 == k then c[0].1 else Get(c[1..], k)
  }

  /** `c[k] = v`: an existing key keeps its place, a new key goes last. */
  function SetValue<K(==)>(c: Counter<K>, k: K, v: int): Counter<K>
  {
    if c == [] then [(k, v)]
    else if c[0].0 == k then [(k, v)] + c[1..]
    else [c[0]] + SetValue(c[1..], k, v)
  }

  /** `Counter(xs)`: each element adds one to its count (`c[x] = c.get(x, 0) + 1`). */
  function CountAll<K(==)>(xs: seq<K>): Counter<K>
  {
    if xs == [] then []
    else
      var c := CountAll(xs[..|xs| - 1]);
      var x := xs[|xs| - 1];
      SetValue(c, x, Get(c, x) + 1)
  }

  /** `dict(pairs)`: a later pair with the same key overwrites the earlier value. */
  function FromPairs<K(==)>(ps: seq<(K, int)>): Counter<K>
  {
    if ps == [] then []
    else SetValue(FromPairs(ps[..|ps| - 1]), ps[|ps| - 1].0, ps[|ps| - 1].1)
  }

  /** First loop of `Counter.__add__`: the left keys with their summed counts, when positive. */
  function AddLeft<K(==)>(a: Counter<K>, b: Counter<K>): Counter<K>
  {
    if a == [] then []
    else
      var newCount := a[0].1 + Get(b, a[0].0);
      (if newCount > 0 then [(a[0].0, newCount)] else []) + AddLeft(a[1..], b)
  }

  /** Second loop of `Counter.__add__`: the right keys the left lacks, when positive. */
  function AddRight<K(==)>(a: Counter<K>, b: Counter<K>): Counter<K>
  {
    if b == [] then []
    else (if b[0].0 !in Keys(a) && b[0].1 > 0 then [b[0]] else []) + AddRight(a, b[1..])
  }

  /** `a + b` on Counters. */
  function Add<K(==)>(a: Counter<K>, b: Counter<K>): Counter<K>
  {
    AddLeft(a, b) + AddRight(a, b)
  }

  function EntryCount<K>(e: (K, int)): int
  {
    e.1
  }

  /** `c.most_common(n)`. */
  function MostCommon<K>(c: Counter<K>, n: nat): Counter<K>
  {
    TopN(c, EntryCount, n)
  }

  /** The distinct elements of `xs` in order of first occurrence (dict key order). */
  function FirstOccurrences<K(==)>(xs: seq<K>): seq<K>
  {
    if xs == [] then []
    else
      var n := |xs| - 1;
      FirstOccurrences(xs[..n]) + (if xs[n] in xs[..n] then [] else [xs[n]])
  }

  function SumCounts<K>(c: Counter<K>): int
  {
    if c == [] then 0 else c[0].1 + SumCounts(c[1..])
  }

  /** The sum of the counts paired with `k` in `ps`. */
  function SumOf<K(==)>(ps: seq<(K, int)>, k: K): int
  {
    if ps == [] then 0 else (if ps[0].0 == k then ps[0].1 else 0) + SumOf(ps[1..], k)
  }

  // ---------------------------------------------------------------- lookup and update

  lemma DistinctCons<K>(c: Counter<K>)
    requires c != []
    ensures DistinctKeys(c) <==> c[0].0 !in Keys(c[1..]) && DistinctKeys(c[1..])
  {
    if DistinctKeys(c) {
      forall i, j | 0 <= i < j < |c[1..]| ensures c[1..][i].0 != c[1..][j].0 {
        assert c[1..][i] == c[i + 1] && c[1..][j] == c[j + 1];
      }
    }
    if c[0].0 !in Keys(c[1..]) && DistinctKeys(c[1..]) {
      forall i, j | 0 <= i < j < |c| ensures c[i].0 != c[j].0 {
        if i == 0 {
          assert Keys(c[1..])[j - 1] == c[j].0;
        } else {
          assert c[1..][i - 1] == c[i] && c[1..][j - 1] == c[j];
        }
      }
    }
  }

  lemma {:induction false} GetMissing<K>(c: Counter<K>, k: K)
    requires k !in Keys(c)
    ensures Get(c, k) == 0
  {
    if c != [] {
      assert Keys(c)[0] == c[0].0;
      assert Keys(c[1..]) == Keys(c)[1..];
      GetMissing(c[1..], k);
    }
  }

  /** With distinct keys, looking up an entry's key gives that entry's count. */
  lemma {:induction false} GetAt<K>(c: Counter<K>, i: nat)
    requires DistinctKeys(c) && i < |c|
    ensures Get(c, c[i].0) == c[i].1
  {
    if i > 0 {
      DistinctCons(c);
      GetAt(c[1..], i - 1);
    }
  }

  /** Assigning `c[k] = v` changes the count of `k` to `v` and no other count. */
  lemma {:induction false} GetSetValue<K>(c: Counter<K>, k: K, v: int, k': K)
    ensures Get(SetValue(c, k, v), k') == if k' == k then v else Get(c, k')
  {
    if c != [] && c[0].0 != k {
      GetSetValue(c[1..], k, v, k');
    }
  }

  /** An assignment keeps the key order, appending a key that was absent. */
  lemma {:induction false} KeysSetValue<K>(c: Counter<K>, k: K, v: int)
    ensures Keys(SetValue(c, k, v)) == if k in Keys(c) then Keys(c) else Keys(c) + [k]
  {
    if c != [] {
      assert Keys(c) == [c[0].0] + Keys(c[1..]);
      if c[0].0 != k {
        KeysSetValue(c[1..], k, v);
        assert Keys(SetValue(c, k, v)) == [c[0].0] + Keys(SetValue(c[1..], k, v));
      }
    }
  }

  lemma {:induction false} DistinctSetValue<K>(c: Counter<K>, k: K, v: int)
    requires DistinctKeys(c)
    ensures DistinctKeys(SetValue(c, k, v))
  {
    if c != [] {
      DistinctCons(c);
      var r := SetValue(c, k, v);
      if c[0].0 == k {
        assert r[1..] == c[1..];
        DistinctCons(r);
      } else {
        DistinctSetValue(c[1..], k, v);
        KeysSetValue(c[1..], k, v);
        assert r[1..] == SetValue(c[1..], k, v);
        DistinctCons(r);
      }
    }
  }

  lemma {:induction false} PositiveSetValue<K>(c: Counter<K>, k: K, v: int)
    requires AllPositive(c) && v > 0
    ensures AllPositive(SetValue(c, k, v))
  {
    if c != [] && c[0].0 != k {
      PositiveSetValue(c[1..], k, v);
      var r := SetValue(c, k, v);
      assert r == [c[0]] + SetValue(c[1..], k, v);
      assert forall i :: 1 <= i < |r| ==> r[i] == SetValue(c[1..], k, v)[i - 1];
    }
  }

  lemma PositiveAppend<K>(a: Counter<K>, b: Counter<K>)
    requires AllPositive(a) && AllPositive(b)
    ensures AllPositive(a + b)
  {
    assert forall i :: |a| <= i < |a + b| ==> (a + b)[i] == b[i - |a|];
  }

  lemma {:induction false} SumSetValue<K>(c: Counter<K>, k: K, v: int)
    ensures SumCounts(SetValue(c, k, v)) == SumCounts(c) - Get(c, k) + v
  {
    if c == [] {
      assert SetValue(c, k, v)[1..] == [];
    } else if c[0].0 == k {
      assert SetValue(c, k, v)[1..] == c[1..];
    } else {
      SumSetValue(c[1..], k, v);
      assert SetValue(c, k, v)[1..] == SetValue(c[1..], k, v);
    }
  }

  lemma {:induction false} FirstOccurrencesMembers<K>(xs: seq<K>)
    ensures forall k :: k in FirstOccurrences(xs) <==> k in xs
  {
    if xs != [] {
      var n := |xs| - 1;
      FirstOccurrencesMembers(xs[..n]);
      assert xs == xs[..n] + [xs[n]];
    }
  }

  lemma {:induction false} FirstOccurrencesDistinct<K>(xs: seq<K>)
    ensures forall i, j :: 0 <= i < j < |FirstOccurrences(xs)| ==> FirstOccurrences(xs)[i] != FirstOccurrences(xs)[j]
  {
    if xs != [] {
      var n := |xs| - 1;
      FirstOccurrencesDistinct(xs[..n]);
      FirstOccurrencesMembers(xs[..n]);
    }
  }

  lemma {:induction false} DistinctCardinality<K>(s: seq<K>)
    requires forall i, j :: 0 <= i < j < |s| ==> s[i] != s[j]
    ensures |set x | x in s| == |s|
  {
    if s != [] {
      var n := |s| - 1;
      DistinctCardinality(s[..n]);
      assert (set x | x in s) == (set x | x in s[..n]) + {s[n]};
      assert s[n] !in (set x | x in s[..n]);
    }
  }

  lemma SameMembers<K>(a: seq<K>, b: seq<K>)
    requires forall x :: x in a <==> x in b
    ensures (set x | x in a) == (set x | x in b)
  {
  }

  /** The number of first occurrences is the number of distinct elements. */
  lemma DistinctCount<K>(xs: seq<K>)
    ensures |FirstOccurrences(xs)| == |set x | x in xs|
  {
    FirstOccurrencesDistinct(xs);
    FirstOccurrencesMembers(xs);
    DistinctCardinality(FirstOccurrences(xs));
    SameMembers(FirstOccurrences(xs), xs);
  }

  // ---------------------------------------------------------------- Counter(xs)

  /** Each count of `Counter(xs)` is the element's number of occurrences in `xs`. */
  lemma {:induction false} CountAllGet<K>(xs: seq<K>, k: K)
    ensures Get(CountAll(xs), k) == multiset(xs)[k]
  {
    if xs != [] {
      var n := |xs| - 1;
      var c := CountAll(xs[..n]);
      CountAllGet(xs[..n], k);
      CountAllGet(xs[..n], xs[n]);
      assert xs == xs[..n] + [xs[n]];
      GetSetValue(c, xs[n], Get(c, xs[n]) + 1, k);
    }
  }

  /**
   * `Counter(xs)` has one entry per distinct element, in order of first
   * occurrence, each with a positive count.
   */
  lemma {:induction false} CountAllKeys<K>(xs: seq<K>)
    ensures DistinctKeys(CountAll(xs)) && AllPositive(CountAll(xs))
    ensures Keys(CountAll(xs)) == FirstOccurrences(xs)
  {
    if xs != [] {
      var n := |xs| - 1;
      var c := CountAll(xs[..n]);
      var x := xs[n];
      CountAllKeys(xs[..n]);
      CountAllGet(xs[..n], x);
      DistinctSetValue(c, x, Get(c, x) + 1);
      PositiveSetValue(c, x, Get(c, x) + 1);
      KeysSetValue(c, x, Get(c, x) + 1);
      FirstOccurrencesMembers(xs[..n]);
    }
  }

  /** The counts of `Counter(xs)` add up to the length of `xs`. */
  lemma {:induction false} CountAllSum<K>(xs: seq<K>)
    ensures SumCounts(CountAll(xs)) == |xs|
  {
    if xs != [] {
      var n := |xs| - 1;
      var c := CountAll(xs[..n]);
      CountAllSum(xs[..n]);
      SumSetValue(c, xs[n], Get(c, xs[n]) + 1);
    }
  }

  // ---------------------------------------------------------------- dict(pairs)

  /** `dict(pairs)` has distinct keys, in order of their first occurrence among the pairs. */
  lemma {:induction false} FromPairsKeys<K>(ps: seq<(K, int)>)
    ensures DistinctKeys(FromPairs(ps))
    ensures Keys(FromPairs(ps)) == FirstOccurrences(Keys(ps))
  {
    if ps != [] {
      var n := |ps| - 1;
      var prev := FromPairs(ps[..n]);
      var ks := Keys(ps);
      assert ks[..n] == Keys(ps[..n]);
      FromPairsKeys(ps[..n]);
      DistinctSetValue(prev, ps[n].0, ps[n].1);
      KeysSetValue(prev, ps[n].0, ps[n].1);
      FirstOccurrencesMembers(ks[..n]);
      assert (ps[n].0 in Keys(prev)) == (ks[n] in ks[..n]);
    }
  }

  /** The value `dict(pairs)` keeps for a key is the one in the key's LAST pair. */
  lemma {:induction false} FromPairsLastWins<K>(ps: seq<(K, int)>, i: nat)
    requires i < |ps|
    requires forall j :: i < j < |ps| ==> ps[j].0 != ps[i].0
    ensures Get(FromPairs(ps), ps[i].0) == ps[i].1
  {
    var n := |ps| - 1;
    GetSetValue(FromPairs(ps[..n]), ps[n].0, ps[n].1, ps[i].0);
    if i < n {
      FromPairsLastWins(ps[..n], i);
    }
  }

  /** The position of the last pair carrying key `k`. */
  function LastIndexOfKey<K(==)>(ps: seq<(K, int)>, k: K): (i: nat)
    requires k in Keys(ps)
    ensures i < |ps| && ps[i].0 == k
    ensures forall j :: i < j < |ps| ==> ps[j].0 != k
  {
    var n := |ps| - 1;
    if ps[n].0 == k then n
    else
      assert Keys(ps) == Keys(ps[..n]) + [ps[n].0];
      LastIndexOfKey(ps[..n], k)
  }

  /** Every entry of `dict(pairs)` is the last pair carrying its key. */
  lemma FromPairsEntry<K>(ps: seq<(K, int)>, e: (K, int))
    requires e in FromPairs(ps)
    ensures exists i :: 0 <= i < |ps| && ps[i] == e && forall j :: i < j < |ps| ==> ps[j].0 != e.0
  {
    FromPairsKeys(ps);
    EntryIsLookup(FromPairs(ps), e);
    FirstOccurrencesMembers(Keys(ps));
    var i := LastIndexOfKey(ps, e.0);
    FromPairsLastWins(ps, i);
  }

  /** A key no pair carries has count 0. */
  lemma FromPairsMissing<K>(ps: seq<(K, int)>, k: K)
    requires k !in Keys(ps)
    ensures Get(FromPairs(ps), k) == 0
  {
    FromPairsKeys(ps);
    FirstOccurrencesMembers(Keys(ps));
    GetMissing(FromPairs(ps), k);
  }

  lemma {:induction false} SumOfAppend<K>(a: seq<(K, int)>, b: seq<(K, int)>, k: K)
    ensures SumOf(a + b, k) == SumOf(a, k) + SumOf(b, k)
  {
    if a == [] {
      assert a + b == b;
    } else {
      SumOfAppend(a[1..], b, k);
      assert (a + b)[1..] == a[1..] + b;
    }
  }

  lemma {:induction false} SumOfPositive<K>(ps: seq<(K, int)>, k: K, i: nat)
    requires AllPositive(ps) && i < |ps| && ps[i].0 == k
    ensures SumOf(ps, k) >= ps[i].1
  {
    if i > 0 {
      SumOfPositive(ps[1..], k, i - 1);
    } else {
      SumOfNonNegative(ps[1..], k);
    }
  }

  lemma {:induction false} SumOfNonNegative<K>(ps: seq<(K, int)>, k: K)
    requires AllPositive(ps)
    ensures SumOf(ps, k) >= 0
  {
    if ps != [] {
      SumOfNonNegative(ps[1..], k);
    }
  }

  /**
   * `dict(pairs)` does not add up repeated keys: when a key occurs in two
   * pairs with positive counts, the kept count is strictly less than the sum.
   */
  lemma FromPairsLosesRepeats<K>(ps: seq<(K, int)>, i: nat, j: nat)
    requires AllPositive(ps)
    requires i < j < |ps| && ps[i].0 == ps[j].0
    requires forall l :: j < l < |ps| ==> ps[l].0 != ps[j].0
    ensures Get(FromPairs(ps), ps[j].0) == ps[j].1 < SumOf(ps, ps[j].0)
  {
    var k := ps[j].0;
    FromPairsLastWins(ps, j);
    SumOfAround(ps, j);
    assert AllPositive(ps[..j]) && ps[..j][i] == ps[i];
    SumOfPositive(ps[..j], k, i);
    assert AllPositive(ps[j + 1..]);
    SumOfNonNegative(ps[j + 1..], k);
  }

  lemma SumOfAround<K>(ps: seq<(K, int)>, j: nat)
    requires j < |ps|
    ensures SumOf(ps, ps[j].0) == SumOf(ps[..j], ps[j].0) + ps[j].1 + SumOf(ps[j + 1..], ps[j].0)
  {
    var k := ps[j].0;
    assert ps == ps[..j] + ps[j..];
    SumOfAppend(ps[..j], ps[j..], k);
    assert ps[j..][1..] == ps[j + 1..];
  }

  /** When each key occurs in one pair only, `dict(pairs)` keeps every count whole. */
  lemma FromPairsDistinct<K>(ps: seq<(K, int)>, i: nat)
    requires DistinctKeys(ps) && i < |ps|
    ensures Get(FromPairs(ps), ps[i].0) == ps[i].1 == SumOf(ps, ps[i].0)
  {
    FromPairsLastWins(ps, i);
    SumOfSingle(ps, i);
  }

  lemma {:induction false} SumOfSingle<K>(ps: seq<(K, int)>, i: nat)
    requires DistinctKeys(ps) && i < |ps|
    ensures SumOf(ps, ps[i].0) == ps[i].1
  {
    DistinctCons(ps);
    if i > 0 {
      SumOfSingle(ps[1..], i - 1);
      assert ps[0].0 != ps[i].0;
    } else {
      SumOfMissing(ps[1..], ps[0].0);
    }
  }

  lemma {:induction false} SumOfMissing<K>(ps: seq<(K, int)>, k: K)
    requires k !in Keys(ps)
    ensures SumOf(ps, k) == 0
  {
    if ps != [] {
      assert Keys(ps)[0] == ps[0].0;
      assert Keys(ps[1..]) == Keys(ps)[1..];
      SumOfMissing(ps[1..], k);
    }
  }

  // ---------------------------------------------------------------- Counter addition

  lemma {:induction false} AddLeftDisjoint<K>(a: Counter<K>, b: Counter<K>)
    requires AllPositive(a)
    requires forall i :: 0 <= i < |a| ==> a[i].0 !in Keys(b)
    ensures AddLeft(a, b) == a
  {
    if a != [] {
      GetMissing(b, a[0].0);
      AddLeftDisjoint(a[1..], b);
      assert a == [a[0]] + a[1..];
    }
  }

  lemma {:induction false} AddRightDisjoint<K>(a: Counter<K>, b: Counter<K>)
    requires AllPositive(b)
    requires forall i :: 0 <= i < |b| ==> b[i].0 !in Keys(a)
    ensures AddRight(a, b) == b
  {
    if b != [] {
      AddRightDisjoint(a, b[1..]);
      assert b == [b[0]] + b[1..];
    }
  }

  /**
   * Adding two Counters with positive counts and no key in common puts all
   * entries of the left one first, then all of the right one, counts unchanged.
   */
  lemma AddDisjoint<K>(a: Counter<K>, b: Counter<K>)
    requires AllPositive(a) && AllPositive(b)
    requires forall i :: 0 <= i < |a| ==> a[i].0 !in Keys(b)
    ensures Add(a, b) == a + b
  {
    AddLeftDisjoint(a, b);
    AddRightDisjoint(a, b);
  }

  lemma {:induction false} AddLeftKeys<K>(a: Counter<K>, b: Counter<K>)
    requires AllPositive(a) && forall i :: 0 <= i < |b| ==> b[i].1 >= 0
    ensures Keys(AddLeft(a, b)) == Keys(a)
  {
    if a != [] {
      AddLeftKeys(a[1..], b);
      GetNonNegative(b, a[0].0);
      var r := AddLeft(a, b);
      assert r == [(a[0].0, a[0].1 + Get(b, a[0].0))] + AddLeft(a[1..], b);
      assert r[0].0 == a[0].0 && r[1..] == AddLeft(a[1..], b);
      assert Keys(r) == [r[0].0] + Keys(r[1..]);
      assert Keys(a) == [a[0].0] + Keys(a[1..]);
    }
  }

  lemma {:induction false} GetAddLeft<K>(a: Counter<K>, b: Counter<K>, k: K)
    requires DistinctKeys(a) && AllPositive(a) && forall i :: 0 <= i < |b| ==> b[i].1 >= 0
    ensures Get(AddLeft(a, b), k) == if k in Keys(a) then Get(a, k) + Get(b, k) else 0
  {
    if a != [] {
      DistinctCons(a);
      GetAddLeft(a[1..], b, k);
      AddLeftKeys(a[1..], b);
      GetNonNegative(b, a[0].0);
      var newCount := a[0].1 + Get(b, a[0].0);
      assert AddLeft(a, b) == [(a[0].0, newCount)] + AddLeft(a[1..], b);
      if k != a[0].0 && k !in Keys(a[1..]) {
        GetMissing(AddLeft(a[1..], b), k);
      }
    }
  }

  lemma {:induction false} GetNonNegative<K>(c: Counter<K>, k: K)
    requires forall i :: 0 <= i < |c| ==> c[i].1 >= 0
    ensures Get(c, k) >= 0
  {
    if c != [] {
      GetNonNegative(c[1..], k);
    }
  }

  lemma {:induction false} GetAddRight<K>(a: Counter<K>, b: Counter<K>, k: K)
    requires DistinctKeys(b) && AllPositive(b)
    ensures Get(AddRight(a, b), k) == if k in Keys(a) then 0 else Get(b, k)
    ensures forall x :: x in Keys(AddRight(a, b)) <==> x in Keys(b) && x !in Keys(a)
  {
    if b != [] {
      DistinctCons(b);
      GetAddRight(a, b[1..], k);
      if b[0].0 in Keys(a) {
        assert AddRight(a, b) == AddRight(a, b[1..]);
        if k == b[0].0 {
          assert k in Keys(a);
        }
      } else {
        assert AddRight(a, b) == [b[0]] + AddRight(a, b[1..]);
      }
    }
  }

  lemma {:induction false} GetAppend<K>(x: Counter<K>, y: Counter<K>, k: K)
    ensures Get(x + y, k) == if k in Keys(x) then Get(x, k) else Get(y, k)
  {
    if x == [] {
      assert x + y == y;
    } else {
      GetAppend(x[1..], y, k);
      assert (x + y)[1..] == x[1..] + y;
    }
  }

  /** For Counters with positive counts, `a + b` adds the counts key by key. */
  lemma GetAdd<K>(a: Counter<K>, b: Counter<K>, k: K)
    requires DistinctKeys(a) && AllPositive(a) && DistinctKeys(b) && AllPositive(b)
    ensures Get(Add(a, b), k) == Get(a, k) + Get(b, k)
  {
    GetAddLeft(a, b, k);
    AddLeftKeys(a, b);
    GetAddRight(a, b, k);
    GetAppend(AddLeft(a, b), AddRight(a, b), k);
    if k !in Keys(a) {
      GetMissing(a, k);
    }
  }
  /** `Counter.__add__` keeps only positive counts. */
  lemma {:induction false} AddLeftPositive<K>(a: Counter<K>, b: Counter<K>)
    ensures AllPositive(AddLeft(a, b))
  {
    if a != [] {
      AddLeftPositive(a[1..], b);
      var newCount := a[0].1 + Get(b, a[0].0);
      PositiveAppend(if newCount > 0 then [(a[0].0, newCount)] else [], AddLeft(a[1..], b));
    }
  }

  lemma {:induction false} AddRightPositive<K>(a: Counter<K>, b: Counter<K>)
    ensures AllPositive(AddRight(a, b))
  {
    if b != [] {
      AddRightPositive(a, b[1..]);
      PositiveAppend(if b[0].0 !in Keys(a) && b[0].1 > 0 then [b[0]] else [], AddRight(a, b[1..]));
    }
  }

  /** `Counter.__add__` keeps only positive counts. */
  lemma AddPositive<K>(a: Counter<K>, b: Counter<K>)
    ensures AllPositive(AddLeft(a, b)) && AllPositive(AddRight(a, b)) && AllPositive(Add(a, b))
  {
    AddLeftPositive(a, b);
    AddRightPositive(a, b);
    PositiveAppend(AddLeft(a, b), AddRight(a, b));
  }


  lemma {:induction false} AddRightDistinct<K>(a: Counter<K>, b: Counter<K>)
    requires DistinctKeys(b) && AllPositive(b)
    ensures DistinctKeys(AddRight(a, b))
  {
    if b != [] {
      DistinctCons(b);
      AddRightDistinct(a, b[1..]);
      var rest := AddRight(a, b[1..]);
      if b[0].0 !in Keys(a) && b[0].1 > 0 {
        GetAddRight(a, b[1..], b[0].0);
        DistinctCons([b[0]] + rest);
        assert ([b[0]] + rest)[1..] == rest;
      }
    }
  }

  lemma DistinctAppend<K>(x: Counter<K>, y: Counter<K>)
    requires DistinctKeys(x) && DistinctKeys(y)
    requires forall i :: 0 <= i < |x| ==> x[i].0 !in Keys(y)
    ensures DistinctKeys(x + y)
  {
    var r := x + y;
    forall i, j | 0 <= i < j < |r| ensures r[i].0 != r[j].0 {
      if i < |x| && j >= |x| {
        assert r[j] == y[j - |x|] && Keys(y)[j - |x|] == r[j].0;
      }
    }
  }

  /**
   * For Counters with distinct keys and positive counts, `a + b` again has
   * distinct keys and positive counts, and adds the counts key by key.
   */
  lemma AddSpec<K>(a: Counter<K>, b: Counter<K>)
    requires DistinctKeys(a) && AllPositive(a) && DistinctKeys(b) && AllPositive(b)
    ensures DistinctKeys(Add(a, b)) && AllPositive(Add(a, b))
    ensures forall k :: Get(Add(a, b), k) == Get(a, k) + Get(b, k)
  {
    AddPositive(a, b);
    var left := AddLeft(a, b);
    var right := AddRight(a, b);
    AddLeftKeys(a, b);
    assert DistinctKeys(left) by {
      assert forall i :: 0 <= i < |left| ==> left[i].0 == Keys(a)[i] == a[i].0;
    }
    AddRightDistinct(a, b);
    forall i | 0 <= i < |left| ensures left[i].0 !in Keys(right) {
      assert left[i].0 == Keys(a)[i];
      GetAddRight(a, b, left[i].0);
    }
    DistinctAppend(left, right);
    forall k ensures Get(Add(a, b), k) == Get(a, k) + Get(b, k) {
      GetAdd(a, b, k);
    }
  }

  // ---------------------------------------------------------------- most_common(n)

  /** `most_common(n)` returns `min(n, len(c))` entries of `c`, by non-increasing count. */
  lemma MostCommonSpec<K>(c: Counter<K>, n: nat)
    ensures |MostCommon(c, n)| == Min(n, |c|)
    ensures forall e :: e in MostCommon(c, n) ==> e in c
    ensures NonIncreasing(MostCommon(c, n), EntryCount)
  {
    var r := MostCommon(c, n);
    TopNSpec(c, EntryCount, n);
    forall e | e in r ensures e in c {
      assert e in multiset(r);
    }
  }

  /** No entry that `most_common(n)` leaves out has a larger count than one it returns. */
  lemma MostCommonLeftOut<K>(c: Counter<K>, n: nat)
    ensures forall e, f :: e in c && e !in MostCommon(c, n) && f in MostCommon(c, n) ==> e.1 <= f.1
  {
    var r := MostCommon(c, n);
    TopNLeftOut(c, EntryCount, n);
    forall e, f | e in c && e !in r && f in r ensures e.1 <= f.1 {
      assert multiset(r)[e] == 0;
      assert e in multiset(c) - multiset(r);
    }
  }

  /**
   * Entries of equal count are returned in insertion order: those with count
   * `v` form a prefix of the entries of `c` with count `v`.
   */
  lemma MostCommonTies<K>(c: Counter<K>, n: nat)
    ensures forall v :: WithKey(MostCommon(c, n), EntryCount, v) <= WithKey(c, EntryCount, v)
  {
    TopNStable(c, EntryCount, n);
  }

  /** An entry of a Counter with distinct keys carries that key's lookup count. */
  lemma EntryIsLookup<K>(c: Counter<K>, e: (K, int))
    requires DistinctKeys(c) && e in c
    ensures e.0 in Keys(c) && Get(c, e.0) == e.1
  {
    var i :| 0 <= i < |c| && c[i] == e;
    GetAt(c, i);
  }

  /**
   * `Counter(xs).most_common(n)` pairs each returned element of `xs` with
   * its exact number of occurrences, and returns `min(n, distinct elements)` of them.
   */
  lemma MostCommonOfCounts<K>(xs: seq<K>, n: nat)
    ensures |MostCommon(CountAll(xs), n)| == Min(n, |FirstOccurrences(xs)|)
    ensures forall e :: e in MostCommon(CountAll(xs), n) ==> e.0 in xs && e.1 == multiset(xs)[e.0]
  {
    var c := CountAll(xs);
    CountAllKeys(xs);
    MostCommonSpec(c, n);
    FirstOccurrencesMembers(xs);
    forall e | e in MostCommon(c, n) ensures e.0 in xs && e.1 == multiset(xs)[e.0] {
      EntryIsLookup(c, e);
      CountAllGet(xs, e.0);
    }
  }

  /** Every entry's key is among the Counter's keys. */
  lemma KeysMembers<K>(c: Counter<K>)
    ensures forall e :: e in c ==> e.0 in Keys(c)
  {
    forall e | e in c ensures e.0 in Keys(c) {
      var i :| 0 <= i < |c| && c[i] == e;
      assert Keys(c)[i] == e.0;
    }
  }

  /** In a Counter with distinct keys and positive counts, the keys are exactly those with a positive count. */
  lemma KeysPositive<K>(c: Counter<K>, k: K)
    requires DistinctKeys(c) && AllPositive(c)
    ensures k in Keys(c) <==> Get(c, k) > 0
  {
    if k in Keys(c) {
      var i :| 0 <= i < |c| && Keys(c)[i] == k;
      GetAt(c, i);
    } else {
      GetMissing(c, k);
    }
  }

  /** With distinct keys, `most_common(n)` returns `min(n, number of keys)` entries. */
  lemma MostCommonSize<K>(c: Counter<K>, n: nat)
    requires DistinctKeys(c)
    ensures |MostCommon(c, n)| == Min(n, |set k | k in Keys(c)|)
  {
    MostCommonSpec(c, n);
    DistinctCardinality(Keys(c));
  }

  /** No key that `most_common(n)` leaves out has a larger count than an entry it returns. */
  lemma MostCommonLeftOutKeys<K>(c: Counter<K>, n: nat)
    requires DistinctKeys(c)
    ensures forall k, f :: k in Keys(c) && k !in Keys(MostCommon(c, n)) && f in MostCommon(c, n) ==>
      Get(c, k) <= f.1
  {
    var r := MostCommon(c, n);
    MostCommonLeftOut(c, n);
    KeysMembers(r);
    forall k, f | k in Keys(c) && k !in Keys(r) && f in r ensures Get(c, k) <= f.1 {
      var i :| 0 <= i < |c| && Keys(c)[i] == k;
      GetAt(c, i);
      assert c[i] in c && c[i] !in r;
    }
  }

  /**
   * `Counter(xs).most_common(n)` returns `min(n, distinct elements)` entries,
   * and no element left out occurs more often than a returned one.
   */
  lemma {:induction false} MostCommonOfCountsRank<K>(xs: seq<K>, n: nat)
    ensures |MostCommon(CountAll(xs), n)| == Min(n, |set x | x in xs|)
    ensures forall x, f :: x in xs && x !in Keys(MostCommon(CountAll(xs), n)) && f in MostCommon(CountAll(xs), n) ==>
      multiset(xs)[x] <= f.1
  {
    var c := CountAll(xs);
    CountAllKeys(xs);
    FirstOccurrencesMembers(xs);
    SameMembers(Keys(c), xs);
    MostCommonSize(c, n);
    MostCommonLeftOutKeys(c, n);
    forall x | x in xs ensures Get(c, x) == multiset(xs)[x] {
      CountAllGet(xs, x);
    }
  }

  /** Each entry `most_common` returns from a sum of Counters carries the summed count, which is positive. */
  lemma MostCommonOfSum<K>(a: Counter<K>, b: Counter<K>, n: nat)
    requires DistinctKeys(a) && AllPositive(a) && DistinctKeys(b) && AllPositive(b)
    ensures forall e :: e in MostCommon(Add(a, b), n) ==> e.1 > 0 && e.1 == Get(a, e.0) + Get(b, e.0)
  {
    var sum := Add(a, b);
    AddSpec(a, b);
    MostCommonSpec(sum, n);
    forall e | e in MostCommon(sum, n) ensures e.1 > 0 && e.1 == Get(a, e.0) + Get(b, e.0) {
      EntryIsLookup(sum, e);
    }
  }
}
