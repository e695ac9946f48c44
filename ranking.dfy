/**
 * Stable top-N selection by a numeric key, descending: the meaning shared by
 * `Counter.most_common(n)` (documented as `sorted(..., reverse=True)[:n]`,
 * which keeps equal keys in their original order), `DataFrame.nlargest(n, col)`
 * with its default `keep='first'`, and `value_counts().head(n)`.
 */
module Ranking {
  import opened SeqFacts

  function Min(a: int, b: int): int
  {
    if a <= b then a else b
  }

  /** Keys never increase from left to right. */
  ghost predicate NonIncreasing<T>(s: seq<T>, key: T -> int)
  {
    forall i, j :: 0 <= i < j < |s| ==> key(s[i]) >= key(s[j])
  }

  /** The elements of `s` whose key is `v`, in order. */
  function WithKey<T>(s: seq<T>, key: T -> int, v: int): seq<T>
  {
    if s == [] then []
    else (if key(s[0]) == v then [s[0]] else []) + WithKey(s[1..], key, v)
  }

  /** Puts `x` in front of the first element whose key is not greater than its own. */
  function Insert<T>(x: T, s: seq<T>, key: T -> int): seq<T>
  {
    if s == [] || key(x) >= key(s[0]) then [x] + s
    else [s[0]] + Insert(x, s[1..], key)
  }

  /** Stable insertion sort, largest key first. */
  function SortDesc<T>(xs: seq<T>, key: T -> int): seq<T>
  {
    if xs == [] then [] else Insert(xs[0], SortDesc(xs[1..], key), key)
  }

  /** The first `n` elements of the stable descending sort. */
  function TopN<T>(xs: seq<T>, key: T -> int, n: nat): seq<T>
  {
    var s := SortDesc(xs, key);
    SortDescSpec(xs, key);
    s[..Min(n, |s|)]
  }

  /** Every key in `s` is at most `b`. */
  ghost predicate AllAtMost<T>(s: seq<T>, key: T -> int, b: int)
  {
    forall i :: 0 <= i < |s| ==> key(s[i]) <= b
  }

  lemma WithKeyCons<T>(e: T, t: seq<T>, key: T -> int, v: int)
    ensures WithKey([e] + t, key, v) == (if key(e) == v then [e] else []) + WithKey(t, key, v)
  {
    assert ([e] + t)[0] == e;
    assert ([e] + t)[1..] == t;
  }

  lemma {:induction false} WithKeyAppend<T>(a: seq<T>, b: seq<T>, key: T -> int, v: int)
    ensures WithKey(a + b, key, v) == WithKey(a, key, v) + WithKey(b, key, v)
  {
    if a == [] {
      assert a + b == b;
    } else {
      var h := if key(a[0]) == v then [a[0]] else [];
      var ab := a + b;
      assert ab[0] == a[0] && ab[1..] == a[1..] + b;
      WithKeyAppend(a[1..], b, key, v);
      assert WithKey(ab, key, v) == h + (WithKey(a[1..], key, v) + WithKey(b, key, v));
      AppendAssoc(h, WithKey(a[1..], key, v), WithKey(b, key, v));
    }
  }

  lemma {:induction false} InsertMultiset<T>(x: T, s: seq<T>, key: T -> int)
    ensures |Insert(x, s, key)| == |s| + 1
    ensures multiset(Insert(x, s, key)) == multiset(s) + multiset{x}
  {
    if !(s == [] || key(x) >= key(s[0])) {
      InsertMultiset(x, s[1..], key);
      assert s == [s[0]] + s[1..];
    }
  }

  lemma {:induction false} InsertBound<T>(x: T, s: seq<T>, key: T -> int, b: int)
    requires AllAtMost(s, key, b) && key(x) <= b
    ensures AllAtMost(Insert(x, s, key), key, b)
  {
    if !(s == [] || key(x) >= key(s[0])) {
      InsertBound(x, s[1..], key, b);
      var t := Insert(x, s[1..], key);
      assert Insert(x, s, key) == [s[0]] + t;
    }
  }

  lemma {:induction false} InsertSorted<T>(x: T, s: seq<T>, key: T -> int)
    requires NonIncreasing(s, key)
    ensures NonIncreasing(Insert(x, s, key), key)
  {
    if s == [] || key(x) >= key(s[0]) {
      var r := [x] + s;
      forall i, j | 0 <= i < j < |r| ensures key(r[i]) >= key(r[j]) {
        if i == 0 && j > 1 {
          assert key(s[0]) >= key(s[j - 1]);
        }
      }
    } else {
      var t := Insert(x, s[1..], key);
      InsertSorted(x, s[1..], key);
      assert AllAtMost(s[1..], key, key(s[0])) by {
        forall i | 0 <= i < |s[1..]| ensures key(s[1..][i]) <= key(s[0]) {
          assert s[1..][i] == s[i + 1];
        }
      }
      InsertBound(x, s[1..], key, key(s[0]));
      var r := [s[0]] + t;
      assert r == Insert(x, s, key);
      forall i, j | 0 <= i < j < |r| ensures key(r[i]) >= key(r[j]) {
        if i == 0 {
          assert r[j] == t[j - 1];
        } else {
          assert r[i] == t[i - 1] && r[j] == t[j - 1];
        }
      }
    }
  }

  /** Insertion only moves `x` past elements with larger keys, so ties keep their order. */
  lemma {:induction false} InsertStable<T>(x: T, s: seq<T>, key: T -> int, v: int)
    ensures WithKey(Insert(x, s, key), key, v) == WithKey([x] + s, key, v)
  {
    if !(s == [] || key(x) >= key(s[0])) {
      var t := Insert(x, s[1..], key);
      var rest := WithKey(s[1..], key, v);
      var hx := if key(x) == v then [x] else [];
      var h0 := if key(s[0]) == v then [s[0]] else [];
      InsertStable(x, s[1..], key, v);
      assert Insert(x, s, key) == [s[0]] + t;
      WithKeyCons(s[0], t, key, v);
      WithKeyCons(x, s[1..], key, v);
      assert WithKey(Insert(x, s, key), key, v) == h0 + (hx + rest);
      assert s == [s[0]] + s[1..];
      WithKeyCons(s[0], s[1..], key, v);
      WithKeyCons(x, s, key, v);
      assert WithKey([x] + s, key, v) == hx + (h0 + rest);
      assert h0 == [] || hx == [];
      AppendAssoc(h0, hx, rest);
      AppendAssoc(hx, h0, rest);
    }
  }

  /**
   * The sort keeps every element (a permutation), puts keys in non-increasing
   * order, and keeps elements with equal keys in their original order.
   */
  lemma {:induction false} SortDescSpec<T>(xs: seq<T>, key: T -> int)
    ensures |SortDesc(xs, key)| == |xs|
    ensures multiset(SortDesc(xs, key)) == multiset(xs)
    ensures NonIncreasing(SortDesc(xs, key), key)
    ensures forall v :: WithKey(SortDesc(xs, key), key, v) == WithKey(xs, key, v)
  {
    if xs != [] {
      var s := SortDesc(xs[1..], key);
      SortDescSpec(xs[1..], key);
      InsertMultiset(xs[0], s, key);
      InsertSorted(xs[0], s, key);
      assert xs == [xs[0]] + xs[1..];
      forall v ensures WithKey(SortDesc(xs, key), key, v) == WithKey(xs, key, v) {
        InsertStable(xs[0], s, key, v);
        WithKeyCons(xs[0], s, key, v);
        WithKeyCons(xs[0], xs[1..], key, v);
      }
    }
  }

  /** Top-N selection takes min(n, |xs|) elements of `xs`, largest key first. */
  lemma TopNSpec<T>(xs: seq<T>, key: T -> int, n: nat)
    ensures |TopN(xs, key, n)| == Min(n, |xs|)
    ensures multiset(TopN(xs, key, n)) <= multiset(xs)
    ensures NonIncreasing(TopN(xs, key, n), key)
  {
    var s := SortDesc(xs, key);
    SortDescSpec(xs, key);
    var m := Min(n, |s|);
    assert s == s[..m] + s[m..];
    assert multiset(s) == multiset(s[..m]) + multiset(s[m..]);
  }

  /** In a sorted sequence, everything before position `m` has a key at least that of everything after. */
  lemma SortedSplit<T>(s: seq<T>, key: T -> int, m: nat, x: T, y: T)
    requires NonIncreasing(s, key) && m <= |s|
    requires x in s[m..] && y in s[..m]
    ensures key(x) <= key(y)
  {
    var jx :| 0 <= jx < |s[m..]| && s[m..][jx] == x;
    var iy :| 0 <= iy < |s[..m]| && s[..m][iy] == y;
    assert s[iy] == y && s[m + jx] == x;
  }

  /** Every element left out has a key no larger than any selected one. */
  lemma TopNLeftOut<T>(xs: seq<T>, key: T -> int, n: nat)
    ensures forall x, y :: x in multiset(xs) - multiset(TopN(xs, key, n)) && y in TopN(xs, key, n) ==>
      key(x) <= key(y)
  {
    var s := SortDesc(xs, key);
    SortDescSpec(xs, key);
    var m := Min(n, |s|);
    assert s == s[..m] + s[m..];
    assert multiset(xs) - multiset(s[..m]) == multiset(s[m..]) by {
      assert multiset(s) == multiset(s[..m]) + multiset(s[m..]);
    }
    forall x, y | x in multiset(xs) - multiset(s[..m]) && y in s[..m]
      ensures key(x) <= key(y)
    {
      assert x in multiset(s[m..]);
      SortedSplit(s, key, m, x, y);
    }
  }

  /** Among equal keys the earliest elements of `xs` are selected, in their original order. */
  lemma TopNStable<T>(xs: seq<T>, key: T -> int, n: nat)
    ensures forall v :: WithKey(TopN(xs, key, n), key, v) <= WithKey(xs, key, v)
  {
    var s := SortDesc(xs, key);
    SortDescSpec(xs, key);
    var m := Min(n, |s|);
    assert s == s[..m] + s[m..];
    forall v ensures WithKey(s[..m], key, v) <= WithKey(xs, key, v) {
      WithKeyAppend(s[..m], s[m..], key, v);
    }
  }
}
