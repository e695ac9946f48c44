/** Option and Result, the failure-carrying values used across the model. */
module Wrappers {

  datatype Option<+T> = None | Some(value: T)

  datatype Result<+R, +E> = Success(value: R) | Failure(error: E)
}

/** Small facts about sequences that proofs cite explicitly. */
module SeqFacts {

  lemma AppendAssoc<T>(a: seq<T>, b: seq<T>, c: seq<T>)
    ensures (a + b) + c == a + (b + c)
  {
  }

  /** The concatenation of `f(x)` over the elements `x` of `xs`, in order. */
  function ConcatMap<T, U>(f: T -> seq<U>, xs: seq<T>): seq<U>
  {
    if xs == [] then [] else ConcatMap(f, xs[..|xs| - 1]) + f(xs[|xs| - 1])
  }

  lemma ConcatMapSnoc<T, U>(f: T -> seq<U>, xs: seq<T>, j: nat)
    requires j < |xs|
    ensures ConcatMap(f, xs[..j + 1]) == ConcatMap(f, xs[..j]) + f(xs[j])
  {
    assert xs[..j + 1][..j] == xs[..j];
  }

  /** ConcatMap turns concatenation of its input into concatenation of its output. */
  lemma {:induction false} ConcatMapAppend<T, U>(f: T -> seq<U>, a: seq<T>, b: seq<T>)
    ensures ConcatMap(f, a + b) == ConcatMap(f, a) + ConcatMap(f, b)
    decreases |b|
  {
    if b == [] {
      assert a + b == a;
    } else {
      var n := |b| - 1;
      var ab := a + b;
      ConcatMapAppend(f, a, b[..n]);
      assert ab[..|ab| - 1] == a + b[..n];
      assert ab[|ab| - 1] == b[n];
      AppendAssoc(ConcatMap(f, a), ConcatMap(f, b[..n]), f(b[n]));
    }
  }

  /** An element comes out exactly when it is in the image of some input element. */
  lemma {:induction false} ConcatMapMembers<T, U>(f: T -> seq<U>, xs: seq<T>, u: U)
    ensures u in ConcatMap(f, xs) <==> exists j :: 0 <= j < |xs| && u in f(xs[j])
  {
    if xs != [] {
      var n := |xs| - 1;
      var init := xs[..n];
      ConcatMapMembers(f, init, u);
      if u in ConcatMap(f, xs) && u !in f(xs[n]) {
        var j :| 0 <= j < |init| && u in f(init[j]);
        assert xs[j] == init[j];
      }
      if exists j :: 0 <= j < |xs| && u in f(xs[j]) {
        var j :| 0 <= j < |xs| && u in f(xs[j]);
        if j < n {
          assert init[j] == xs[j];
        }
      }
    }
  }

  lemma ConcatMapSingle<T, U>(f: T -> seq<U>, x: T)
    ensures ConcatMap(f, [x]) == f(x)
  {
    assert [x][..0] == [];
  }
}
