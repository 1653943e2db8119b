/** Option, and the one list combinator every rule emitter is an instance of. */
module Sequences {

  datatype Option<+T> = None | Some(value: T)

  /** Concatenation of what f yields for each element, in order. */
  function FlatMap<T, U>(xs: seq<T>, f: T -> seq<U>): seq<U> {
    if xs == [] then [] else f(xs[0]) + FlatMap(xs[1..], f)
  }

  /** One more loop turn appends what f yields for the next element. */
  lemma {:induction false} FlatMapStep<T, U>(xs: seq<T>, i: nat, f: T -> seq<U>)
    requires i < |xs|
    ensures FlatMap(xs[..i + 1], f) == FlatMap(xs[..i], f) + f(xs[i])
  {
    if i == 0 {
      assert xs[..1] == [xs[0]];
      assert FlatMap(xs[..1], f) == f(xs[0]) + FlatMap(xs[..1][1..], f);
    } else {
      FlatMapStep(xs[1..], i - 1, f);
      assert xs[..i + 1][1..] == xs[1..][..i];
      assert xs[..i][1..] == xs[1..][..i - 1];
    }
  }

  /** The loop every emitter and filter runs: append what each element yields. */
  method Collect<T, U>(xs: seq<T>, f: T -> seq<U>) returns (out: seq<U>)
    ensures out == FlatMap(xs, f)
  {
    out := [];
    for i := 0 to |xs|
      invariant out == FlatMap(xs[..i], f)
    {
      FlatMapStep(xs, i, f);
      out := out + f(xs[i]);
    }
    assert xs[..|xs|] == xs;
  }

  lemma {:induction false} FlatMapSplit<T, U>(xs: seq<T>, i: nat, f: T -> seq<U>)
    requires i <= |xs|
    ensures FlatMap(xs, f) == FlatMap(xs[..i], f) + FlatMap(xs[i..], f)
  {
    if i == 0 {
      assert xs[0..] == xs;
    } else {
      FlatMapSplit(xs, i - 1, f);
      FlatMapStep(xs, i - 1, f);
      assert xs[i - 1..][1..] == xs[i..];
    }
  }

  lemma {:induction false} FlatMapSame<T, U>(xs: seq<T>, f: T -> seq<U>, g: T -> seq<U>)
    requires forall i :: 0 <= i < |xs| ==> f(xs[i]) == g(xs[i])
    ensures FlatMap(xs, f) == FlatMap(xs, g)
  {
    if xs != [] {
      FlatMapSame(xs[1..], f, g);
    }
  }

  lemma {:induction false} FlatMapMembers<T, U>(xs: seq<T>, f: T -> seq<U>, u: U)
    ensures u in FlatMap(xs, f) <==> exists i :: 0 <= i < |xs| && u in f(xs[i])
  {
    if xs != [] {
      FlatMapMembers(xs[1..], f, u);
      assert FlatMap(xs, f) == f(xs[0]) + FlatMap(xs[1..], f);
      if i :| 0 <= i < |xs| && u in f(xs[i]) {
        if i > 0 {
          assert u in f(xs[1..][i - 1]);
        }
      }
      if i :| 0 <= i < |xs[1..]| && u in f(xs[1..][i]) {
        assert u in f(xs[i + 1]);
      }
    }
  }
}
