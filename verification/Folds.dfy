/** Iterating and folding a step, and what carries over from the step to the whole. */
module Folds {

  function Iterate<T>(step: T -> T, c: T, n: nat): T
    decreases n
  {
    if n == 0 then c else Iterate(step, step(c), n - 1)
  }

  function Fold<T, E>(step: (T, E) -> T, c: T, xs: seq<E>): T
    decreases |xs|
  {
    if xs == [] then c else Fold(step, step(c, xs[0]), xs[1..])
  }

  function FlatMap<A, B>(f: A -> seq<B>, xs: seq<A>): seq<B> {
    if xs == [] then [] else f(xs[0]) + FlatMap(f, xs[1..])
  }

  lemma {:induction false} IterateAdd<T>(step: T -> T, c: T, m: nat, n: nat)
    ensures Iterate(step, Iterate(step, c, m), n) == Iterate(step, c, m + n)
    decreases m
  {
    if m > 0 {
      IterateAdd(step, step(c), m - 1, n);
    }
  }

  lemma {:induction false} IterateIsLinear<T(!new)>(step: T -> T, plus: (T, T) -> T, a: T, b: T, n: nat)
    requires forall x, y :: step(plus(x, y)) == plus(step(x), step(y))
    ensures Iterate(step, plus(a, b), n) == plus(Iterate(step, a, n), Iterate(step, b, n))
    decreases n
  {
    if n > 0 {
      IterateIsLinear(step, plus, step(a), step(b), n - 1);
    }
  }

  lemma {:induction false} IterateIsInjective<T(!new)>(step: T -> T, a: T, b: T, n: nat)
    requires forall x, y :: step(x) == step(y) ==> x == y
    requires Iterate(step, a, n) == Iterate(step, b, n)
    ensures a == b
    decreases n
  {
    if n > 0 {
      IterateIsInjective(step, step(a), step(b), n - 1);
    }
  }

  lemma {:induction false} FoldAppend<T, E>(step: (T, E) -> T, c: T, xs: seq<E>, ys: seq<E>)
    ensures Fold(step, c, xs + ys) == Fold(step, Fold(step, c, xs), ys)
    decreases |xs|
  {
    if xs == [] {
      assert xs + ys == ys;
    } else {
      assert (xs + ys)[1..] == xs[1..] + ys;
      FoldAppend(step, step(c, xs[0]), xs[1..], ys);
    }
  }

  lemma {:induction false} FoldIsInjective<T(!new), E(!new)>(step: (T, E) -> T, a: T, b: T, xs: seq<E>)
    requires forall x, y, e :: step(x, e) == step(y, e) ==> x == y
    requires Fold(step, a, xs) == Fold(step, b, xs)
    ensures a == b
    decreases |xs|
  {
    if xs != [] {
      FoldIsInjective(step, step(a, xs[0]), step(b, xs[0]), xs[1..]);
    }
  }

  /** A fold over elements simulates a fold over their parts, when one element's step simulates its parts' steps. */
  lemma {:induction false} FoldSimulates<T(!new), U, A(!new), B>(
    coarse: (T, A) -> T, fine: (U, B) -> U, view: T -> U, parts: A -> seq<B>, c: T, xs: seq<A>)
    requires forall t, a :: view(coarse(t, a)) == Fold(fine, view(t), parts(a))
    ensures view(Fold(coarse, c, xs)) == Fold(fine, view(c), FlatMap(parts, xs))
    decreases |xs|
  {
    if xs != [] {
      FoldSimulates(coarse, fine, view, parts, coarse(c, xs[0]), xs[1..]);
      FoldAppend(fine, view(c), parts(xs[0]), FlatMap(parts, xs[1..]));
    }
  }
}
