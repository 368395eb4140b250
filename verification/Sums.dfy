/** Finite sums over sequences, shared by the counting and averaging parts of the model. */
module Sums {

  function Sum<T>(xs: seq<T>, f: T -> int): int {
    if xs == [] then 0 else f(xs[0]) + Sum(xs[1..], f)
  }

  lemma {:induction false} SumConcat<T>(xs: seq<T>, ys: seq<T>, f: T -> int)
    ensures Sum(xs + ys, f) == Sum(xs, f) + Sum(ys, f)
  {
    if xs == [] {
      assert xs + ys == ys;
    } else {
      assert (xs + ys)[1..] == xs[1..] + ys;
      SumConcat(xs[1..], ys, f);
    }
  }

  /** Every linear relation that holds element by element holds of the sums. */
  lemma {:induction false} SumLinear<T>(xs: seq<T>, f: T -> int, g: T -> int, h: T -> int, c: int)
    requires forall x :: x in xs ==> h(x) == f(x) + c * g(x)
    ensures Sum(xs, h) == Sum(xs, f) + c * Sum(xs, g)
  {
    if xs != [] {
      assert xs[0] in xs;
      assert forall x :: x in xs[1..] ==> x in xs;
      SumLinear(xs[1..], f, g, h, c);
      assert c * (g(xs[0]) + Sum(xs[1..], g)) == c * g(xs[0]) + c * Sum(xs[1..], g);
    }
  }

  lemma {:induction false} SumBounds<T>(xs: seq<T>, f: T -> int, g: T -> int)
    requires forall x :: x in xs ==> f(x) <= g(x)
    ensures Sum(xs, f) <= Sum(xs, g)
    ensures Sum(xs, f) == Sum(xs, g) ==> forall x :: x in xs ==> f(x) == g(x)
  {
    if xs != [] {
      assert xs[0] in xs;
      assert forall x :: x in xs[1..] ==> x in xs;
      SumBounds(xs[1..], f, g);
      assert forall x :: x in xs ==> x == xs[0] || x in xs[1..];
    }
  }

  lemma SumEqual<T>(xs: seq<T>, f: T -> int, g: T -> int)
    requires forall x :: x in xs ==> f(x) == g(x)
    ensures Sum(xs, f) == Sum(xs, g)
  {
    SumBounds(xs, f, g);
    SumBounds(xs, g, f);
  }

  lemma {:induction false} SumZero<T>(xs: seq<T>, f: T -> int)
    requires forall x :: x in xs ==> f(x) == 0
    ensures Sum(xs, f) == 0
  {
    if xs != [] {
      assert forall x :: x in xs[1..] ==> x in xs;
      SumZero(xs[1..], f);
    }
  }

  lemma SplitOut<T>(ys: seq<T>, k: nat)
    requires k < |ys|
    ensures ys == ys[..k] + ([ys[k]] + ys[k + 1..])
    ensures multiset(ys[..k] + ys[k + 1..]) == multiset(ys) - multiset{ys[k]}
  {
  }

  /** A sum does not depend on the order of its terms. */
  lemma {:induction false} SumPermutation<T>(xs: seq<T>, ys: seq<T>, f: T -> int)
    requires multiset(xs) == multiset(ys)
    ensures Sum(xs, f) == Sum(ys, f)
  {
    if xs == [] {
      assert |multiset(ys)| == 0;
    } else {
      assert xs[0] in multiset(ys);
      var k :| 0 <= k < |ys| && ys[k] == xs[0];
      SplitOut(ys, k);
      SplitOut(xs, 0);
      assert xs[..0] + xs[1..] == xs[1..];
      SumPermutation(xs[1..], ys[..k] + ys[k + 1..], f);
      SumConcat(ys[..k], [xs[0]] + ys[k + 1..], f);
      SumConcat(ys[..k], ys[k + 1..], f);
    }
  }

  function FixFirst<A, B>(h: (A, B) -> int, x: A): B -> int {
    y => h(x, y)
  }

  function FixSecond<A, B>(h: (A, B) -> int, y: B): A -> int {
    x => h(x, y)
  }

  function RowSums<A, B>(h: (A, B) -> int, ys: seq<B>): A -> int {
    x => Sum(ys, FixFirst(h, x))
  }

  function ColumnSums<A, B>(h: (A, B) -> int, xs: seq<A>): B -> int {
    y => Sum(xs, FixSecond(h, y))
  }

  /** Summing over rows first or columns first gives the same total. */
  lemma {:induction false} SumExchange<A, B>(xs: seq<A>, ys: seq<B>, h: (A, B) -> int)
    ensures Sum(xs, RowSums(h, ys)) == Sum(ys, ColumnSums(h, xs))
  {
    if xs == [] {
      SumZero(ys, ColumnSums(h, xs));
    } else {
      SumExchange(xs[1..], ys, h);
      forall y | y in ys ensures ColumnSums(h, xs)(y) == ColumnSums(h, xs[1..])(y) + 1 * FixFirst(h, xs[0])(y) {
      }
      SumLinear(ys, ColumnSums(h, xs[1..]), FixFirst(h, xs[0]), ColumnSums(h, xs), 1);
    }
  }
}
