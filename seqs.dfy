/** `Array.prototype.map` over a sequence, and repetition. */
module Seqs {

  /** `xs.map(f)`: one result per element, in order. */
  function Map<A, B>(xs: seq<A>, f: A -> B): (r: seq<B>)
    ensures |r| == |xs|
    ensures forall i :: 0 <= i < |xs| ==> r[i] == f(xs[i])
  {
    if xs == [] then [] else Map(xs[..|xs| - 1], f) + [f(xs[|xs| - 1])]
  }

  /** Mapping one more element appends its image. */
  lemma MapSnoc<A, B>(xs: seq<A>, f: A -> B, i: nat)
    requires i < |xs|
    ensures Map(xs[..i + 1], f) == Map(xs[..i], f) + [f(xs[i])]
  {
    assert xs[..i + 1][..i] == xs[..i];
  }

  /** `xs` written `n` times in a row. */
  function Repeat<T>(xs: seq<T>, n: nat): (r: seq<T>)
    ensures n == 0 ==> r == []
  {
    if n == 0 then [] else Repeat(xs, n - 1) + xs
  }

  /** `a` copies followed by `b` copies are `a + b` copies. */
  lemma {:induction false} RepeatAdd<T>(xs: seq<T>, a: nat, b: nat)
    ensures Repeat(xs, a) + Repeat(xs, b) == Repeat(xs, a + b)
  {
    if b != 0 {
      RepeatAdd(xs, a, b - 1);
      assert Repeat(xs, a) + (Repeat(xs, b - 1) + xs) == (Repeat(xs, a) + Repeat(xs, b - 1)) + xs;
    }
  }

  /** Every element of `n > 0` copies of `xs` is an element of `xs`, and
      every element of `xs` occurs in them. */
  lemma {:induction false} RepeatMembers<T>(xs: seq<T>, n: nat, x: T)
    requires n > 0
    ensures x in Repeat(xs, n) <==> x in xs
  {
    if n > 1 {
      RepeatMembers(xs, n - 1, x);
    }
  }
}
