/** Counting occurrences in a sequence. */
module Tally {

  function Times<T(==)>(xs: seq<T>, x: T): nat {
    if xs == [] then 0 else Times(xs[..|xs| - 1], x) + (if xs[|xs| - 1] == x then 1 else 0)
  }

  lemma {:induction false} TimesConcat<T>(a: seq<T>, b: seq<T>, x: T)
    ensures Times(a + b, x) == Times(a, x) + Times(b, x)
    decreases |b|
  {
    if b == [] {
      assert a + b == a;
    } else {
      assert (a + b)[..|a + b| - 1] == a + b[..|b| - 1];
      TimesConcat(a, b[..|b| - 1], x);
    }
  }

  lemma TimesPush<T>(xs: seq<T>, y: T, x: T)
    ensures Times(xs + [y], x) == Times(xs, x) + if y == x then 1 else 0
  {
    assert (xs + [y])[..|xs|] == xs;
  }

  lemma TimesFront<T>(xs: seq<T>, y: T, x: T)
    ensures Times([y] + xs, x) == Times(xs, x) + if y == x then 1 else 0
  {
    TimesConcat([y], xs, x);
    TimesPush([], y, x);
    assert [] + [y] == [y];
  }

  lemma {:induction false} TimesMember<T>(xs: seq<T>, x: T)
    ensures Times(xs, x) > 0 <==> x in xs
    decreases |xs|
  {
    if xs != [] {
      TimesMember(xs[..|xs| - 1], x);
      assert xs == xs[..|xs| - 1] + [xs[|xs| - 1]];
    }
  }

  /** Two places that hold the same element count twice. */
  lemma TimesTwice<T>(xs: seq<T>, i: nat, j: nat)
    requires i < j < |xs| && xs[i] == xs[j]
    ensures Times(xs, xs[i]) >= 2
  {
    assert xs == xs[..j] + xs[j..];
    TimesConcat(xs[..j], xs[j..], xs[i]);
    assert xs[..j][i] == xs[i] && xs[j..][0] == xs[i];
    TimesMember(xs[..j], xs[i]);
    TimesMember(xs[j..], xs[i]);
  }
}
