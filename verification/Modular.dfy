/** Sums and congruences of integers, as scalar arithmetic modulo a group order needs them. */
module Modular {

  function Sum(xs: seq<int>): int {
    if xs == [] then 0 else xs[0] + Sum(xs[1..])
  }

  lemma {:induction false} SumAppend(a: seq<int>, b: seq<int>)
    ensures Sum(a + b) == Sum(a) + Sum(b)
  {
    if a == [] {
      assert a + b == b;
    } else {
      SumAppend(a[1..], b);
      assert (a + b)[1..] == a[1..] + b;
    }
  }

  /** The remainder, as the scalar field reduces: never negative. */
  function Rem(a: int, n: int): (r: int)
    requires n > 0
    ensures 0 <= r < n
  {
    a % n
  }

  /** Two integers that leave the same remainder. */
  ghost predicate Congruent(a: int, b: int, n: int)
    requires n > 0
  {
    Rem(a, n) == Rem(b, n)
  }

  lemma AtLeastOnce(k: int, n: int)
    requires k >= 1 && n > 0
    ensures k * n >= n
  {
    assert k * n == (k - 1) * n + n;
    assert (k - 1) * n >= 0;
  }

  lemma RemainderUnique(x: int, q: int, r: int, n: int)
    requires 0 <= r < n && x == q * n + r
    ensures Rem(x, n) == r && x / n == q
  {
    var q', r' := x / n, x % n;
    assert x == q' * n + r';
    assert (q - q') * n == q * n - q' * n;
    assert (q' - q) * n == q' * n - q * n;
    if q > q' {
      AtLeastOnce(q - q', n);
    } else if q < q' {
      AtLeastOnce(q' - q, n);
    }
  }

  lemma DifferByMultiple(a: int, b: int, k: int, n: int)
    requires n > 0 && a == b + k * n
    ensures Congruent(a, b, n)
  {
    var q, r := b / n, b % n;
    assert a == (q + k) * n + r;
    RemainderUnique(a, q + k, r, n);
  }

  lemma MultipleOf(a: int, b: int, n: int) returns (k: int)
    requires n > 0 && Congruent(a, b, n)
    ensures a == b + k * n
  {
    k := a / n - b / n;
    assert a == (a / n) * n + a % n;
    assert b == (b / n) * n + b % n;
    assert (a / n - b / n) * n == (a / n) * n - (b / n) * n;
  }

  /** Congruence is kept by adding and by multiplying. */
  lemma CongruentAdd(a: int, a': int, b: int, b': int, n: int)
    requires n > 0 && Congruent(a, a', n) && Congruent(b, b', n)
    ensures Congruent(a + b, a' + b', n)
  {
    var i := MultipleOf(a, a', n);
    var j := MultipleOf(b, b', n);
    assert (i + j) * n == i * n + j * n;
    DifferByMultiple(a + b, a' + b', i + j, n);
  }

  lemma CongruentScale(e: int, a: int, a': int, n: int)
    requires n > 0 && Congruent(a, a', n)
    ensures Congruent(e * a, e * a', n)
  {
    var k := MultipleOf(a, a', n);
    assert e * a == e * a' + (e * k) * n by {
      assert e * (a' + k * n) == e * a' + e * (k * n);
      assert e * (k * n) == (e * k) * n;
    }
    DifferByMultiple(e * a, e * a', e * k, n);
  }

  lemma CongruentSub(a: int, a': int, b: int, b': int, n: int)
    requires n > 0 && Congruent(a, a', n) && Congruent(b, b', n)
    ensures Congruent(a - b, a' - b', n)
  {
    CongruentScale(-1, b, b', n);
    CongruentAdd(a, a', -1 * b, -1 * b', n);
  }

  lemma RemainderCongruent(a: int, n: int)
    requires n > 0
    ensures Congruent(Rem(a, n), a, n)
  {
    RemainderUnique(a % n, 0, a % n, n);
  }

  lemma SmallIsRemainder(a: int, n: int)
    requires 0 <= a < n
    ensures Rem(a, n) == a
  {
    RemainderUnique(a, 0, a, n);
  }

  /** No leading part of the list brings the running total to a multiple of `n`. */
  ghost predicate NoPrefixCancels(acc: int, ks: seq<int>, n: int)
    requires n > 0
    decreases |ks|
  {
    ks == [] || (Rem(acc + ks[0], n) != 0 && NoPrefixCancels(acc + ks[0], ks[1..], n))
  }

  lemma {:induction false} NoPrefixCancelsCongruent(acc: int, acc': int, ks: seq<int>, n: int)
    requires n > 0 && Congruent(acc, acc', n)
    ensures NoPrefixCancels(acc, ks, n) == NoPrefixCancels(acc', ks, n)
    decreases |ks|
  {
    hide Rem;
    if ks != [] {
      CongruentAdd(acc, acc', ks[0], ks[0], n);
      NoPrefixCancelsCongruent(acc + ks[0], acc' + ks[0], ks[1..], n);
    }
  }
}
