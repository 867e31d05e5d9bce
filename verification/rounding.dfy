/** `Math.Round` on a non-negative exact rational `n / d`, with the default
    midpoint rule of .NET: halves go to the even neighbour. */
module Rounding {

  /** The integer nearest to `n / d`; at an exact half, the even one. */
  function RoundHalfEven(n: nat, d: nat): (q: nat)
    requires d > 0
    ensures -(d as int) <= 2 * (q * d - n) <= d
    ensures 2 * (q * d - n) == d || 2 * (q * d - n) == -(d as int) ==> q % 2 == 0
  {
    var q0 := n / d;
    var r := n % d;
    assert n == q0 * d + r;
    assert (q0 + 1) * d - n == d - r;
    if 2 * r < d then q0
    else if 2 * r > d then q0 + 1
    else if q0 % 2 == 0 then q0
    else q0 + 1
  }

  /** Only one integer lies strictly closer than a half to `n / d`. */
  lemma {:induction false} RoundUnique(n: nat, d: nat, q: nat)
    requires d > 0
    requires -(d as int) < 2 * (q * d - n) < d
    ensures RoundHalfEven(n, d) == q
  {
    var p := RoundHalfEven(n, d);
    assert (p - q) * d == p * d - q * d;
    NeighbourUnique(p, q, d, q * d - n, p * d - n);
  }

  /** Two integers whose distances `e` and `f` (scaled by `d`) to the same
      rational are at most a half, one of them strictly less, are equal. */
  lemma NeighbourUnique(p: int, q: int, d: int, e: int, f: int)
    requires d > 0
    requires f - e == (p - q) * d
    requires -d < 2 * e < d && -d <= 2 * f <= d
    ensures p == q
  {
    var k := p - q;
    if k >= 1 {
      MulMono(1, k, d);
    } else if k <= -1 {
      MulMono(k, -1, d);
    }
  }

  /** The two postconditions of `RoundHalfEven` pin its result down: any `q` that
      is within a half of `n / d` and even at an exact half is that result. */
  lemma {:induction false} RoundHalfEvenCharacterized(n: nat, d: nat, q: nat)
    requires d > 0
    requires -(d as int) <= 2 * (q * d - n) <= d
    requires 2 * (q * d - n) == d || 2 * (q * d - n) == -(d as int) ==> q % 2 == 0
    ensures RoundHalfEven(n, d) == q
  {
    var p := RoundHalfEven(n, d);
    if -(d as int) < 2 * (q * d - n) < d {
      RoundUnique(n, d, q);
    } else {
      assert (p - q) * d == p * d - q * d;
      NeighbourTies(p, q, d, q * d - n, p * d - n);
    }
  }

  /** Two integers that both lie within a half of the same rational, one of them
      at an exact half, are equal when the rule picks an even one at halves. */
  lemma NeighbourTies(p: int, q: int, d: int, e: int, f: int)
    requires d > 0
    requires f - e == (p - q) * d
    requires -d <= 2 * e <= d && -d <= 2 * f <= d
    requires 2 * e == d || 2 * e == -d
    requires (2 * f == d || 2 * f == -d) ==> p % 2 == 0
    requires q % 2 == 0
    ensures p == q
  {
    var k := p - q;
    if k >= 2 {
      MulMono(2, k, d);
    } else if k <= -2 {
      MulMono(k, -2, d);
    } else if k == 1 || k == -1 {
      assert f - e == k * d;
    }
  }

  /** A whole quotient is never moved by rounding. */
  lemma RoundExact(k: nat, d: nat)
    requires d > 0
    ensures RoundHalfEven(k * d, d) == k
  {
    RoundUnique(k * d, d, k);
  }

  lemma MulMono(a: int, b: int, d: nat)
    requires a <= b
    ensures a * d <= b * d
  {
    assert b * d - a * d == (b - a) * d;
  }
}
