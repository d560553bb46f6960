/** The conversion of a 64-bit integer to a double: to the nearest of the doubles around it, ties to the even one. */
module Doubles {
  const TWO_52: int := 0x10_0000_0000_0000
  const TWO_53: int := 0x20_0000_0000_0000

  /** The distance between the doubles around n: a double has 53 significant bits. */
  function Spacing(n: nat): (u: nat)
    ensures u >= 1
  {
    if n < TWO_53 then 1 else 2 * Spacing(n / 2)
  }

  /** q and a part r of the next u, rounded to a multiple of u. */
  function RoundTo(q: nat, r: nat, u: nat): nat {
    if 2 * r > u || (2 * r == u && q % 2 == 1) then (q + 1) * u else q * u
  }

  function Round(n: nat): nat {
    RoundTo(n / Spacing(n), n % Spacing(n), Spacing(n))
  }

  function ToDouble(i: int): real {
    if i < 0 then -(Round(-i) as real) else Round(i) as real
  }

  lemma {:induction false} SpacingRange(n: nat)
    ensures n < TWO_53 * Spacing(n)
    ensures n >= TWO_53 ==> TWO_52 * Spacing(n) <= n && Spacing(n) >= 2
  {
    if n >= TWO_53 {
      SpacingRange(n / 2);
    }
  }

  lemma {:induction false} SpacingMonotone(n: nat, m: nat)
    requires n <= m
    ensures Spacing(n) == Spacing(m) || 2 * Spacing(n) <= Spacing(m)
  {
    if n >= TWO_53 {
      SpacingMonotone(n / 2, m / 2);
    } else if m >= TWO_53 {
      SpacingRange(m);
    }
  }

  /** Rounding goes to one of the two multiples around n. */
  lemma RoundBetween(n: nat, q: nat, u: nat)
    requires u == Spacing(n) && q == n / u
    ensures q * u <= Round(n) <= (q + 1) * u
  {
    assert (q + 1) * u == q * u + u;
  }

  lemma Quotient(n: nat, k: nat, u: nat)
    requires u >= 1
    ensures n < k * u ==> n / u + 1 <= k
    ensures k * u <= n ==> k <= n / u
  {
    var q := n / u;
    assert q * u <= n < q * u + u;
    if q >= k {
      assert q * u >= k * u;
    } else {
      assert (q + 1) * u <= k * u;
    }
  }

  lemma Times(a: nat, b: nat, u: nat)
    requires a <= b
    ensures a * u <= b * u
  {
  }

  lemma SameSpacing(n: nat, m: nat)
    requires n <= m && Spacing(n) == Spacing(m)
    ensures Round(n) <= Round(m)
  {
    hide Spacing, Round, RoundTo;
    var u := Spacing(n);
    var q, p := n / u, m / u;
    RoundBetween(n, q, u);
    RoundBetween(m, p, u);
    Remainders(n, m, u);
    if q < p {
      Times(q + 1, p, u);
    } else {
      RoundOf(n);
      RoundOf(m);
      RoundToMonotone(q, n % u, m % u, u);
    }
  }

  lemma RoundOf(n: nat)
    ensures Round(n) == RoundTo(n / Spacing(n), n % Spacing(n), Spacing(n))
  {
  }

  lemma RoundToMonotone(q: nat, r: nat, t: nat, u: nat)
    requires r <= t
    ensures RoundTo(q, r, u) <= RoundTo(q, t, u)
  {
    assert (q + 1) * u == q * u + u;
  }

  lemma Remainders(n: nat, m: nat, u: nat)
    requires n <= m && u >= 1
    ensures n / u <= m / u && (n / u == m / u ==> n % u <= m % u)
  {
    assert n == n / u * u + n % u && m == m / u * u + m % u;
    Quotient(m, n / u, u);
  }

  lemma RoundAtMost(n: nat)
    ensures Round(n) <= TWO_53 * Spacing(n)
  {
    hide Spacing, Round;
    var u := Spacing(n);
    RoundBetween(n, n / u, u);
    SpacingRange(n);
    Quotient(n, TWO_53, u);
    Times(n / u + 1, TWO_53, u);
  }

  lemma RoundAtLeast(n: nat)
    requires n >= TWO_53
    ensures TWO_52 * Spacing(n) <= Round(n)
  {
    hide Spacing, Round;
    var u := Spacing(n);
    RoundBetween(n, n / u, u);
    SpacingRange(n);
    Quotient(n, TWO_52, u);
    Times(TWO_52, n / u, u);
  }

  lemma WiderSpacing(n: nat, m: nat)
    requires n <= m && 2 * Spacing(n) <= Spacing(m)
    ensures Round(n) <= Round(m)
  {
    hide Spacing, Round;
    WideEnough(m);
    RoundAtMost(n);
    RoundAtLeast(m);
  }

  lemma WideEnough(m: nat)
    ensures Spacing(m) >= 2 ==> m >= TWO_53
  {
  }

  /** A larger integer never has a smaller double. */
  lemma ToDoubleMonotone(i: int, j: int)
    requires i <= j
    ensures ToDouble(i) <= ToDouble(j)
  {
    hide Round;
    if i >= 0 {
      RoundMonotone(i, j);
    } else if j < 0 {
      RoundMonotone(-j, -i);
    }
  }

  lemma RoundMonotone(n: nat, m: nat)
    requires n <= m
    ensures Round(n) <= Round(m)
  {
    hide Round;
    SpacingMonotone(n, m);
    if Spacing(n) == Spacing(m) {
      SameSpacing(n, m);
    } else {
      WiderSpacing(n, m);
    }
  }

  /** Up to 2^53 in magnitude the conversion is exact, and right behind that it is not. */
  lemma ExactUpTo(i: int)
    requires -TWO_53 <= i <= TWO_53
    ensures ToDouble(i) == i as real
    ensures ToDouble(TWO_53 + 1) == TWO_53 as real
  {
    assert Spacing(TWO_53) == 2 && Spacing(TWO_53 + 1) == 2;
  }

  // ----- the nearest double

  function Pow2(k: nat): (p: nat)
    ensures p >= 1
  {
    if k == 0 then 1 else 2 * Pow2(k - 1)
  }

  ghost predicate HasBits(x: nat, m: nat, k: nat) {
    m <= TWO_53 && x == m * Pow2(k)
  }

  /** A whole number that is a double: up to 53 significant bits. */
  ghost predicate IsDouble(x: nat) {
    exists m: nat, k: nat :: HasBits(x, m, k)
  }

  function Distance(a: int, b: int): nat {
    if a < b then b - a else a - b
  }

  lemma {:induction false} SpacingIsPower(n: nat) returns (k: nat)
    ensures Spacing(n) == Pow2(k)
  {
    k := 0;
    if n >= TWO_53 {
      var half := SpacingIsPower(n / 2);
      k := half + 1;
    }
  }

  lemma {:induction false} PowerDivides(j: nat, k: nat) returns (f: nat)
    requires j <= k
    ensures f >= 1 && Pow2(k) == f * Pow2(j)
    decreases k
  {
    f := 1;
    if j < k {
      var g := PowerDivides(j, k - 1);
      f := 2 * g;
    }
  }

  /** A multiple of u is not strictly between two consecutive multiples. */
  lemma CoarseDouble(x: nat, m: nat, f: nat, q: nat, u: nat)
    requires x == m * (f * u)
    ensures x <= q * u || q * u + u <= x
  {
    var a := m * f;
    assert x == a * u;
    if a <= q {
      Times(a, q, u);
    } else {
      Times(q + 1, a, u);
    }
  }

  /** A double with finer steps is at most 2^52 steps of u. */
  lemma FineDouble(x: nat, m: nat, f: nat, p: nat, q: nat, u: nat)
    requires m <= TWO_53 && x == m * p && f >= 1 && u == 2 * (f * p) && TWO_52 <= q
    ensures x <= q * u
  {
    Times(m, TWO_53, p);
    Times(1, f, p);
    Times(TWO_52, q, u);
  }

  /** No double lies between the two multiples around n. */
  lemma NoDoubleBetween(n: nat, x: nat, q: nat, u: nat)
    requires IsDouble(x) && u == Spacing(n) && q == n / u
    ensures x <= q * u || q * u + u <= x
  {
    hide Spacing, Pow2;
    var k := SpacingIsPower(n);
    var m: nat, j: nat :| HasBits(x, m, j);
    if k <= j {
      var f := PowerDivides(k, j);
      CoarseDouble(x, m, f, q, u);
    } else {
      var f := PowerDivides(j, k - 1);
      NextPower(k - 1);
      SpacingRange(n);
      WideEnough(n);
      Quotient(n, TWO_52, u);
      FineDouble(x, m, f, Pow2(j), q, u);
    }
  }

  lemma NextPower(k: nat)
    ensures Pow2(k + 1) == 2 * Pow2(k)
  {
  }

  lemma RoundIsDouble(n: nat)
    ensures IsDouble(Round(n))
  {
    hide Spacing, Pow2;
    var u := Spacing(n);
    var k := SpacingIsPower(n);
    SpacingRange(n);
    Quotient(n, TWO_53, u);
    var m := if Round(n) == n / u * u then n / u else n / u + 1;
    assert HasBits(Round(n), m, k);
  }

  ghost predicate IsTwice(x: nat, c: nat, u: nat) {
    x == 2 * (c * u)
  }

  /** No double is nearer to n than y, and of two that are equally near y has the even significand. */
  ghost predicate IsNearest(y: nat, n: nat, u: nat, x: nat) {
    && Distance(y, n) <= Distance(x, n)
    && (Distance(y, n) == Distance(x, n) && x != y ==> exists c: nat :: IsTwice(y, c, u))
  }

  lemma NearestMultiple(q: nat, r: nat, u: nat, p: nat, x: nat)
    requires r < u && p == q * u && (x <= p || p + u <= x)
    ensures IsNearest(RoundTo(q, r, u), p + r, u, x)
  {
    var y := RoundTo(q, r, u);
    assert (q + 1) * u == p + u;
    assert y == if 2 * r > u || (2 * r == u && q % 2 == 1) then p + u else p;
    if 2 * r == u {
      var c := (q + q % 2) / 2;
      assert IsTwice(y, c, u) by {
        assert 2 * c == q + q % 2;
        assert 2 * (c * u) == (2 * c) * u;
      }
    }
  }

  /** What rounding starts from: p and the part r of the next step. */
  lemma Decompose(n: nat, x: nat) returns (q: nat, r: nat, p: nat)
    requires IsDouble(x)
    ensures Round(n) == RoundTo(q, r, Spacing(n)) && n == p + r && r < Spacing(n) && p == q * Spacing(n)
    ensures x <= p || p + Spacing(n) <= x
  {
    hide Spacing, RoundTo, IsDouble;
    var u := Spacing(n);
    q, r, p := n / u, n % u, n / u * u;
    NoDoubleBetween(n, x, q, u);
  }

  /** The conversion goes to a double, and to the nearest one. */
  lemma ToDoubleNearest(i: int, n: nat, x: nat)
    requires n == Distance(i, 0) && IsDouble(x)
    ensures IsDouble(Round(n)) && ToDouble(i) == if i < 0 then -(Round(n) as real) else Round(n) as real
    ensures IsNearest(Round(n), n, Spacing(n), x)
  {
    hide Spacing, IsDouble, RoundTo, IsNearest, Round;
    RoundIsDouble(n);
    var q, r, p := Decompose(n, x);
    NearestMultiple(q, r, Spacing(n), p, x);
  }
}
