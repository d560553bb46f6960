/** A DECIMAL quantile is passed to SQLite as its text, and parsed back into an integral value and a scaling. */
module DecimalText {
  import opened Bytes

  const MAX_DIGITS := 30
  const HUGEINT_MAX := 0x7FFF_FFFF_FFFF_FFFF_FFFF_FFFF_FFFF_FFFF

  predicate AllDigits(t: string) {
    forall i :: 0 <= i < |t| ==> '0' <= t[i] <= '9'
  }

  /** The number that a string of digits denotes. */
  function NumberOf(t: string): nat
    requires AllDigits(t)
  {
    if t == [] then 0 else 10 * NumberOf(t[..|t| - 1]) + (t[|t| - 1] - '0') as nat
  }

  /** Where the first point is, or the end. */
  function Point(t: string): (p: nat)
    ensures p <= |t|
    ensures p < |t| ==> t[p] == '.'
    ensures forall i :: 0 <= i < p ==> t[i] != '.'
  {
    if t == [] || t[0] == '.' then 0 else 1 + Point(t[1..])
  }

  function Whole(t: string): string {
    t[..Point(t)]
  }

  function Fraction(t: string): string {
    if Point(t) < |t| then t[Point(t) + 1..] else []
  }

  /** Digits with at most one point between, before or after them; at least one digit and at most 30. */
  predicate IsDecimal(t: string) {
    AllDigits(Whole(t)) && AllDigits(Fraction(t)) && 1 <= |Whole(t)| + |Fraction(t)| <= MAX_DIGITS
  }

  /** What the text denotes: the digits before the point, and those after it as a fraction. */
  function DecimalValue(t: string): real
    requires IsDecimal(t)
  {
    NumberOf(Whole(t)) as real + NumberOf(Fraction(t)) as real / Pow10(|Fraction(t)|) as real
  }

  // ----- one character more

  /** The digits of a text, whether or not they are digits. */
  function Digits(t: string): string {
    Whole(t) + Fraction(t)
  }

  lemma Snoc(t: string, c: char)
    ensures Point(t) < |t| ==> Whole(t + [c]) == Whole(t) && Fraction(t + [c]) == Fraction(t) + [c]
    ensures Point(t) == |t| && c == '.' ==> Whole(t + [c]) == Whole(t) && Fraction(t + [c]) == Fraction(t)
    ensures Point(t) == |t| && c != '.' ==> Whole(t + [c]) == Whole(t) + [c] && Fraction(t + [c]) == Fraction(t)
    ensures Point(t + [c]) < |t + [c]| <==> Point(t) < |t| || c == '.'
  {
    hide Point, Whole, Fraction;
    if Point(t) < |t| {
      SnocFraction(t, c);
    } else if c == '.' {
      SnocPoint(t);
    } else {
      SnocWhole(t, c);
    }
  }

  lemma SnocFraction(t: string, c: char)
    requires Point(t) < |t|
    ensures Point(t + [c]) == Point(t) && Whole(t + [c]) == Whole(t) && Fraction(t + [c]) == Fraction(t) + [c]
  {
    hide Point;
    PointIs(t + [c], Point(t));
    SliceSnoc(t, c, Point(t));
    SliceSnoc(t, c, Point(t) + 1);
  }

  lemma SliceSnoc(t: string, c: char, p: nat)
    requires p <= |t|
    ensures (t + [c])[..p] == t[..p] && (t + [c])[p..] == t[p..] + [c]
  {
  }

  lemma SnocPoint(t: string)
    requires Point(t) == |t|
    ensures Point(t + ['.']) == |t| && Whole(t + ['.']) == Whole(t) && Fraction(t + ['.']) == Fraction(t)
  {
    hide Point;
    PointIs(t + ['.'], |t|);
    SliceSnoc(t, '.', |t|);
  }

  lemma SnocWhole(t: string, c: char)
    requires Point(t) == |t| && c != '.'
    ensures Point(t + [c]) == |t| + 1 && Whole(t + [c]) == Whole(t) + [c] && Fraction(t + [c]) == Fraction(t)
  {
    hide Point;
    PointIs(t + [c], |t| + 1);
    assert (t + [c])[..|t| + 1] == t + [c] && t[..|t|] == t;
  }

  lemma PointIs(t: string, p: nat)
    requires p <= |t| && (p < |t| ==> t[p] == '.')
    requires forall i :: 0 <= i < p ==> t[i] != '.'
    ensures Point(t) == p
  {
    hide Point;
    var q := Point(t);
    assert q < |t| ==> t[q] == '.';
  }

  lemma DigitsSnoc(t: string, c: char)
    ensures Digits(t + [c]) == if Point(t) == |t| && c == '.' then Digits(t) else Digits(t) + [c]
  {
    hide Point, Whole, Fraction;
    Snoc(t, c);
    assert Whole(t) + (Fraction(t) + [c]) == (Whole(t) + Fraction(t)) + [c];
    NoPointNoFraction(t);
  }

  lemma NoPointNoFraction(t: string)
    ensures Point(t) == |t| ==> Fraction(t) == []
  {
  }

  /** The digits of a prefix are a prefix of the digits. */
  lemma {:induction false} DigitsOfPrefix(t: string, i: nat)
    requires i <= |t|
    ensures Digits(t[..i]) <= Digits(t)
    decreases |t| - i
  {
    if i == |t| {
      assert t[..i] == t;
    } else {
      hide Digits, Point;
      assert t[..i + 1] == t[..i] + [t[i]];
      DigitsSnoc(t[..i], t[i]);
      DigitsOfPrefix(t, i + 1);
    }
  }

  /** A text is a decimal exactly when its digits are digits and there are 1 to 30 of them. */
  lemma DecimalByDigits(t: string)
    ensures IsDecimal(t) <==> AllDigits(Digits(t)) && 1 <= |Digits(t)| <= MAX_DIGITS
  {
    hide Point, Whole, Fraction;
    var w, f := Whole(t), Fraction(t);
    assert forall i :: 0 <= i < |w| ==> Digits(t)[i] == w[i];
    assert forall i :: 0 <= i < |f| ==> Digits(t)[|w| + i] == f[i];
  }

  lemma NumberSnoc(t: string, c: char)
    requires AllDigits(t) && '0' <= c <= '9'
    ensures AllDigits(t + [c]) && NumberOf(t + [c]) == 10 * NumberOf(t) + (c - '0') as nat
  {
    assert (t + [c])[..|t|] == t;
  }

  lemma Times10(x: nat, p: nat, y: nat, d: nat)
    ensures 10 * (x * p + y) + d == x * (10 * p) + (10 * y + d)
  {
  }

  lemma {:induction false} NumberConcat(a: string, b: string)
    requires AllDigits(a) && AllDigits(b)
    ensures AllDigits(a + b) && NumberOf(a + b) == NumberOf(a) * Pow10(|b|) + NumberOf(b)
  {
    if b == [] {
      assert a + b == a;
    } else {
      var k := |b| - 1;
      NumberConcat(a, b[..k]);
      assert a + b == (a + b[..k]) + [b[k]];
      NumberSnoc(a + b[..k], b[k]);
      Times10(NumberOf(a), Pow10(k), NumberOf(b[..k]), (b[k] - '0') as nat);
    }
  }

  lemma {:induction false} NumberBound(t: string)
    requires AllDigits(t)
    ensures NumberOf(t) < Pow10(|t|)
  {
    if t != [] {
      NumberBound(t[..|t| - 1]);
    }
  }

  lemma {:induction false} Pow10Monotone(a: nat, b: nat)
    requires a <= b
    ensures Pow10(a) <= Pow10(b)
  {
    if a < b {
      Pow10Monotone(a, b - 1);
    }
  }

  /** 30 digits fit a HUGEINT. */
  lemma Pow10Fits(k: nat)
    requires k <= MAX_DIGITS
    ensures Pow10(k) <= Pow10(MAX_DIGITS) == 1_000_000_000_000_000_000_000_000_000_000 <= HUGEINT_MAX
  {
    hide Pow10;
    Pow10Monotone(k, MAX_DIGITS);
    ThirtyDigits();
  }

  lemma ThirtyDigits()
    ensures Pow10(MAX_DIGITS) == 1_000_000_000_000_000_000_000_000_000_000
  {
    hide Pow10;
    FiveMore(0);
    FiveMore(5);
    FiveMore(10);
    FiveMore(15);
    FiveMore(20);
    FiveMore(25);
    assert Pow10(0) == 1 by { PowZero(); }
  }

  lemma PowZero()
    ensures Pow10(0) == 1
  {
  }

  lemma FiveMore(k: nat)
    ensures Pow10(k + 5) == 100_000 * Pow10(k)
  {
    assert Pow10(k + 5) == 10 * Pow10(k + 4) && Pow10(k + 4) == 10 * Pow10(k + 3);
    assert Pow10(k + 2) == 10 * Pow10(k + 1);
  }

  /** Moving the point to the end multiplies by the scaling. */
  lemma ScaledValue(t: string)
    requires IsDecimal(t)
    ensures AllDigits(Digits(t))
    ensures DecimalValue(t) == NumberOf(Digits(t)) as real / Pow10(|Fraction(t)|) as real
  {
    hide Point, Whole, Fraction, NumberOf, Pow10;
    DecimalByDigits(t);
    NumberConcat(Whole(t), Fraction(t));
    Scaled(NumberOf(Whole(t)), NumberOf(Fraction(t)), Pow10(|Fraction(t)|));
  }

  lemma Scaled(whole: nat, fraction: nat, p: nat)
    requires p >= 1
    ensures (whole * p + fraction) as real / p as real == whole as real + fraction as real / p as real
  {
    assert (whole * p + fraction) as real == whole as real * p as real + fraction as real;
    assert (whole as real * p as real) / p as real == whole as real;
  }

  // ----- the parser

  /** What the loop knows after the characters of t. */
  ghost predicate Parsed(t: string, integral: nat, scaling: nat, fraction: bool, digits: nat) {
    AllDigits(Digits(t)) && digits == |Digits(t)| <= MAX_DIGITS && integral == NumberOf(Digits(t)) &&
    scaling == Pow10(|Fraction(t)|) && (fraction <==> Point(t) < |t|)
  }

  lemma ParsedPoint(t: string, integral: nat, scaling: nat, digits: nat)
    requires Parsed(t, integral, scaling, false, digits)
    ensures Parsed(t + ['.'], integral, scaling, true, digits)
  {
    hide Point, Whole, Fraction, Digits, NumberOf, Pow10;
    Snoc(t, '.');
    DigitsSnoc(t, '.');
  }

  lemma ParsedDigit(t: string, c: char, integral: nat, scaling: nat, fraction: bool, digits: nat)
    requires Parsed(t, integral, scaling, fraction, digits) && '0' <= c <= '9' && digits < MAX_DIGITS
    ensures Parsed(t + [c], integral * 10 + (c - '0') as nat, if fraction then scaling * 10 else scaling, fraction, digits + 1)
  {
    hide Point, Whole, Fraction, Digits, NumberOf;
    Snoc(t, c);
    DigitsSnoc(t, c);
    NumberSnoc(Digits(t), c);
  }

  /** A prefix with a bad character, or with too many digits, is a prefix of no decimal. */
  lemma NotADecimal(t: string, i: nat, c: char)
    requires i < |t| && c == t[i] && !(c == '.' && Point(t[..i]) == i)
    requires !('0' <= c <= '9') || |Digits(t[..i])| >= MAX_DIGITS
    ensures !IsDecimal(t)
  {
    hide Point, Whole, Fraction, Digits;
    var p := t[..i];
    assert t[..i + 1] == p + [c];
    DigitsSnoc(p, c);
    DigitsOfPrefix(t, i + 1);
    DecimalByDigits(t);
    assert Digits(t)[|Digits(p)|] == c;
  }

  lemma ParsedFits(t: string, integral: nat, scaling: nat, fraction: bool, digits: nat)
    requires Parsed(t, integral, scaling, fraction, digits)
    ensures integral <= HUGEINT_MAX && scaling <= HUGEINT_MAX && scaling >= 1
  {
    hide Point, Whole, Fraction;
    NumberBound(Digits(t));
    Pow10Fits(|Digits(t)|);
    Pow10Fits(|Fraction(t)|);
  }

  /**
    Parses a text like "0.25" into 25 and 100. It is accepted exactly when it is a decimal from 0 to 1, the quotient
    is what the text denotes, and neither number leaves the range of a HUGEINT.
   */
  method ParseDecimalQuantile(text: string) returns (ok: bool, integral: nat, scaling: nat)
    ensures ok <==> IsDecimal(text) && DecimalValue(text) <= 1.0
    ensures ok ==> scaling >= 1 && integral as real / scaling as real == DecimalValue(text)
    ensures ok ==> integral <= scaling == Pow10(|Fraction(text)|)
    ensures integral <= HUGEINT_MAX && 1 <= scaling <= HUGEINT_MAX
  {
    hide Point, Whole, Fraction, Digits, NumberOf, Pow10, IsDecimal, DecimalValue, Parsed;
    integral, scaling := 0, 1;
    var fraction, digits := false, 0;
    NothingParsed();
    assert text[..0] == [];
    for i := 0 to |text|
      invariant Parsed(text[..i], integral, scaling, fraction, digits)
    {
      var c := text[i];
      ParsedFits(text[..i], integral, scaling, fraction, digits);
      ParsedFlags(text[..i], integral, scaling, fraction, digits);
      assert text[..i + 1] == text[..i] + [c];
      if c == '.' && !fraction {
        ParsedPoint(text[..i], integral, scaling, digits);
        fraction := true;
        continue;
      }
      if c < '0' || c > '9' || digits >= MAX_DIGITS {
        NotADecimal(text, i, c);
        return false, integral, scaling;
      }
      ParsedDigit(text[..i], c, integral, scaling, fraction, digits);
      integral := integral * 10 + (c - '0') as nat;
      if fraction {
        scaling := scaling * 10;
      }
      digits := digits + 1;
    }
    assert text[..|text|] == text;
    ParsedFits(text, integral, scaling, fraction, digits);
    ParsedAll(text, integral, scaling, fraction, digits);
    ok := digits > 0 && integral <= scaling;
  }

  lemma NothingParsed()
    ensures Parsed([], 0, 1, false, 0)
  {
  }

  lemma ParsedFlags(t: string, integral: nat, scaling: nat, fraction: bool, digits: nat)
    requires Parsed(t, integral, scaling, fraction, digits)
    ensures (fraction <==> Point(t) < |t|) && digits == |Digits(t)|
  {
  }

  lemma ParsedAll(t: string, integral: nat, scaling: nat, fraction: bool, digits: nat)
    requires Parsed(t, integral, scaling, fraction, digits)
    ensures IsDecimal(t) <==> digits > 0
    ensures digits > 0 ==> scaling == Pow10(|Fraction(t)|) >= 1 && integral as real / scaling as real == DecimalValue(t)
    ensures digits > 0 ==> (integral <= scaling <==> DecimalValue(t) <= 1.0)
  {
    hide Point, Whole, Fraction, NumberOf, DecimalValue, IsDecimal;
    DecimalByDigits(t);
    if digits > 0 {
      ScaledValue(t);
      AtMostOne(integral, scaling);
    }
  }

  lemma AtMostOne(a: nat, b: nat)
    requires b >= 1
    ensures a as real / b as real <= 1.0 <==> a <= b
  {
    var q := a as real / b as real;
    assert q * b as real == a as real;
    if q <= 1.0 {
      assert q * b as real <= 1.0 * b as real;
    } else {
      assert q * b as real > 1.0 * b as real;
    }
  }
}
