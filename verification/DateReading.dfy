/** What the texts of dates and timestamps denote, read from left to right without knowing how they are written. */
module DateReading {
  import opened Bytes
  import opened DateText

  /** The number that decimal digits denote. */
  function Number(s: seq<byte>): int {
    if s == [] then 0 else 10 * Number(s[..|s| - 1]) + (s[|s| - 1] - '0' as int)
  }

  predicate AreDigits(s: seq<byte>) {
    forall i :: 0 <= i < |s| ==> '0' as int <= s[i] <= '9' as int
  }

  predicate ReadsNumber(s: seq<byte>, n: int) {
    AreDigits(s) && Number(s) == n
  }

  /** YYYY-MM-DD. */
  predicate ReadsDate(s: seq<byte>, d: Date) {
    && |s| == 10
    && ReadsNumber(s[..4], d.year) && s[4] == '-' as int
    && ReadsNumber(s[5..7], d.month) && s[7] == '-' as int
    && ReadsNumber(s[8..], d.day)
  }

  function Zeros(k: nat): (z: seq<byte>)
    ensures |z| == k && forall i :: 0 <= i < k ==> z[i] == '0' as int
  {
    if k == 0 then [] else Zeros(k - 1) + ['0' as int]
  }

  /** Nothing, or a point and one to six digits without a zero at the end, which are filled up to microseconds. */
  predicate ReadsFraction(s: seq<byte>, micros: int) {
    if s == [] then micros == 0
    else
      && 2 <= |s| <= 7 && s[0] == '.' as int && s[|s| - 1] != '0' as int
      && ReadsNumber(s[1..] + Zeros(7 - |s|), micros)
  }

  /** hh:mm:ss and a fraction. */
  predicate ReadsTime(s: seq<byte>, micros: int) {
    && |s| >= 8
    && AreDigits(s[..2]) && s[2] == ':' as int
    && AreDigits(s[3..5]) && Number(s[3..5]) < 60 && s[5] == ':' as int
    && AreDigits(s[6..8]) && Number(s[6..8]) < 60
    && ReadsFraction(s[8..], micros - Seconds(Number(s[..2]), Number(s[3..5]), Number(s[6..8])) * 1000000)
  }

  function Seconds(hours: int, minutes: int, seconds: int): int {
    (hours * 60 + minutes) * 60 + seconds
  }

  /** A text of a date or a timestamp; years before 1 and after 9999 have none. */
  predicate Reads(s: seq<byte>, v: Value) {
    match v
    case DateValue(d) => d.year >= 1 && ReadsDate(s, d)
    case TimestampValue(t) =>
      t.date.year >= 1 && |s| >= 11 && ReadsDate(s[..10], t.date) && s[10] == ' ' as int && ReadsTime(s[11..], t.micros)
    case _ => false
  }

  // ----- the texts that are written can be read

  lemma {:induction false} DigitsRead(n: nat, k: nat)
    requires n < Pow10(k)
    ensures ReadsNumber(Digits(n, k), n)
  {
    if k > 0 {
      DigitsRead(n / 10, k - 1);
      var s := Digits(n, k);
      assert s[..k - 1] == Digits(n / 10, k - 1);
    }
  }

  lemma DateStringReads(d: Date)
    requires ValidDate(d) && 0 <= d.year <= 9999
    ensures ReadsDate(DateString(d), d)
  {
    hide Digits, Number, AreDigits;
    assert Pow10(4) == 10000 && Pow10(2) == 100 by { Powers(); }
    DigitsRead(d.year, 4);
    DigitsRead(d.month, 2);
    DigitsRead(d.day, 2);
    var s := DateString(d);
    assert s[..4] == Digits(d.year, 4) && s[5..7] == Digits(d.month, 2) && s[8..] == Digits(d.day, 2);
  }

  lemma Powers()
    ensures Pow10(2) == 100 && Pow10(4) == 10000 && Pow10(6) == 1000000
  {
    assert Pow10(2) == 10 * Pow10(1);
    assert Pow10(4) == 10 * Pow10(3) == 100 * Pow10(2);
    assert Pow10(6) == 10 * Pow10(5) == 100 * Pow10(4);
  }

  /** What is stripped are zeros, and all of them. */
  lemma {:induction false} StripFills(s: seq<byte>)
    requires AreDigits(s)
    ensures |Strip(s)| <= |s| && Strip(s) + Zeros(|s| - |Strip(s)|) == s
    ensures Strip(s) != [] ==> Strip(s)[|Strip(s)| - 1] != '0' as int
  {
    if s != [] {
      var rest := Strip(s[1..]);
      StripFills(s[1..]);
      if Strip(s) != [] {
        assert Strip(s) + Zeros(|s| - |Strip(s)|) == [s[0]] + (rest + Zeros(|s[1..]| - |rest|));
      }
    }
  }

  lemma {:induction false} ZerosAreNothing(k: nat)
    ensures ReadsNumber(Zeros(k), 0)
  {
    if k > 0 {
      ZerosAreNothing(k - 1);
      assert Zeros(k)[..k - 1] == Zeros(k - 1);
    }
  }

  lemma FractionReads(micros: nat)
    requires micros < 1000000
    ensures ReadsFraction(Fraction(micros), micros)
  {
    hide Digits, Number, Strip;
    Powers();
    DigitsRead(micros, 6);
    var digits := Digits(micros, 6);
    StripFills(digits);
    if Strip(digits) == [] {
      assert digits == Zeros(6);
      ZerosAreNothing(6);
    } else if micros > 0 {
      var s := Fraction(micros);
      assert s[1..] == Strip(digits);
    }
  }

  lemma TimeStringReads(micros: nat)
    requires micros < MICROS_PER_DAY
    ensures ReadsTime(TimeString(micros), micros)
  {
    hide Digits, Number, AreDigits, Fraction, ReadsFraction;
    var seconds := micros / 1000000;
    Powers();
    DigitsRead(seconds / 3600, 2);
    DigitsRead(seconds / 60 % 60, 2);
    DigitsRead(seconds % 60, 2);
    FractionReads(micros % 1000000);
    var s := TimeString(micros);
    assert s[..2] == Digits(seconds / 3600, 2) && s[3..5] == Digits(seconds / 60 % 60, 2);
    assert s[6..8] == Digits(seconds % 60, 2) && s[8..] == Fraction(micros % 1000000);
    assert Seconds(seconds / 3600, seconds / 60 % 60, seconds % 60) == seconds;
  }

  // ----- and nothing else reads the same

  lemma {:induction false} NumberInjective(a: seq<byte>, b: seq<byte>)
    requires |a| == |b| && AreDigits(a) && AreDigits(b) && Number(a) == Number(b)
    ensures a == b
  {
    if a != [] {
      var k := |a| - 1;
      NumberInjective(a[..k], b[..k]);
      assert a == a[..k] + [a[k]] && b == b[..k] + [b[k]];
    }
  }

  lemma {:induction false} NumberBounded(s: seq<byte>)
    requires AreDigits(s)
    ensures 0 <= Number(s) < Pow10(|s|)
  {
    if s != [] {
      NumberBounded(s[..|s| - 1]);
    }
  }

  lemma DateReadsOnce(a: seq<byte>, b: seq<byte>, d: Date)
    requires ReadsDate(a, d) && ReadsDate(b, d)
    ensures a == b
  {
    hide Number, AreDigits;
    NumberInjective(a[..4], b[..4]);
    NumberInjective(a[5..7], b[5..7]);
    NumberInjective(a[8..], b[8..]);
    assert a == a[..4] + [a[4]] + a[5..7] + [a[7]] + a[8..] && b == b[..4] + [b[4]] + b[5..7] + [b[7]] + b[8..];
  }

  lemma LongerDiffers(a: seq<byte>, b: seq<byte>, micros: int)
    requires ReadsFraction(a, micros) && ReadsFraction(b, micros)
    ensures |a| >= |b|
  {
    hide Number;
    if |a| < |b| {
      var p := if a == [] then Zeros(6) else a[1..] + Zeros(7 - |a|);
      var q := b[1..] + Zeros(7 - |b|);
      ZerosAreNothing(6);
      assert p[|b| - 2] == '0' as int && q[|b| - 2] == b[|b| - 1];
      NumberInjective(p, q);
    }
  }

  lemma FractionReadsOnce(a: seq<byte>, b: seq<byte>, micros: int)
    requires ReadsFraction(a, micros) && ReadsFraction(b, micros)
    ensures a == b
  {
    hide Number;
    LongerDiffers(a, b, micros);
    LongerDiffers(b, a, micros);
    if a != [] {
      var z := Zeros(7 - |a|);
      NumberInjective(a[1..] + z, b[1..] + z);
      assert a[1..] == (a[1..] + z)[..|a| - 1] && b[1..] == (b[1..] + z)[..|a| - 1];
      assert a == [a[0]] + a[1..] && b == [b[0]] + b[1..];
    }
  }

  lemma FractionBounded(s: seq<byte>, micros: int)
    requires ReadsFraction(s, micros)
    ensures 0 <= micros < 1000000
  {
    hide Number, Pow10;
    Powers();
    if s != [] {
      NumberBounded(s[1..] + Zeros(7 - |s|));
    }
  }

  lemma ClockUnique(h: int, m: int, s: int, f: int, h': int, m': int, s': int, f': int)
    requires 0 <= m < 60 && 0 <= s < 60 && 0 <= f < 1000000 && 0 <= m' < 60 && 0 <= s' < 60 && 0 <= f' < 1000000
    requires Seconds(h, m, s) * 1000000 + f == Seconds(h', m', s') * 1000000 + f'
    ensures h == h' && m == m' && s == s' && f == f'
  {
    assert Seconds(h, m, s) == Seconds(h', m', s');
    assert h * 60 + m == h' * 60 + m';
  }

  lemma TimeReadsOnce(a: seq<byte>, b: seq<byte>, micros: int)
    requires ReadsTime(a, micros) && ReadsTime(b, micros)
    ensures a == b
  {
    hide Number, AreDigits, ReadsFraction, Seconds, Pow10;
    NumberBounded(a[3..5]);
    NumberBounded(b[3..5]);
    NumberBounded(a[6..8]);
    NumberBounded(b[6..8]);
    var f := micros - Seconds(Number(a[..2]), Number(a[3..5]), Number(a[6..8])) * 1000000;
    var g := micros - Seconds(Number(b[..2]), Number(b[3..5]), Number(b[6..8])) * 1000000;
    FractionBounded(a[8..], f);
    FractionBounded(b[8..], g);
    ClockUnique(Number(a[..2]), Number(a[3..5]), Number(a[6..8]), f, Number(b[..2]), Number(b[3..5]), Number(b[6..8]), g);
    NumberInjective(a[..2], b[..2]);
    NumberInjective(a[3..5], b[3..5]);
    NumberInjective(a[6..8], b[6..8]);
    FractionReadsOnce(a[8..], b[8..], f);
    assert a == a[..2] + [a[2]] + a[3..5] + [a[5]] + a[6..8] + a[8..];
    assert b == b[..2] + [b[2]] + b[3..5] + [b[5]] + b[6..8] + b[8..];
  }

  lemma TimestampReadsOnce(a: seq<byte>, b: seq<byte>, t: Timestamp)
    requires Reads(a, TimestampValue(t)) && Reads(b, TimestampValue(t))
    ensures a == b
  {
    hide ReadsDate, ReadsTime;
    DateReadsOnce(a[..10], b[..10], t.date);
    TimeReadsOnce(a[11..], b[11..], t.micros);
    assert a == a[..10] + [a[10]] + a[11..] && b == b[..10] + [b[10]] + b[11..];
  }

  lemma CanonicalReads(v: Value)
    requires ValidValue(v) && CanonicalText(v).Some?
    ensures Reads(CanonicalText(v).value, v)
  {
    hide DateString, TimeString, ReadsDate, ReadsTime;
    if v.DateValue? {
      DateStringReads(v.date);
    } else {
      var t := v.timestamp;
      DateStringReads(t.date);
      DateStringLength(t.date);
      TimeStringReads(t.micros);
      var s := CanonicalText(v).value;
      assert s[..10] == DateString(t.date) && s[11..] == TimeString(t.micros);
    }
  }

  /** A text is the one that is written for a value if and only if it reads as that value. */
  lemma CanonicalTextExactly(v: Value, text: seq<byte>)
    requires ValidValue(v)
    ensures CanonicalText(v) == Some(text) <==> Reads(text, v)
  {
    hide DateString, TimestampString, ReadsTime;
    if CanonicalText(v).Some? {
      var own := CanonicalText(v).value;
      CanonicalReads(v);
      if Reads(text, v) && v.DateValue? {
        DateReadsOnce(own, text, v.date);
      } else if Reads(text, v) {
        TimestampReadsOnce(own, text, v.timestamp);
      }
    } else if Reads(text, v) {
      assert |text| == 10 ==> text[..10] == text;
      YearBounded(text, if v.DateValue? then v.date else v.timestamp.date);
    }
  }

  lemma YearBounded(text: seq<byte>, d: Date)
    requires |text| >= 10 && ReadsDate(text[..10], d)
    ensures d.year <= 9999
  {
    hide Number;
    Powers();
    NumberBounded(text[..10][..4]);
  }
}
