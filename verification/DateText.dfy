/** Dates and timestamps are represented in SQLite by their text, which has to order like the values. */
module DateText {
  import opened Bytes

  // ----- values

  datatype Date = Date(year: int, month: int, day: int)

  predicate IsLeap(y: int) {
    y % 4 == 0 && (y % 100 != 0 || y % 400 == 0)
  }

  function DaysInMonth(y: int, m: int): int {
    if m == 2 then if IsLeap(y) then 29 else 28
    else if m == 4 || m == 6 || m == 9 || m == 11 then 30
    else 31
  }

  predicate ValidDate(d: Date) {
    1 <= d.month <= 12 && 1 <= d.day <= DaysInMonth(d.year, d.month)
  }

  /** The days of a year before a month. */
  function MonthStart(y: int, m: int): int
    requires 1 <= m <= 13
    decreases m
  {
    if m == 1 then 0 else MonthStart(y, m - 1) + DaysInMonth(y, m - 1)
  }

  /** The days before a year, from the year 1 on. */
  function YearStart(y: int): int
    requires 1 <= y
    decreases y
  {
    if y == 1 then 0 else YearStart(y - 1) + MonthStart(y - 1, 13)
  }

  /** The value of a date: the number of its day. */
  function DayNumber(d: Date): int
    requires ValidDate(d) && 1 <= d.year
  {
    YearStart(d.year) + MonthStart(d.year, d.month) + d.day
  }

  const MICROS_PER_DAY: int := 86400000000

  datatype Timestamp = Timestamp(date: Date, micros: int)

  predicate ValidTimestamp(t: Timestamp) {
    ValidDate(t.date) && 0 <= t.micros < MICROS_PER_DAY
  }

  function MicroNumber(t: Timestamp): int
    requires ValidTimestamp(t) && 1 <= t.date.year
  {
    DayNumber(t.date) * MICROS_PER_DAY + t.micros
  }

  // ----- text

  const ZERO: byte := 48
  const NINE: byte := 57
  const COLON: byte := 58
  const DOT: byte := 46
  const SPACE: byte := 32

  /** The last k decimal digits of n. */
  function Digits(n: nat, k: nat): (s: seq<byte>)
    ensures |s| == k && forall i :: 0 <= i < k ==> ZERO <= s[i] <= NINE
  {
    if k == 0 then [] else Digits(n / 10, k - 1) + [ZERO + n % 10]
  }

  /** A digit string without its trailing zeros. */
  function Strip(s: seq<byte>): seq<byte> {
    if s == [] then [] else
    var rest := Strip(s[1..]);
    if rest == [] && s[0] == ZERO then [] else [s[0]] + rest
  }

  function DateString(d: Date): seq<byte>
    requires ValidDate(d) && 0 <= d.year
  {
    Digits(d.year, 4) + ([DASH] + (Digits(d.month, 2) + ([DASH] + Digits(d.day, 2))))
  }

  function Fraction(micros: nat): seq<byte> {
    if micros == 0 then [] else [DOT] + Strip(Digits(micros, 6))
  }

  function TimeString(micros: nat): seq<byte> {
    var seconds := micros / 1000000;
    Digits(seconds / 3600, 2) + ([COLON] + (Digits(seconds / 60 % 60, 2) + ([COLON] +
    (Digits(seconds % 60, 2) + Fraction(micros % 1000000)))))
  }

  function TimestampString(t: Timestamp): seq<byte>
    requires ValidTimestamp(t) && 0 <= t.date.year
  {
    DateString(t.date) + ([SPACE] + TimeString(t.micros))
  }

  /** A DATE or TIMESTAMP of DuckDB. */
  datatype Value = DateValue(date: Date) | TimestampValue(timestamp: Timestamp) | Infinity | OtherValue

  predicate ValidValue(v: Value) {
    (v.DateValue? ==> ValidDate(v.date)) && (v.TimestampValue? ==> ValidTimestamp(v.timestamp))
  }

  function CanonicalText(v: Value): Option<seq<byte>>
    requires ValidValue(v)
  {
    match v
    case DateValue(d) => if d.year < 1 || d.year > 9999 then None else Some(DateString(d))
    case TimestampValue(t) => if t.date.year < 1 || t.date.year > 9999 then None else Some(TimestampString(t))
    case _ => None
  }

  // ----- the order of byte strings

  lemma {:induction false} LessConcat(a: seq<byte>, x: seq<byte>, b: seq<byte>, y: seq<byte>)
    requires |a| == |b|
    ensures Less(a + x, b + y) <==> Less(a, b) || (a == b && Less(x, y))
  {
    if a == [] {
      assert a + x == x && b + y == y;
    } else {
      assert (a + x)[1..] == a[1..] + x && (b + y)[1..] == b[1..] + y;
      LessConcat(a[1..], x, b[1..], y);
      assert a == [a[0]] + a[1..] && b == [b[0]] + b[1..];
    }
  }

  lemma {:induction false} LessIrreflexive(s: seq<byte>)
    ensures !Less(s, s)
  {
    if s != [] {
      LessIrreflexive(s[1..]);
    }
  }

  /** The same separator in both texts does not matter. */
  lemma LessSeparator(c: byte, x: seq<byte>, y: seq<byte>)
    ensures Less([c] + x, [c] + y) <==> Less(x, y)
  {
  }

  /** Fixed-width digits order like numbers, and are equal only for equal numbers. */
  lemma {:induction false} DigitsOrder(a: nat, b: nat, k: nat)
    requires a < Pow10(k) && b < Pow10(k)
    ensures Less(Digits(a, k), Digits(b, k)) <==> a < b
    ensures Digits(a, k) == Digits(b, k) <==> a == b
    decreases k
  {
    if k > 0 {
      var x: seq<byte>, y: seq<byte> := [ZERO + a % 10], [ZERO + b % 10];
      DigitsOrder(a / 10, b / 10, k - 1);
      LessConcat(Digits(a / 10, k - 1), x, Digits(b / 10, k - 1), y);
      assert Less(x, y) <==> a % 10 < b % 10;
      SnocEqual(Digits(a / 10, k - 1), x[0], Digits(b / 10, k - 1), y[0]);
    }
  }

  lemma SnocEqual(a: seq<byte>, x: byte, b: seq<byte>, y: byte)
    requires |a| == |b|
    ensures a + [x] == b + [y] <==> a == b && x == y
  {
    if a + [x] == b + [y] {
      assert a == (a + [x])[..|a|] && b == (b + [y])[..|b|];
      assert x == (a + [x])[|a|] && y == (b + [y])[|b|];
    }
  }

  /** Dropping trailing zeros of digit strings of the same length does not change their order. */
  lemma {:induction false} StripOrder(a: seq<byte>, b: seq<byte>)
    requires |a| == |b| && forall i :: 0 <= i < |a| ==> ZERO <= a[i] && ZERO <= b[i]
    ensures Less(Strip(a), Strip(b)) <==> Less(a, b)
    ensures Strip(a) == Strip(b) <==> a == b
  {
    if a != [] {
      StripOrder(a[1..], b[1..]);
      assert a == [a[0]] + a[1..] && b == [b[0]] + b[1..];
    }
  }

  lemma FractionOrder(f: nat, g: nat)
    requires f < 1000000 && g < 1000000
    ensures Less(Fraction(f), Fraction(g)) <==> f < g
    ensures Fraction(f) == Fraction(g) <==> f == g
  {
    assert Pow10(6) == 10 * Pow10(5) == 100 * Pow10(4) == 1000 * Pow10(3) == 10000 * Pow10(2) == 1000000;
    DigitsOrder(f, g, 6);
    StripOrder(Digits(f, 6), Digits(g, 6));
    LessSeparator(DOT, Strip(Digits(f, 6)), Strip(Digits(g, 6)));
    if f > 0 && g > 0 {
      assert Fraction(f)[1..] == Strip(Digits(f, 6)) && Fraction(g)[1..] == Strip(Digits(g, 6));
    }
  }

  /** A number of fixed width, a separator, and more: the number decides, then the rest. */
  lemma FieldOrder(a: nat, b: nat, k: nat, c: byte, x: seq<byte>, y: seq<byte>)
    requires a < Pow10(k) && b < Pow10(k)
    ensures Less(Digits(a, k) + ([c] + x), Digits(b, k) + ([c] + y)) <==> a < b || (a == b && Less(x, y))
    ensures Digits(a, k) + ([c] + x) == Digits(b, k) + ([c] + y) <==> a == b && x == y
  {
    hide Digits, Less;
    DigitsOrder(a, b, k);
    LessConcat(Digits(a, k), [c] + x, Digits(b, k), [c] + y);
    LessSeparator(c, x, y);
    ConcatEqual(Digits(a, k), [c] + x, Digits(b, k), [c] + y);
    ConcatEqual([c], x, [c], y);
  }

  lemma ConcatEqual(a: seq<byte>, x: seq<byte>, b: seq<byte>, y: seq<byte>)
    requires |a| == |b|
    ensures a + x == b + y <==> a == b && x == y
  {
    if a + x == b + y {
      assert a == (a + x)[..|a|] && b == (b + y)[..|b|];
      assert x == (a + x)[|a|..] && y == (b + y)[|b|..];
    }
  }

  // ----- values order like their parts

  lemma {:induction false} MonthStartMonotone(y: int, m: int, n: int)
    requires 1 <= m <= n <= 13
    ensures MonthStart(y, m) <= MonthStart(y, n)
    ensures m < n ==> MonthStart(y, m) + DaysInMonth(y, m) <= MonthStart(y, n)
    decreases n
  {
    if m < n {
      MonthStartMonotone(y, m, n - 1);
    }
  }

  lemma {:induction false} YearStartMonotone(y: int, z: int)
    requires 1 <= y < z
    ensures YearStart(y) + MonthStart(y, 13) <= YearStart(z)
    decreases z
  {
    hide MonthStart;
    if y < z - 1 {
      YearStartMonotone(y, z - 1);
      MonthStartMonotone(z - 1, 1, 13);
      MonthStartIsZero(z - 1);
    }
  }

  predicate DateBefore(a: Date, b: Date) {
    a.year < b.year || (a.year == b.year && (a.month < b.month || (a.month == b.month && a.day < b.day)))
  }

  lemma EarlierHasLowerNumber(a: Date, b: Date)
    requires ValidDate(a) && ValidDate(b) && 1 <= a.year && 1 <= b.year && DateBefore(a, b)
    ensures DayNumber(a) < DayNumber(b)
  {
    hide YearStart, MonthStart;
    MonthStartMonotone(a.year, a.month, 13);
    MonthStartMonotone(b.year, 1, b.month);
    MonthStartIsZero(b.year);
    if a.year < b.year {
      YearStartMonotone(a.year, b.year);
    } else if a.month < b.month {
      MonthStartMonotone(a.year, a.month, b.month);
    }
  }

  lemma MonthStartIsZero(y: int)
    ensures MonthStart(y, 1) == 0
  {
  }

  /** Days are numbered in the order of year, month and day. */
  lemma DayNumberOrder(a: Date, b: Date)
    requires ValidDate(a) && ValidDate(b) && 1 <= a.year && 1 <= b.year
    ensures DayNumber(a) < DayNumber(b) <==> DateBefore(a, b)
    ensures DayNumber(a) == DayNumber(b) <==> a == b
  {
    hide DayNumber;
    if DateBefore(a, b) {
      EarlierHasLowerNumber(a, b);
    } else if a != b {
      EarlierHasLowerNumber(b, a);
    }
  }

  // ----- the text of values orders like the values

  lemma DateStringOrder(a: Date, b: Date)
    requires ValidDate(a) && ValidDate(b) && 0 <= a.year <= 9999 && 0 <= b.year <= 9999
    ensures Less(DateString(a), DateString(b)) <==> DateBefore(a, b)
    ensures DateString(a) == DateString(b) <==> a == b
  {
    hide Digits, Less;
    DigitsOrder(a.day, b.day, 2);
    FieldOrder(a.month, b.month, 2, DASH, Digits(a.day, 2), Digits(b.day, 2));
    FieldOrder(a.year, b.year, 4, DASH, Digits(a.month, 2) + ([DASH] + Digits(a.day, 2)),
               Digits(b.month, 2) + ([DASH] + Digits(b.day, 2)));
  }

  /** Dates with years 1 to 9999: the order of the texts is the order of the days, and texts determine dates. */
  lemma DateTextOrder(a: Date, b: Date)
    requires ValidDate(a) && ValidDate(b)
    requires CanonicalText(DateValue(a)).Some? && CanonicalText(DateValue(b)).Some?
    ensures Less(CanonicalText(DateValue(a)).value, CanonicalText(DateValue(b)).value) <==> DayNumber(a) < DayNumber(b)
    ensures CanonicalText(DateValue(a)) == CanonicalText(DateValue(b)) <==> a == b
  {
    hide DateString, DayNumber;
    DateStringOrder(a, b);
    DayNumberOrder(a, b);
  }

  lemma Divide(a: nat, b: nat, k: nat)
    requires k > 0
    ensures a < b <==> a / k < b / k || (a / k == b / k && a % k < b % k)
    ensures a == b <==> a / k == b / k && a % k == b % k
  {
    assert a == a / k * k + a % k && b == b / k * k + b % k;
    if a / k < b / k {
      assert (a / k + 1) * k <= b / k * k;
    } else if b / k < a / k {
      assert (b / k + 1) * k <= a / k * k;
    }
  }

  /** Seconds of the day as hours, minutes and seconds. */
  lemma ClockOrder(a: nat, b: nat)
    ensures a < b <==>
              a / 3600 < b / 3600 ||
              (a / 3600 == b / 3600 && (a / 60 % 60 < b / 60 % 60 || (a / 60 % 60 == b / 60 % 60 && a % 60 < b % 60)))
    ensures a == b <==> a / 3600 == b / 3600 && a / 60 % 60 == b / 60 % 60 && a % 60 == b % 60
  {
    assert a / 60 / 60 == a / 3600 && b / 60 / 60 == b / 3600;
    Divide(a, b, 60);
    Divide(a / 60, b / 60, 60);
  }

  lemma TimeStringOrder(a: nat, b: nat)
    requires a < MICROS_PER_DAY && b < MICROS_PER_DAY
    ensures Less(TimeString(a), TimeString(b)) <==> a < b
    ensures TimeString(a) == TimeString(b) <==> a == b
  {
    hide Digits, Less, Fraction;
    var s, t, f, g := a / 1000000, b / 1000000, a % 1000000, b % 1000000;
    Divide(a, b, 1000000);
    ClockOrder(s, t);
    FractionOrder(f, g);
    DigitsOrder(s % 60, t % 60, 2);
    LessConcat(Digits(s % 60, 2), Fraction(f), Digits(t % 60, 2), Fraction(g));
    ConcatEqual(Digits(s % 60, 2), Fraction(f), Digits(t % 60, 2), Fraction(g));
    var x, y := Digits(s % 60, 2) + Fraction(f), Digits(t % 60, 2) + Fraction(g);
    FieldOrder(s / 60 % 60, t / 60 % 60, 2, COLON, x, y);
    FieldOrder(s / 3600, t / 3600, 2, COLON, Digits(s / 60 % 60, 2) + ([COLON] + x),
               Digits(t / 60 % 60, 2) + ([COLON] + y));
  }

  /** Timestamps with years 1 to 9999, to the microsecond and whatever the length of their fractions. */
  lemma TimestampTextOrder(a: Timestamp, b: Timestamp)
    requires ValidTimestamp(a) && ValidTimestamp(b)
    requires CanonicalText(TimestampValue(a)).Some? && CanonicalText(TimestampValue(b)).Some?
    ensures Less(CanonicalText(TimestampValue(a)).value, CanonicalText(TimestampValue(b)).value) <==>
            MicroNumber(a) < MicroNumber(b)
    ensures CanonicalText(TimestampValue(a)) == CanonicalText(TimestampValue(b)) <==> a == b
  {
    hide DateString, TimeString, DayNumber, Less;
    DateStringOrder(a.date, b.date);
    DayNumberOrder(a.date, b.date);
    TimeStringOrder(a.micros, b.micros);
    LessSeparator(SPACE, TimeString(a.micros), TimeString(b.micros));
    DateStringLength(a.date);
    DateStringLength(b.date);
    var x, y := [SPACE] + TimeString(a.micros), [SPACE] + TimeString(b.micros);
    LessConcat(DateString(a.date), x, DateString(b.date), y);
    ConcatEqual(DateString(a.date), x, DateString(b.date), y);
    ConcatEqual([SPACE], TimeString(a.micros), [SPACE], TimeString(b.micros));
  }

  lemma DateStringLength(d: Date)
    requires ValidDate(d) && 0 <= d.year
    ensures |DateString(d)| == 10
  {
  }

  // ----- casts between the texts

  const MIDNIGHT: seq<byte> := [SPACE, ZERO, ZERO, COLON, ZERO, ZERO, COLON, ZERO, ZERO]

  /** Appending midnight to the text of a date gives the text of its timestamp. */
  lemma DateToTimestampText(d: Date)
    requires ValidDate(d)
    ensures ValidTimestamp(Timestamp(d, 0))
    ensures 1 <= d.year ==> MicroNumber(Timestamp(d, 0)) == DayNumber(d) * MICROS_PER_DAY
    ensures CanonicalText(TimestampValue(Timestamp(d, 0))) ==
            match CanonicalText(DateValue(d))
            case Some(text) => Some(text + MIDNIGHT)
            case None => None
  {
    hide DateString, TimeString;
    MidnightText();
  }

  lemma TwoZeros()
    ensures Digits(0, 2) == [ZERO, ZERO]
  {
  }

  lemma MidnightText()
    ensures [SPACE] + TimeString(0) == MIDNIGHT
  {
    hide Digits, Fraction;
    TwoZeros();
    FractionOfZero();
    var z: seq<byte> := [ZERO, ZERO];
    assert z + [] == z;
    assert [COLON] + z == [COLON, ZERO, ZERO];
    assert z + [COLON, ZERO, ZERO] == [ZERO, ZERO, COLON, ZERO, ZERO];
    assert [COLON] + [ZERO, ZERO, COLON, ZERO, ZERO] == [COLON, ZERO, ZERO, COLON, ZERO, ZERO];
  }

  lemma FractionOfZero()
    ensures Fraction(0) == []
  {
  }

  /** The cast of a timestamp to a date divides its number of microseconds; only its own date has that day number. */
  lemma TimestampCast(t: Timestamp, d: Date)
    requires ValidTimestamp(t) && ValidDate(d) && 1 <= t.date.year && 1 <= d.year
    ensures DayNumber(d) == MicroNumber(t) / MICROS_PER_DAY <==> d == t.date
  {
    hide DayNumber;
    DayNumberOrder(d, t.date);
  }

  /** The first ten characters of the text of a timestamp are the text of the date it is cast to. */
  lemma TimestampToDateText(t: Timestamp, d: Date)
    requires ValidTimestamp(t) && ValidDate(d) && 1 <= t.date.year && 1 <= d.year
    requires DayNumber(d) == MicroNumber(t) / MICROS_PER_DAY
    ensures match CanonicalText(TimestampValue(t))
            case Some(text) => |text| >= 10 && CanonicalText(DateValue(d)) == Some(text[..10])
            case None => CanonicalText(DateValue(d)) == None
  {
    hide DayNumber, MicroNumber;
    TimestampCast(t, d);
  }

  /** Why the years end at 9999: the text of a five-digit year sorts by its first four digits, before many earlier dates. */
  lemma FiveDigitYearsDoNotOrder(year: nat, rest: seq<byte>, d: Date)
    requires 10000 <= year < 100000 && ValidDate(d) && 0 <= d.year <= 9999
    ensures Less(Digits(year, 5) + rest, DateString(d)) <==> year / 10 < d.year
  {
    hide Digits;
    FifthDigit(year);
    var last := [ZERO + year % 10] + rest;
    assert Digits(year, 5) + rest == Digits(year / 10, 4) + last;
    var tail := [DASH] + (Digits(d.month, 2) + ([DASH] + Digits(d.day, 2)));
    LessConcat(Digits(year / 10, 4), last, Digits(d.year, 4), tail);
    DigitsOrder(year / 10, d.year, 4);
    assert last[0] > tail[0];
  }

  lemma FifthDigit(year: nat)
    ensures Digits(year, 5) == Digits(year / 10, 4) + [ZERO + year % 10]
  {
  }
}
