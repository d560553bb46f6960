/** quantile_disc over values that the comparison orders, with the index computed in integer arithmetic. */
module Quantile {
  import opened Bytes
  import opened Permutations
  import opened DecimalText
  import opened Doubles

  const INT64_MAX := 0x7FFF_FFFF_FFFF_FFFF

  /** A value that is not NULL. */
  datatype Value =
    | Integer(value: int)
    | Float(number: real)
    | Text(text: seq<byte>)
    | Blob(blob: seq<byte>)

  // ----- comparing values

  predicate IsNumeric(v: Value) {
    v.Integer? || v.Float?
  }

  function AsDouble(v: Value): real
    requires IsNumeric(v)
  {
    if v.Integer? then ToDouble(v.value) else v.number
  }

  function BytesOf(v: Value): seq<byte>
    requires !IsNumeric(v)
  {
    if v.Text? then v.text else v.blob
  }

  /** The difference of the first of n bytes that differs. */
  function Memcmp(l: seq<byte>, r: seq<byte>, n: nat): int
    requires n <= |l| && n <= |r|
  {
    if n == 0 then 0 else if l[0] != r[0] then l[0] - r[0] else Memcmp(l[1..], r[1..], n - 1)
  }

  function CompareBytes(l: seq<byte>, r: seq<byte>): int {
    var result := Memcmp(l, r, if |l| < |r| then |l| else |r|);
    if result != 0 then result else if |l| < |r| then -1 else if |l| > |r| then 1 else 0
  }

  function CompareValues(left: Value, right: Value): int {
    if IsNumeric(left) && IsNumeric(right) then
      if left.Integer? && right.Integer? then
        (if left.value < right.value then -1 else if left.value > right.value then 1 else 0)
      else
        (if AsDouble(left) < AsDouble(right) then -1 else if AsDouble(left) > AsDouble(right) then 1 else 0)
    else if IsNumeric(left) != IsNumeric(right) then
      (if IsNumeric(left) then -1 else 1)
    else
      CompareBytes(BytesOf(left), BytesOf(right))
  }

  lemma {:induction false} CompareIsOrder(l: seq<byte>, r: seq<byte>)
    ensures CompareBytes(l, r) < 0 <==> Less(l, r)
    ensures CompareBytes(l, r) > 0 <==> Less(r, l)
  {
    if l != [] && r != [] && l[0] == r[0] {
      CompareIsOrder(l[1..], r[1..]);
      assert CompareBytes(l, r) == CompareBytes(l[1..], r[1..]);
    }
  }

  lemma {:induction false} LessTransitive(a: seq<byte>, b: seq<byte>, c: seq<byte>)
    requires !Less(b, a) && !Less(c, b)
    ensures !Less(c, a)
  {
    if a != [] && b != [] && c != [] && a[0] == b[0] == c[0] {
      LessTransitive(a[1..], b[1..], c[1..]);
    }
  }

  predicate AtMost(a: Value, b: Value) {
    CompareValues(a, b) <= 0
  }

  /** Texts and blobs compare by all their bytes, whichever of the two they are. */
  lemma StringsCompare(a: seq<byte>, b: seq<byte>, left: Value, right: Value)
    requires (left == Text(a) || left == Blob(a)) && (right == Text(b) || right == Blob(b))
    ensures CompareValues(left, right) < 0 <==> Less(a, b)
    ensures CompareValues(left, right) == 0 <==> a == b
  {
    CompareIsOrder(a, b);
    LessConnected(a, b);
  }

  lemma {:induction false} LessConnected(a: seq<byte>, b: seq<byte>)
    ensures a == b <==> !Less(a, b) && !Less(b, a)
  {
    if a != [] && b != [] {
      LessConnected(a[1..], b[1..]);
      assert a == [a[0]] + a[1..] && b == [b[0]] + b[1..];
    }
  }

  /** Numbers compare below texts and blobs, integers by their values, and a float with anything as doubles. */
  lemma NumbersCompare(a: Value, b: Value, i: int, j: int, x: real, y: real)
    ensures (a.Integer? || a.Float?) && (b.Text? || b.Blob?) ==> CompareValues(a, b) < 0 < CompareValues(b, a)
    ensures CompareValues(Integer(i), Integer(j)) < 0 <==> i < j
    ensures CompareValues(Integer(i), Integer(j)) == 0 <==> i == j
    ensures CompareValues(Float(x), Float(y)) < 0 <==> x < y
    ensures CompareValues(Float(x), Float(y)) == 0 <==> x == y
    ensures CompareValues(Integer(i), Float(x)) < 0 <==> ToDouble(i) < x
    ensures CompareValues(Integer(i), Float(x)) == 0 <==> ToDouble(i) == x
    ensures CompareValues(Float(x), Integer(i)) < 0 <==> x < ToDouble(i)
  {
  }

  lemma StringsAtMost(a: Value, b: Value)
    requires !IsNumeric(a) && !IsNumeric(b)
    ensures AtMost(a, b) <==> !Less(BytesOf(b), BytesOf(a))
  {
    CompareIsOrder(BytesOf(a), BytesOf(b));
  }

  /** Swapping the arguments swaps the sign. */
  lemma CompareSwapped(a: Value, b: Value)
    ensures CompareValues(a, b) < 0 <==> CompareValues(b, a) > 0
    ensures CompareValues(a, b) == 0 <==> CompareValues(b, a) == 0
  {
    if !IsNumeric(a) && !IsNumeric(b) {
      hide CompareBytes, Less;
      CompareIsOrder(BytesOf(a), BytesOf(b));
      CompareIsOrder(BytesOf(b), BytesOf(a));
    }
  }

  /** Two integers that the conversion to a double makes equal to the same float, in the wrong order. */
  ghost predicate Clash(a: Value, b: Value, c: Value) {
    a.Integer? && b.Float? && c.Integer? && c.value < a.value && ToDouble(a.value) == b.number == ToDouble(c.value)
  }

  lemma NumbersTransitive(a: Value, b: Value, c: Value)
    requires IsNumeric(a) && IsNumeric(b) && IsNumeric(c) && AtMost(a, b) && AtMost(b, c)
    ensures AtMost(a, c) <==> !Clash(a, b, c)
  {
    hide ToDouble;
    var x, y := if a.Integer? then a.value else 0, if b.Integer? then b.value else 0;
    var z := if c.Integer? then c.value else 0;
    if x <= y {
      ToDoubleMonotone(x, y);
    }
    if y <= z {
      ToDoubleMonotone(y, z);
    }
    if z <= x {
      ToDoubleMonotone(z, x);
    }
  }

  /** For all values, of whatever storage classes: the comparison is transitive if and only if they do not clash. */
  lemma CompareTransitive(a: Value, b: Value, c: Value)
    requires AtMost(a, b) && AtMost(b, c)
    ensures AtMost(a, c) <==> !Clash(a, b, c)
  {
    hide Less, CompareBytes, ToDouble;
    if IsNumeric(a) && IsNumeric(b) && IsNumeric(c) {
      NumbersTransitive(a, b, c);
    } else if !IsNumeric(a) {
      StringsAtMost(a, b);
      StringsAtMost(b, c);
      StringsAtMost(a, c);
      LessTransitive(BytesOf(a), BytesOf(b), BytesOf(c));
    }
  }

  /** 2^53 and 2^53 + 1 are both 2^53 as a double. */
  lemma MixedNumbersDoNotOrder()
    ensures var a, b, c := Integer(TWO_53 + 1), Float(TWO_53 as real), Integer(TWO_53);
            AtMost(a, b) && AtMost(b, c) && !AtMost(a, c)
  {
    ExactUpTo(TWO_53);
  }

  /** The values of a group do not clash. */
  ghost predicate Orderable(values: seq<Value>) {
    forall a, b, c :: a in values && b in values && c in values ==> !Clash(a, b, c)
  }

  ghost predicate IsOrderOn(values: seq<Value>) {
    forall a, b, c :: a in values && b in values && c in values && AtMost(a, b) && AtMost(b, c) ==> AtMost(a, c)
  }

  /** The comparison orders a group, as a sort demands of it, if and only if its values do not clash. */
  lemma OrderableExactly(values: seq<Value>)
    ensures IsOrderOn(values) <==> Orderable(values)
  {
    hide AtMost, Clash;
    forall a, b, c | a in values && b in values && c in values
      ensures AtMost(a, b) && AtMost(b, c) && !AtMost(a, c) <==> Clash(a, b, c)
    {
      ClashChains(a, b, c);
      if AtMost(a, b) && AtMost(b, c) {
        CompareTransitive(a, b, c);
      }
    }
  }

  lemma ClashChains(a: Value, b: Value, c: Value)
    ensures Clash(a, b, c) ==> AtMost(a, b) && AtMost(b, c)
  {
  }

  /** Groups without floats, without integers, or with integers up to 2^53 in magnitude do not clash. */
  lemma SafeGroups(values: seq<Value>)
    requires (forall v :: v in values ==> !v.Float?) || (forall v :: v in values ==> !v.Integer?) ||
             forall v :: v in values && v.Integer? ==> -TWO_53 <= v.value <= TWO_53
    ensures Orderable(values)
  {
    hide ToDouble;
    forall a, b, c | a in values && b in values && c in values
      ensures !Clash(a, b, c)
    {
      if a.Integer? && c.Integer? && -TWO_53 <= a.value <= TWO_53 && -TWO_53 <= c.value <= TWO_53 {
        ExactUpTo(a.value);
        ExactUpTo(c.value);
      }
    }
  }

  // ----- what a discrete quantile is

  /** How many of the values are not above v. */
  function CountAtMost(values: seq<Value>, v: Value): nat {
    if values == [] then 0 else (if AtMost(values[0], v) then 1 else 0) + CountAtMost(values[1..], v)
  }

  function Share(n: nat, q: real): real {
    n as real * q
  }

  predicate Enough(values: seq<Value>, q: real, v: Value) {
    CountAtMost(values, v) as real >= Share(|values|, q)
  }

  /** The least value with at least n * q values not above it. */
  ghost predicate IsQuantile(values: seq<Value>, q: real, v: Value) {
    v in values && Enough(values, q, v) && forall w :: w in values && Enough(values, q, w) ==> AtMost(v, w)
  }

  lemma {:induction false} CountMiddle(a: seq<Value>, x: Value, b: seq<Value>, v: Value)
    ensures CountAtMost(a + [x] + b, v) == CountAtMost(a + b, v) + if AtMost(x, v) then 1 else 0
  {
    hide AtMost;
    if a == [] {
      assert a + [x] + b == [x] + b && a + b == b && ([x] + b)[1..] == b;
    } else {
      assert (a + [x] + b)[1..] == a[1..] + [x] + b && (a + b)[1..] == a[1..] + b;
      CountMiddle(a[1..], x, b, v);
    }
  }

  lemma {:induction false} CountPermuted(values: seq<Value>, other: seq<Value>, v: Value)
    requires multiset(values) == multiset(other)
    ensures CountAtMost(values, v) == CountAtMost(other, v)
    decreases |values|
  {
    if values != [] {
      hide AtMost;
      var before, after := TakeOut(values, other);
      CountPermuted(values[1..], before + after, v);
      CountMiddle(before, values[0], after, v);
    } else {
      assert |multiset(other)| == |other|;
    }
  }

  /** The quantile does not depend on the order of the values. */
  lemma QuantileIgnoresOrder(values: seq<Value>, other: seq<Value>, q: real, v: Value)
    requires multiset(values) == multiset(other) && IsQuantile(values, q, v)
    ensures IsQuantile(other, q, v)
  {
    hide AtMost, CountAtMost, Share;
    assert |values| == |multiset(values)| == |other|;
    CountPermuted(values, other, v);
    assert v in multiset(values);
    forall w | w in other && Enough(other, q, w)
      ensures AtMost(v, w)
    {
      CountPermuted(values, other, w);
      assert w in multiset(other);
    }
  }

  /** Only one value is the quantile, up to values that compare equal. */
  lemma QuantileIsUnique(values: seq<Value>, q: real, v: Value, w: Value)
    requires IsQuantile(values, q, v) && IsQuantile(values, q, w)
    ensures CompareValues(v, w) == 0
  {
    hide CompareValues, Enough;
    CompareSwapped(v, w);
    assert AtMost(v, w) && AtMost(w, v);
  }

  // ----- the value at the index is the quantile

  ghost predicate Sorted(s: seq<Value>) {
    forall i, j :: 0 <= i <= j < |s| ==> AtMost(s[i], s[j])
  }

  lemma {:induction false} CountPrefix(s: seq<Value>, k: nat, v: Value)
    requires k <= |s| && forall i :: 0 <= i < k ==> AtMost(s[i], v)
    ensures CountAtMost(s, v) >= k
  {
    if k > 0 {
      CountPrefix(s[1..], k - 1, v);
    }
  }

  lemma {:induction false} CountSuffix(s: seq<Value>, k: nat, v: Value)
    requires k <= |s| && forall i :: k <= i < |s| ==> !AtMost(s[i], v)
    ensures CountAtMost(s, v) <= k
  {
    if s != [] {
      CountSuffix(s[1..], if k > 0 then k - 1 else 0, v);
    }
  }

  lemma CountMember(s: seq<Value>, i: nat)
    requires i < |s|
    ensures CountAtMost(s, s[i]) >= 1
  {
    hide AtMost;
    AtMostItself(s[i]);
    CountMiddle(s[..i], s[i], s[i + 1..], s[i]);
    assert s == s[..i] + [s[i]] + s[i + 1..];
  }

  lemma AtMostItself(v: Value)
    ensures AtMost(v, v)
  {
    CompareSwapped(v, v);
  }

  /** x rounded up, by rounding down the distance to n. */
  function Ceiling(n: nat, x: real): int {
    n - (n as real - x).Floor
  }

  function DiscreteIndex(n: nat, q: real): int {
    (if Ceiling(n, Share(n, q)) < 1 then 1 else Ceiling(n, Share(n, q))) - 1
  }

  lemma ShareBounds(n: nat, q: real)
    requires 0.0 <= q <= 1.0
    ensures 0.0 <= Share(n, q) <= n as real
  {
    assert n as real * q >= 0.0 && n as real * (1.0 - q) >= 0.0;
  }

  /** The index is max(1, ceil(n * q)) - 1, and in range. */
  lemma IndexBounds(n: nat, q: real)
    requires n > 0 && 0.0 <= q <= 1.0
    ensures 0 <= DiscreteIndex(n, q) < n
    ensures (DiscreteIndex(n, q) + 1) as real >= Share(n, q)
    ensures DiscreteIndex(n, q) > 0 ==> DiscreteIndex(n, q) as real < Share(n, q)
  {
    hide Share;
    ShareBounds(n, q);
    var y := n as real - Share(n, q);
    assert y.Floor as real <= y < y.Floor as real + 1.0;
  }

  /** A value below the one at the index has at most index values not above it. */
  lemma CountBelow(s: seq<Value>, index: nat, w: Value)
    requires Sorted(s) && Orderable(s) && index < |s| && w in s && !AtMost(s[index], w)
    ensures CountAtMost(s, w) <= index
  {
    hide AtMost, CountAtMost, Clash;
    forall i | index <= i < |s|
      ensures !AtMost(s[i], w)
    {
      if AtMost(s[i], w) {
        CompareTransitive(s[index], s[i], w);
      }
    }
    CountSuffix(s, index, w);
  }

  lemma IndexedIsLeast(s: seq<Value>, q: real, j: nat)
    requires Sorted(s) && Orderable(s) && 0.0 <= q <= 1.0 && j < |s| && Enough(s, q, s[j])
    ensures 0 <= DiscreteIndex(|s|, q) < |s| && AtMost(s[DiscreteIndex(|s|, q)], s[j])
  {
    hide AtMost, CountAtMost, DiscreteIndex, Share, Orderable;
    IndexBounds(|s|, q);
    var index := DiscreteIndex(|s|, q);
    if !AtMost(s[index], s[j]) {
      CountBelow(s, index, s[j]);
      CountMember(s, j);
    }
  }

  /** Whatever order the sort leaves equal values in, the value at the index is the quantile. */
  lemma IndexedIsQuantile(values: seq<Value>, s: seq<Value>, q: real)
    requires values != [] && Orderable(s) && 0.0 <= q <= 1.0
    requires Sorted(s) && multiset(s) == multiset(values)
    ensures |s| == |values| && 0 <= DiscreteIndex(|values|, q) < |values|
    ensures IsQuantile(values, q, s[DiscreteIndex(|values|, q)])
  {
    hide AtMost, CountAtMost, DiscreteIndex, Orderable, Share;
    assert |s| == |multiset(s)| == |values|;
    IndexBounds(|s|, q);
    var index := DiscreteIndex(|s|, q);
    CountPrefix(s, index + 1, s[index]);
    forall w | w in s && Enough(s, q, w)
      ensures AtMost(s[index], w)
    {
      var j :| 0 <= j < |s| && s[j] == w;
      IndexedIsLeast(s, q, j);
    }
    assert IsQuantile(s, q, s[index]);
    QuantileIgnoresOrder(s, values, q, s[index]);
  }

  // ----- integer arithmetic

  /** n - n * q, rounded down, for a decimal q. */
  function Floored(n: nat, integral: nat, scaling: nat): int
    requires scaling >= 1
  {
    (n * scaling - n * integral) / scaling
  }

  /** Dividing the scaled numbers as integers is exact: it gives n * q, rounded up. */
  lemma IntegerArithmeticIsExact(n: nat, integral: nat, scaling: nat)
    requires integral <= scaling && scaling >= 1
    ensures n - Floored(n, integral, scaling) == Ceiling(n, Share(n, integral as real / scaling as real))
    ensures 0 <= Floored(n, integral, scaling) <= n
  {
    var a := n * (scaling - integral);
    assert a == n * scaling - n * integral;
    QuotientFloor(a, scaling);
    SameQuotient(n, integral, scaling);
  }

  lemma FloorIs(x: real, d: int)
    requires d as real <= x < d as real + 1.0
    ensures x.Floor == d
  {
  }

  lemma Below(x: real, y: real, b: real)
    requires b > 0.0
    ensures x < y <==> x * b < y * b
  {
  }

  lemma QuotientFloor(a: nat, b: nat)
    requires b >= 1
    ensures (a as real / b as real).Floor == a / b
  {
    var d, x := a / b, a as real / b as real;
    assert d * b <= a < d * b + b;
    assert x * b as real == a as real;
    Below(x, d as real, b as real);
    Below(x, d as real + 1.0, b as real);
    assert d as real * b as real == (d * b) as real;
    assert (d as real + 1.0) * b as real == (d * b + b) as real;
    FloorIs(x, d);
  }

  lemma SameQuotient(n: nat, i: nat, s: nat)
    requires s >= 1 && i <= s
    ensures (n * (s - i)) as real / s as real == n as real - Share(n, i as real / s as real)
  {
    var q := i as real / s as real;
    assert q * s as real == i as real;
    assert (n * (s - i)) as real == n as real * (s as real - i as real);
  }

  // ----- sorting

  function Insert(v: Value, s: seq<Value>): seq<Value> {
    if s == [] || AtMost(v, s[0]) then [v] + s else [s[0]] + Insert(v, s[1..])
  }

  /** The values in ascending order. */
  function SortValues(values: seq<Value>): seq<Value> {
    if values == [] then [] else Insert(values[0], SortValues(values[1..]))
  }

  lemma {:induction false} InsertMembers(v: Value, s: seq<Value>)
    ensures multiset(Insert(v, s)) == multiset(s) + multiset{v}
  {
    hide AtMost;
    if s != [] {
      InsertMembers(v, s[1..]);
      assert s == [s[0]] + s[1..];
    }
  }

  ghost predicate Ascending(s: seq<Value>) {
    s == [] || ((forall x :: x in s[1..] ==> AtMost(s[0], x)) && Ascending(s[1..]))
  }

  lemma {:induction false} AscendingIsSorted(s: seq<Value>)
    requires Ascending(s)
    ensures Sorted(s)
  {
    hide AtMost;
    if s != [] {
      AscendingIsSorted(s[1..]);
      AtMostItself(s[0]);
      forall i, j | 0 <= i <= j < |s|
        ensures AtMost(s[i], s[j])
      {
        if i > 0 {
          assert s[i] == s[1..][i - 1] && s[j] == s[1..][j - 1];
        } else if j > 0 {
          assert s[j] in s[1..];
        }
      }
    }
  }

  lemma {:induction false} InsertAscending(v: Value, s: seq<Value>)
    requires Ascending(s) && Orderable([v] + s)
    ensures Ascending(Insert(v, s))
  {
    hide AtMost, Clash;
    if s == [] {
    } else if AtMost(v, s[0]) {
      assert ([v] + s)[1..] == s;
      forall x | x in s
        ensures AtMost(v, x)
      {
        if x != s[0] {
          assert x in s[1..];
          CompareTransitive(v, s[0], x);
        }
      }
    } else {
      InsertAscending(v, s[1..]);
      InsertMembers(v, s[1..]);
      NotAtMost(s[0], v);
      var t := Insert(v, s[1..]);
      assert ([s[0]] + t)[1..] == t;
      forall x | x in t
        ensures AtMost(s[0], x)
      {
        assert x in multiset(t);
      }
    }
  }

  lemma NotAtMost(a: Value, b: Value)
    requires !AtMost(b, a)
    ensures AtMost(a, b)
  {
    CompareSwapped(a, b);
  }

  lemma {:induction false} SortValuesSorts(values: seq<Value>)
    requires Orderable(values)
    ensures Ascending(SortValues(values)) && multiset(SortValues(values)) == multiset(values)
  {
    hide AtMost, Ascending, Orderable;
    if values == [] {
      EmptyAscending();
    } else {
      var rest := SortValues(values[1..]);
      assert values == [values[0]] + values[1..];
      Sublist(values, values[1..]);
      SortValuesSorts(values[1..]);
      InsertMembers(values[0], rest);
      assert multiset([values[0]] + rest) == multiset(values);
      SameMembers([values[0]] + rest, values);
      InsertAscending(values[0], rest);
    }
  }

  lemma Sublist(values: seq<Value>, some: seq<Value>)
    requires Orderable(values) && forall x :: x in some ==> x in values
    ensures Orderable(some)
  {
    hide Clash;
  }

  lemma SameMembers(s: seq<Value>, t: seq<Value>)
    requires multiset(s) == multiset(t) && Orderable(t)
    ensures Orderable(s)
  {
    hide Orderable;
    forall x | x in s
      ensures x in t
    {
      assert x in multiset(s);
    }
    Sublist(t, s);
  }

  lemma EmptyAscending()
    ensures Ascending([])
  {
  }

  // ----- the aggregate

  /** The second argument of the aggregate. */
  datatype Argument = DecimalText(text: string) | Number(number: real) | Null

  /** The quantile an argument asks for, if it is one. */
  ghost function Asked(argument: Argument): Option<real> {
    match argument
    case DecimalText(t) => if IsDecimal(t) && DecimalValue(t) <= 1.0 then Some(DecimalValue(t)) else None
    case Number(x) => if 0.0 <= x <= 1.0 then Some(x) else None
    case Null => None
  }

  datatype Outcome = NoValue | Found(value: Value) | Error

  /** The state of the aggregate. */
  class QuantileState {
    var values: seq<Value>
    var quantile: real
    var isDecimal: bool
    var integral: nat
    var scaling: nat

    ghost predicate Valid()
      reads this
    {
      0.0 <= quantile <= 1.0 && scaling >= 1 && integral <= scaling
    }

    ghost function Quantile(): real
      requires Valid()
      reads this
    {
      if isDecimal then integral as real / scaling as real else quantile
    }

    constructor ()
      ensures Valid() && values == [] && !isDecimal
    {
      values, quantile, isDecimal, integral, scaling := [], 0.0, false, 0, 1;
    }

    /** One row; refused exactly when the quantile is not a number from 0 to 1. */
    method Step(value: Option<Value>, argument: Argument) returns (ok: bool)
      requires Valid()
      modifies this
      ensures ok <==> value.None? || Asked(argument).Some?
      ensures ok ==> Valid()
      ensures values == if value.Some? && ok then old(values) + [value.value] else old(values)
      ensures value.None? ==> unchanged(this)
      ensures ok && value.Some? && (argument.DecimalText? || !old(isDecimal)) ==> Quantile() == Asked(argument).value
    {
      hide IsDecimal, DecimalValue;
      if value.None? {
        return true;
      }
      match argument {
      case DecimalText(text) =>
        isDecimal := true;
        var accepted;
        accepted, integral, scaling := ParseDecimalQuantile(text);
        if !accepted {
          return false;
        }
      case Number(x) =>
        if !(0.0 <= x <= 1.0) {
          return false;
        }
        quantile := x;
      case Null =>
        return false;
      }
      values := values + [value.value];
      ok := true;
    }

    /**
      The discrete quantile of the values. It fails exactly when the number of values, or its product with the
      scaling, is out of range; it finds the quantile of all the values otherwise.
     */
    method Final() returns (result: Outcome)
      requires Valid() && Orderable(values)
      modifies this
      ensures Valid()
      ensures result.NoValue? <==> old(values) == []
      ensures result.Error? <==> old(values) != [] && isDecimal && OutOfRange(|old(values)|, scaling)
      ensures result.Found? ==> IsQuantile(old(values), Quantile(), result.value)
      ensures multiset(values) == multiset(old(values)) && unchanged(this`isDecimal, this`integral, this`scaling, this`quantile)
    {
      hide Orderable, Sorted, IsQuantile, Share, Ceiling, SortValues, OutOfRange, Floored;
      if values == [] {
        return NoValue;
      }
      var n := |values|;
      SortedValues(values);
      values := SortValues(values);
      var floored: int;
      if isDecimal {
        if OutOfRange(n, scaling) {
          return Error;
        }
        IntegerArithmeticIsExact(n, integral, scaling);
        floored := Floored(n, integral, scaling);
      } else {
        floored := (n as real - n as real * quantile).Floor;
      }
      var index := (if n - floored < 1 then 1 else n - floored) - 1;
      CeilingOf(n, quantile);
      assert index == DiscreteIndex(n, Quantile());
      IndexedIsQuantile(old(values), values, Quantile());
      return Found(values[index]);
    }
  }

  lemma CeilingOf(n: nat, q: real)
    ensures Ceiling(n, Share(n, q)) == n - (n as real - n as real * q).Floor
  {
  }

  predicate OutOfRange(n: nat, scaling: nat) {
    n > INT64_MAX || n * scaling > HUGEINT_MAX
  }

  lemma SortedValues(values: seq<Value>)
    requires Orderable(values)
    ensures Sorted(SortValues(values)) && Orderable(SortValues(values))
    ensures multiset(SortValues(values)) == multiset(values)
  {
    hide AtMost, SortValues, Ascending, Orderable, Sorted;
    SortValuesSorts(values);
    AscendingIsSorted(SortValues(values));
    SameMembers(SortValues(values), values);
  }

  /** With up to 19 digits after the point no number of values is out of range. */
  lemma NineteenDigitsFit(text: string, n: nat)
    requires IsDecimal(text) && |Fraction(text)| <= 19 && n <= INT64_MAX
    ensures !OutOfRange(n, Pow10(|Fraction(text)|))
  {
    hide Pow10, Fraction, IsDecimal;
    NineteenDigits();
    Pow10Monotone(|Fraction(text)|, 19);
    ProductBound(n, Pow10(|Fraction(text)|), INT64_MAX, Pow10(19));
  }

  lemma NineteenDigits()
    ensures Pow10(19) == 10_000_000_000_000_000_000
  {
    FiveMore(0);
    FiveMore(5);
    FiveMore(10);
    assert Pow10(17) == 100_000_000_000_000_000;
  }

  /** With 20 digits a large enough group is out of range. */
  lemma TwentyDigitsDoNot()
    ensures OutOfRange(INT64_MAX, Pow10(20))
  {
    hide Pow10;
    FiveMore(15);
    FiveMore(10);
    FiveMore(5);
    FiveMore(0);
    PowZero();
  }

  /** With all 30 digits the first number of values that is out of range is 170141184. */
  lemma ThirtyDigitsReach(n: nat)
    requires n <= INT64_MAX
    ensures OutOfRange(n, Pow10(MAX_DIGITS)) <==> n >= 170141184
  {
    hide Pow10;
    ThirtyDigits();
  }

  lemma ProductBound(a: nat, b: nat, c: nat, d: nat)
    requires a <= c && b <= d
    ensures a * b <= c * d
  {
    assert a * b <= c * b <= c * d;
  }
}
