/** Variance by the one-pass algorithm of Welford, in exact arithmetic. */
module Variance {
  import opened Bytes
  import opened Permutations

  datatype Acc = Acc(count: nat, mean: real, dsquared: real)

  const EMPTY := Acc(0, 0.0, 0.0)

  function Step(a: Acc, x: real): Acc {
    var count := a.count + 1;
    var mean := a.mean + (x - a.mean) / count as real;
    Acc(count, mean, a.dsquared + Product(x - mean, x - a.mean))
  }

  function Product(x: real, y: real): real {
    x * y
  }

  /** The state of the aggregate, updated in place for each row. */
  class VarianceState {
    var count: nat
    var mean: real
    var dsquared: real

    ghost function View(): Acc
      reads this
    {
      Acc(count, mean, dsquared)
    }

    constructor ()
      ensures View() == EMPTY
    {
      count, mean, dsquared := 0, 0.0, 0.0;
    }

    method Add(input: Option<real>)
      modifies this
      ensures View() == if input.Some? then Step(old(View()), input.value) else old(View())
    {
      if input.None? {
        return;
      }
      count := count + 1;
      var meanDifferential := (input.value - mean) / count as real;
      var newMean := mean + meanDifferential;
      var dsquaredIncrement := (input.value - newMean) * (input.value - mean);
      mean := newMean;
      dsquared := dsquared + dsquaredIncrement;
    }

    method Final(sample: bool) returns (result: Option<real>)
      ensures result == Result(View(), sample)
    {
      if count == 0 || (sample && count <= 1) {
        return None;
      }
      if sample {
        return Some(dsquared / (count - 1) as real);
      }
      return Some(if count > 1 then dsquared / count as real else 0.0);
    }
  }

  function Result(a: Acc, sample: bool): Option<real> {
    if a.count == 0 || (sample && a.count <= 1) then None
    else if sample then Some(a.dsquared / (a.count - 1) as real)
    else Some(if a.count > 1 then a.dsquared / a.count as real else 0.0)
  }

  /** The rows of a group, one after the other; NULLs are skipped. */
  function Run(inputs: seq<Option<real>>): Acc {
    if inputs == [] then EMPTY else
    var k := |inputs| - 1;
    if inputs[k].Some? then Step(Run(inputs[..k]), inputs[k].value) else Run(inputs[..k])
  }

  function NonNull(inputs: seq<Option<real>>): seq<real> {
    if inputs == [] then [] else
    var k := |inputs| - 1;
    NonNull(inputs[..k]) + if inputs[k].Some? then [inputs[k].value] else []
  }

  // ----- the textbook definitions

  function Sum(xs: seq<real>): real {
    if xs == [] then 0.0 else xs[0] + Sum(xs[1..])
  }

  function Square(x: real): real {
    x * x
  }

  /** The sum of the squared deviations from m. */
  function Deviations(xs: seq<real>, m: real): real {
    if xs == [] then 0.0 else Square(xs[0] - m) + Deviations(xs[1..], m)
  }

  function Mean(xs: seq<real>): real
    requires xs != []
  {
    Sum(xs) / |xs| as real
  }

  lemma {:induction false} SumSnoc(xs: seq<real>, x: real)
    ensures Sum(xs + [x]) == Sum(xs) + x
  {
    if xs == [] {
      assert xs + [x] == [x] && [x][1..] == [];
    } else {
      assert (xs + [x])[1..] == xs[1..] + [x];
      SumSnoc(xs[1..], x);
    }
  }

  lemma {:induction false} DeviationsSnoc(xs: seq<real>, x: real, m: real)
    ensures Deviations(xs + [x], m) == Deviations(xs, m) + Square(x - m)
  {
    hide Square;
    if xs == [] {
      assert xs + [x] == [x] && [x][1..] == [];
    } else {
      assert (xs + [x])[1..] == xs[1..] + [x];
      DeviationsSnoc(xs[1..], x, m);
    }
  }

  /** How the squared deviations of n numbers with sum s change when they are measured from m' instead of m. */
  function Moved(n: nat, s: real, m: real, m': real): real {
    2.0 * (m - m') * (s - n as real * m) + n as real * Square(m - m')
  }

  lemma MovedOne(n: nat, s: real, y: real, m: real, m': real)
    ensures Square(y - m') + Moved(n, s, m, m') == Square(y - m) + Moved(n + 1, y + s, m, m')
  {
    var a, d, k, c := y - m, m - m', n as real, s - n as real * m;
    assert y - m' == a + d;
    assert (n + 1) as real == k + 1.0;
    assert (y + s) - (k + 1.0) * m == a + c;
    assert (a + d) * (a + d) == a * a + 2.0 * d * a + d * d;
    assert 2.0 * d * (a + c) == 2.0 * d * a + 2.0 * d * c;
    assert (k + 1.0) * (d * d) == k * (d * d) + d * d;
  }

  lemma {:induction false} Shift(xs: seq<real>, m: real, m': real)
    ensures Deviations(xs, m') == Deviations(xs, m) + Moved(|xs|, Sum(xs), m, m')
  {
    if xs == [] {
      MovedNothing(m, m');
    } else {
      hide Square, Moved;
      Shift(xs[1..], m, m');
      MovedOne(|xs[1..]|, Sum(xs[1..]), xs[0], m, m');
    }
  }

  lemma MovedNothing(m: real, m': real)
    ensures Moved(0, 0.0, m, m') == 0.0
  {
  }

  ghost predicate IsMean(m: real, n: nat, s: real) {
    m * n as real == s
  }

  /** The mean that a step computes, and how far it is from the old one. */
  lemma NewMean(a: Acc, x: real, s: real) returns (e: real)
    requires IsMean(a.mean, a.count, s)
    ensures IsMean(Step(a, x).mean, a.count + 1, s + x)
    ensures Step(a, x).mean == a.mean + e && x - a.mean == e * (a.count as real + 1.0)
    ensures x - Step(a, x).mean == e * a.count as real
  {
    var n := a.count as real;
    e := (x - a.mean) / (a.count + 1) as real;
    assert (a.count + 1) as real == n + 1.0;
    assert e * (n + 1.0) == x - a.mean;
    assert (a.mean + e) * (n + 1.0) == a.mean * n + a.mean + e * (n + 1.0);
    assert e * (n + 1.0) == e * n + e;
  }

  /** With the new mean m' = m + e: the product the code adds is the move from m to m' and the new deviation. */
  lemma IncrementIsMove(n: nat, s: real, m: real, m': real, x: real, e: real)
    requires IsMean(m, n, s)
    requires m' == m + e && x - m == e * (n as real + 1.0) && x - m' == e * n as real
    ensures Product(x - m', x - m) == Moved(n, s, m, m') + Square(x - m')
  {
    var k := n as real;
    assert s - k * m == 0.0;
    assert (m - m') * (m - m') == e * e;
    assert (e * k) * (e * (k + 1.0)) == (e * k) * (e * k) + k * (e * e);
  }

  lemma StepMoves(a: Acc, x: real, s: real)
    requires IsMean(a.mean, a.count, s)
    ensures Step(a, x).count == a.count + 1
    ensures IsMean(Step(a, x).mean, a.count + 1, s + x)
    ensures Step(a, x).dsquared == a.dsquared + Moved(a.count, s, a.mean, Step(a, x).mean) + Square(x - Step(a, x).mean)
  {
    hide IsMean, Square, Moved, Product;
    var e := NewMean(a, x, s);
    IncrementIsMove(a.count, s, a.mean, Step(a, x).mean, x, e);
  }

  /** What the state knows about the values so far. */
  ghost predicate Textbook(a: Acc, xs: seq<real>) {
    a.count == |xs| && IsMean(a.mean, |xs|, Sum(xs)) && a.dsquared == Deviations(xs, a.mean)
  }

  lemma StepKeeps(a: Acc, xs: seq<real>, x: real)
    requires Textbook(a, xs)
    ensures Textbook(Step(a, x), xs + [x])
  {
    hide IsMean, Square, Moved, Step;
    var b := Step(a, x);
    StepMoves(a, x, Sum(xs));
    SumSnoc(xs, x);
    DeviationsSnoc(xs, x, b.mean);
    Shift(xs, a.mean, b.mean);
  }

  /** After any inputs: the count, the mean, and the squared deviations from it, of the values that are not NULL. */
  lemma {:induction false} RunIsTextbook(inputs: seq<Option<real>>)
    ensures Textbook(Run(inputs), NonNull(inputs))
  {
    if inputs != [] {
      hide Step, Textbook;
      var k := |inputs| - 1;
      RunIsTextbook(inputs[..k]);
      if inputs[k].Some? {
        StepKeeps(Run(inputs[..k]), NonNull(inputs[..k]), inputs[k].value);
      } else {
        assert NonNull(inputs) == NonNull(inputs[..k]);
      }
    }
  }

  lemma MeanFrom(m: real, n: nat, s: real)
    requires IsMean(m, n, s) && n > 0
    ensures m == s / n as real
  {
  }

  ghost function TextbookVariance(xs: seq<real>, sample: bool): Option<real> {
    if xs == [] || (sample && |xs| == 1) then None
    else Some(Deviations(xs, Mean(xs)) / (if sample then |xs| - 1 else |xs|) as real)
  }

  /** The final result is the sample or population variance of the values that are not NULL. */
  lemma ResultIsVariance(inputs: seq<Option<real>>, sample: bool)
    ensures Result(Run(inputs), sample) == TextbookVariance(NonNull(inputs), sample)
  {
    hide Run, NonNull, IsMean;
    RunIsTextbook(inputs);
    var a, xs := Run(inputs), NonNull(inputs);
    if xs != [] {
      MeanFrom(a.mean, |xs|, Sum(xs));
      if |xs| == 1 {
        OneValue(xs);
      }
    }
  }

  lemma OneValue(xs: seq<real>)
    requires |xs| == 1
    ensures Deviations(xs, Mean(xs)) == 0.0
  {
    assert Sum(xs) == xs[0] + Sum(xs[1..]) && Sum(xs[1..]) == 0.0;
    assert Mean(xs) == xs[0];
    assert Deviations(xs[1..], xs[0]) == 0.0;
  }

  /** The aggregate over a whole group, through its state, is the textbook variance. */
  method Aggregate(inputs: seq<Option<real>>, sample: bool) returns (result: Option<real>)
    ensures result == TextbookVariance(NonNull(inputs), sample)
  {
    hide Step, Result, TextbookVariance;
    var state := new VarianceState();
    for i := 0 to |inputs|
      invariant state.View() == Run(inputs[..i])
    {
      state.Add(inputs[i]);
      assert inputs[..i + 1][..i] == inputs[..i];
    }
    assert inputs[..|inputs|] == inputs;
    result := state.Final(sample);
    ResultIsVariance(inputs, sample);
  }

  // ----- the order of the rows does not matter

  lemma {:induction false} SumsMiddle(a: seq<real>, x: real, b: seq<real>, m: real)
    ensures Sum(a + [x] + b) == Sum(a + b) + x
    ensures Deviations(a + [x] + b, m) == Deviations(a + b, m) + Square(x - m)
  {
    hide Square;
    if a == [] {
      assert a + [x] + b == [x] + b && a + b == b && ([x] + b)[1..] == b;
    } else {
      assert (a + [x] + b)[1..] == a[1..] + [x] + b && (a + b)[1..] == a[1..] + b;
      SumsMiddle(a[1..], x, b, m);
    }
  }

  lemma {:induction false} SumsPermuted(xs: seq<real>, ys: seq<real>, m: real)
    requires multiset(xs) == multiset(ys)
    ensures Sum(xs) == Sum(ys) && Deviations(xs, m) == Deviations(ys, m)
  {
    if xs != [] {
      hide Square;
      var before, after := TakeOut(xs, ys);
      SumsPermuted(xs[1..], before + after, m);
      SumsMiddle(before, xs[0], after, m);
    } else {
      assert |multiset(ys)| == |ys|;
    }
  }

  lemma VarianceIgnoresOrder(a: seq<Option<real>>, b: seq<Option<real>>, sample: bool)
    requires multiset(NonNull(a)) == multiset(NonNull(b))
    ensures Result(Run(a), sample) == Result(Run(b), sample)
  {
    var xs, ys := NonNull(a), NonNull(b);
    ResultIsVariance(a, sample);
    ResultIsVariance(b, sample);
    assert |xs| == |multiset(xs)| == |ys|;
    if xs != [] {
      SumsPermuted(xs, ys, Mean(xs));
    }
  }
}
