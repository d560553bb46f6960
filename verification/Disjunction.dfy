/**
  Writing conditions: conjuncts that every disjunct of an OR has are factored out, so that SQLite can use them as join
  conditions. The rewrite has to preserve the three-valued result, also where disjuncts share everything they have.
 */
module Disjunction {
  /** False < unknown < true, so that AND is the minimum and OR the maximum. */
  type Truth = t: int | 0 <= t <= 2 witness 0

  const FALSE: Truth := 0
  const TRUE: Truth := 2

  type Valuation = int -> Truth

  datatype Expr = Atom(id: int) | And(children: seq<Expr>) | Or(children: seq<Expr>)

  /** Conjunctions and disjunctions have at least one child. */
  ghost predicate WellFormed(e: Expr) {
    match e
    case Atom(_) => true
    case And(children) => children != [] && forall i :: 0 <= i < |children| ==> WellFormed(children[i])
    case Or(children) => children != [] && forall i :: 0 <= i < |children| ==> WellFormed(children[i])
  }

  function Min(a: Truth, b: Truth): Truth {
    if a < b then a else b
  }

  function Max(a: Truth, b: Truth): Truth {
    if a < b then b else a
  }

  function Eval(e: Expr, v: Valuation): Truth
    decreases e, 0
  {
    match e
    case Atom(id) => v(id)
    case And(children) => AllOf(children, v)
    case Or(children) => AnyOf(children, v)
  }

  function AllOf(es: seq<Expr>, v: Valuation): Truth
    decreases es, 1
  {
    if es == [] then TRUE else Min(Eval(es[0], v), AllOf(es[1..], v))
  }

  function AnyOf(es: seq<Expr>, v: Valuation): Truth
    decreases es, 1
  {
    if es == [] then FALSE else Max(Eval(es[0], v), AnyOf(es[1..], v))
  }

  ghost predicate Same(a: Expr, b: Expr) {
    forall v: Valuation :: Eval(a, v) == Eval(b, v)
  }

  // ----- factoring

  function Conjuncts(e: Expr): seq<Expr> {
    if e.And? then e.children else [e]
  }

  /** A conjunct of a condition: one of the children of an AND, or the condition itself. */
  ghost predicate IsConjunct(c: Expr, e: Expr) {
    match e
    case And(children) => exists i :: 0 <= i < |children| && children[i] == c
    case _ => c == e
  }

  /** A conjunct of every disjunct. */
  ghost predicate IsCommon(c: Expr, e: Expr)
    requires e.Or?
  {
    forall i :: 0 <= i < |e.children| ==> IsConjunct(c, e.children[i])
  }

  /** The elements of a list that another list does not contain, in order. */
  function Without(es: seq<Expr>, common: seq<Expr>): seq<Expr> {
    if es == [] then []
    else if es[0] in common then Without(es[1..], common)
    else [es[0]] + Without(es[1..], common)
  }

  ghost predicate InAll(disjuncts: seq<seq<Expr>>, e: Expr) {
    forall i :: 0 <= i < |disjuncts| ==> e in disjuncts[i]
  }

  ghost predicate Distinct(es: seq<Expr>) {
    forall i, j :: 0 <= i < j < |es| ==> es[i] != es[j]
  }

  /** Exactly the conjuncts that every disjunct has, each once. */
  method CommonConjuncts(disjuncts: seq<seq<Expr>>) returns (common: seq<Expr>)
    requires disjuncts != []
    ensures forall e :: e in common <==> InAll(disjuncts, e)
    ensures Distinct(common)
  {
    common := [];
    var first := disjuncts[0];
    for k := 0 to |first|
      invariant forall e :: e in common <==> e in first[..k] && InAll(disjuncts, e)
      invariant Distinct(common)
    {
      var inAll := first[k] !in common;
      var i := 1;
      while i < |disjuncts| && inAll
        invariant 1 <= i <= |disjuncts|
        invariant inAll ==> first[k] !in common && forall j :: 0 <= j < i ==> first[k] in disjuncts[j]
        invariant !inAll ==> first[k] in common || !InAll(disjuncts, first[k])
      {
        inAll := first[k] in disjuncts[i];
        i := i + 1;
      }
      if inAll {
        common := common + [first[k]];
      }
      assert first[..k + 1] == first[..k] + [first[k]];
    }
    assert first[..|first|] == first;
  }

  lemma {:induction false} AllOfBelow(es: seq<Expr>, v: Valuation, e: Expr)
    requires e in es
    ensures AllOf(es, v) <= Eval(e, v)
  {
    if es[0] != e {
      AllOfBelow(es[1..], v, e);
    }
  }

  lemma {:induction false} AllOfAbove(es: seq<Expr>, v: Valuation, bound: Truth)
    requires forall e :: e in es ==> bound <= Eval(e, v)
    ensures bound <= AllOf(es, v)
  {
    if es != [] {
      AllOfAbove(es[1..], v, bound);
    }
  }

  lemma {:induction false} WithoutMembers(es: seq<Expr>, common: seq<Expr>, e: Expr)
    ensures e in Without(es, common) <==> e in es && e !in common
  {
    if es != [] {
      WithoutMembers(es[1..], common, e);
    }
  }

  /** A disjunct is its common conjuncts and the rest, however often conjuncts are repeated. */
  lemma SplitDisjunct(d: seq<Expr>, common: seq<Expr>, v: Valuation)
    requires forall e :: e in common ==> e in d
    ensures AllOf(d, v) == Min(AllOf(common, v), AllOf(Without(d, common), v))
  {
    var rest := Without(d, common);
    forall e | e in common
      ensures AllOf(d, v) <= Eval(e, v)
    {
      AllOfBelow(d, v, e);
    }
    AllOfAbove(common, v, AllOf(d, v));
    forall e | e in rest
      ensures AllOf(d, v) <= Eval(e, v)
    {
      WithoutMembers(d, common, e);
      AllOfBelow(d, v, e);
    }
    AllOfAbove(rest, v, AllOf(d, v));
    forall e | e in d
      ensures Min(AllOf(common, v), AllOf(rest, v)) <= Eval(e, v)
    {
      WithoutMembers(d, common, e);
      if e in common {
        AllOfBelow(common, v, e);
      } else {
        AllOfBelow(rest, v, e);
      }
    }
    AllOfAbove(d, v, Min(AllOf(common, v), AllOf(rest, v)));
  }

  /** The value of a disjunction of conjunctions. */
  function AnyAll(disjuncts: seq<seq<Expr>>, v: Valuation): Truth {
    if disjuncts == [] then FALSE else Max(AllOf(disjuncts[0], v), AnyAll(disjuncts[1..], v))
  }

  function Rests(disjuncts: seq<seq<Expr>>, common: seq<Expr>): (r: seq<seq<Expr>>)
    ensures |r| == |disjuncts|
    ensures forall i :: 0 <= i < |r| ==> r[i] == Without(disjuncts[i], common)
  {
    if disjuncts == [] then [] else [Without(disjuncts[0], common)] + Rests(disjuncts[1..], common)
  }

  /** Distributivity: the common conjuncts can be written once. */
  lemma {:induction false} FactorOut(disjuncts: seq<seq<Expr>>, common: seq<Expr>, v: Valuation)
    requires disjuncts != [] && forall e :: e in common ==> InAll(disjuncts, e)
    ensures AnyAll(disjuncts, v) == Min(AllOf(common, v), AnyAll(Rests(disjuncts, common), v))
  {
    forall e | e in common
      ensures e in disjuncts[0] && InAll(disjuncts[1..], e)
    {
      assert InAll(disjuncts, e);
    }
    SplitDisjunct(disjuncts[0], common, v);
    if |disjuncts| > 1 {
      FactorOut(disjuncts[1..], common, v);
    } else {
      assert disjuncts[1..] == [];
      assert Rests(disjuncts[1..], common) == [];
    }
    assert Rests(disjuncts, common)[1..] == Rests(disjuncts[1..], common);
  }

  lemma {:induction false} EmptyRestIsTrue(rests: seq<seq<Expr>>, v: Valuation)
    requires [] in rests
    ensures AnyAll(rests, v) == TRUE
  {
    if rests[0] != [] {
      EmptyRestIsTrue(rests[1..], v);
    }
  }

  function AllConjuncts(es: seq<Expr>): (d: seq<seq<Expr>>)
    ensures |d| == |es|
    ensures forall i :: 0 <= i < |es| ==> d[i] == Conjuncts(es[i])
  {
    if es == [] then [] else [Conjuncts(es[0])] + AllConjuncts(es[1..])
  }

  lemma {:induction false} DisjunctionOfConjunctions(es: seq<Expr>, v: Valuation)
    ensures AnyAll(AllConjuncts(es), v) == AnyOf(es, v)
  {
    if es != [] {
      DisjunctionOfConjunctions(es[1..], v);
      assert AllConjuncts(es)[1..] == AllConjuncts(es[1..]);
      if !es[0].And? {
        assert AllOf([es[0]], v) == Min(Eval(es[0], v), AllOf([], v));
      }
    }
  }

  // ----- writing

  ghost predicate AllSame(ws: seq<Expr>, es: seq<Expr>) {
    |ws| == |es| && forall i :: 0 <= i < |es| ==> Same(ws[i], es[i])
  }

  lemma {:induction false} SameAll(ws: seq<Expr>, es: seq<Expr>, v: Valuation)
    requires AllSame(ws, es)
    ensures AllOf(ws, v) == AllOf(es, v) && AnyOf(ws, v) == AnyOf(es, v)
  {
    if es != [] {
      assert Same(ws[0], es[0]);
      SameAll(ws[1..], es[1..], v);
    }
  }

  /** Writes conditions that are part of e. */
  method WriteAll(e: Expr, es: seq<Expr>) returns (ws: seq<Expr>)
    requires forall i :: 0 <= i < |es| ==> WellFormed(es[i]) && es[i] < e
    ensures AllSame(ws, es)
    decreases e, 0
  {
    ws := [];
    for i := 0 to |es|
      invariant AllSame(ws, es[..i])
    {
      var w := WriteCondition(es[i]);
      ws := ws + [w];
      assert es[..i + 1] == es[..i] + [es[i]];
    }
    assert es[..|es|] == es;
  }

  /** Writes the conjuncts of a disjunct that are not common to all. */
  method WriteRest(e: Expr, d: seq<Expr>, common: seq<Expr>) returns (ws: seq<Expr>)
    requires forall i :: 0 <= i < |d| ==> WellFormed(d[i]) && d[i] < e
    ensures AllSame(ws, Without(d, common))
    decreases e, 0
  {
    ws := [];
    assert d[..0] == [];
    for i := 0 to |d|
      invariant AllSame(ws, Without(d[..i], common))
    {
      assert d[..i + 1] == d[..i] + [d[i]];
      WithoutSnoc(d[..i], common, d[i]);
      if d[i] !in common {
        var w := WriteCondition(d[i]);
        ws := ws + [w];
      }
    }
    assert d[..|d|] == d;
  }

  /** The written condition has the value of the condition, whatever the values of its atoms are. */
  method WriteCondition(e: Expr) returns (w: Expr)
    requires WellFormed(e)
    ensures Same(w, e)
    ensures e.Or? ==> (w.And? <==> exists c :: IsCommon(c, e))
    decreases e, 2
  {
    match e
    case Atom(_) => w := e;
    case And(children) =>
      var ws := WriteAll(e, children);
      w := And(ws);
      SameConjunction(ws, children);
    case Or(children) =>
      w := WriteDisjunction(e);
  }

  /** A conjunction exactly when the disjuncts have a conjunct in common. */
  method WriteDisjunction(e: Expr) returns (w: Expr)
    requires WellFormed(e) && e.Or?
    ensures Same(w, e)
    ensures w.And? <==> exists c :: IsCommon(c, e)
    ensures forall c :: IsCommon(c, e) ==> w.And? && exists k :: 0 <= k < |w.children| && Same(w.children[k], c)
    decreases e, 1
  {
    hide Eval, Without, Same, StandsFor, WellFormed, AllConjuncts, Conjuncts, InAll, AllSame, IsCommon;
    var disjuncts := AllConjuncts(e.children);
    PartsOf(e);
    CommonExactly(e);
    var common := CommonConjuncts(disjuncts);
    if common == [] {
      var ws := WriteAll(e, e.children);
      SameDisjunction(ws, e.children);
      return Or(ws);
    }
    CommonPartsOf(e, common);
    assert InAll(disjuncts, common[0]);
    var cs := WriteAll(e, common);
    var remaining: seq<Expr> := [];
    for i := 0 to |disjuncts|
      invariant |remaining| == i
      invariant forall j :: 0 <= j < i ==> StandsFor(remaining[j], Without(disjuncts[j], common))
    {
      var rest := WriteRest(e, disjuncts[i], common);
      if rest == [] {
        FactoredAway(e, common, cs, i);
        Written(common, cs, cs);
        return And(cs);
      }
      remaining := remaining + [And(rest)];
      RestStandsFor(rest, Without(disjuncts[i], common));
    }
    w := And(cs + [Or(remaining)]);
    Factored(e, common, cs, remaining);
    Written(common, cs, cs + [Or(remaining)]);
  }

  // ----- why the written disjunction is right

  /** The conjuncts of the disjuncts of e are proper parts of e. */
  lemma PartsOf(e: Expr)
    requires WellFormed(e) && e.Or?
    ensures e.children != [] && forall i :: 0 <= i < |e.children| ==> WellFormed(e.children[i]) && e.children[i] < e
    ensures forall i, k :: 0 <= i < |e.children| && 0 <= k < |AllConjuncts(e.children)[i]| ==>
              WellFormed(AllConjuncts(e.children)[i][k]) && AllConjuncts(e.children)[i][k] < e
  {
  }

  lemma CommonExactly(e: Expr)
    requires e.Or?
    ensures forall c :: IsCommon(c, e) <==> InAll(AllConjuncts(e.children), c)
  {
    forall i, c | 0 <= i < |e.children|
      ensures IsConjunct(c, e.children[i]) <==> c in AllConjuncts(e.children)[i]
    {
    }
  }

  /** Each common conjunct is written. */
  lemma Written(common: seq<Expr>, cs: seq<Expr>, all: seq<Expr>)
    requires AllSame(cs, common) && cs <= all
    ensures forall c :: c in common ==> exists k :: 0 <= k < |all| && Same(all[k], c)
  {
    forall c | c in common
      ensures exists k :: 0 <= k < |all| && Same(all[k], c)
    {
      var k :| 0 <= k < |common| && common[k] == c;
      assert all[k] == cs[k];
    }
  }

  lemma CommonPartsOf(e: Expr, common: seq<Expr>)
    requires WellFormed(e) && e.Or? && forall c :: c in common ==> InAll(AllConjuncts(e.children), c)
    ensures forall i :: 0 <= i < |common| ==> WellFormed(common[i]) && common[i] < e
  {
    PartsOf(e);
    forall i | 0 <= i < |common|
      ensures WellFormed(common[i]) && common[i] < e
    {
      assert InAll(AllConjuncts(e.children), common[i]) && common[i] in AllConjuncts(e.children)[0];
    }
  }

  /** An expression that has the value of a conjunction. */
  ghost predicate StandsFor(e: Expr, conjuncts: seq<Expr>) {
    forall v: Valuation :: Eval(e, v) == AllOf(conjuncts, v)
  }

  lemma RestStandsFor(rest: seq<Expr>, d: seq<Expr>)
    requires AllSame(rest, d)
    ensures StandsFor(And(rest), d)
  {
    forall v: Valuation
      ensures Eval(And(rest), v) == AllOf(d, v)
    {
      SameAll(rest, d, v);
    }
  }

  lemma SameConjunction(ws: seq<Expr>, es: seq<Expr>)
    requires AllSame(ws, es)
    ensures Same(And(ws), And(es))
  {
    forall v: Valuation
      ensures Eval(And(ws), v) == Eval(And(es), v)
    {
      SameAll(ws, es, v);
    }
  }

  lemma SameDisjunction(ws: seq<Expr>, es: seq<Expr>)
    requires AllSame(ws, es)
    ensures Same(Or(ws), Or(es))
  {
    forall v: Valuation
      ensures Eval(Or(ws), v) == Eval(Or(es), v)
    {
      SameAll(ws, es, v);
    }
  }

  lemma {:induction false} StandsForAll(ws: seq<Expr>, ds: seq<seq<Expr>>, v: Valuation)
    requires |ws| == |ds| && forall i :: 0 <= i < |ws| ==> StandsFor(ws[i], ds[i])
    ensures AnyOf(ws, v) == AnyAll(ds, v)
  {
    if ws != [] {
      assert StandsFor(ws[0], ds[0]);
      StandsForAll(ws[1..], ds[1..], v);
    }
  }

  lemma {:induction false} AllOfSnoc(es: seq<Expr>, e: Expr, v: Valuation)
    ensures AllOf(es + [e], v) == Min(AllOf(es, v), Eval(e, v))
  {
    if es == [] {
      assert es + [e] == [e] && AllOf([e], v) == Min(Eval(e, v), AllOf([], v));
    } else {
      assert (es + [e])[1..] == es[1..] + [e];
      AllOfSnoc(es[1..], e, v);
    }
  }

  /** The value of a disjunction whose common conjuncts are written once. */
  lemma FactoredValue(e: Expr, common: seq<Expr>, cs: seq<Expr>, v: Valuation)
    requires e.Or? && e.children != [] && AllSame(cs, common)
    requires forall c :: c in common ==> InAll(AllConjuncts(e.children), c)
    ensures Eval(e, v) == Min(AllOf(cs, v), AnyAll(Rests(AllConjuncts(e.children), common), v))
  {
    DisjunctionOfConjunctions(e.children, v);
    FactorOut(AllConjuncts(e.children), common, v);
    SameAll(cs, common, v);
  }

  lemma Factored(e: Expr, common: seq<Expr>, cs: seq<Expr>, remaining: seq<Expr>)
    requires e.Or? && e.children != [] && AllSame(cs, common)
    requires forall c :: c in common ==> InAll(AllConjuncts(e.children), c)
    requires |remaining| == |e.children|
    requires forall j :: 0 <= j < |remaining| ==>
               StandsFor(remaining[j], Without(AllConjuncts(e.children)[j], common))
    ensures Same(And(cs + [Or(remaining)]), e)
  {
    forall v: Valuation
      ensures Eval(And(cs + [Or(remaining)]), v) == Eval(e, v)
    {
      FactoredValue(e, common, cs, v);
      StandsForAll(remaining, Rests(AllConjuncts(e.children), common), v);
      AllOfSnoc(cs, Or(remaining), v);
    }
  }

  /** A disjunct with nothing but common conjuncts is true when they are. */
  lemma FactoredAway(e: Expr, common: seq<Expr>, cs: seq<Expr>, i: nat)
    requires e.Or? && e.children != [] && AllSame(cs, common)
    requires forall c :: c in common ==> InAll(AllConjuncts(e.children), c)
    requires i < |e.children| && Without(AllConjuncts(e.children)[i], common) == []
    ensures Same(And(cs), e)
  {
    forall v: Valuation
      ensures Eval(And(cs), v) == Eval(e, v)
    {
      FactoredValue(e, common, cs, v);
      assert Rests(AllConjuncts(e.children), common)[i] == [];
      EmptyRestIsTrue(Rests(AllConjuncts(e.children), common), v);
    }
  }

  lemma {:induction false} WithoutSnoc(es: seq<Expr>, common: seq<Expr>, e: Expr)
    ensures Without(es + [e], common) == Without(es, common) + if e in common then [] else [e]
  {
    if es != [] {
      assert (es + [e])[1..] == es[1..] + [e];
      WithoutSnoc(es[1..], common, e);
    }
  }
}
