/**
  Which parts of the column filters of a scan become a WHERE condition in SQLite, and which are left to the scan. A leaf
  L is any filter expression that is not an AND.
 */
module FilterPushdown {
  import opened Bytes

  datatype Expr<L> = Leaf(leaf: L) | And(children: seq<Expr<L>>)

  /** What the surrounding system says about leaves: C is the type of SQL conditions. */
  datatype Rules<!L, !C> = Rules(
    hasNulByte: L -> bool,
    translate: L -> Option<C>,
    isInternal: L -> bool)

  /** The filter of a column, with whether SQLite compares the values of the column like DuckDB does. */
  datatype ColumnFilter<L> = ColumnFilter(canPush: bool, filter: Expr<L>)

  /** The condition of a leaf, if it can be written into the query. */
  function Condition<L, C>(rules: Rules<L, C>, leaf: L): Option<C> {
    if rules.hasNulByte(leaf) then None else rules.translate(leaf)
  }

  // ----- what is pushed down

  function Pushed<L, C>(rules: Rules<L, C>, e: Expr<L>): seq<C>
    decreases e, 0
  {
    match e
    case And(children) => PushedAll(rules, children)
    case Leaf(leaf) => if Condition(rules, leaf).Some? then [Condition(rules, leaf).value] else []
  }

  function PushedAll<L, C>(rules: Rules<L, C>, es: seq<Expr<L>>): seq<C>
    decreases es, 1
  {
    if es == [] then [] else Pushed(rules, es[0]) + PushedAll(rules, es[1..])
  }

  /** Whether the pushed conditions stand for the whole filter; internal filters only prune rows. */
  predicate Complete<L, C>(rules: Rules<L, C>, e: Expr<L>)
    decreases e, 0
  {
    match e
    case And(children) => CompleteAll(rules, children)
    case Leaf(leaf) => Condition(rules, leaf).Some? || rules.isInternal(leaf)
  }

  predicate CompleteAll<L, C>(rules: Rules<L, C>, es: seq<Expr<L>>)
    decreases es, 1
  {
    es == [] || (Complete(rules, es[0]) && CompleteAll(rules, es[1..]))
  }

  method TransformFilter<L, C>(rules: Rules<L, C>, e: Expr<L>, conditions: seq<C>)
    returns (complete: bool, result: seq<C>)
    ensures complete == Complete(rules, e)
    ensures result == conditions + Pushed(rules, e)
    decreases e
  {
    match e
    case And(children) =>
      complete, result := true, conditions;
      for i := 0 to |children|
        invariant complete && CompleteAll(rules, children[i..]) <==> CompleteAll(rules, children)
        invariant result + PushedAll(rules, children[i..]) == conditions + PushedAll(rules, children)
      {
        ghost var before := result;
        var childComplete: bool;
        childComplete, result := TransformFilter(rules, children[i], result);
        complete := childComplete && complete;
        assert children[i..][1..] == children[i + 1..];
        Assoc(before, Pushed(rules, children[i]), PushedAll(rules, children[i + 1..]));
      }
    case Leaf(leaf) =>
      var condition := if rules.hasNulByte(leaf) then None else rules.translate(leaf);
      if condition.Some? {
        return true, conditions + [condition.value];
      }
      return rules.isInternal(leaf), conditions;
  }

  function AllPushed<L, C>(rules: Rules<L, C>, filters: seq<ColumnFilter<L>>): seq<C> {
    if filters == [] then [] else
    (if filters[0].canPush then Pushed(rules, filters[0].filter) else []) + AllPushed(rules, filters[1..])
  }

  predicate IsPushedWhole<L, C>(rules: Rules<L, C>, f: ColumnFilter<L>) {
    f.canPush && Complete(rules, f.filter)
  }

  function Residual<L, C>(rules: Rules<L, C>, filters: seq<ColumnFilter<L>>): seq<Expr<L>> {
    if filters == [] then [] else
    (if IsPushedWhole(rules, filters[0]) then [] else [filters[0].filter]) + Residual(rules, filters[1..])
  }

  method TransformFilters<L, C>(rules: Rules<L, C>, filters: seq<ColumnFilter<L>>)
    returns (conditions: seq<C>, scanFilters: seq<Expr<L>>)
    ensures conditions == AllPushed(rules, filters)
    ensures scanFilters == Residual(rules, filters)
  {
    conditions, scanFilters := [], [];
    for i := 0 to |filters|
      invariant conditions + AllPushed(rules, filters[i..]) == AllPushed(rules, filters)
      invariant scanFilters + Residual(rules, filters[i..]) == Residual(rules, filters)
    {
      ghost var before, beforeScan := conditions, scanFilters;
      var complete := false;
      if filters[i].canPush {
        complete, conditions := TransformFilter(rules, filters[i].filter, conditions);
      }
      if !complete {
        scanFilters := scanFilters + [filters[i].filter];
      }
      assert filters[i..][1..] == filters[i + 1..];
      Assoc(before, Pushed(rules, filters[i].filter), AllPushed(rules, filters[i + 1..]));
      Assoc(before, [], AllPushed(rules, filters[i + 1..]));
      Assoc(beforeScan, [filters[i].filter], Residual(rules, filters[i + 1..]));
      Assoc(beforeScan, [], Residual(rules, filters[i + 1..]));
    }
  }

  // ----- what it means for a row

  /** Whether the row satisfies a leaf, and whether it satisfies a condition in SQLite. */
  datatype Meaning<!L, !C> = Meaning(leaf: L -> bool, condition: C -> bool)

  /** Every leaf of the filter that is translated and has no NUL byte means the same in SQLite. */
  ghost predicate Faithful<L, C>(rules: Rules<L, C>, m: Meaning<L, C>, e: Expr<L>) {
    match e
    case Leaf(leaf) =>
      !rules.hasNulByte(leaf) && rules.translate(leaf).Some? ==>
        m.condition(rules.translate(leaf).value) == m.leaf(leaf)
    case And(children) => forall i :: 0 <= i < |children| ==> Faithful(rules, m, children[i])
  }

  /** SQLite need not compare like DuckDB in the other columns. */
  ghost predicate AllFaithful<L, C>(rules: Rules<L, C>, m: Meaning<L, C>, filters: seq<ColumnFilter<L>>) {
    forall i :: 0 <= i < |filters| && filters[i].canPush ==> Faithful(rules, m, filters[i].filter)
  }

  ghost predicate Holds<L, C>(m: Meaning<L, C>, e: Expr<L>) {
    match e
    case Leaf(leaf) => m.leaf(leaf)
    case And(children) => forall i :: 0 <= i < |children| ==> Holds(m, children[i])
  }

  /** The filter without its internal leaves. */
  ghost predicate Required<L, C>(rules: Rules<L, C>, m: Meaning<L, C>, e: Expr<L>) {
    match e
    case Leaf(leaf) => rules.isInternal(leaf) || m.leaf(leaf)
    case And(children) => forall i :: 0 <= i < |children| ==> Required(rules, m, children[i])
  }

  ghost predicate AllConditions<L, C>(m: Meaning<L, C>, conditions: seq<C>) {
    forall i :: 0 <= i < |conditions| ==> m.condition(conditions[i])
  }

  lemma ConditionsConcat<L, C>(m: Meaning<L, C>, a: seq<C>, b: seq<C>)
    ensures AllConditions(m, a + b) <==> AllConditions(m, a) && AllConditions(m, b)
  {
    if AllConditions(m, a + b) {
      assert forall i :: 0 <= i < |a| ==> (a + b)[i] == a[i];
      assert forall i :: 0 <= i < |b| ==> (a + b)[|a| + i] == b[i];
    }
  }

  /** The pushed conditions are implied by the filter, and a complete filter needs no more than them. */
  lemma {:induction false} PushedMeaning<L, C>(rules: Rules<L, C>, m: Meaning<L, C>, e: Expr<L>)
    requires Faithful(rules, m, e)
    ensures Holds(m, e) ==> AllConditions(m, Pushed(rules, e))
    ensures AllConditions(m, Pushed(rules, e)) && Complete(rules, e) ==> Required(rules, m, e)
    decreases e, 0
  {
    match e
    case And(children) => PushedAllMeaning(rules, m, children);
    case Leaf(leaf) =>
      if Condition(rules, leaf).Some? {
        assert Pushed(rules, e)[0] == Condition(rules, leaf).value;
      }
  }

  lemma {:induction false} PushedAllMeaning<L, C>(rules: Rules<L, C>, m: Meaning<L, C>, es: seq<Expr<L>>)
    requires forall i :: 0 <= i < |es| ==> Faithful(rules, m, es[i])
    ensures (forall i :: 0 <= i < |es| ==> Holds(m, es[i])) ==> AllConditions(m, PushedAll(rules, es))
    ensures AllConditions(m, PushedAll(rules, es)) && CompleteAll(rules, es) ==>
              forall i :: 0 <= i < |es| ==> Required(rules, m, es[i])
    decreases es, 1
  {
    if es != [] {
      PushedMeaning(rules, m, es[0]);
      PushedAllMeaning(rules, m, es[1..]);
      ConditionsConcat(m, Pushed(rules, es[0]), PushedAll(rules, es[1..]));
      assert forall i :: 0 < i < |es| ==> es[i] == es[1..][i - 1];
    }
  }

  lemma {:induction false} HoldsIsRequired<L, C>(rules: Rules<L, C>, m: Meaning<L, C>, e: Expr<L>)
    requires Holds(m, e)
    ensures Required(rules, m, e)
  {
    if e.And? {
      forall i | 0 <= i < |e.children|
        ensures Required(rules, m, e.children[i])
      {
        HoldsIsRequired(rules, m, e.children[i]);
      }
    }
  }

  ghost predicate Original<L, C>(m: Meaning<L, C>, filters: seq<ColumnFilter<L>>) {
    forall i :: 0 <= i < |filters| ==> Holds(m, filters[i].filter)
  }

  ghost predicate AllRequired<L, C>(rules: Rules<L, C>, m: Meaning<L, C>, filters: seq<ColumnFilter<L>>) {
    forall i :: 0 <= i < |filters| ==> Required(rules, m, filters[i].filter)
  }

  ghost predicate AllHold<L, C>(m: Meaning<L, C>, es: seq<Expr<L>>) {
    forall i :: 0 <= i < |es| ==> Holds(m, es[i])
  }

  lemma AllHoldCons<L, C>(m: Meaning<L, C>, e: Expr<L>, es: seq<Expr<L>>)
    ensures AllHold(m, [e] + es) <==> Holds(m, e) && AllHold(m, es)
  {
    if AllHold(m, [e] + es) {
      assert ([e] + es)[0] == e;
      assert forall i :: 0 <= i < |es| ==> ([e] + es)[i + 1] == es[i];
    }
  }

  /** What the scan keeps: rows that satisfy the pushed conditions and the filters it evaluates itself. */
  ghost predicate Scanned<L, C>(rules: Rules<L, C>, m: Meaning<L, C>, filters: seq<ColumnFilter<L>>) {
    && AllConditions(m, AllPushed(rules, filters))
    && AllHold(m, Residual(rules, filters))
  }

  lemma ScannedCons<L, C>(rules: Rules<L, C>, m: Meaning<L, C>, filters: seq<ColumnFilter<L>>)
    requires filters != []
    ensures Scanned(rules, m, filters) <==>
            && (filters[0].canPush ==> AllConditions(m, Pushed(rules, filters[0].filter)))
            && (IsPushedWhole(rules, filters[0]) || Holds(m, filters[0].filter))
            && Scanned(rules, m, filters[1..])
  {
    hide AllConditions, AllHold, Holds, Complete, Pushed;
    var pushed, rest := AllPushed(rules, filters[1..]), Residual(rules, filters[1..]);
    ConditionsConcat(m, Pushed(rules, filters[0].filter), pushed);
    AllHoldCons(m, filters[0].filter, rest);
    assert [] + pushed == pushed && [] + rest == rest;
  }

  /** No row is lost, and only internal leaves may be skipped. */
  lemma {:induction false} PushdownSandwich<L, C>(rules: Rules<L, C>, m: Meaning<L, C>, filters: seq<ColumnFilter<L>>)
    requires AllFaithful(rules, m, filters)
    ensures Original(m, filters) ==> Scanned(rules, m, filters)
    ensures Scanned(rules, m, filters) ==> AllRequired(rules, m, filters)
  {
    if filters != [] {
      PushdownSandwich(rules, m, filters[1..]);
      var f := filters[0];
      if f.canPush {
        PushedMeaning(rules, m, f.filter);
      }
      if Holds(m, f.filter) {
        HoldsIsRequired(rules, m, f.filter);
      }
      ScannedCons(rules, m, filters);
      assert forall i :: 0 < i < |filters| ==> filters[i] == filters[1..][i - 1];
    }
  }

  /** When internal filters reject only rows that the other filters reject too, the scan keeps exactly the right rows. */
  lemma PushdownExact<L, C>(rules: Rules<L, C>, m: Meaning<L, C>, filters: seq<ColumnFilter<L>>)
    requires AllFaithful(rules, m, filters)
    requires AllRequired(rules, m, filters) ==> Original(m, filters)
    ensures Scanned(rules, m, filters) <==> Original(m, filters)
  {
    PushdownSandwich(rules, m, filters);
  }

  // ----- which leaves are pushed down

  ghost predicate IsLeafOf<L>(leaf: L, e: Expr<L>) {
    match e
    case Leaf(l) => l == leaf
    case And(children) => exists i :: 0 <= i < |children| && IsLeafOf(leaf, children[i])
  }

  ghost predicate CanTranslate<L, C>(rules: Rules<L, C>, leaf: L) {
    !rules.hasNulByte(leaf) && rules.translate(leaf).Some?
  }

  /** The conditions are those of the leaves that can be translated, and of all of them. */
  lemma {:induction false} PushedExactly<L(!new), C>(rules: Rules<L, C>, e: Expr<L>, c: C)
    ensures c in Pushed(rules, e) <==>
            exists l :: IsLeafOf(l, e) && CanTranslate(rules, l) && rules.translate(l) == Some(c)
    decreases e, 0
  {
    match e
    case And(children) => PushedAllExactly(rules, children, c);
    case Leaf(leaf) => assert IsLeafOf(leaf, e);
  }

  lemma {:induction false} PushedAllExactly<L(!new), C>(rules: Rules<L, C>, es: seq<Expr<L>>, c: C)
    ensures c in PushedAll(rules, es) <==>
            exists l :: IsLeafOf(l, And(es)) && CanTranslate(rules, l) && rules.translate(l) == Some(c)
    decreases es, 1
  {
    if es != [] {
      PushedExactly(rules, es[0], c);
      PushedAllExactly(rules, es[1..], c);
      forall l {
        LeafOfCons(l, es);
      }
    }
  }

  lemma LeafOfCons<L>(leaf: L, es: seq<Expr<L>>)
    requires es != []
    ensures IsLeafOf(leaf, And(es)) <==> IsLeafOf(leaf, es[0]) || IsLeafOf(leaf, And(es[1..]))
  {
    if IsLeafOf(leaf, And(es[1..])) {
      var i :| 0 <= i < |es[1..]| && IsLeafOf(leaf, es[1..][i]);
      assert IsLeafOf(leaf, es[i + 1]);
    }
    if i :| 0 < i < |es| && IsLeafOf(leaf, es[i]) {
      assert IsLeafOf(leaf, es[1..][i - 1]);
    }
  }

  /** A filter is complete exactly when each of its leaves can be translated or is internal. */
  lemma {:induction false} CompleteExactly<L(!new), C>(rules: Rules<L, C>, e: Expr<L>)
    ensures Complete(rules, e) <==> forall l :: IsLeafOf(l, e) ==> CanTranslate(rules, l) || rules.isInternal(l)
    decreases e, 0
  {
    match e
    case And(children) => CompleteAllExactly(rules, children);
    case Leaf(leaf) => assert IsLeafOf(leaf, e);
  }

  lemma {:induction false} CompleteAllExactly<L(!new), C>(rules: Rules<L, C>, es: seq<Expr<L>>)
    ensures CompleteAll(rules, es) <==> forall l :: IsLeafOf(l, And(es)) ==> CanTranslate(rules, l) || rules.isInternal(l)
    decreases es, 1
  {
    if es != [] {
      CompleteExactly(rules, es[0]);
      CompleteAllExactly(rules, es[1..]);
      forall l {
        LeafOfCons(l, es);
      }
    }
  }

  /** The scan keeps a filter exactly when its column cannot be pushed down or the filter is not complete. */
  lemma {:induction false} ResidualExactly<L(!new), C>(rules: Rules<L, C>, filters: seq<ColumnFilter<L>>, e: Expr<L>)
    ensures e in Residual(rules, filters) <==>
            exists i :: 0 <= i < |filters| && filters[i].filter == e && !IsPushedWhole(rules, filters[i])
    ensures IsPushedWhole(rules, ColumnFilter(true, e)) <==>
            forall l :: IsLeafOf(l, e) ==> CanTranslate(rules, l) || rules.isInternal(l)
    ensures !IsPushedWhole(rules, ColumnFilter(false, e))
  {
    CompleteExactly(rules, e);
    if filters != [] {
      hide IsPushedWhole;
      ResidualExactly(rules, filters[1..], e);
      assert forall i :: 0 < i < |filters| ==> filters[i] == filters[1..][i - 1];
    }
  }

  /** The conditions of a scan are those of the leaves of the columns that can be pushed down. */
  lemma {:induction false} AllPushedExactly<L(!new), C>(rules: Rules<L, C>, filters: seq<ColumnFilter<L>>, c: C)
    ensures c in AllPushed(rules, filters) <==>
            exists i, l :: 0 <= i < |filters| && filters[i].canPush && IsLeafOf(l, filters[i].filter) &&
                           CanTranslate(rules, l) && rules.translate(l) == Some(c)
  {
    if filters != [] {
      hide IsLeafOf, Pushed;
      PushedExactly(rules, filters[0].filter, c);
      AllPushedExactly(rules, filters[1..], c);
      assert forall i :: 0 < i < |filters| ==> filters[i] == filters[1..][i - 1];
    }
  }
}
