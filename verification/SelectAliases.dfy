/**
  References to the aliases of a select list are replaced with the aliased expressions, since SQLite resolves such names
  differently. The expanded query must mean, over columns alone, what DuckDB's resolution of names means.
 */
module SelectAliases {
  import opened Bytes

  type Name = int

  datatype Expr =
    | Column(name: Name)
    | QualifiedColumn(table: Name, name: Name)
    | Constant(value: int)
    | Call(op: int, args: seq<Expr>)
    | Subquery(id: int)
    | Star

  datatype Item = Item(alias: Option<Name>, expr: Expr)

  datatype Select = Select(
    items: seq<Item>,
    whereClause: Option<Expr>,
    groups: seq<Expr>,
    having: Option<Expr>,
    qualify: Option<Expr>)

  // ----- resolving and replacing names

  /** The position of the first item with each alias. */
  function FirstAliases(items: seq<Item>): (m: map<Name, nat>)
    ensures forall n :: n in m ==> m[n] < |items| && items[m[n]].alias == Some(n)
    ensures forall n, i :: 0 <= i < |items| && items[i].alias == Some(n) ==> n in m && m[n] <= i
  {
    if items == [] then map[] else
    var k := |items| - 1;
    var m := FirstAliases(items[..k]);
    if items[k].alias.Some? && items[k].alias.value !in m then m[items[k].alias.value := k] else m
  }

  /** The rule of a clause: which names are aliases, which are columns, and which of the two comes first. */
  datatype Rule = Rule(aliases: map<Name, nat>, columns: set<Name>, aliasFirst: bool)

  /** The item a name stands for where the first `count` items are visible, if it is not a column there. */
  function Resolve(rule: Rule, name: Name, count: nat): (r: Option<nat>)
    ensures r.Some? ==> r.value < count
  {
    if name in rule.aliases && (rule.aliasFirst || name !in rule.columns) && rule.aliases[name] < count
    then Some(rule.aliases[name]) else None
  }

  function Expand(e: Expr, rule: Rule, values: seq<Expr>): Expr
    decreases e, 0
  {
    match e
    case Column(name) =>
      var index := Resolve(rule, name, |values|);
      if index.Some? then values[index.value] else e
    case Call(op, args) => Call(op, ExpandAll(args, rule, values))
    case _ => e
  }

  function ExpandAll(es: seq<Expr>, rule: Rule, values: seq<Expr>): seq<Expr>
    decreases es, 1
  {
    if es == [] then [] else [Expand(es[0], rule, values)] + ExpandAll(es[1..], rule, values)
  }

  /** Whether an alias is replaced anywhere in an expression (subqueries do not see the aliases). */
  predicate Changes(e: Expr, rule: Rule, count: nat)
    decreases e, 0
  {
    match e
    case Column(name) => Resolve(rule, name, count).Some?
    case Call(_, args) => ChangesAny(args, rule, count)
    case _ => false
  }

  predicate ChangesAny(es: seq<Expr>, rule: Rule, count: nat)
    decreases es, 1
  {
    es != [] && (Changes(es[0], rule, count) || ChangesAny(es[1..], rule, count))
  }

  /** The expanded items: each sees the items before it. */
  function ExpandItems(items: seq<Item>, rule: Rule): (values: seq<Expr>)
    ensures |values| == |items|
  {
    if items == [] then [] else
    var k := |items| - 1;
    var before := ExpandItems(items[..k], rule);
    before + [Expand(items[k].expr, rule, before)]
  }

  /** The names of the columns that are grouped by, also by position; groups and values are expanded. */
  function GroupNames(groups: seq<Expr>, values: seq<Expr>): set<Name> {
    if groups == [] then {} else
    var g := groups[0];
    var target := if g.Constant? && 1 <= g.value <= |values| then values[g.value - 1] else g;
    (if target.Column? || target.QualifiedColumn? then {target.name} else {}) + GroupNames(groups[1..], values)
  }

  function ExpandGroup(g: Expr, rule: Rule, values: seq<Expr>): Expr {
    if g.Column? then Expand(g, rule, values) else g
  }

  function ExpandGroups(groups: seq<Expr>, rule: Rule, values: seq<Expr>): seq<Expr> {
    if groups == [] then [] else [ExpandGroup(groups[0], rule, values)] + ExpandGroups(groups[1..], rule, values)
  }

  /** An alias within a larger GROUP BY expression is not resolved by DuckDB. */
  predicate RefusesGroup(g: Expr, rule: Rule, count: nat) {
    !g.Column? && Changes(g, rule, count)
  }

  predicate RefusesSome(s: Select, columns: set<Name>) {
    exists i :: 0 <= i < |s.groups| && RefusesGroup(s.groups[i], Rule(FirstAliases(s.items), columns, false), |s.items|)
  }

  function ExpandClause(clause: Option<Expr>, rule: Rule, values: seq<Expr>): Option<Expr> {
    if clause.Some? then Some(Expand(clause.value, rule, values)) else None
  }

  /** Columns come first, except in HAVING. */
  function PlainRule(s: Select, columns: set<Name>): Rule {
    Rule(FirstAliases(s.items), columns, false)
  }

  function HavingRule(s: Select, columns: set<Name>): Rule {
    var plain := PlainRule(s, columns);
    var values := ExpandItems(s.items, plain);
    Rule(plain.aliases - GroupNames(ExpandGroups(s.groups, plain, values), values), columns, true)
  }

  /** The rule the code applies to QUALIFY: a HAVING clause has removed the grouped names from the aliases. */
  function QualifyRule(s: Select, columns: set<Name>): Rule {
    if s.having.Some? then HavingRule(s, columns).(aliasFirst := false) else PlainRule(s, columns)
  }

  /** The name of a result column; `text` gives the name of an expression without alias. */
  function EntryName(item: Item, text: Expr -> Name): Name {
    if item.alias.Some? then item.alias.value
    else if item.expr.Column? || item.expr.QualifiedColumn? then item.expr.name
    else text(item.expr)
  }

  /** An item keeps the name of its result column: its alias, or else the name or text it had before. */
  ghost predicate KeepsName(item: Item, result: Item, text: Expr -> Name) {
    if item.alias.Some? then result.alias == item.alias
    else if item.expr.Column? || item.expr.QualifiedColumn? then result == item || result.alias == Some(item.expr.name)
    else result == item || result.alias == Some(text(item.expr))
  }

  // ----- the rewrite, as it changes a copy of the query

  /** The first positions of the aliases, collected item by item. */
  method CollectAliases(items: seq<Item>) returns (aliases: map<Name, nat>)
    ensures aliases == FirstAliases(items)
  {
    aliases := map[];
    for i := 0 to |items|
      invariant aliases == FirstAliases(items[..i])
    {
      assert items[..i + 1][..i] == items[..i];
      var alias := items[i].alias;
      if alias.Some? && alias.value !in aliases {
        aliases := aliases[alias.value := i];
      }
    }
    assert items[..|items|] == items;
  }

  method ExpandItemsInPlace(items: seq<Item>, rule: Rule, text: Expr -> Name)
    returns (changed: bool, result: seq<Item>)
    ensures |result| == |items|
    ensures forall i :: 0 <= i < |items| ==> result[i].expr == ExpandItems(items, rule)[i]
    ensures forall i :: 0 <= i < |items| ==> KeepsName(items[i], result[i], text)
    ensures !changed ==> result == items
  {
    changed, result := false, items;
    for i := 0 to |items|
      invariant |result| == |items| && result[i..] == items[i..]
      invariant forall k :: 0 <= k < i ==> result[k].expr == ExpandItems(items[..i], rule)[k]
      invariant forall k :: 0 <= k < i ==> KeepsName(items[k], result[k], text)
      invariant !changed ==> result == items
    {
      assert items[..i + 1][..i] == items[..i] && result[i] == items[i];
      var values := Exprs(result[..i]);
      assert values == ExpandItems(items[..i], rule);
      var entryChanged := Changes(items[i].expr, rule, i);
      var entry := Item(items[i].alias, Expand(items[i].expr, rule, values));
      if entryChanged {
        if entry.alias.None? {
          entry := Item(Some(EntryName(items[i], text)), entry.expr);
        }
      } else {
        Unchanged(items[i].expr, rule, values);
      }
      result := result[i := entry];
      changed := changed || entryChanged;
    }
    assert items[..|items|] == items;
  }

  function Exprs(items: seq<Item>): (r: seq<Expr>)
    ensures |r| == |items| && forall i :: 0 <= i < |items| ==> r[i] == items[i].expr
  {
    if items == [] then [] else [items[0].expr] + Exprs(items[1..])
  }

  lemma {:induction false} Unchanged(e: Expr, rule: Rule, values: seq<Expr>)
    requires !Changes(e, rule, |values|)
    ensures Expand(e, rule, values) == e
    decreases e, 0
  {
    if e.Call? {
      UnchangedAll(e.args, rule, values);
    }
  }

  lemma {:induction false} UnchangedAll(es: seq<Expr>, rule: Rule, values: seq<Expr>)
    requires !ChangesAny(es, rule, |values|)
    ensures ExpandAll(es, rule, values) == es
    decreases es, 1
  {
    if es != [] {
      Unchanged(es[0], rule, values);
      UnchangedAll(es[1..], rule, values);
    }
  }

  /** GROUP BY: a name is replaced, a larger expression must not contain an alias. */
  method ExpandGroupList(groups: seq<Expr>, rule: Rule, values: seq<Expr>)
    returns (refused: bool, changed: bool, result: seq<Expr>)
    ensures refused <==> exists i :: 0 <= i < |groups| && RefusesGroup(groups[i], rule, |values|)
    ensures !refused ==> result == ExpandGroups(groups, rule, values)
    ensures !changed && !refused ==> result == groups
  {
    changed, result := false, [];
    for i := 0 to |groups|
      invariant forall k :: 0 <= k < i ==> !RefusesGroup(groups[k], rule, |values|)
      invariant result + ExpandGroups(groups[i..], rule, values) == ExpandGroups(groups, rule, values)
      invariant |result| == i && (!changed ==> result == groups[..i])
    {
      var g := groups[i];
      assert groups[i..][1..] == groups[i + 1..];
      if !g.Column? && Changes(g, rule, |values|) {
        return true, changed, result;
      }
      changed := changed || (g.Column? && Changes(g, rule, |values|));
      if g.Column? && !Changes(g, rule, |values|) {
        Unchanged(g, rule, values);
      }
      result := result + [if g.Column? then Expand(g, rule, values) else g];
    }
    return false, changed, result;
  }

  /** The whole rewrite, for a query with a FROM clause that provides the given columns. */
  method ExpandSelectAliases(s: Select, from: Option<set<Name>>, text: Expr -> Name)
    returns (refused: bool, changed: bool, r: Select)
    ensures from.None? ==> !refused && !changed
    ensures from.Some? ==> refused == RefusesSome(s, from.value)
    ensures from.Some? && !refused ==> IsExpansion(s, from.value, r)
    ensures !refused ==> |r.items| == |s.items|
    ensures !refused ==> forall i :: 0 <= i < |s.items| ==> KeepsName(s.items[i], r.items[i], text)
    ensures !refused && !changed ==> r == s
  {
    if from.None? {
      return false, false, s;
    }
    var columns := from.value;
    var aliases := CollectAliases(s.items);
    var rule := Rule(aliases, columns, false);
    var itemsChanged, items := ExpandItemsInPlace(s.items, rule, text);
    var values := Exprs(items);
    assert values == ExpandItems(s.items, rule);
    var count := |items|;
    var whereChanged := s.whereClause.Some? && Changes(s.whereClause.value, rule, count);
    var whereClause := ExpandClause(s.whereClause, rule, values);
    var groupsRefused, groupsChanged, groups := ExpandGroupList(s.groups, rule, values);
    if groupsRefused {
      return true, false, s;
    }
    var having, havingChanged := s.having, false;
    if s.having.Some? {
      aliases := aliases - GroupNames(groups, values);
      havingChanged := Changes(s.having.value, Rule(aliases, columns, true), count);
      having := ExpandClause(s.having, Rule(aliases, columns, true), values);
    }
    var qualifyRule := Rule(aliases, columns, false);
    var qualifyChanged := s.qualify.Some? && Changes(s.qualify.value, qualifyRule, count);
    var qualify := ExpandClause(s.qualify, qualifyRule, values);
    changed := itemsChanged || whereChanged || groupsChanged || havingChanged || qualifyChanged;
    r := Select(items, whereClause, groups, having, qualify);
    refused := false;
    if !changed {
      UnchangedClause(s.whereClause, rule, values);
      UnchangedClause(s.having, Rule(aliases, columns, true), values);
      UnchangedClause(s.qualify, qualifyRule, values);
    }
  }

  lemma UnchangedClause(clause: Option<Expr>, rule: Rule, values: seq<Expr>)
    requires clause.Some? ==> !Changes(clause.value, rule, |values|)
    ensures ExpandClause(clause, rule, values) == clause
  {
    if clause.Some? {
      Unchanged(clause.value, rule, values);
    }
  }

  /** Each part of r is the part of s with its aliases replaced by the rule of its clause. */
  ghost predicate IsExpansion(s: Select, columns: set<Name>, r: Select) {
    var values := ExpandItems(s.items, PlainRule(s, columns));
    && |r.items| == |s.items|
    && (forall i :: 0 <= i < |s.items| ==> r.items[i].expr == values[i])
    && r.whereClause == ExpandClause(s.whereClause, PlainRule(s, columns), values)
    && r.groups == ExpandGroups(s.groups, PlainRule(s, columns), values)
    && r.having == ExpandClause(s.having, HavingRule(s, columns), values)
    && r.qualify == ExpandClause(s.qualify, QualifyRule(s, columns), values)
  }

  // ----- what the rewrite preserves

  /** Any way of giving meaning to expressions: values, or functions of rows and groups for aggregates and windows. */
  datatype Algebra<!M> = Algebra(
    column: Name -> M,
    qualified: (Name, Name) -> M,
    constant: int -> M,
    call: (int, seq<M>) -> M,
    subquery: int -> M,
    star: M)

  /** The meaning of an expression whose names are all columns. */
  function Meaning<M>(e: Expr, alg: Algebra<M>): M
    decreases e, 0
  {
    match e
    case Column(name) => alg.column(name)
    case QualifiedColumn(table, name) => alg.qualified(table, name)
    case Constant(value) => alg.constant(value)
    case Call(op, args) => alg.call(op, Meanings(args, alg))
    case Subquery(id) => alg.subquery(id)
    case Star => alg.star
  }

  function Meanings<M>(es: seq<Expr>, alg: Algebra<M>): seq<M>
    decreases es, 1
  {
    if es == [] then [] else [Meaning(es[0], alg)] + Meanings(es[1..], alg)
  }

  // ----- what names stand for in DuckDB

  ghost predicate IsFirst(items: seq<Item>, n: Name, i: nat) {
    i < |items| && items[i].alias == Some(n) && forall j :: 0 <= j < i ==> items[j].alias != Some(n)
  }

  /** The names of a clause: some are columns there, the others stand for the first item with that alias. */
  datatype Scope = Scope(items: seq<Item>, columns: iset<Name>)

  /** The item that a name stands for where the first `count` items are visible. */
  ghost function ItemOf(scope: Scope, n: Name, count: nat): (r: Option<nat>)
    ensures r.Some? ==> r.value < count
  {
    if n !in scope.columns && exists i: nat :: i < count && IsFirst(scope.items, n, i) then
      var i: nat :| i < count && IsFirst(scope.items, n, i);
      Some(i)
    else None
  }

  ghost predicate IsReference(e: Expr, n: Name) {
    (e.Column? || e.QualifiedColumn?) && e.name == n
  }

  ghost predicate StandsForName(g: Expr, values: seq<Expr>, n: Name) {
    IsReference(g, n) || (g.Constant? && 1 <= g.value <= |values| && IsReference(values[g.value - 1], n))
  }

  /** Some group is, or by position stands for, a column reference of that name. */
  ghost predicate GroupedBy(groups: seq<Expr>, values: seq<Expr>, n: Name) {
    exists i :: 0 <= i < |groups| && StandsForName(groups[i], values, n)
  }

  /** In items, WHERE, GROUP BY and QUALIFY the columns of the FROM clause come first. */
  ghost function PlainScope(s: Select, columns: set<Name>): Scope {
    Scope(s.items, iset n | n in columns)
  }

  /** In HAVING an alias comes first, except for names that are grouped by. */
  ghost function HavingScope(s: Select, r: Select): Scope {
    Scope(s.items, iset n | GroupedBy(r.groups, Exprs(r.items), n))
  }

  /** QUALIFY as the code resolves it: behind a HAVING clause, names that are grouped by are columns too. */
  ghost function QualifyScope(s: Select, columns: set<Name>, r: Select): Scope {
    Scope(s.items, iset n | n in columns || (s.having.Some? && GroupedBy(r.groups, Exprs(r.items), n)))
  }

  /** The code's rule for a clause finds what the names stand for. */
  ghost predicate Agrees(rule: Rule, scope: Scope) {
    forall n, count :: Resolve(rule, n, count) == ItemOf(scope, n, count)
  }

  lemma {:induction false} GroupNamesExactly(groups: seq<Expr>, values: seq<Expr>, n: Name)
    ensures n in GroupNames(groups, values) <==> GroupedBy(groups, values, n)
  {
    if groups != [] {
      GroupNamesExactly(groups[1..], values, n);
      if GroupedBy(groups[1..], values, n) {
        var i :| 0 <= i < |groups[1..]| && StandsForName(groups[1..][i], values, n);
        assert StandsForName(groups[i + 1], values, n);
      }
      if i :| 0 < i < |groups| && StandsForName(groups[i], values, n) {
        assert StandsForName(groups[1..][i - 1], values, n);
      }
      assert n in GroupNames(groups, values) <==> StandsForName(groups[0], values, n) || n in GroupNames(groups[1..], values);
    }
  }

  /** The first positions of the aliases, without the names that are columns. */
  lemma RuleAgrees(rule: Rule, scope: Scope)
    requires forall n :: n in rule.aliases && (rule.aliasFirst || n !in rule.columns) <==>
               n in FirstAliases(scope.items) && n !in scope.columns
    requires forall n :: n in rule.aliases && n in FirstAliases(scope.items) ==> rule.aliases[n] == FirstAliases(scope.items)[n]
    ensures Agrees(rule, scope)
  {
    var first := FirstAliases(scope.items);
    forall n, count: nat
      ensures Resolve(rule, n, count) == ItemOf(scope, n, count)
    {
      assert n in first ==> IsFirst(scope.items, n, first[n]);
      assert forall i: nat :: IsFirst(scope.items, n, i) ==> n in first && i == first[n];
    }
  }

  /** In every clause the code resolves names as DuckDB does; QUALIFY behind HAVING is the exception. */
  lemma RulesAgree(s: Select, columns: set<Name>, r: Select)
    requires IsExpansion(s, columns, r)
    ensures Agrees(PlainRule(s, columns), PlainScope(s, columns))
    ensures Agrees(HavingRule(s, columns), HavingScope(s, r))
    ensures Agrees(QualifyRule(s, columns), QualifyScope(s, columns, r))
  {
    hide Agrees, GroupNames, GroupedBy, FirstAliases, ExpandGroups;
    var values := ExpandItems(s.items, PlainRule(s, columns));
    assert Exprs(r.items) == values;
    forall n
      ensures n in GroupNames(r.groups, values) <==> GroupedBy(r.groups, Exprs(r.items), n)
    {
      GroupNamesExactly(r.groups, values, n);
    }
    RuleAgrees(PlainRule(s, columns), PlainScope(s, columns));
    RuleAgrees(HavingRule(s, columns), HavingScope(s, r));
    RuleAgrees(QualifyRule(s, columns), QualifyScope(s, columns, r));
  }

  /** The meaning of an expression whose names can stand for items with known meanings. */
  ghost function AliasMeaning<M>(e: Expr, alg: Algebra<M>, scope: Scope, items: seq<M>): M
    decreases e, 0
  {
    match e
    case Column(name) =>
      var index := ItemOf(scope, name, |items|);
      if index.Some? then items[index.value] else alg.column(name)
    case Call(op, args) => alg.call(op, AliasMeanings(args, alg, scope, items))
    case _ => Meaning(e, alg)
  }

  ghost function AliasMeanings<M>(es: seq<Expr>, alg: Algebra<M>, scope: Scope, items: seq<M>): seq<M>
    decreases es, 1
  {
    if es == [] then [] else [AliasMeaning(es[0], alg, scope, items)] + AliasMeanings(es[1..], alg, scope, items)
  }

  /** DuckDB evaluates the items one after the other, each with the items before it. */
  ghost function ItemMeanings<M>(items: seq<Item>, alg: Algebra<M>, scope: Scope): (ms: seq<M>)
    ensures |ms| == |items|
  {
    if items == [] then [] else
    var k := |items| - 1;
    var before := ItemMeanings(items[..k], alg, scope);
    before + [AliasMeaning(items[k].expr, alg, scope, before)]
  }

  ghost predicate Represent<M>(values: seq<Expr>, ms: seq<M>, alg: Algebra<M>) {
    |values| == |ms| && forall i :: 0 <= i < |ms| ==> Meaning(values[i], alg) == ms[i]
  }

  /** Replacing aliases by expressions is evaluating them by their meanings. */
  lemma {:induction false} ExpandMeaning<M>(e: Expr, alg: Algebra<M>, rule: Rule, scope: Scope, values: seq<Expr>,
                                            ms: seq<M>)
    requires Agrees(rule, scope) && Represent(values, ms, alg)
    ensures Meaning(Expand(e, rule, values), alg) == AliasMeaning(e, alg, scope, ms)
    decreases e, 0
  {
    hide Resolve, ItemOf;
    if e.Call? {
      ExpandMeanings(e.args, alg, rule, scope, values, ms);
    } else if e.Column? {
      assert Resolve(rule, e.name, |values|) == ItemOf(scope, e.name, |ms|);
    }
  }

  lemma {:induction false} ExpandMeanings<M>(es: seq<Expr>, alg: Algebra<M>, rule: Rule, scope: Scope, values: seq<Expr>,
                                             ms: seq<M>)
    requires Agrees(rule, scope) && Represent(values, ms, alg)
    ensures Meanings(ExpandAll(es, rule, values), alg) == AliasMeanings(es, alg, scope, ms)
    decreases es, 1
  {
    hide Resolve, ItemOf;
    if es != [] {
      ExpandMeaning(es[0], alg, rule, scope, values, ms);
      ExpandMeanings(es[1..], alg, rule, scope, values, ms);
      assert ExpandAll(es, rule, values)[1..] == ExpandAll(es[1..], rule, values);
    }
  }

  lemma {:induction false} ItemsKeepMeaning<M>(items: seq<Item>, alg: Algebra<M>, rule: Rule, scope: Scope)
    requires Agrees(rule, scope)
    ensures Represent(ExpandItems(items, rule), ItemMeanings(items, alg, scope), alg)
  {
    if items != [] {
      hide Agrees;
      var k := |items| - 1;
      ItemsKeepMeaning(items[..k], alg, rule, scope);
      ExpandMeaning(items[k].expr, alg, rule, scope, ExpandItems(items[..k], rule), ItemMeanings(items[..k], alg, scope));
    }
  }

  ghost predicate ClauseKept<M>(clause: Option<Expr>, r: Option<Expr>, alg: Algebra<M>, scope: Scope, items: seq<M>) {
    r.Some? == clause.Some? &&
    (clause.Some? ==> Meaning(r.value, alg) == AliasMeaning(clause.value, alg, scope, items))
  }

  lemma ClauseKeeps<M>(clause: Option<Expr>, alg: Algebra<M>, rule: Rule, scope: Scope, values: seq<Expr>, ms: seq<M>)
    requires Agrees(rule, scope) && Represent(values, ms, alg)
    ensures ClauseKept(clause, ExpandClause(clause, rule, values), alg, scope, ms)
  {
    if clause.Some? {
      ExpandMeaning(clause.value, alg, rule, scope, values, ms);
    }
  }

  /** Over columns alone, the expanded query means what DuckDB's resolution of names means, in every clause. */
  lemma ExpansionKeepsMeaning<M>(s: Select, columns: set<Name>, r: Select, alg: Algebra<M>)
    requires IsExpansion(s, columns, r)
    ensures var items := ItemMeanings(s.items, alg, PlainScope(s, columns));
            && (forall i :: 0 <= i < |s.items| ==> Meaning(r.items[i].expr, alg) == items[i])
            && ClauseKept(s.whereClause, r.whereClause, alg, PlainScope(s, columns), items)
            && ClauseKept(s.having, r.having, alg, HavingScope(s, r), items)
            && ClauseKept(s.qualify, r.qualify, alg, QualifyScope(s, columns, r), items)
  {
    hide ExpandItems, ItemMeanings, Meaning, AliasMeaning, ExpandGroups, Expand, Agrees, ExpandClause, ClauseKept,
      HavingRule, QualifyRule, HavingScope, QualifyScope;
    var plain := PlainRule(s, columns);
    var values, items := ExpandItems(s.items, plain), ItemMeanings(s.items, alg, PlainScope(s, columns));
    RulesAgree(s, columns, r);
    ItemsKeepMeaning(s.items, alg, plain, PlainScope(s, columns));
    ClauseKeeps(s.whereClause, alg, plain, PlainScope(s, columns), values, items);
    ClauseKeeps(s.having, alg, HavingRule(s, columns), HavingScope(s, r), values, items);
    ClauseKeeps(s.qualify, alg, QualifyRule(s, columns), QualifyScope(s, columns, r), values, items);
  }

  /** A GROUP BY that is not refused groups by what DuckDB groups by. */
  lemma GroupsKeepMeaning<M>(s: Select, columns: set<Name>, r: Select, alg: Algebra<M>, i: nat)
    requires IsExpansion(s, columns, r) && !RefusesSome(s, columns) && i < |s.groups|
    ensures |r.groups| == |s.groups|
    ensures var scope := PlainScope(s, columns);
            Meaning(r.groups[i], alg) == AliasMeaning(s.groups[i], alg, scope, ItemMeanings(s.items, alg, scope))
  {
    hide ExpandItems, ItemMeanings, Meaning, AliasMeaning, ExpandGroups, Agrees, Changes;
    var plain, scope := PlainRule(s, columns), PlainScope(s, columns);
    var values := ExpandItems(s.items, plain);
    RulesAgree(s, columns, r);
    ItemsKeepMeaning(s.items, alg, plain, scope);
    GroupCount(s.groups, plain, values, i);
    assert !RefusesGroup(s.groups[i], plain, |s.items|);
    if !s.groups[i].Column? {
      Unchanged(s.groups[i], plain, values);
    }
    ExpandMeaning(s.groups[i], alg, plain, scope, values, ItemMeanings(s.items, alg, scope));
  }

  lemma {:induction false} GroupCount(groups: seq<Expr>, rule: Rule, values: seq<Expr>, i: nat)
    requires i < |groups|
    ensures |ExpandGroups(groups, rule, values)| == |groups|
    ensures ExpandGroups(groups, rule, values)[i] == ExpandGroup(groups[i], rule, values)
  {
    if |groups| > 1 {
      GroupCount(groups[1..], rule, values, if i > 0 then i - 1 else 0);
    }
  }

  // ----- QUALIFY behind a HAVING clause

  /** The names of an expression that can be aliases. */
  function FreeColumns(e: Expr): set<Name>
    decreases e, 0
  {
    match e
    case Column(name) => {name}
    case Call(_, args) => FreeColumnsOf(args)
    case _ => {}
  }

  function FreeColumnsOf(es: seq<Expr>): set<Name>
    decreases es, 1
  {
    if es == [] then {} else FreeColumns(es[0]) + FreeColumnsOf(es[1..])
  }

  ghost predicate SameName(n: Name, a: Rule, b: Rule, values: seq<Expr>) {
    Expand(Column(n), a, values) == Expand(Column(n), b, values)
  }

  /** Two rules expand an expression alike exactly when they treat each of its names alike. */
  lemma {:induction false} ExpandSame(e: Expr, a: Rule, b: Rule, values: seq<Expr>)
    ensures Expand(e, a, values) == Expand(e, b, values) <==>
            forall n :: n in FreeColumns(e) ==> SameName(n, a, b, values)
    decreases e, 0
  {
    match e
    case Call(_, args) => ExpandSameAll(args, a, b, values);
    case Column(name) => assert name in FreeColumns(e);
    case _ =>
  }

  lemma {:induction false} ExpandSameAll(es: seq<Expr>, a: Rule, b: Rule, values: seq<Expr>)
    ensures ExpandAll(es, a, values) == ExpandAll(es, b, values) <==>
            forall n :: n in FreeColumnsOf(es) ==> SameName(n, a, b, values)
    decreases es, 1
  {
    if es != [] {
      ExpandSame(es[0], a, b, values);
      ExpandSameAll(es[1..], a, b, values);
      var x, y := ExpandAll(es, a, values), ExpandAll(es, b, values);
      assert x[1..] == ExpandAll(es[1..], a, values) && y[1..] == ExpandAll(es[1..], b, values);
      assert x == y <==> x[0] == y[0] && x[1..] == y[1..] by {
        assert x == [x[0]] + x[1..] && y == [y[0]] + y[1..];
      }
    }
  }

  /** A name whose alias a HAVING clause hides from QUALIFY: grouped by, not a column, and an alias for something else. */
  ghost predicate Hidden(s: Select, columns: set<Name>, r: Select, n: Name) {
    && n !in columns && GroupedBy(r.groups, Exprs(r.items), n)
    && exists i: nat :: IsFirst(s.items, n, i) && i < |r.items| && r.items[i].expr != Column(n)
  }

  /** With a HAVING clause, QUALIFY is expanded by its own rule exactly when it uses no hidden alias. */
  lemma QualifyBehindHaving(s: Select, columns: set<Name>, r: Select)
    requires IsExpansion(s, columns, r) && s.having.Some? && s.qualify.Some?
    ensures r.qualify == ExpandClause(s.qualify, PlainRule(s, columns), ExpandItems(s.items, PlainRule(s, columns))) <==>
            forall n :: n in FreeColumns(s.qualify.value) ==> !Hidden(s, columns, r, n)
  {
    hide ExpandItems, GroupNames, ExpandGroups, FreeColumns, Resolve, GroupedBy, FirstAliases, HavingRule;
    var plain, used := PlainRule(s, columns), QualifyRule(s, columns);
    var values := ExpandItems(s.items, plain);
    ExpandSame(s.qualify.value, used, plain, values);
    RulesAgree(s, columns, r);
    forall n
      ensures SameName(n, used, plain, values) <==> !Hidden(s, columns, r, n)
    {
      assert Resolve(plain, n, |values|) == ItemOf(PlainScope(s, columns), n, |values|);
      assert Resolve(used, n, |values|) == ItemOf(QualifyScope(s, columns, r), n, |values|);
    }
  }

  lemma {:induction false} ChangesExactly(e: Expr, rule: Rule, scope: Scope, count: nat)
    requires Agrees(rule, scope)
    ensures Changes(e, rule, count) <==> exists n :: n in FreeColumns(e) && ItemOf(scope, n, count).Some?
    decreases e, 0
  {
    hide Resolve, ItemOf;
    match e
    case Call(_, args) => ChangesAnyExactly(args, rule, scope, count);
    case Column(name) => assert name in FreeColumns(e) && Resolve(rule, name, count) == ItemOf(scope, name, count);
    case _ =>
  }

  lemma {:induction false} ChangesAnyExactly(es: seq<Expr>, rule: Rule, scope: Scope, count: nat)
    requires Agrees(rule, scope)
    ensures ChangesAny(es, rule, count) <==> exists n :: n in FreeColumnsOf(es) && ItemOf(scope, n, count).Some?
    decreases es, 1
  {
    hide Agrees, ItemOf;
    if es != [] {
      ChangesExactly(es[0], rule, scope, count);
      ChangesAnyExactly(es[1..], rule, scope, count);
    }
  }

  /** Refused exactly when a GROUP BY expression that is not just a name uses a name that stands for an item. */
  lemma RefusedExactly(s: Select, columns: set<Name>)
    ensures RefusesSome(s, columns) <==>
            exists i, n :: 0 <= i < |s.groups| && !s.groups[i].Column? && n in FreeColumns(s.groups[i]) &&
                           ItemOf(PlainScope(s, columns), n, |s.items|).Some?
  {
    hide Agrees, ItemOf, FreeColumns, Changes;
    var rule, scope := PlainRule(s, columns), PlainScope(s, columns);
    RuleAgrees(rule, scope);
    forall i | 0 <= i < |s.groups|
      ensures RefusesGroup(s.groups[i], rule, |s.items|) <==>
              !s.groups[i].Column? && exists n :: n in FreeColumns(s.groups[i]) && ItemOf(scope, n, |s.items|).Some?
    {
      ChangesExactly(s.groups[i], rule, scope, |s.items|);
    }
  }

  /** SELECT q.o AS p, f(c) AS o FROM t GROUP BY 1 HAVING ... QUALIFY o, with c from t and q.o from an outer query. */
  const EXAMPLE := Select([Item(Some(1), QualifiedColumn(9, 2)), Item(Some(2), Call(7, [Column(3)]))], None, [Constant(1)],
                          Some(Constant(1)), Some(Column(2)))

  lemma ExampleItems()
    ensures ExpandItems(EXAMPLE.items, PlainRule(EXAMPLE, {3})) == [QualifiedColumn(9, 2), Call(7, [Column(3)])]
  {
    var items, plain := EXAMPLE.items, PlainRule(EXAMPLE, {3});
    hide FirstAliases;
    assert items[..1] == [items[0]] && items[..1][..0] == [];
    assert ExpandItems(items[..1], plain) == [QualifiedColumn(9, 2)];
    assert ExpandAll([Column(3)], plain, [QualifiedColumn(9, 2)]) == [Column(3)];
  }

  lemma QualifyCanDiffer() returns (s: Select, r: Select)
    ensures s.having.Some? && s.qualify == Some(Column(2)) && !RefusesSome(s, {3})
    ensures IsExpansion(s, {3}, r) && Hidden(s, {3}, r, 2)
  {
    hide FirstAliases, ExpandItems, Expand, GroupNames;
    s := EXAMPLE;
    var values := ExpandItems(s.items, PlainRule(s, {3}));
    ExampleItems();
    r := Select([Item(Some(1), values[0]), Item(Some(2), values[1])], None, [Constant(1)],
                ExpandClause(s.having, HavingRule(s, {3}), values), ExpandClause(s.qualify, QualifyRule(s, {3}), values));
    assert ExpandGroups(s.groups, PlainRule(s, {3}), values) == [Constant(1)];
    assert StandsForName(r.groups[0], Exprs(r.items), 2) && IsFirst(s.items, 2, 1);
  }
}
