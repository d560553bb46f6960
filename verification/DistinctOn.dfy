/**
  SQLite has no DISTINCT ON: the query is wrapped in a filter on row_number() = 1, partitioned by the DISTINCT ON targets
  and ordered by the ORDER BY keys, and the result is ordered again.
 */
module DistinctOn {
  import opened Bytes

  // ----- the rows

  /** The values of the targets of a row; NULL is a value like any other. */
  type Tuple = seq<Option<int>>

  /** Which of two rows the ORDER BY puts first, with ties between rows broken somehow. */
  type Order = (nat, nat) -> bool

  ghost predicate IsStrictTotalOrder(before: Order, n: nat) {
    && (forall i: nat :: i < n ==> !before(i, i))
    && (forall i: nat, j: nat :: i < n && j < n && i != j ==> before(i, j) != before(j, i))
    && (forall i: nat, j: nat, k: nat :: i < n && j < n && k < n && before(i, j) && before(j, k) ==> before(i, k))
  }

  ghost predicate Ascending(before: Order, list: seq<nat>) {
    list == [] || ((forall r: nat :: r in list[1..] ==> before(list[0], r)) && Ascending(before, list[1..]))
  }

  /** The rows of a set, in order. */
  ghost predicate Sorts(before: Order, rows: set<nat>, list: seq<nat>) {
    && Ascending(before, list)
    && (forall i :: 0 <= i < |list| ==> list[i] in rows)
    && (forall r: nat :: r in rows ==> r in list)
  }

  function AllRows(targets: seq<Tuple>): (rows: set<nat>)
    ensures forall r: nat :: r in rows <==> r < |targets|
  {
    if targets == [] then {} else AllRows(targets[..|targets| - 1]) + {|targets| - 1}
  }

  /** DISTINCT ON in DuckDB: the rows are sorted, and the first of each group is kept. */
  function KeepFirst(targets: seq<Tuple>, sorted: seq<nat>, seen: set<Tuple>): seq<nat>
    requires forall i :: 0 <= i < |sorted| ==> sorted[i] < |targets|
  {
    if sorted == [] then []
    else if targets[sorted[0]] in seen then KeepFirst(targets, sorted[1..], seen)
    else [sorted[0]] + KeepFirst(targets, sorted[1..], seen + {targets[sorted[0]]})
  }

  /** The rows of the same group that the ORDER BY puts before row r. */
  ghost function Earlier(targets: seq<Tuple>, before: Order, r: nat): set<nat>
    requires r < |targets|
  {
    set j | j in AllRows(targets) && targets[j] == targets[r] && before(j, r)
  }

  /** row_number() OVER (PARTITION BY targets ORDER BY keys). */
  ghost function RowNumber(targets: seq<Tuple>, before: Order, r: nat): nat
    requires r < |targets|
  {
    1 + |Earlier(targets, before, r)|
  }

  /** The rows that pass the filter of the wrapped query. */
  ghost function Numbered(targets: seq<Tuple>, before: Order): set<nat> {
    set r | r in AllRows(targets) && RowNumber(targets, before, r) == 1
  }

  /** Keeping the first row of each group keeps exactly the rows with no row of their group before them. */
  lemma {:induction false} KeepFirstMembers(targets: seq<Tuple>, before: Order, sorted: seq<nat>, seen: set<Tuple>)
    requires IsStrictTotalOrder(before, |targets|) && Ascending(before, sorted)
    requires forall i :: 0 <= i < |sorted| ==> sorted[i] < |targets|
    ensures Ascending(before, KeepFirst(targets, sorted, seen))
    ensures forall r: nat :: r in KeepFirst(targets, sorted, seen) <==>
              r in sorted && targets[r] !in seen && forall j :: j in sorted && targets[j] == targets[r] ==> !before(j, r)
  {
    if sorted != [] {
      var first, rest := sorted[0], sorted[1..];
      var seen' := seen + {targets[first]};
      KeepFirstMembers(targets, before, rest, seen');
      if targets[first] in seen {
        assert seen' == seen;
      }
      assert forall r :: r in sorted <==> r == first || r in rest;
      forall r | r in rest
        ensures before(first, r) && !before(r, first) && r != first
      {
      }
    }
  }

  lemma SameFirst(before: Order, n: nat, a: seq<nat>, b: seq<nat>)
    requires IsStrictTotalOrder(before, n) && Ascending(before, a) && Ascending(before, b)
    requires a != [] && b != [] && a[0] < n && b[0] < n && a[0] in b && b[0] in a
    ensures a[0] == b[0]
  {
    if a[0] != b[0] {
      HeadIsFirst(before, a, b[0]);
      HeadIsFirst(before, b, a[0]);
    }
  }

  lemma HeadIsFirst(before: Order, list: seq<nat>, r: nat)
    requires Ascending(before, list) && r in list && r != list[0]
    ensures before(list[0], r)
  {
  }

  /** A set has one ordered enumeration. */
  lemma {:induction false} SortedOnce(before: Order, n: nat, a: seq<nat>, b: seq<nat>)
    requires IsStrictTotalOrder(before, n) && Ascending(before, a) && Ascending(before, b)
    requires forall r: nat :: r in a <==> r in b
    requires forall i :: 0 <= i < |a| ==> a[i] < n
    requires forall i :: 0 <= i < |b| ==> b[i] < n
    ensures a == b
  {
    assert a == [] <==> b == [] by {
      assert a != [] ==> a[0] in a;
      assert b != [] ==> b[0] in b;
    }
    if a != [] {
      SameFirst(before, n, a, b);
      forall r: nat
        ensures r in a[1..] <==> r in b[1..]
      {
        assert r in a <==> r == a[0] || r in a[1..];
        assert r in b <==> r == b[0] || r in b[1..];
      }
      SortedOnce(before, n, a[1..], b[1..]);
    }
  }

  lemma NumberOne(targets: seq<Tuple>, before: Order, r: nat)
    requires r < |targets|
    ensures r in Numbered(targets, before) <==>
            forall j :: j in AllRows(targets) && targets[j] == targets[r] ==> !before(j, r)
  {
  }

  /** Filtering by row number and ordering again gives, row by row, the first of each group of the ordered rows. */
  lemma WrappedIsDistinctOn(targets: seq<Tuple>, before: Order, sorted: seq<nat>, result: seq<nat>)
    requires IsStrictTotalOrder(before, |targets|)
    requires Sorts(before, AllRows(targets), sorted)
    requires Sorts(before, Numbered(targets, before), result)
    ensures result == KeepFirst(targets, sorted, {})
  {
    hide Numbered, KeepFirst, Ascending, IsStrictTotalOrder, AllRows;
    var kept := KeepFirst(targets, sorted, {});
    KeepFirstMembers(targets, before, sorted, {});
    NumberedAreRows(targets, before);
    forall r: nat
      ensures r in result <==> r in kept
    {
      assert r in sorted <==> r in AllRows(targets);
      if r < |targets| {
        NumberOne(targets, before, r);
      }
    }
    assert forall i :: 0 <= i < |kept| ==> kept[i] in kept;
    SortedOnce(before, |targets|, result, kept);
  }

  lemma NumberedAreRows(targets: seq<Tuple>, before: Order)
    ensures forall r :: r in Numbered(targets, before) ==> r < |targets|
  {
  }

  /** Every group is represented by exactly one row, its first. */
  lemma OneRowPerGroup(targets: seq<Tuple>, before: Order, r: nat)
    requires IsStrictTotalOrder(before, |targets|) && r < |targets|
    ensures exists k :: k in Numbered(targets, before) && targets[k] == targets[r] && (k == r || before(k, r))
    ensures forall k, m :: k in Numbered(targets, before) && m in Numbered(targets, before) && targets[k] == targets[m] ==>
              k == m
  {
    var first := FirstOfGroup(targets, before, r);
    NumberOne(targets, before, first);
    forall k, m | k in Numbered(targets, before) && m in Numbered(targets, before) && targets[k] == targets[m]
      ensures k == m
    {
      NumberOne(targets, before, k);
      NumberOne(targets, before, m);
      assert k in AllRows(targets) && m in AllRows(targets);
    }
  }

  lemma {:induction false} FirstOfGroup(targets: seq<Tuple>, before: Order, r: nat) returns (k: nat)
    requires IsStrictTotalOrder(before, |targets|) && r < |targets|
    ensures k < |targets| && targets[k] == targets[r] && (k == r || before(k, r))
    ensures forall j :: j in AllRows(targets) && targets[j] == targets[r] ==> !before(j, k)
    decreases |Earlier(targets, before, r)|
  {
    var earlier := Earlier(targets, before, r);
    if earlier == {} {
      k := r;
      forall j | j in AllRows(targets) && targets[j] == targets[r]
        ensures !before(j, r)
      {
        assert j !in earlier;
      }
    } else {
      var j :| j in earlier;
      assert Earlier(targets, before, j) <= earlier - {j};
      Smaller(Earlier(targets, before, j), earlier - {j});
      k := FirstOfGroup(targets, before, j);
    }
  }

  lemma {:induction false} Smaller(a: set<nat>, b: set<nat>)
    requires a <= b
    ensures |a| <= |b|
    decreases a
  {
    if a != {} {
      var x :| x in a;
      Smaller(a - {x}, b - {x});
    }
  }

  // ----- ties

  /** The ORDER BY itself: rows can be tied. */
  ghost predicate IsStrictWeakOrder(less: Order, n: nat) {
    && (forall i: nat :: i < n ==> !less(i, i))
    && (forall i: nat, j: nat, k: nat :: i < n && j < n && k < n && less(i, j) && less(j, k) ==> less(i, k))
    && (forall i: nat, j: nat, k: nat :: i < n && j < n && k < n && less(i, k) ==> less(i, j) || less(j, k))
  }

  ghost predicate Refines(before: Order, less: Order, n: nat) {
    forall i: nat, j: nat :: i < n && j < n && less(i, j) ==> before(i, j)
  }

  /** Among tied rows the picked ones come first, in the order of the outer query, and then the others. */
  ghost predicate TieBreak(window: Order, outer: Order, picked: set<nat>, i: nat, j: nat) {
    if i in picked then j !in picked || outer(i, j) else j !in picked && window(i, j)
  }

  ghost function Combined(less: Order, window: Order, outer: Order, picked: set<nat>): Order {
    (i: nat, j: nat) => less(i, j) || (!less(j, i) && TieBreak(window, outer, picked, i, j))
  }

  lemma CombinedIsTotal(less: Order, window: Order, outer: Order, picked: set<nat>, n: nat)
    requires IsStrictWeakOrder(less, n) && IsStrictTotalOrder(window, n) && IsStrictTotalOrder(outer, n)
    ensures IsStrictTotalOrder(Combined(less, window, outer, picked), n)
    ensures Refines(Combined(less, window, outer, picked), less, n)
  {
    var before := Combined(less, window, outer, picked);
    forall i: nat, j: nat | i < n && j < n
      ensures !before(i, i) && (i != j ==> before(i, j) != before(j, i))
    {
    }
    forall i: nat, j: nat, k: nat | i < n && j < n && k < n && before(i, j) && before(j, k)
      ensures before(i, k)
    {
    }
  }

  /** The window picks the same rows as the combined order. */
  lemma SamePicked(targets: seq<Tuple>, less: Order, window: Order, outer: Order, r: nat)
    requires IsStrictWeakOrder(less, |targets|) && IsStrictTotalOrder(window, |targets|) && r < |targets|
    requires IsStrictTotalOrder(outer, |targets|) && Refines(window, less, |targets|)
    ensures r in Numbered(targets, Combined(less, window, outer, Numbered(targets, window))) <==>
            r in Numbered(targets, window)
  {
    hide Numbered;
    var picked := Numbered(targets, window);
    var before := Combined(less, window, outer, picked);
    OneRowPerGroup(targets, window, r);
    NumberedAreRows(targets, window);
    var p :| p in picked && targets[p] == targets[r] && (p == r || window(p, r));
    forall j | j in AllRows(targets) && targets[j] == targets[r]
      ensures j == p || before(p, j)
    {
      NumberOne(targets, window, p);
    }
    CombinedIsTotal(less, window, outer, picked, |targets|);
    NumberOne(targets, before, r);
  }

  lemma {:induction false} AscendingPicked(less: Order, window: Order, outer: Order, picked: set<nat>, n: nat,
                                           list: seq<nat>)
    requires IsStrictTotalOrder(outer, n) && Refines(outer, less, n) && Ascending(outer, list)
    requires forall i :: 0 <= i < |list| ==> list[i] in picked && list[i] < n
    ensures Ascending(Combined(less, window, outer, picked), list)
  {
    if list != [] {
      AscendingPicked(less, window, outer, picked, n, list[1..]);
    }
  }

  /** Rows 0 to n - 1 in order. */
  lemma {:induction false} SortAll(targets: seq<Tuple>, before: Order) returns (sorted: seq<nat>)
    requires IsStrictTotalOrder(before, |targets|)
    ensures Sorts(before, AllRows(targets), sorted)
  {
    sorted := [];
    if targets != [] {
      var last := |targets| - 1;
      var rest := SortAll(targets[..last], before);
      sorted := Place(before, |targets|, rest, last);
      assert forall i :: 0 <= i < |sorted| ==> sorted[i] in sorted;
      assert forall i :: 0 <= i < |rest| ==> rest[i] in AllRows(targets[..last]);
    }
  }

  lemma {:induction false} Place(before: Order, n: nat, list: seq<nat>, r: nat) returns (placed: seq<nat>)
    requires IsStrictTotalOrder(before, n) && Ascending(before, list) && r < n
    requires forall i :: 0 <= i < |list| ==> list[i] < n && list[i] != r
    ensures Ascending(before, placed) && forall x :: x in placed <==> x == r || x in list
  {
    if list == [] || before(r, list[0]) {
      placed := [r] + list;
      assert placed[1..] == list;
      forall x: nat | x in list
        ensures before(r, x)
      {
      }
    } else {
      var rest := Place(before, n, list[1..], r);
      placed := [list[0]] + rest;
      assert placed[1..] == rest;
    }
  }

  /**
    The window and the outer sort may break the ties of the ORDER BY differently. The result is still what keeping the
    first row of each group gives, for rows that are sorted in an order that refines the ORDER BY.
   */
  lemma TiesMayDiffer(targets: seq<Tuple>, less: Order, window: Order, outer: Order, result: seq<nat>)
    requires IsStrictWeakOrder(less, |targets|)
    requires IsStrictTotalOrder(window, |targets|) && Refines(window, less, |targets|)
    requires IsStrictTotalOrder(outer, |targets|) && Refines(outer, less, |targets|)
    requires Sorts(outer, Numbered(targets, window), result)
    ensures exists before, sorted :: Refines(before, less, |targets|) && KeepsFirst(targets, before, sorted, result)
  {
    hide Numbered, KeepFirst, IsStrictWeakOrder, AllRows, Combined, Refines;
    var picked := Numbered(targets, window);
    var before := Combined(less, window, outer, picked);
    CombinedIsTotal(less, window, outer, picked, |targets|);
    NumberedAreRows(targets, window);
    NumberedAreRows(targets, before);
    forall r: nat | r < |targets|
      ensures r in Numbered(targets, before) <==> r in picked
    {
      SamePicked(targets, less, window, outer, r);
    }
    AscendingPicked(less, window, outer, picked, |targets|, result);
    var sorted := SortAll(targets, before);
    WrappedIsDistinctOn(targets, before, sorted, result);
    assert KeepsFirst(targets, before, sorted, result);
  }

  /** The result is the first row of each group of the rows in a total order. */
  ghost predicate KeepsFirst(targets: seq<Tuple>, before: Order, sorted: seq<nat>, result: seq<nat>) {
    IsStrictTotalOrder(before, |targets|) && Sorts(before, AllRows(targets), sorted) &&
    result == KeepFirst(targets, sorted, {})
  }

  // ----- the keys

  type Name = int

  datatype Expr =
    | Column(name: Name)
    | QualifiedColumn(table: Name, name: Name)
    | Constant(value: int)
    | Other(id: int)

  /** The result columns: their expressions, with names that are all different. */
  datatype Result = Result(items: seq<Expr>, names: seq<Name>)

  ghost predicate ValidResult(r: Result) {
    && |r.items| == |r.names|
    && forall i, j :: 0 <= i < j < |r.names| ==> r.names[i] != r.names[j]
  }

  predicate IsPosition(r: Result, key: Expr) {
    key.Constant? && 1 <= key.value <= |r.items|
  }

  /** What a DISTINCT ON target or an ORDER BY key stands for: a result column first, by position or by name. */
  ghost predicate StandsFor(r: Result, key: Expr, e: Expr)
    requires ValidResult(r)
  {
    if IsPosition(r, key) then e == r.items[key.value - 1]
    else if key.Column? && key.name in r.names then
      exists i :: 0 <= i < |r.names| && r.names[i] == key.name && e == r.items[i]
    else e == key
  }

  /** The expression that the window function partitions and orders by. */
  method ResolveKey(r: Result, key: Expr) returns (e: Expr)
    requires ValidResult(r)
    ensures StandsFor(r, key, e)
  {
    if IsPosition(r, key) {
      return r.items[key.value - 1];
    }
    if key.Column? {
      for i := 0 to |r.names|
        invariant key.name !in r.names[..i]
      {
        if r.names[i] == key.name {
          return r.items[i];
        }
      }
    }
    return key;
  }

  /** How the outer query can refer to a key: by position, by a result column, or not at all. */
  datatype OuterKey = ByPosition(position: int) | ByColumn(index: nat) | NotAResultColumn

  /** Whether the code takes result column i for the key. */
  predicate Takes(r: Result, key: Expr, i: nat)
    requires i < |r.items| && |r.items| == |r.names|
  {
    (key.Column? && r.names[i] == key.name) || r.items[i] == key
  }

  /** A constant is a position; otherwise the first result column that the code takes, if there is one. */
  ghost predicate IsOuterKey(r: Result, key: Expr, k: OuterKey)
    requires ValidResult(r)
  {
    match k
    case ByPosition(position) => key == Constant(position)
    case ByColumn(index) =>
      !key.Constant? && index < |r.items| && Takes(r, key, index) && forall j: nat :: j < index ==> !Takes(r, key, j)
    case NotAResultColumn => !key.Constant? && forall j: nat :: j < |r.items| ==> !Takes(r, key, j)
  }

  method OuterOrderKey(r: Result, key: Expr) returns (k: OuterKey)
    requires ValidResult(r)
    ensures IsOuterKey(r, key, k)
  {
    if key.Constant? {
      return ByPosition(key.value);
    }
    for i := 0 to |r.items|
      invariant forall j: nat :: j < i ==> !Takes(r, key, j)
    {
      if Takes(r, key, i) {
        return ByColumn(i);
      }
    }
    return NotAResultColumn;
  }

  /** What the ORDER BY around the query orders by. */
  ghost predicate OrdersBy(r: Result, k: OuterKey, e: Expr) {
    match k
    case ByPosition(position) => 1 <= position <= |r.items| && e == r.items[position - 1]
    case ByColumn(index) => index < |r.items| && e == r.items[index]
    case NotAResultColumn => false
  }

  /** An earlier result column has the expression of the key, and a later one, with another expression, its name. */
  ghost predicate Shadowed(r: Result, key: Expr)
    requires ValidResult(r)
  {
    key.Column? &&
    exists e, m :: 0 <= e < m < |r.items| && r.items[e] == key && r.names[m] == key.name && r.items[m] != key
  }

  /**
    For every key but a position that does not exist: the query is refused exactly when what the key stands for is no
    result column, and otherwise ordered by it - unless the key is shadowed, and then it is not.
   */
  lemma OuterKeyAgrees(r: Result, key: Expr, e: Expr, k: OuterKey)
    requires ValidResult(r) && (key.Constant? ==> 1 <= key.value <= |r.items|)
    requires StandsFor(r, key, e) && IsOuterKey(r, key, k)
    ensures k == NotAResultColumn <==> e !in r.items
    ensures k != NotAResultColumn ==> (OrdersBy(r, k, e) <==> !Shadowed(r, key))
  {
    if key.Column? && key.name in r.names {
      var m :| 0 <= m < |r.names| && r.names[m] == key.name && e == r.items[m];
      assert Takes(r, key, m);
      assert forall i :: 0 <= i < |r.names| && r.names[i] == key.name ==> i == m;
      assert Shadowed(r, key) <==> e != key && exists i :: 0 <= i < m && r.items[i] == key;
      assert forall i :: 0 <= i < m && r.items[i] == key ==> Takes(r, key, i);
    } else if !key.Constant? {
      assert forall i :: 0 <= i < |r.items| ==> (Takes(r, key, i) <==> r.items[i] == e);
    }
  }

  /** SELECT DISTINCT ON (...) a AS b, x AS a ... ORDER BY a: the rows are picked by x, but returned ordered by b. */
  lemma ShadowedKeyExists() returns (r: Result, key: Expr)
    ensures ValidResult(r) && Shadowed(r, key)
    ensures StandsFor(r, key, r.items[1]) && IsOuterKey(r, key, ByColumn(0)) && r.items[0] != r.items[1]
  {
    r, key := Result([Column(1), Column(3)], [2, 1]), Column(1);
    assert r.items[0] == key && r.names[1] == 1 && r.items[1] != key;
  }
}
