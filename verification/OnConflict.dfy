/**
  ON CONFLICT DO UPDATE with a VALUES list. DuckDB refuses to change a row twice in one statement, SQLite changes it
  twice; only lists whose conflict keys are constants and all different are written.
 */
module OnConflict {
  import opened Bytes
  import opened Permutations

  type Name = int

  /** A value of a key column; None is NULL. */
  type Value = Option<int>
  type Key = seq<Value>

  /** An entry of the VALUES list. */
  datatype Entry = Constant(value: Value) | NotConstant

  /** The conversion of a constant to the type of a column. */
  type Cast = (Name, Value) -> Option<Value>

  datatype KeyCheck =
    | Keys(keys: seq<Key>)
    | ColumnNotInserted
    | NonConstantKey
    | InvalidKey
    | DuplicateKey

  // ----- which keys a list has

  ghost predicate DistinctNames(names: seq<Name>) {
    forall i, j :: 0 <= i < j < |names| ==> names[i] != names[j]
  }

  /** The positions of the conflict columns among the inserted columns. */
  method KeyIndexes(conflictColumns: seq<Name>, columns: seq<Name>) returns (indexes: Option<seq<nat>>)
    requires DistinctNames(columns)
    ensures indexes.None? <==> exists c :: 0 <= c < |conflictColumns| && conflictColumns[c] !in columns
    ensures indexes.Some? ==> IndexesOf(conflictColumns, columns, indexes.value)
  {
    var result: seq<nat> := [];
    for c := 0 to |conflictColumns|
      invariant IndexesOf(conflictColumns[..c], columns, result)
      invariant forall k :: 0 <= k < c ==> conflictColumns[k] in columns
    {
      var found := false;
      ghost var before := result;
      for i := 0 to |columns|
        invariant !found ==> result == before && conflictColumns[c] !in columns[..i]
        invariant found ==> exists k :: 0 <= k < i && columns[k] == conflictColumns[c] && result == before + [k]
      {
        if columns[i] == conflictColumns[c] {
          result := result + [i];
          found := true;
        }
      }
      if !found {
        assert columns[..|columns|] == columns;
        return None;
      }
    }
    return Some(result);
  }

  ghost predicate IndexesOf(conflictColumns: seq<Name>, columns: seq<Name>, indexes: seq<nat>) {
    && |indexes| == |conflictColumns|
    && forall k :: 0 <= k < |indexes| ==> indexes[k] < |columns| && columns[indexes[k]] == conflictColumns[k]
  }

  /** The constant that a row gives a column, converted to the type of the column. */
  function KeyValue(row: seq<Entry>, index: nat, columns: seq<Name>, cast: Cast): Option<Value>
    requires index < |columns|
  {
    if index >= |row| || row[index].NotConstant? then None else cast(columns[index], row[index].value)
  }

  /** Whether a row has the given key. */
  ghost predicate HasKey(row: seq<Entry>, indexes: seq<nat>, columns: seq<Name>, cast: Cast, key: Key) {
    && |key| == |indexes|
    && forall k :: 0 <= k < |indexes| ==>
         indexes[k] < |columns| && KeyValue(row, indexes[k], columns, cast) == Some(key[k])
  }

  /** Two keys conflict when they are equal and contain no NULL. */
  predicate SameKey(a: Key, b: Key) {
    |a| == |b| && forall k :: 0 <= k < |a| ==> a[k].Some? && a[k] == b[k]
  }

  predicate NoDuplicates(keys: seq<Key>) {
    forall i, j :: 0 <= i < j < |keys| ==> !SameKey(keys[j], keys[i])
  }

  /** The key of one row, or the reason why it has none. */
  method RowKey(row: seq<Entry>, indexes: seq<nat>, columns: seq<Name>, cast: Cast) returns (r: KeyCheck)
    requires forall k :: 0 <= k < |indexes| ==> indexes[k] < |columns|
    ensures r.Keys? ==> |r.keys| == 1 && HasKey(row, indexes, columns, cast, r.keys[0])
    ensures !r.Keys? ==> (r == NonConstantKey || r == InvalidKey) && forall key :: !HasKey(row, indexes, columns, cast, key)
  {
    var key: Key := [];
    for k := 0 to |indexes|
      invariant HasKey(row, indexes[..k], columns, cast, key)
    {
      var index := indexes[k];
      if index >= |row| || row[index].NotConstant? {
        return NonConstantKey;
      }
      var value := cast(columns[index], row[index].value);
      if value.None? {
        return InvalidKey;
      }
      key := key + [value.value];
    }
    assert indexes[..|indexes|] == indexes;
    return Keys([key]);
  }

  /** Accepts exactly the lists in which every row has a constant key and no two keys conflict. */
  method CheckKeys(rows: seq<seq<Entry>>, indexes: seq<nat>, columns: seq<Name>, cast: Cast) returns (r: KeyCheck)
    requires forall k :: 0 <= k < |indexes| ==> indexes[k] < |columns|
    ensures r.Keys? ==> AreKeys(rows, indexes, columns, cast, r.keys) && NoDuplicates(r.keys)
    ensures !r.Keys? ==> forall keys :: AreKeys(rows, indexes, columns, cast, keys) ==> !NoDuplicates(keys)
    ensures r != ColumnNotInserted
  {
    var keys: seq<Key> := [];
    for i := 0 to |rows|
      invariant AreKeys(rows[..i], indexes, columns, cast, keys)
      invariant NoDuplicates(keys)
    {
      var check := RowKey(rows[i], indexes, columns, cast);
      if !check.Keys? {
        return check;
      }
      var key := check.keys[0];
      for j := 0 to |keys|
        invariant forall k :: 0 <= k < j ==> !SameKey(key, keys[k])
      {
        if SameKey(key, keys[j]) {
          forall other | AreKeys(rows, indexes, columns, cast, other)
            ensures !NoDuplicates(other)
          {
            assert HasKey(rows[j], indexes, columns, cast, other[j]) && HasKey(rows[i], indexes, columns, cast, other[i]);
            assert HasKey(rows[..i][j], indexes, columns, cast, keys[j]);
            KeyUnique(rows[j], indexes, columns, cast, keys[j], other[j]);
            KeyUnique(rows[i], indexes, columns, cast, key, other[i]);
          }
          return DuplicateKey;
        }
      }
      keys := keys + [key];
    }
    assert rows[..|rows|] == rows;
    return Keys(keys);
  }

  ghost predicate AreKeys(rows: seq<seq<Entry>>, indexes: seq<nat>, columns: seq<Name>, cast: Cast, keys: seq<Key>) {
    |keys| == |rows| && forall i :: 0 <= i < |rows| ==> HasKey(rows[i], indexes, columns, cast, keys[i])
  }

  lemma KeyUnique(row: seq<Entry>, indexes: seq<nat>, columns: seq<Name>, cast: Cast, a: Key, b: Key)
    requires HasKey(row, indexes, columns, cast, a) && HasKey(row, indexes, columns, cast, b)
    ensures a == b
  {
  }

  /** The row that a list of constants inserts. */
  ghost predicate GivesRow(row: seq<Entry>, columns: seq<Name>, cast: Cast, r: map<Name, Value>) {
    && |row| == |columns|
    && forall i :: 0 <= i < |columns| ==>
         columns[i] in r && row[i].Constant? && cast(columns[i], row[i].value) == Some(r[columns[i]])
  }

  /** The key that is checked is the one that is inserted: the values of the conflict columns. */
  lemma KeyIsOfRow(row: seq<Entry>, conflictColumns: seq<Name>, columns: seq<Name>, indexes: seq<nat>, cast: Cast,
                   r: map<Name, Value>, key: Key)
    requires IndexesOf(conflictColumns, columns, indexes) && GivesRow(row, columns, cast, r)
    requires forall c :: c in conflictColumns ==> c in r
    ensures HasKey(row, indexes, columns, cast, key) <==>
            |key| == |conflictColumns| && forall k :: 0 <= k < |key| ==> key[k] == r[conflictColumns[k]]
  {
    forall k | 0 <= k < |indexes|
      ensures KeyValue(row, indexes[k], columns, cast) == Some(r[conflictColumns[k]])
    {
      assert columns[indexes[k]] == conflictColumns[k];
    }
  }

  // ----- what the statement does

  type Row = map<Name, Value>

  datatype Insert = Insert(key: Key, row: Row)

  /** The rows of the table by conflict key; rows with a NULL in their key conflict with nothing. */
  datatype Table = Table(keyed: map<Key, Row>, unkeyed: multiset<Insert>)

  /** The SET clause with its condition: the new row, from the existing and the excluded one. */
  type Update = (Row, Row) -> Row

  predicate HasNull(key: Key) {
    exists k :: 0 <= k < |key| && key[k].None?
  }

  function Combined(t: Table, x: Insert, update: Update): Row {
    if x.key in t.keyed then update(t.keyed[x.key], x.row) else x.row
  }

  function Upsert(t: Table, x: Insert, update: Update): Table {
    if HasNull(x.key) then t.(unkeyed := t.unkeyed + multiset{x})
    else t.(keyed := t.keyed[x.key := Combined(t, x, update)])
  }

  /** SQLite inserts or updates one row after the other. */
  function OneByOne(t: Table, list: seq<Insert>, update: Update): Table
    decreases |list|
  {
    if list == [] then t else OneByOne(Upsert(t, list[0], update), list[1..], update)
  }

  ghost predicate InList(list: seq<Insert>, k: Key) {
    !HasNull(k) && exists i :: 0 <= i < |list| && list[i].key == k
  }

  ghost predicate UnkeyedAtOnce(t: Table, list: seq<Insert>, result: Table) {
    forall x :: result.unkeyed[x] == t.unkeyed[x] + if HasNull(x.key) then multiset(list)[x] else 0
  }

  /** The row that an inserted row becomes: itself, or the update of the row with its key in the table. */
  ghost predicate Inserted(t: Table, x: Insert, update: Update, row: Row) {
    && (x.key !in t.keyed ==> row == x.row)
    && (x.key in t.keyed ==> row == update(t.keyed[x.key], x.row))
  }

  /** All rows at once: each is combined with the row that its key had before the statement. */
  ghost predicate AtOnce(t: Table, list: seq<Insert>, update: Update, result: Table) {
    && (forall k :: k in result.keyed <==> k in t.keyed || InList(list, k))
    && (forall i :: 0 <= i < |list| && !HasNull(list[i].key) ==>
          list[i].key in result.keyed && Inserted(t, list[i], update, result.keyed[list[i].key]))
    && (forall k :: k in t.keyed && k in result.keyed && !InList(list, k) ==> result.keyed[k] == t.keyed[k])
    && UnkeyedAtOnce(t, list, result)
  }

  /** No two rows of the list have the same key without NULLs. */
  ghost predicate Accepted(list: seq<Insert>) {
    forall i, j :: 0 <= i < j < |list| ==> !SameKey(list[j].key, list[i].key)
  }

  /** The statement is accepted by its list exactly when the check of its rows finds keys without duplicates. */
  lemma CheckedIsAccepted(list: seq<Insert>, rows: seq<seq<Entry>>, indexes: seq<nat>, columns: seq<Name>, cast: Cast)
    requires |list| == |rows| && forall i :: 0 <= i < |rows| ==> HasKey(rows[i], indexes, columns, cast, list[i].key)
    ensures Accepted(list) <==> exists keys :: AreKeys(rows, indexes, columns, cast, keys) && NoDuplicates(keys)
  {
    hide HasKey, SameKey;
    var own := seq(|list|, i requires 0 <= i < |list| => list[i].key);
    assert AreKeys(rows, indexes, columns, cast, own) && (NoDuplicates(own) <==> Accepted(list));
    forall keys | AreKeys(rows, indexes, columns, cast, keys)
      ensures keys == own
    {
      forall i | 0 <= i < |rows|
        ensures keys[i] == own[i]
      {
        KeyUnique(rows[i], indexes, columns, cast, keys[i], own[i]);
      }
    }
  }

  lemma AcceptedCons(list: seq<Insert>)
    requires list != []
    ensures Accepted(list) <==> Accepted(list[1..]) && !InList(list[1..], list[0].key)
  {
  }

  lemma InListCons(list: seq<Insert>, k: Key)
    requires list != []
    ensures InList(list, k) <==> InList(list[1..], k) || (list[0].key == k && !HasNull(k))
  {
  }

  /** One more row in front: the others do not see it, since it has another key. */
  lemma AtOnceCons(t: Table, list: seq<Insert>, update: Update, result: Table)
    requires list != [] && !InList(list[1..], list[0].key)
    requires AtOnce(Upsert(t, list[0], update), list[1..], update, result)
    ensures AtOnce(t, list, update, result)
  {
    hide InList, HasNull, UnkeyedAtOnce;
    var x, rest, t1 := list[0], list[1..], Upsert(t, list[0], update);
    UnkeyedCons(t, list, update, result);
    forall k {
      InListCons(list, k);
    }
    forall i | 0 <= i < |list| && !HasNull(list[i].key)
      ensures list[i].key in result.keyed && Inserted(t, list[i], update, result.keyed[list[i].key])
    {
      if i > 0 {
        assert list[i] == rest[i - 1];
        InListAt(rest, i - 1);
      }
    }
  }

  lemma UnkeyedCons(t: Table, list: seq<Insert>, update: Update, result: Table)
    requires list != [] && UnkeyedAtOnce(Upsert(t, list[0], update), list[1..], result)
    ensures UnkeyedAtOnce(t, list, result)
  {
    hide HasNull;
    assert list == [list[0]] + list[1..];
  }

  lemma InListAt(list: seq<Insert>, i: nat)
    requires i < |list|
    ensures InList(list, list[i].key) <==> !HasNull(list[i].key)
  {
  }

  /** Doing the rows of an accepted list one by one is doing them all at once. */
  lemma {:induction false} OneByOneIsAtOnce(t: Table, list: seq<Insert>, update: Update)
    requires Accepted(list)
    ensures AtOnce(t, list, update, OneByOne(t, list, update))
    decreases |list|
  {
    if list != [] {
      AcceptedCons(list);
      OneByOneIsAtOnce(Upsert(t, list[0], update), list[1..], update);
      AtOnceCons(t, list, update, OneByOne(t, list, update));
    }
  }

  // ----- the order of the list does not matter

  lemma MembersPermuted(list: seq<Insert>, other: seq<Insert>, i: nat) returns (j: nat)
    requires multiset(list) == multiset(other) && i < |other|
    ensures j < |list| && list[j] == other[i]
  {
    assert other[i] in multiset(other);
    assert other[i] in list;
    j :| 0 <= j < |list| && list[j] == other[i];
  }

  lemma InListPermuted(list: seq<Insert>, other: seq<Insert>, k: Key)
    requires multiset(list) == multiset(other) && InList(list, k)
    ensures InList(other, k)
  {
    var i: nat :| 0 <= i < |list| && list[i].key == k;
    var j := MembersPermuted(other, list, i);
  }

  lemma AtOncePermuted(t: Table, list: seq<Insert>, other: seq<Insert>, update: Update, result: Table)
    requires multiset(list) == multiset(other) && AtOnce(t, list, update, result)
    ensures AtOnce(t, other, update, result)
  {
    hide InList, HasNull;
    forall k
      ensures InList(list, k) <==> InList(other, k)
    {
      if InList(list, k) {
        InListPermuted(list, other, k);
      }
      if InList(other, k) {
        InListPermuted(other, list, k);
      }
    }
    forall i | 0 <= i < |other| && !HasNull(other[i].key)
      ensures other[i].key in result.keyed && Inserted(t, other[i], update, result.keyed[other[i].key])
    {
      var j := MembersPermuted(list, other, i);
    }
  }

  lemma AtOnceIsUnique(t: Table, list: seq<Insert>, update: Update, a: Table, b: Table)
    requires AtOnce(t, list, update, a) && AtOnce(t, list, update, b)
    ensures a == b
  {
  }

  /** Any order of an accepted list is accepted and gives the same table. */
  lemma OrderDoesNotMatter(t: Table, list: seq<Insert>, other: seq<Insert>, update: Update)
    requires Accepted(list) && multiset(list) == multiset(other)
    ensures Accepted(other) && OneByOne(t, list, update) == OneByOne(t, other, update)
  {
    AcceptedTouchesOnce(list);
    AcceptedTouchesOnce(other);
    forall k
      ensures Touches(list, k) == Touches(other, k)
    {
      TouchesPermuted(list, other, k);
    }
    OneByOneIsAtOnce(t, list, update);
    OneByOneIsAtOnce(t, other, update);
    AtOncePermuted(t, other, list, update, OneByOne(t, other, update));
    AtOnceIsUnique(t, list, update, OneByOne(t, list, update), OneByOne(t, other, update));
  }

  // ----- no row is changed twice

  /** How many rows of the list insert or update the row with key k. */
  function Touches(list: seq<Insert>, k: Key): nat {
    if list == [] then 0 else (if list[0].key == k then 1 else 0) + Touches(list[1..], k)
  }

  lemma {:induction false} UntouchedKey(list: seq<Insert>, k: Key)
    requires !HasNull(k)
    ensures Touches(list, k) == 0 <==> !InList(list, k)
  {
    if list != [] {
      UntouchedKey(list[1..], k);
      InListCons(list, k);
    }
  }

  /** A list is accepted exactly when it changes no row of the table twice. */
  lemma {:induction false} AcceptedTouchesOnce(list: seq<Insert>)
    ensures Accepted(list) <==> forall k :: !HasNull(k) ==> Touches(list, k) <= 1
  {
    hide HasNull;
    if list != [] {
      var x, rest := list[0], list[1..];
      AcceptedCons(list);
      AcceptedTouchesOnce(rest);
      if !HasNull(x.key) {
        UntouchedKey(rest, x.key);
      }
      assert forall k :: Touches(list, k) == (if x.key == k then 1 else 0) + Touches(rest, k);
    }
  }

  lemma {:induction false} TouchesMiddle(a: seq<Insert>, x: Insert, b: seq<Insert>, k: Key)
    ensures Touches(a + [x] + b, k) == Touches(a + b, k) + if x.key == k then 1 else 0
  {
    if a == [] {
      assert a + [x] + b == [x] + b && a + b == b && ([x] + b)[1..] == b;
    } else {
      assert (a + [x] + b)[1..] == a[1..] + [x] + b && (a + b)[1..] == a[1..] + b;
      TouchesMiddle(a[1..], x, b, k);
    }
  }

  lemma {:induction false} TouchesPermuted(list: seq<Insert>, other: seq<Insert>, k: Key)
    requires multiset(list) == multiset(other)
    ensures Touches(list, k) == Touches(other, k)
    decreases |list|
  {
    if list != [] {
      var before, after := TakeOut(list, other);
      TouchesPermuted(list[1..], before + after, k);
      TouchesMiddle(before, list[0], after, k);
    } else {
      assert |multiset(other)| == |other|;
    }
  }

  // ----- INSERT OR REPLACE

  /** The columns of the SET clause: the inserted columns that are not part of the conflict target. */
  method ReplacedColumns(columns: seq<Name>, conflictColumns: seq<Name>) returns (set_: seq<Name>)
    ensures forall c :: c in set_ <==> c in columns && c !in conflictColumns
    ensures set_ == [] <==> forall i :: 0 <= i < |columns| ==> columns[i] in conflictColumns
  {
    set_ := [];
    for i := 0 to |columns|
      invariant forall c :: c in set_ <==> c in columns[..i] && c !in conflictColumns
    {
      var isConflictColumn := false;
      for k := 0 to |conflictColumns|
        invariant isConflictColumn <==> columns[i] in conflictColumns[..k]
      {
        isConflictColumn := isConflictColumn || conflictColumns[k] == columns[i];
      }
      assert conflictColumns[..|conflictColumns|] == conflictColumns;
      if !isConflictColumn {
        set_ := set_ + [columns[i]];
      }
    }
    assert columns[..|columns|] == columns;
    assert set_ != [] ==> set_[0] in set_;
  }

  function Replace(old_: Row, excluded: Row, set_: seq<Name>): Row {
    map c | c in old_ :: if c in set_ && c in excluded then excluded[c] else old_[c]
  }

  /** Replacing takes the inserted columns, and leaves the conflict key and the other columns as they are. */
  lemma ReplaceKeepsKey(old_: Row, excluded: Row, set_: seq<Name>, columns: seq<Name>, conflictColumns: seq<Name>, c: Name)
    requires forall n :: n in set_ <==> n in columns && n !in conflictColumns
    requires c in old_
    ensures Replace(old_, excluded, set_).Keys == old_.Keys
    ensures c in conflictColumns || c !in columns ==> Replace(old_, excluded, set_)[c] == old_[c]
    ensures c in columns && c !in conflictColumns && c in excluded ==> Replace(old_, excluded, set_)[c] == excluded[c]
  {
  }
}
