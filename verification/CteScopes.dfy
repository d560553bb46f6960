/**
  Which CTE or table a name refers to. In DuckDB a CTE sees the CTEs defined before it in its WITH list (and itself, if
  it is recursive); in SQLite it sees all CTEs of the list. The writer refuses the queries where that matters.
 */
module CteScopes {
  import opened Bytes

  /** An identifier; identifiers that only differ in case are the same. */
  type Name = int

  /** A query node with its WITH list; `parts` are its table references and subqueries, in the order they are visited. */
  datatype Query = Query(ctes: seq<Cte>, recursive: bool, parts: seq<Part>)
  datatype Cte = Cte(name: Name, definition: Query)
  datatype Part = Ref(name: Name, qualified: bool) | Sub(query: Query)

  /** What a reference refers to: a table, or the CTE that is defined at a place in the query. */
  type Binding = Option<seq<nat>>
  type Env = map<Name, seq<nat>>

  function Lookup(env: Env, name: Name): Binding {
    if name in env then Some(env[name]) else None
  }

  function Names(ctes: seq<Cte>): set<Name> {
    set i | 0 <= i < |ctes| :: ctes[i].name
  }

  /** The environment behind a WITH list: the first CTE of the list is number k of the node at `path`. */
  function Bind(env: Env, ctes: seq<Cte>, path: seq<nat>, k: nat): (r: Env)
    ensures r.Keys == env.Keys + Names(ctes)
    decreases |ctes|
  {
    if ctes == [] then env else
    var r := Bind(env[ctes[0].name := path + [k]], ctes[1..], path, k + 1);
    assert Names(ctes) == {ctes[0].name} + Names(ctes[1..]);
    r
  }

  // ----- what the references of a query refer to, in order

  function DuckQuery(q: Query, env: Env, path: seq<nat>): seq<Binding>
    decreases q, 0
  {
    DuckCtes(q.ctes, env, path, 0) + DuckParts(q.parts, Bind(env, q.ctes, path, 0), path, 0)
  }

  function DuckCtes(ctes: seq<Cte>, env: Env, path: seq<nat>, k: nat): seq<Binding>
    decreases ctes, 1
  {
    if ctes == [] then [] else
    DuckCte(ctes[0], env, path, k) + DuckCtes(ctes[1..], env[ctes[0].name := path + [k]], path, k + 1)
  }

  function DuckCte(c: Cte, env: Env, path: seq<nat>, k: nat): seq<Binding>
    decreases c, 0
  {
    DuckQuery(c.definition, if c.definition.recursive then env[c.name := path + [k]] else env, path + [0, k])
  }

  function DuckParts(parts: seq<Part>, env: Env, path: seq<nat>, k: nat): seq<Binding>
    decreases parts, 1
  {
    if parts == [] then [] else DuckPart(parts[0], env, path, k) + DuckParts(parts[1..], env, path, k + 1)
  }

  function DuckPart(part: Part, env: Env, path: seq<nat>, k: nat): seq<Binding>
    decreases part, 0
  {
    match part
    case Ref(name, qualified) => [if qualified then None else Lookup(env, name)]
    case Sub(query) => DuckQuery(query, env, path + [1, k])
  }

  /** SQLite gets the names without their catalog, so that it cannot tell qualified references from others. */
  function SqliteQuery(q: Query, env: Env, path: seq<nat>): seq<Binding>
    decreases q, 0
  {
    var visible := Bind(env, q.ctes, path, 0);
    SqliteCtes(q.ctes, visible, path, 0) + SqliteParts(q.parts, visible, path, 0)
  }

  function SqliteCtes(ctes: seq<Cte>, env: Env, path: seq<nat>, k: nat): seq<Binding>
    decreases ctes, 1
  {
    if ctes == [] then [] else SqliteCte(ctes[0], env, path, k) + SqliteCtes(ctes[1..], env, path, k + 1)
  }

  function SqliteCte(c: Cte, env: Env, path: seq<nat>, k: nat): seq<Binding>
    decreases c, 0
  {
    SqliteQuery(c.definition, env, path + [0, k])
  }

  function SqliteParts(parts: seq<Part>, env: Env, path: seq<nat>, k: nat): seq<Binding>
    decreases parts, 1
  {
    if parts == [] then [] else SqlitePart(parts[0], env, path, k) + SqliteParts(parts[1..], env, path, k + 1)
  }

  function SqlitePart(part: Part, env: Env, path: seq<nat>, k: nat): seq<Binding>
    decreases part, 0
  {
    match part
    case Ref(name, _) => [Lookup(env, name)]
    case Sub(query) => SqliteQuery(query, env, path + [1, k])
  }

  // ----- the writer's checks

  /** A reference together with the names of the CTEs that are visible where it is. */
  type Occurrence = (Name, bool, set<Name>)

  function Walk(q: Query, scope: set<Name>): set<Occurrence>
    decreases q, 0
  {
    WalkCtes(q.ctes, scope) + WalkParts(q.parts, scope + Names(q.ctes))
  }

  function WalkCtes(ctes: seq<Cte>, scope: set<Name>): set<Occurrence>
    decreases ctes, 1
  {
    if ctes == [] then {} else WalkCte(ctes[0], scope) + WalkCtes(ctes[1..], scope + {ctes[0].name})
  }

  function WalkCte(c: Cte, scope: set<Name>): set<Occurrence>
    decreases c, 0
  {
    Walk(c.definition, if c.definition.recursive then scope + {c.name} else scope)
  }

  function WalkParts(parts: seq<Part>, scope: set<Name>): set<Occurrence>
    decreases parts, 1
  {
    if parts == [] then {} else WalkPart(parts[0], scope) + WalkParts(parts[1..], scope)
  }

  function WalkPart(part: Part, scope: set<Name>): set<Occurrence>
    decreases part, 0
  {
    match part
    case Ref(name, qualified) => {(name, qualified, scope)}
    case Sub(query) => Walk(query, scope)
  }

  /** A name that is not qualified and not bound by a CTE where it is. */
  predicate IsFree(o: Occurrence) {
    !o.1 && o.0 !in o.2
  }

  /** Whether a definition uses, as a table, a name of one of the given CTEs. */
  predicate RefersTo(definition: Query, later: set<Name>) {
    exists o :: o in Walk(definition, {}) && IsFree(o) && o.0 in later
  }

  predicate DistinctNames(ctes: seq<Cte>) {
    forall i, j :: 0 <= i < j < |ctes| ==> ctes[i].name != ctes[j].name
  }

  /** No definition of the list uses the name of a later CTE. */
  predicate NoForwardReference(ctes: seq<Cte>) {
    forall i :: 0 <= i < |ctes| ==> !RefersTo(ctes[i].definition, Names(ctes[i + 1..]))
  }

  method CheckCteMap(ctes: seq<Cte>) returns (ok: bool)
    requires DistinctNames(ctes)
    ensures ok == NoForwardReference(ctes)
  {
    var later := {};
    for i := 0 to |ctes|
      invariant later == Names(ctes[..i])
    {
      later := later + {ctes[i].name};
      assert Names(ctes[..i + 1]) == Names(ctes[..i]) + {ctes[i].name} by {
        NamesConcat(ctes[..i], [ctes[i]]);
        assert ctes[..i + 1] == ctes[..i] + [ctes[i]];
      }
    }
    assert ctes[..|ctes|] == ctes == ctes[0..];
    for i := 0 to |ctes|
      invariant later == Names(ctes[i..])
      invariant forall k :: 0 <= k < i ==> !RefersTo(ctes[k].definition, Names(ctes[k + 1..]))
    {
      later := later - {ctes[i].name};
      assert later == Names(ctes[i + 1..]) by {
        NamesConcat([ctes[i]], ctes[i + 1..]);
        assert ctes[i..] == [ctes[i]] + ctes[i + 1..];
      }
      if later != {} && RefersTo(ctes[i].definition, later) {
        return false;
      }
    }
    return true;
  }

  lemma NamesConcat(a: seq<Cte>, b: seq<Cte>)
    ensures Names(a + b) == Names(a) + Names(b)
  {
    forall n | n in Names(a) + Names(b)
      ensures n in Names(a + b)
    {
      if n in Names(a) {
        var i :| 0 <= i < |a| && a[i].name == n;
        assert (a + b)[i].name == n;
      } else {
        var i :| 0 <= i < |b| && b[i].name == n;
        assert (a + b)[|a| + i].name == n;
      }
    }
  }

  // ----- free names

  /** The names a query takes from its surroundings, by the rules of DuckDB. */
  function Free(q: Query): set<Name>
    decreases q, 0
  {
    FreeCtes(q.ctes) + (FreeParts(q.parts) - Names(q.ctes))
  }

  function FreeCtes(ctes: seq<Cte>): set<Name>
    decreases ctes, 1
  {
    if ctes == [] then {} else FreeCte(ctes[0]) + (FreeCtes(ctes[1..]) - {ctes[0].name})
  }

  function FreeCte(c: Cte): set<Name>
    decreases c, 0
  {
    Free(c.definition) - if c.definition.recursive then {c.name} else {}
  }

  function FreeParts(parts: seq<Part>): set<Name>
    decreases parts, 1
  {
    if parts == [] then {} else FreePart(parts[0]) + FreeParts(parts[1..])
  }

  function FreePart(part: Part): set<Name>
    decreases part, 0
  {
    match part
    case Ref(name, qualified) => if qualified then {} else {name}
    case Sub(query) => Free(query)
  }

  ghost predicate FreeIn(w: set<Occurrence>, n: Name) {
    exists o :: o in w && IsFree(o) && o.0 == n
  }

  lemma FreeInUnion(a: set<Occurrence>, b: set<Occurrence>, n: Name)
    ensures FreeIn(a + b, n) <==> FreeIn(a, n) || FreeIn(b, n)
  {
  }

  /** Walking the tree finds exactly the free names, whatever is in scope around it. */
  lemma {:induction false} WalkFindsFree(q: Query, scope: set<Name>, n: Name)
    ensures FreeIn(Walk(q, scope), n) <==> n in Free(q) && n !in scope
    decreases q, 0
  {
    WalkFindsFreeCtes(q.ctes, scope, n);
    WalkFindsFreeParts(q.parts, scope + Names(q.ctes), n);
    FreeInUnion(WalkCtes(q.ctes, scope), WalkParts(q.parts, scope + Names(q.ctes)), n);
  }

  lemma {:induction false} WalkFindsFreeCtes(ctes: seq<Cte>, scope: set<Name>, n: Name)
    ensures FreeIn(WalkCtes(ctes, scope), n) <==> n in FreeCtes(ctes) && n !in scope
    decreases ctes, 1
  {
    if ctes != [] {
      WalkFindsFreeCte(ctes[0], scope, n);
      WalkFindsFreeCtes(ctes[1..], scope + {ctes[0].name}, n);
      FreeInUnion(WalkCte(ctes[0], scope), WalkCtes(ctes[1..], scope + {ctes[0].name}), n);
    }
  }

  lemma {:induction false} WalkFindsFreeCte(c: Cte, scope: set<Name>, n: Name)
    ensures FreeIn(WalkCte(c, scope), n) <==> n in FreeCte(c) && n !in scope
    decreases c, 0
  {
    WalkFindsFree(c.definition, if c.definition.recursive then scope + {c.name} else scope, n);
  }

  lemma {:induction false} WalkFindsFreeParts(parts: seq<Part>, scope: set<Name>, n: Name)
    ensures FreeIn(WalkParts(parts, scope), n) <==> n in FreeParts(parts) && n !in scope
    decreases parts, 1
  {
    if parts != [] {
      WalkFindsFreePart(parts[0], scope, n);
      WalkFindsFreeParts(parts[1..], scope, n);
      FreeInUnion(WalkPart(parts[0], scope), WalkParts(parts[1..], scope), n);
    }
  }

  lemma {:induction false} WalkFindsFreePart(part: Part, scope: set<Name>, n: Name)
    ensures FreeIn(WalkPart(part, scope), n) <==> n in FreePart(part) && n !in scope
    decreases part, 0
  {
    match part
    case Ref(name, qualified) =>
      if n in FreePart(part) && n !in scope {
        assert (name, qualified, scope) in WalkPart(part, scope);
      }
    case Sub(query) => WalkFindsFree(query, scope, n);
  }

  lemma RefersToIsFree(definition: Query, later: set<Name>)
    ensures RefersTo(definition, later) <==> exists n :: n in later && n in Free(definition)
  {
    forall n
      ensures FreeIn(Walk(definition, {}), n) <==> n in Free(definition)
    {
      WalkFindsFree(definition, {}, n);
    }
    if RefersTo(definition, later) {
      var o :| o in Walk(definition, {}) && IsFree(o) && o.0 in later;
      assert FreeIn(Walk(definition, {}), o.0);
    }
    if n :| n in later && n in Free(definition) {
      assert FreeIn(Walk(definition, {}), n);
    }
  }

  // ----- accepted queries

  /** The names of the qualified references of a query, at any depth. */
  function Qualified(q: Query): set<Name>
    decreases q, 0
  {
    QualifiedCtes(q.ctes) + QualifiedParts(q.parts)
  }

  function QualifiedCtes(ctes: seq<Cte>): set<Name>
    decreases ctes, 1
  {
    if ctes == [] then {} else QualifiedCte(ctes[0]) + QualifiedCtes(ctes[1..])
  }

  function QualifiedCte(c: Cte): set<Name>
    decreases c, 0
  {
    Qualified(c.definition)
  }

  function QualifiedParts(parts: seq<Part>): set<Name>
    decreases parts, 1
  {
    if parts == [] then {} else QualifiedPart(parts[0]) + QualifiedParts(parts[1..])
  }

  function QualifiedPart(part: Part): set<Name>
    decreases part, 0
  {
    match part
    case Ref(name, qualified) => if qualified then {name} else {}
    case Sub(query) => Qualified(query)
  }

  /** A WITH list binds each name once. */
  ghost predicate WellFormed(q: Query)
    decreases q, 0
  {
    && DistinctNames(q.ctes)
    && (forall i :: 0 <= i < |q.ctes| ==> WellFormedCte(q.ctes[i]))
    && (forall i :: 0 <= i < |q.parts| ==> WellFormedPart(q.parts[i]))
  }

  ghost predicate WellFormedCte(c: Cte)
    decreases c, 0
  {
    WellFormed(c.definition)
  }

  ghost predicate WellFormedPart(part: Part)
    decreases part, 0
  {
    part.Sub? ==> WellFormed(part.query)
  }

  /** Accepted by the checks of every WITH list, at any depth. */
  predicate Accepted(q: Query)
    decreases q, 0
  {
    && NoForwardReference(q.ctes)
    && Names(q.ctes) !! Qualified(q)
    && (forall i :: 0 <= i < |q.ctes| ==> AcceptedCte(q.ctes[i]))
    && (forall i :: 0 <= i < |q.parts| ==> AcceptedPart(q.parts[i]))
  }

  predicate AcceptedCte(c: Cte)
    decreases c, 0
  {
    Accepted(c.definition)
  }

  predicate AcceptedPart(part: Part)
    decreases part, 0
  {
    part.Sub? ==> Accepted(part.query)
  }

  /** A hypothesis about the queries that reach SQLite: only recursive CTEs refer to themselves. */
  ghost predicate Prepares(q: Query)
    decreases q, 0
  {
    && (forall i :: 0 <= i < |q.ctes| ==> PreparesCte(q.ctes[i]))
    && (forall i :: 0 <= i < |q.parts| ==> PreparesPart(q.parts[i]))
  }

  ghost predicate PreparesCte(c: Cte)
    decreases c, 0
  {
    (!c.definition.recursive ==> c.name !in Free(c.definition)) && Prepares(c.definition)
  }

  ghost predicate PreparesPart(part: Part)
    decreases part, 0
  {
    part.Sub? ==> Prepares(part.query)
  }

  method AcceptQuery(q: Query) returns (ok: bool)
    requires WellFormed(q)
    ensures ok == Accepted(q)
    decreases q
  {
    if !(Names(q.ctes) !! Qualified(q)) {
      return false;
    }
    ok := CheckCteMap(q.ctes);
    if !ok {
      return false;
    }
    for i := 0 to |q.ctes|
      invariant forall k :: 0 <= k < i ==> AcceptedCte(q.ctes[k])
    {
      assert WellFormedCte(q.ctes[i]);
      var c := q.ctes[i];
      assert c < q;
      ok := AcceptQuery(c.definition);
      if !ok {
        assert !AcceptedCte(q.ctes[i]);
        return false;
      }
    }
    for i := 0 to |q.parts|
      invariant forall k :: 0 <= k < i ==> AcceptedPart(q.parts[k])
    {
      assert WellFormedPart(q.parts[i]);
      if q.parts[i].Sub? {
        var part := q.parts[i];
        assert part < q;
        ok := AcceptQuery(part.query);
        if !ok {
          assert !AcceptedPart(q.parts[i]);
          return false;
        }
      }
    }
    return true;
  }

  // ----- the two scoping rules agree on accepted queries

  lemma {:induction false} BindLookup(env: Env, ctes: seq<Cte>, path: seq<nat>, k: nat)
    requires DistinctNames(ctes)
    ensures forall i :: 0 <= i < |ctes| ==> Lookup(Bind(env, ctes, path, k), ctes[i].name) == Some(path + [k + i])
    ensures forall n :: n !in Names(ctes) ==> Lookup(Bind(env, ctes, path, k), n) == Lookup(env, n)
    decreases |ctes|
  {
    if ctes != [] {
      var rest, inner := ctes[1..], env[ctes[0].name := path + [k]];
      BindLookup(inner, rest, path, k + 1);
      NamesCons(ctes);
      assert forall i :: 0 < i < |ctes| ==> ctes[i] == rest[i - 1];
      assert ctes[0].name !in Names(rest);
    }
  }

  lemma NamesCons(ctes: seq<Cte>)
    requires ctes != []
    ensures Names(ctes) == {ctes[0].name} + Names(ctes[1..])
  {
  }

  /** What holds of the members of a WITH list, for the part of the list that is left. */
  ghost predicate ListOk(ctes: seq<Cte>) {
    && DistinctNames(ctes)
    && NoForwardReference(ctes)
    && (forall i :: 0 <= i < |ctes| ==> WellFormedCte(ctes[i]) && AcceptedCte(ctes[i]) && PreparesCte(ctes[i]))
  }

  lemma ListOkTail(ctes: seq<Cte>)
    requires ctes != [] && ListOk(ctes)
    ensures ListOk(ctes[1..])
  {
  }

  /** No name of the list is free in the list. */
  lemma {:induction false} ListIsClosed(ctes: seq<Cte>)
    requires ListOk(ctes)
    ensures FreeCtes(ctes) !! Names(ctes)
    decreases |ctes|
  {
    if ctes != [] {
      ListOkTail(ctes);
      ListIsClosed(ctes[1..]);
      NamesCons(ctes);
      assert PreparesCte(ctes[0]) && !RefersTo(ctes[0].definition, Names(ctes[0 + 1..]));
      RefersToIsFree(ctes[0].definition, Names(ctes[1..]));
    }
  }

  lemma {:induction false} AgreeCtes(ctes: seq<Cte>, duck: Env, sqlite: Env, path: seq<nat>, k: nat)
    requires ListOk(ctes)
    requires forall n :: n in FreeCtes(ctes) ==> Lookup(duck, n) == Lookup(sqlite, n)
    requires forall i :: 0 <= i < |ctes| ==> Lookup(sqlite, ctes[i].name) == Some(path + [k + i])
    requires sqlite.Keys !! QualifiedCtes(ctes)
    ensures DuckCtes(ctes, duck, path, k) == SqliteCtes(ctes, sqlite, path, k)
    decreases ctes, 1
  {
    if ctes != [] {
      var c, rest := ctes[0], ctes[1..];
      var visible := duck[c.name := path + [k]];
      assert Lookup(sqlite, c.name) == Some(path + [k + 0]);
      assert WellFormedCte(c) && AcceptedCte(c) && PreparesCte(c);
      AgreeCte(c, duck, sqlite, path, k);
      ListOkTail(ctes);
      assert forall i :: 0 <= i < |rest| ==> rest[i] == ctes[i + 1];
      AgreeCtes(rest, visible, sqlite, path, k + 1);
    }
  }

  lemma {:induction false} AgreeCte(c: Cte, duck: Env, sqlite: Env, path: seq<nat>, k: nat)
    requires WellFormedCte(c) && AcceptedCte(c) && PreparesCte(c)
    requires forall n :: n in FreeCte(c) ==> Lookup(duck, n) == Lookup(sqlite, n)
    requires Lookup(sqlite, c.name) == Some(path + [k])
    requires sqlite.Keys !! QualifiedCte(c)
    ensures DuckCte(c, duck, path, k) == SqliteCte(c, sqlite, path, k)
    decreases c, 0
  {
    var env := if c.definition.recursive then duck[c.name := path + [k]] else duck;
    AgreeQuery(c.definition, env, sqlite, path + [0, k]);
  }

  lemma {:induction false} AgreeParts(parts: seq<Part>, duck: Env, sqlite: Env, path: seq<nat>, k: nat)
    requires forall i :: 0 <= i < |parts| ==>
               WellFormedPart(parts[i]) && AcceptedPart(parts[i]) && PreparesPart(parts[i])
    requires forall n :: n in FreeParts(parts) ==> Lookup(duck, n) == Lookup(sqlite, n)
    requires sqlite.Keys !! QualifiedParts(parts)
    ensures DuckParts(parts, duck, path, k) == SqliteParts(parts, sqlite, path, k)
    decreases parts, 1
  {
    if parts != [] {
      AgreePart(parts[0], duck, sqlite, path, k);
      AgreeParts(parts[1..], duck, sqlite, path, k + 1);
    }
  }

  lemma {:induction false} AgreePart(part: Part, duck: Env, sqlite: Env, path: seq<nat>, k: nat)
    requires WellFormedPart(part) && AcceptedPart(part) && PreparesPart(part)
    requires forall n :: n in FreePart(part) ==> Lookup(duck, n) == Lookup(sqlite, n)
    requires sqlite.Keys !! QualifiedPart(part)
    ensures DuckPart(part, duck, path, k) == SqlitePart(part, sqlite, path, k)
    decreases part, 0
  {
    match part
    case Ref(name, qualified) =>
      if qualified {
        assert name in QualifiedPart(part);
      } else {
        assert name in FreePart(part);
      }
    case Sub(query) => AgreeQuery(query, duck, sqlite, path + [1, k]);
  }

  lemma {:induction false} AgreeQuery(q: Query, duck: Env, sqlite: Env, path: seq<nat>)
    requires WellFormed(q) && Accepted(q) && Prepares(q)
    requires forall n :: n in Free(q) ==> Lookup(duck, n) == Lookup(sqlite, n)
    requires sqlite.Keys !! Qualified(q)
    ensures DuckQuery(q, duck, path) == SqliteQuery(q, sqlite, path)
    decreases q, 0
  {
    hide Bind, NoForwardReference, DistinctNames, FreeCtes, FreeParts, DuckCtes, SqliteCtes, DuckParts, SqliteParts,
      QualifiedCtes, QualifiedParts;
    var innerDuck, innerSqlite := Bind(duck, q.ctes, path, 0), Bind(sqlite, q.ctes, path, 0);
    BindLookup(duck, q.ctes, path, 0);
    BindLookup(sqlite, q.ctes, path, 0);
    ListIsClosed(q.ctes);
    AgreeCtes(q.ctes, duck, innerSqlite, path, 0);
    forall n | n in FreeParts(q.parts)
      ensures Lookup(innerDuck, n) == Lookup(innerSqlite, n)
    {
      if n in Names(q.ctes) {
        var i :| 0 <= i < |q.ctes| && q.ctes[i].name == n;
      }
    }
    AgreeParts(q.parts, innerDuck, innerSqlite, path, 0);
  }

  /** Without such self-references, every reference of an accepted query is to the same CTE or table in both systems. */
  lemma SameReferences(q: Query)
    requires WellFormed(q) && Accepted(q) && Prepares(q)
    ensures DuckQuery(q, map[], []) == SqliteQuery(q, map[], [])
  {
    AgreeQuery(q, map[], map[], []);
  }

  // ----- and the checks refuse no query without need

  lemma {:induction false} SameLength(q: Query, duck: Env, sqlite: Env, path: seq<nat>)
    ensures |DuckQuery(q, duck, path)| == |SqliteQuery(q, sqlite, path)|
    decreases q, 0
  {
    SameLengthCtes(q.ctes, duck, Bind(sqlite, q.ctes, path, 0), path, 0);
    SameLengthParts(q.parts, Bind(duck, q.ctes, path, 0), Bind(sqlite, q.ctes, path, 0), path, 0);
  }

  lemma {:induction false} SameLengthCtes(ctes: seq<Cte>, duck: Env, sqlite: Env, path: seq<nat>, k: nat)
    ensures |DuckCtes(ctes, duck, path, k)| == |SqliteCtes(ctes, sqlite, path, k)|
    decreases ctes, 1
  {
    if ctes != [] {
      SameLengthCte(ctes[0], duck, sqlite, path, k);
      SameLengthCtes(ctes[1..], duck[ctes[0].name := path + [k]], sqlite, path, k + 1);
    }
  }

  lemma {:induction false} SameLengthCte(c: Cte, duck: Env, sqlite: Env, path: seq<nat>, k: nat)
    ensures |DuckCte(c, duck, path, k)| == |SqliteCte(c, sqlite, path, k)|
    decreases c, 0
  {
    SameLength(c.definition, if c.definition.recursive then duck[c.name := path + [k]] else duck, sqlite, path + [0, k]);
  }

  lemma {:induction false} SameLengthParts(parts: seq<Part>, duck: Env, sqlite: Env, path: seq<nat>, k: nat)
    ensures |DuckParts(parts, duck, path, k)| == |SqliteParts(parts, sqlite, path, k)|
    decreases parts, 1
  {
    if parts != [] {
      SameLengthPart(parts[0], duck, sqlite, path, k);
      SameLengthParts(parts[1..], duck, sqlite, path, k + 1);
    }
  }

  lemma {:induction false} SameLengthPart(part: Part, duck: Env, sqlite: Env, path: seq<nat>, k: nat)
    ensures |DuckPart(part, duck, path, k)| == |SqlitePart(part, sqlite, path, k)|
    decreases part, 0
  {
    if part.Sub? {
      SameLength(part.query, duck, sqlite, path + [1, k]);
    }
  }

  lemma SplitEqual(a: seq<Binding>, b: seq<Binding>, c: seq<Binding>, d: seq<Binding>)
    requires a + b == c + d && |a| == |c|
    ensures a == c && b == d
  {
    assert a == (a + b)[..|a|] && c == (c + d)[..|c|];
    assert b == (a + b)[|a|..] && d == (c + d)[|c|..];
  }

  /** The CTEs that DuckDB sees from outside of a node are defined further up. */
  ghost predicate Above(env: Env, path: seq<nat>) {
    forall n :: n in env ==> |env[n]| <= |path|
  }

  /** What the agreement of references says of free names and of qualified ones. */
  ghost predicate Agrees(free: set<Name>, qualified: set<Name>, duck: Env, sqlite: Env) {
    (forall n :: n in free ==> Lookup(duck, n) == Lookup(sqlite, n)) && sqlite.Keys !! qualified
  }

  /** When all references of a query agree, its checks accept it and its surroundings agree on its names. */
  lemma {:induction false} AgreementAccepts(q: Query, duck: Env, sqlite: Env, path: seq<nat>)
    requires WellFormed(q) && Prepares(q) && Above(duck, path)
    requires DuckQuery(q, duck, path) == SqliteQuery(q, sqlite, path)
    ensures Accepted(q) && Agrees(Free(q), Qualified(q), duck, sqlite)
    decreases q, 0
  {
    var innerDuck, innerSqlite := Bind(duck, q.ctes, path, 0), Bind(sqlite, q.ctes, path, 0);
    BindLookup(duck, q.ctes, path, 0);
    BindLookup(sqlite, q.ctes, path, 0);
    SameLengthCtes(q.ctes, duck, innerSqlite, path, 0);
    SplitEqual(DuckCtes(q.ctes, duck, path, 0), DuckParts(q.parts, innerDuck, path, 0),
               SqliteCtes(q.ctes, innerSqlite, path, 0), SqliteParts(q.parts, innerSqlite, path, 0));
    ListAccepts(q, duck, sqlite, path);
    BindAbove(duck, q.ctes, path, 0);
    AgreementAcceptsParts(q.parts, innerDuck, innerSqlite, path, 0);
  }

  lemma ListAccepts(q: Query, duck: Env, sqlite: Env, path: seq<nat>)
    requires WellFormed(q) && Prepares(q) && Above(duck, path)
    requires DuckCtes(q.ctes, duck, path, 0) == SqliteCtes(q.ctes, Bind(sqlite, q.ctes, path, 0), path, 0)
    ensures NoForwardReference(q.ctes) && forall i :: 0 <= i < |q.ctes| ==> AcceptedCte(q.ctes[i])
    ensures FreeCtes(q.ctes) !! Names(q.ctes)
    ensures Agrees(FreeCtes(q.ctes), QualifiedCtes(q.ctes), duck, Bind(sqlite, q.ctes, path, 0))
    decreases q.ctes, 2
  {
    hide Bind, NoForwardReference, DistinctNames, FreeCtes, DuckCtes, SqliteCtes, QualifiedCtes;
    var visible := Bind(sqlite, q.ctes, path, 0);
    BindLookup(sqlite, q.ctes, path, 0);
    AgreementAcceptsCtes(q.ctes, duck, visible, path, 0);
    ListIsClosed(q.ctes);
  }

  /** The rest of a WITH list, of which SQLite sees all and DuckDB nothing yet. */
  lemma {:induction false} AgreementAcceptsCtes(ctes: seq<Cte>, duck: Env, sqlite: Env, path: seq<nat>, k: nat)
    requires DistinctNames(ctes) && forall i :: 0 <= i < |ctes| ==> WellFormedCte(ctes[i]) && PreparesCte(ctes[i])
    requires forall n :: n in duck ==> |duck[n]| <= |path| || exists i :: 0 <= i < k && duck[n] == path + [i]
    requires forall i :: 0 <= i < |ctes| ==> Lookup(sqlite, ctes[i].name) == Some(path + [k + i])
    requires DuckCtes(ctes, duck, path, k) == SqliteCtes(ctes, sqlite, path, k)
    ensures ListOk(ctes) && Agrees(FreeCtes(ctes), QualifiedCtes(ctes), duck, sqlite)
    decreases ctes, 1
  {
    if ctes != [] {
      var c, rest := ctes[0], ctes[1..];
      var visible := duck[c.name := path + [k]];
      assert Lookup(sqlite, c.name) == Some(path + [k + 0]);
      assert WellFormedCte(c) && PreparesCte(c);
      SameLengthCte(c, duck, sqlite, path, k);
      SplitEqual(DuckCte(c, duck, path, k), DuckCtes(rest, visible, path, k + 1),
                 SqliteCte(c, sqlite, path, k), SqliteCtes(rest, sqlite, path, k + 1));
      AgreementAcceptsCte(c, duck, sqlite, path, k);
      assert forall i :: 0 <= i < |rest| ==> rest[i] == ctes[i + 1];
      AgreementAcceptsCtes(rest, visible, sqlite, path, k + 1);
      NothingLater(ctes, duck, sqlite, path, k);
    }
  }

  /** The first definition does not refer to a later CTE, where DuckDB cannot see it. */
  lemma NothingLater(ctes: seq<Cte>, duck: Env, sqlite: Env, path: seq<nat>, k: nat)
    requires ctes != [] && DistinctNames(ctes) && ListOk(ctes[1..])
    requires WellFormedCte(ctes[0]) && AcceptedCte(ctes[0]) && PreparesCte(ctes[0])
    requires forall n :: n in duck ==> |duck[n]| <= |path| || exists i :: 0 <= i < k && duck[n] == path + [i]
    requires forall i :: 0 <= i < |ctes| ==> Lookup(sqlite, ctes[i].name) == Some(path + [k + i])
    requires forall n :: n in FreeCte(ctes[0]) ==> Lookup(duck, n) == Lookup(sqlite, n)
    ensures ListOk(ctes)
  {
    hide Lookup;
    forall n | n in Names(ctes[1..])
      ensures n !in Free(ctes[0].definition)
    {
      var j :| 0 <= j < |ctes[1..]| && ctes[1..][j].name == n;
      LaterDiffers(duck, path, k, n, k + j + 1);
      assert ctes[j + 1].name == n && n != ctes[0].name;
    }
    RefersToIsFree(ctes[0].definition, Names(ctes[1..]));
    forall i | 0 <= i < |ctes|
      ensures !RefersTo(ctes[i].definition, Names(ctes[i + 1..]))
      ensures WellFormedCte(ctes[i]) && AcceptedCte(ctes[i]) && PreparesCte(ctes[i])
    {
      if i > 0 {
        assert ctes[1..][i - 1] == ctes[i] && ctes[1..][i..] == ctes[i + 1..];
      }
    }
  }

  lemma LaterDiffers(duck: Env, path: seq<nat>, k: nat, n: Name, j: nat)
    requires forall m :: m in duck ==> |duck[m]| <= |path| || exists i :: 0 <= i < k && duck[m] == path + [i]
    requires k <= j
    ensures Lookup(duck, n) != Some(path + [j])
  {
    assert forall i :: 0 <= i < k ==> (path + [i])[|path|] != (path + [j])[|path|];
  }

  lemma {:induction false} AgreementAcceptsCte(c: Cte, duck: Env, sqlite: Env, path: seq<nat>, k: nat)
    requires WellFormedCte(c) && PreparesCte(c) && Above(duck, path + [k])
    requires Lookup(sqlite, c.name) == Some(path + [k])
    requires DuckCte(c, duck, path, k) == SqliteCte(c, sqlite, path, k)
    ensures AcceptedCte(c) && Agrees(FreeCte(c), QualifiedCte(c), duck, sqlite)
    decreases c, 0
  {
    var env := if c.definition.recursive then duck[c.name := path + [k]] else duck;
    AgreementAccepts(c.definition, env, sqlite, path + [0, k]);
  }

  lemma {:induction false} AgreementAcceptsParts(parts: seq<Part>, duck: Env, sqlite: Env, path: seq<nat>, k: nat)
    requires forall i :: 0 <= i < |parts| ==> WellFormedPart(parts[i]) && PreparesPart(parts[i])
    requires Above(duck, path + [0])
    requires DuckParts(parts, duck, path, k) == SqliteParts(parts, sqlite, path, k)
    ensures forall i :: 0 <= i < |parts| ==> AcceptedPart(parts[i])
    ensures Agrees(FreeParts(parts), QualifiedParts(parts), duck, sqlite)
    decreases parts, 1
  {
    if parts != [] {
      SameLengthPart(parts[0], duck, sqlite, path, k);
      SplitEqual(DuckPart(parts[0], duck, path, k), DuckParts(parts[1..], duck, path, k + 1),
                 SqlitePart(parts[0], sqlite, path, k), SqliteParts(parts[1..], sqlite, path, k + 1));
      AgreementAcceptsPart(parts[0], duck, sqlite, path, k);
      AgreementAcceptsParts(parts[1..], duck, sqlite, path, k + 1);
      assert forall i :: 0 < i < |parts| ==> parts[i] == parts[1..][i - 1];
    }
  }

  lemma {:induction false} AgreementAcceptsPart(part: Part, duck: Env, sqlite: Env, path: seq<nat>, k: nat)
    requires WellFormedPart(part) && PreparesPart(part) && Above(duck, path + [0])
    requires DuckPart(part, duck, path, k) == SqlitePart(part, sqlite, path, k)
    ensures AcceptedPart(part) && Agrees(FreePart(part), QualifiedPart(part), duck, sqlite)
    decreases part, 0
  {
    match part
    case Ref(name, qualified) =>
      assert DuckPart(part, duck, path, k)[0] == SqlitePart(part, sqlite, path, k)[0];
    case Sub(query) => AgreementAccepts(query, duck, sqlite, path + [1, k]);
  }

  lemma {:induction false} BindAbove(env: Env, ctes: seq<Cte>, path: seq<nat>, k: nat)
    requires Above(env, path + [0])
    ensures Above(Bind(env, ctes, path, k), path + [0])
    decreases |ctes|
  {
    if ctes != [] {
      BindAbove(env[ctes[0].name := path + [k]], ctes[1..], path, k + 1);
    }
  }

  /** Exactly the accepted queries have the same references in both systems. */
  lemma AcceptedExactly(q: Query)
    requires WellFormed(q) && Prepares(q)
    ensures Accepted(q) <==> DuckQuery(q, map[], []) == SqliteQuery(q, map[], [])
  {
    if Accepted(q) {
      SameReferences(q);
    }
    if DuckQuery(q, map[], []) == SqliteQuery(q, map[], []) {
      AgreementAccepts(q, map[], map[], []);
    }
  }

  /** A definition that uses the name of a later CTE does refer to something else in SQLite. */
  lemma ForwardReferenceMatters(q: Query)
    requires DistinctNames(q.ctes) && !NoForwardReference(q.ctes)
    requires forall i :: 0 <= i < |q.ctes| ==> WellFormedCte(q.ctes[i]) && PreparesCte(q.ctes[i])
    ensures DuckQuery(q, map[], []) != SqliteQuery(q, map[], [])
  {
    hide Bind, DuckCtes, DuckParts, SqliteCtes, SqliteParts, NoForwardReference;
    if DuckQuery(q, map[], []) == SqliteQuery(q, map[], []) {
      var sqlite := Bind(map[], q.ctes, [], 0);
      BindLookup(map[], q.ctes, [], 0);
      SameLengthCtes(q.ctes, map[], sqlite, [], 0);
      SplitEqual(DuckCtes(q.ctes, map[], [], 0), DuckParts(q.parts, sqlite, [], 0),
                 SqliteCtes(q.ctes, sqlite, [], 0), SqliteParts(q.parts, sqlite, [], 0));
      AgreementAcceptsCtes(q.ctes, map[], sqlite, [], 0);
    }
  }
}
