/**
  The lifetime of the per-context VFS wrappers: a registry of live wrappers and a list of retired ones, with a count of
  open handles per wrapper, all of it changed under one mutex.
 */
module VfsRegistry {
  type Context = nat
  type WrapperId = nat

  datatype Wrapper = Wrapper(context: Context, openFileCount: nat, pendingUnregister: bool)

  /** What the mutex guards. The heap holds the wrappers that have not been freed. */
  datatype Shared = Shared(
    heap: map<WrapperId, Wrapper>,
    nextId: WrapperId,
    registry: map<Context, WrapperId>,
    retired: seq<WrapperId>)

  /** How registering a new VFS with SQLite ends. */
  datatype RegisterOutcome = Registered | NoDefaultVfs | OutOfMemory | Rejected

  // ----- the operations as functions of the guarded state

  predicate Distinct(list: seq<WrapperId>) {
    list == [] || (list[0] !in list[1..] && Distinct(list[1..]))
  }

  lemma {:induction false} DistinctAt(list: seq<WrapperId>, k: nat)
    requires Distinct(list) && k < |list|
    ensures list[k] !in list[..k]
  {
    if k > 0 {
      DistinctAt(list[1..], k - 1);
      assert list[..k] == [list[0]] + list[1..][..k - 1];
    }
  }

  /** The retired list owns its wrappers, each once, and new wrappers are new. */
  ghost predicate Owned(g: Shared) {
    && (forall w :: w in g.retired ==> w in g.heap)
    && Distinct(g.retired)
    && (forall w :: w in g.heap ==> w < g.nextId)
  }

  predicate IsBusy(heap: map<WrapperId, Wrapper>, w: WrapperId) {
    w in heap && heap[w].openFileCount != 0
  }

  /** The wrappers of a list that have open handles, in order. */
  function Busy(heap: map<WrapperId, Wrapper>, list: seq<WrapperId>): (r: seq<WrapperId>)
    ensures forall w :: w in r <==> w in list && IsBusy(heap, w)
  {
    if list == [] then []
    else if IsBusy(heap, list[0]) then [list[0]] + Busy(heap, list[1..])
    else Busy(heap, list[1..])
  }

  lemma {:induction false} BusySnoc(heap: map<WrapperId, Wrapper>, list: seq<WrapperId>, w: WrapperId)
    ensures Busy(heap, list + [w]) == Busy(heap, list) + if IsBusy(heap, w) then [w] else []
  {
    if list != [] {
      assert (list + [w])[1..] == list[1..] + [w];
      BusySnoc(heap, list[1..], w);
    }
  }

  function Idle(heap: map<WrapperId, Wrapper>, list: seq<WrapperId>): set<WrapperId> {
    set w | w in list && !IsBusy(heap, w)
  }

  lemma ReapNone(heap: map<WrapperId, Wrapper>)
    ensures Busy(heap, []) == [] && Idle(heap, []) == {}
  {
  }

  lemma ReapOne(heap: map<WrapperId, Wrapper>, list: seq<WrapperId>, k: nat)
    requires k < |list| && Distinct(list)
    ensures list[k] !in Idle(heap, list[..k])
    ensures !IsBusy(heap, list[k]) ==>
              && Idle(heap, list[..k + 1]) == Idle(heap, list[..k]) + {list[k]}
              && Busy(heap, list[..k + 1]) == Busy(heap, list[..k])
    ensures IsBusy(heap, list[k]) ==>
              && Idle(heap, list[..k + 1]) == Idle(heap, list[..k])
              && Busy(heap, list[..k + 1]) == Busy(heap, list[..k]) + [list[k]]
  {
    assert list[..k + 1] == list[..k] + [list[k]];
    BusySnoc(heap, list[..k], list[k]);
    DistinctAt(list, k);
  }

  lemma Splice(a: seq<WrapperId>, list: seq<WrapperId>, k: nat)
    requires k < |list|
    ensures (a + list[k..])[|a|] == list[k]
    ensures (a + list[k..])[..|a|] + (a + list[k..])[|a| + 1..] == a + list[k + 1..]
    ensures a + list[k..] == (a + [list[k]]) + list[k + 1..]
  {
  }

  /** Frees the retired wrappers without open handles. */
  ghost function Reaped(g: Shared): Shared
    requires Owned(g)
  {
    g.(heap := g.heap - Idle(g.heap, g.retired), retired := Busy(g.heap, g.retired))
  }

  ghost function AfterRegister(g: Shared, context: Context, outcome: RegisterOutcome): Shared
    requires Owned(g)
  {
    var r := Reaped(g);
    if context in r.registry || outcome == NoDefaultVfs || outcome == OutOfMemory then r
    else if outcome == Rejected then r.(nextId := r.nextId + 1)
    else r.(heap := r.heap[r.nextId := Wrapper(context, 0, false)],
            nextId := r.nextId + 1,
            registry := r.registry[context := r.nextId])
  }

  ghost function AfterUnregister(g: Shared, context: Context): Shared
    requires Owned(g)
    requires context in g.registry ==> g.registry[context] in Reaped(g).heap
  {
    var r := Reaped(g);
    if context !in r.registry then r else
    var w := r.registry[context];
    r.(heap := r.heap[w := r.heap[w].(pendingUnregister := true)],
       retired := r.retired + [w],
       registry := r.registry - {context})
  }

  function AfterReserve(g: Shared, w: WrapperId): Shared
    requires w in g.heap
  {
    g.(heap := g.heap[w := g.heap[w].(openFileCount := g.heap[w].openFileCount + 1)])
  }

  function Without(list: seq<WrapperId>, w: WrapperId): (r: seq<WrapperId>)
    ensures forall v :: v in r ==> v in list
    ensures forall v :: v in list && v != w ==> v in r
  {
    if list == [] then [] else if list[0] == w then list[1..] else [list[0]] + Without(list[1..], w)
  }

  lemma {:induction false} WithoutAt(list: seq<WrapperId>, w: WrapperId, i: nat)
    requires i < |list| && list[i] == w && w !in list[..i]
    ensures Without(list, w) == list[..i] + list[i + 1..]
  {
    if i > 0 {
      assert list[..i] == [list[0]] + list[1..][..i - 1];
      WithoutAt(list[1..], w, i - 1);
    }
  }

  function AfterRelease(g: Shared, w: WrapperId): Shared
    requires w in g.heap && g.heap[w].openFileCount > 0
  {
    var count := g.heap[w].openFileCount - 1;
    if count == 0 && g.heap[w].pendingUnregister && w in g.retired then
      g.(heap := g.heap - {w}, retired := Without(g.retired, w))
    else
      g.(heap := g.heap[w := g.heap[w].(openFileCount := count)])
  }

  /**
    What registering a context does to the registry: a new context gets a new idle wrapper if SQLite takes it, and
    nothing else changes.
   */
  ghost predicate Registers(g: Shared, context: Context, outcome: RegisterOutcome, h: Shared) {
    && (context !in g.registry && outcome == Registered ==>
          && context in h.registry && h.registry[context] in h.heap && h.registry[context] !in g.heap
          && h.heap[h.registry[context]] == Wrapper(context, 0, false)
          && h.registry - {context} == g.registry)
    && (context in g.registry || outcome != Registered ==> h.registry == g.registry)
    && (forall w :: w in h.heap && w in g.heap ==> h.heap[w] == g.heap[w])
    && (forall w :: w in h.heap && w !in g.heap ==> context !in g.registry && outcome == Registered && h.heap[w].context == context)
    && (forall w :: w in g.heap && w !in h.heap ==> w in g.retired && g.heap[w].openFileCount == 0)
  }

  /** What tearing a context down does to it: its wrapper is the last of the retired ones, marked and with its handles. */
  ghost predicate Retires(g: Shared, context: Context, h: Shared) {
    && h.registry == g.registry - {context}
    && (context in g.registry ==>
          var w := g.registry[context];
          && w in g.heap && w in h.heap && h.heap[w] == g.heap[w].(pendingUnregister := true)
          && h.retired != [] && h.retired[|h.retired| - 1] == w)
    && (forall w :: w in h.heap ==> w in g.heap)
    && (forall w :: w in h.heap && !(context in g.registry && g.registry[context] == w) ==> h.heap[w] == g.heap[w])
    && (forall w :: w in g.heap && w !in h.heap ==> w in g.retired && g.heap[w].openFileCount == 0)
  }

  // ----- the operations as they change the registry in place

  class RegistryData {
    var heap: map<WrapperId, Wrapper>
    var nextId: WrapperId
    var registry: map<Context, WrapperId>
    var retired: seq<WrapperId>

    ghost function View(): Shared
      reads this
    {
      Shared(heap, nextId, registry, retired)
    }

    constructor ()
      ensures View() == Shared(map[], 0, map[], [])
    {
      heap, nextId, registry, retired := map[], 0, map[], [];
    }

    method ReapIdleRetiredWrappers()
      requires Owned(View())
      modifies this
      ensures View() == Reaped(old(View()))
    {
      hide Busy, Idle, Distinct;
      ghost var list, heap0 := retired, heap;
      ReapNone(heap0);
      ghost var k := 0;
      assert list[..0] == [];
      var i := 0;
      while i < |retired|
        invariant k <= |list| && i == |Busy(heap0, list[..k])|
        invariant retired == Busy(heap0, list[..k]) + list[k..]
        invariant heap == heap0 - Idle(heap0, list[..k])
        invariant nextId == old(nextId) && registry == old(registry)
        decreases |list| - k
      {
        assert k < |list|;
        ReapOne(heap0, list, k);
        Splice(Busy(heap0, list[..k]), list, k);
        if heap[retired[i]].openFileCount == 0 {
          heap := heap - {retired[i]};
          retired := retired[..i] + retired[i + 1..];
        } else {
          i := i + 1;
        }
        k := k + 1;
      }
      assert list[..k] == list;
    }

    method Register(context: Context, outcome: RegisterOutcome) returns (ok: bool)
      requires Owned(View())
      modifies this
      ensures View() == AfterRegister(old(View()), context, outcome)
      ensures Registers(old(View()), context, outcome, View())
      ensures ok == (context in old(registry) || outcome == Registered)
    {
      ReapIdleRetiredWrappers();
      if context in registry {
        return true;
      }
      if outcome == NoDefaultVfs || outcome == OutOfMemory {
        return false;
      }
      var w := nextId;
      nextId := nextId + 1;
      heap := heap[w := Wrapper(context, 0, false)];
      registry := registry[context := w];
      if outcome == Rejected {
        // the wrapper was never handed to SQLite: it is freed together with its registry entry
        registry := registry - {context};
        heap := heap - {w};
        return false;
      }
      return true;
    }

    method Unregister(context: Context)
      requires Owned(View())
      requires context in registry ==> registry[context] in Reaped(View()).heap
      modifies this
      ensures View() == AfterUnregister(old(View()), context)
      ensures Retires(old(View()), context, View())
    {
      ReapIdleRetiredWrappers();
      if context !in registry {
        return;
      }
      var w := registry[context];
      heap := heap[w := heap[w].(pendingUnregister := true)];
      retired := retired + [w];
      registry := registry - {context};
    }

    method Reserve(w: WrapperId)
      requires w in heap
      modifies this
      ensures View() == AfterReserve(old(View()), w)
    {
      heap := heap[w := heap[w].(openFileCount := heap[w].openFileCount + 1)];
    }

    method ReleaseWrapperHandle(w: WrapperId)
      requires w in heap && heap[w].openFileCount > 0
      modifies this
      ensures View() == AfterRelease(old(View()), w)
    {
      heap := heap[w := heap[w].(openFileCount := heap[w].openFileCount - 1)];
      if heap[w].openFileCount == 0 && heap[w].pendingUnregister {
        ghost var list := retired;
        var i := 0;
        while i < |retired| && retired[i] != w
          invariant i <= |retired|
          invariant w !in list[..i]
        {
          i := i + 1;
        }
        if i < |retired| {
          WithoutAt(list, w, i);
          retired := retired[..i] + retired[i + 1..];
          heap := heap - {w};
        } else {
          assert list[..i] == list;
        }
      }
    }
  }
}
