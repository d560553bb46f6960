/**
  Every interleaving of registrations, teardowns, opens and closes over the VFS registry. An open is not atomic: SQLite
  resolves the VFS by name, calls xOpen, which reserves a handle under the mutex and publishes (or abandons) the file,
  reads the header, and asks the VFS for its last error when anything failed.
 */
module VfsProtocol {
  import opened VfsRegistry

  type OpenId = nat
  type FileId = nat

  /** How far an sqlite3_open_v2 call is: the VFS resolved, a handle reserved, the file opened, or something failed. */
  datatype Phase = Resolved | Reserved | Opened | Failing

  /** An sqlite3_open_v2 call that has resolved the VFS and not returned. */
  datatype Opening = Opening(context: Context, wrapper: WrapperId, phase: Phase) {
    predicate Holds() {
      phase == Reserved || phase == Opened
    }
  }

  datatype State = State(shared: Shared, openings: map<OpenId, Opening>, files: map<FileId, WrapperId>)

  datatype Step =
    | Register(context: Context, outcome: RegisterOutcome)
    | Unregister(context: Context)
    | Resolve(open: OpenId, context: Context)
    | Refuse(open: OpenId)
    | Reserve(open: OpenId)
    | Abandon(open: OpenId)
    | Publish(open: OpenId)
    | ReadHeader(open: OpenId)
    | CloseFailed(open: OpenId)
    | Return(open: OpenId, file: FileId)
    | Fail(open: OpenId)
    | Access(file: FileId)
    | Close(file: FileId)

  const INITIAL := State(Shared(map[], 0, map[], []), map[], map[])

  /** No open of the context is in flight. */
  predicate Quiescent(s: State, context: Context) {
    forall o :: o in s.openings ==> s.openings[o].context != context
  }

  predicate Is(s: State, o: OpenId, phase: Phase) {
    o in s.openings && s.openings[o].phase == phase
  }

  /** When a step can happen at all; `guarded` says whether teardown waits for quiescence. */
  predicate Enabled(s: State, step: Step, guarded: bool) {
    match step
    case Register(_, _) => true
    case Unregister(context) => guarded ==> Quiescent(s, context)
    case Resolve(o, context) => o !in s.openings && context in s.shared.registry
    case Refuse(o) => Is(s, o, Resolved)
    case Reserve(o) => Is(s, o, Resolved)
    case Abandon(o) => Is(s, o, Reserved)
    case Publish(o) => Is(s, o, Reserved)
    case ReadHeader(o) => Is(s, o, Opened)
    case CloseFailed(o) => Is(s, o, Opened)
    case Return(o, f) => Is(s, o, Opened) && f !in s.files
    case Fail(o) => Is(s, o, Failing)
    case Access(f) => f in s.files
    case Close(f) => f in s.files
  }

  /** The step of an open finds its wrapper. */
  predicate Finds(s: State, o: OpenId) {
    o in s.openings ==> s.openings[o].wrapper in s.shared.heap
  }

  predicate CanRelease(s: State, w: WrapperId) {
    w in s.shared.heap && s.shared.heap[w].openFileCount > 0
  }

  /** No step may touch a freed wrapper, and no release may find the count at zero. */
  ghost predicate Safe(s: State, step: Step) {
    match step
    case Register(_, _) => Owned(s.shared)
    case Unregister(context) =>
      && Owned(s.shared)
      && (context in s.shared.registry ==> s.shared.registry[context] in Reaped(s.shared).heap)
    case Resolve(_, context) => context in s.shared.registry ==> s.shared.registry[context] in s.shared.heap
    case Refuse(o) => Finds(s, o)
    case Reserve(o) => Finds(s, o)
    case Abandon(o) => o in s.openings ==> CanRelease(s, s.openings[o].wrapper)
    case Publish(o) => Finds(s, o)
    case ReadHeader(o) => Finds(s, o)
    case CloseFailed(o) => o in s.openings ==> CanRelease(s, s.openings[o].wrapper)
    case Return(o, _) => Finds(s, o)
    case Fail(o) => Finds(s, o)
    case Access(f) => f in s.files ==> s.files[f] in s.shared.heap
    case Close(f) => f in s.files ==> CanRelease(s, s.files[f])
  }

  function Move(openings: map<OpenId, Opening>, o: OpenId, phase: Phase): map<OpenId, Opening>
    requires o in openings
  {
    openings[o := openings[o].(phase := phase)]
  }

  ghost function Apply(s: State, step: Step, guarded: bool): State
    requires Enabled(s, step, guarded) && Safe(s, step)
  {
    match step
    case Register(context, outcome) => s.(shared := AfterRegister(s.shared, context, outcome))
    case Unregister(context) => s.(shared := AfterUnregister(s.shared, context))
    case Resolve(o, context) =>
      s.(openings := s.openings[o := Opening(context, s.shared.registry[context], Resolved)])
    case Refuse(o) => s.(openings := Move(s.openings, o, Failing))
    case Reserve(o) =>
      s.(shared := AfterReserve(s.shared, s.openings[o].wrapper), openings := Move(s.openings, o, Reserved))
    case Abandon(o) =>
      s.(shared := AfterRelease(s.shared, s.openings[o].wrapper), openings := Move(s.openings, o, Failing))
    case Publish(o) => s.(openings := Move(s.openings, o, Opened))
    case ReadHeader(_) => s
    case CloseFailed(o) =>
      s.(shared := AfterRelease(s.shared, s.openings[o].wrapper), openings := Move(s.openings, o, Failing))
    case Return(o, f) => s.(openings := s.openings - {o}, files := s.files[f := s.openings[o].wrapper])
    case Fail(o) => s.(openings := s.openings - {o})
    case Access(_) => s
    case Close(f) => s.(shared := AfterRelease(s.shared, s.files[f]), files := s.files - {f})
  }

  // ----- what every step keeps

  ghost function Handles(files: map<FileId, WrapperId>, w: WrapperId): set<FileId> {
    set f | f in files && files[f] == w
  }

  ghost function Reservations(openings: map<OpenId, Opening>, w: WrapperId): set<OpenId> {
    set o | o in openings && openings[o].Holds() && openings[o].wrapper == w
  }

  /** Each wrapper is in exactly one of registry and retired, and retired exactly when it is marked so. */
  ghost predicate Partitioned(g: Shared) {
    && Owned(g)
    && (forall c :: c in g.registry ==>
          g.registry[c] in g.heap && g.heap[g.registry[c]].context == c && !g.heap[g.registry[c]].pendingUnregister)
    && (forall w :: w in g.heap && !g.heap[w].pendingUnregister ==>
          g.heap[w].context in g.registry && g.registry[g.heap[w].context] == w)
    && (forall w :: w in g.heap ==> (g.heap[w].pendingUnregister <==> w in g.retired))
  }

  /** Only the wrapper that was retired last can be idle. */
  ghost predicate OnlyLastIdle(heap: map<WrapperId, Wrapper>, list: seq<WrapperId>) {
    |list| > 1 ==> list[0] in heap && heap[list[0]].openFileCount > 0 && OnlyLastIdle(heap, list[1..])
  }

  /** Files, and opens with a handle, hold on to their wrapper, registered or retired. */
  ghost predicate Held(s: State) {
    && (forall o :: o in s.openings && s.openings[o].Holds() ==> s.openings[o].wrapper in s.shared.heap)
    && (forall f :: f in s.files ==> s.files[f] in s.shared.heap)
  }

  /** The wrapper of an open in flight is registered. */
  ghost predicate AllRegistered(g: Shared, openings: map<OpenId, Opening>) {
    forall o :: o in openings ==>
      openings[o].context in g.registry && g.registry[openings[o].context] == openings[o].wrapper
  }

  /** The count of a wrapper is its open files plus the opens that hold a handle. */
  ghost predicate Counted(s: State) {
    forall w :: w in s.shared.heap ==>
      s.shared.heap[w].openFileCount == |Handles(s.files, w)| + |Reservations(s.openings, w)|
  }

  /** What every safe step keeps, whether or not teardown waits. */
  ghost predicate Core(s: State) {
    Partitioned(s.shared) && OnlyLastIdle(s.shared.heap, s.shared.retired) && Held(s) && Counted(s)
  }

  ghost predicate Inv(s: State) {
    Core(s) && AllRegistered(s.shared, s.openings)
  }

  /** Only an open without a handle can be unsafe. */
  lemma CoreImpliesSafe(s: State, step: Step)
    requires Core(s) && Enabled(s, step, false) && !step.Refuse? && !step.Reserve? && !step.Fail?
    ensures Safe(s, step)
  {
    if step.Abandon? || step.CloseFailed? {
      assert step.open in Reservations(s.openings, s.openings[step.open].wrapper);
    } else if step.Close? {
      assert step.file in Handles(s.files, s.files[step.file]);
    }
  }

  lemma InvImpliesSafe(s: State, step: Step)
    requires Inv(s) && Enabled(s, step, false)
    ensures Safe(s, step)
  {
    if !step.Refuse? && !step.Reserve? && !step.Fail? {
      CoreImpliesSafe(s, step);
    }
  }

  /** Every open file can be used and closed at any time, and every open can go on or fail. */
  lemma AlwaysUsable(s: State, f: FileId, o: OpenId)
    requires Inv(s)
    ensures f in s.files ==> Enabled(s, Access(f), true) && Enabled(s, Close(f), true) && s.files[f] in s.shared.heap
    ensures o in s.openings ==>
              match s.openings[o].phase
              case Resolved => Enabled(s, Reserve(o), true) && Enabled(s, Refuse(o), true)
              case Reserved => Enabled(s, Publish(o), true) && Enabled(s, Abandon(o), true)
              case Opened => Enabled(s, ReadHeader(o), true) && Enabled(s, CloseFailed(o), true)
              case Failing => Enabled(s, Fail(o), true)
  {
  }

  // ----- the guarded state on its own

  ghost predicate SharedInv(g: Shared) {
    Partitioned(g) && OnlyLastIdle(g.heap, g.retired)
  }

  lemma {:induction false} BusyKeeps(heap: map<WrapperId, Wrapper>, list: seq<WrapperId>)
    requires Distinct(list)
    ensures Distinct(Busy(heap, list))
  {
    if list != [] {
      BusyKeeps(heap, list[1..]);
    }
  }

  lemma {:induction false} AllBusy(heap: map<WrapperId, Wrapper>, list: seq<WrapperId>)
    requires forall w :: w in list ==> w in heap && heap[w].openFileCount > 0
    ensures OnlyLastIdle(heap, list)
    ensures forall w :: OnlyLastIdle(heap, list + [w])
  {
    if list != [] {
      AllBusy(heap, list[1..]);
      assert forall w :: (list + [w])[1..] == list[1..] + [w];
    }
  }

  lemma ReapedInv(g: Shared)
    requires SharedInv(g)
    ensures SharedInv(Reaped(g))
    ensures Reaped(g).registry == g.registry && Reaped(g).nextId == g.nextId
    ensures forall w :: w in Reaped(g).heap ==> w in g.heap && Reaped(g).heap[w] == g.heap[w]
    ensures forall w :: w in Reaped(g).retired ==> w in Reaped(g).heap && Reaped(g).heap[w].openFileCount > 0
    ensures forall w :: w in g.heap && (!g.heap[w].pendingUnregister || g.heap[w].openFileCount > 0) ==>
              w in Reaped(g).heap
  {
    BusyKeeps(g.heap, g.retired);
    AllBusy(Reaped(g).heap, Reaped(g).retired);
  }

  lemma {:induction false} DistinctSnoc(list: seq<WrapperId>, w: WrapperId)
    requires Distinct(list) && w !in list
    ensures Distinct(list + [w])
  {
    if list != [] {
      DistinctSnoc(list[1..], w);
      assert (list + [w])[1..] == list[1..] + [w];
    }
  }

  lemma {:induction false} IdleFrame(heap: map<WrapperId, Wrapper>, heap': map<WrapperId, Wrapper>, list: seq<WrapperId>)
    requires OnlyLastIdle(heap, list)
    requires forall w :: w in list && w in heap ==> w in heap' && heap'[w].openFileCount >= heap[w].openFileCount
    ensures OnlyLastIdle(heap', list)
  {
    if |list| > 1 {
      IdleFrame(heap, heap', list[1..]);
    }
  }

  lemma NewWrapper(g: Shared, context: Context)
    requires SharedInv(g) && context !in g.registry
    ensures SharedInv(g.(heap := g.heap[g.nextId := Wrapper(context, 0, false)], nextId := g.nextId + 1,
                         registry := g.registry[context := g.nextId]))
  {
    hide OnlyLastIdle, Distinct;
    IdleFrame(g.heap, g.heap[g.nextId := Wrapper(context, 0, false)], g.retired);
  }

  lemma RegisterShared(g: Shared, context: Context, outcome: RegisterOutcome)
    requires SharedInv(g)
    ensures SharedInv(AfterRegister(g, context, outcome))
  {
    hide OnlyLastIdle, Distinct, Reaped;
    ReapedInv(g);
    if context !in g.registry {
      NewWrapper(Reaped(g), context);
    }
  }

  lemma UnregisterShared(g: Shared, context: Context)
    requires SharedInv(g)
    ensures context in g.registry ==> g.registry[context] in Reaped(g).heap
    ensures SharedInv(AfterUnregister(g, context))
  {
    hide OnlyLastIdle, Distinct, Reaped;
    ReapedInv(g);
    var r, h := Reaped(g), AfterUnregister(g, context);
    if context in r.registry {
      DistinctSnoc(r.retired, r.registry[context]);
      AllBusy(h.heap, r.retired);
    }
  }

  lemma ReserveShared(g: Shared, w: WrapperId)
    requires SharedInv(g) && w in g.heap
    ensures SharedInv(AfterReserve(g, w))
  {
    IdleFrame(g.heap, AfterReserve(g, w).heap, g.retired);
  }

  lemma {:induction false} WithoutKeeps(heap: map<WrapperId, Wrapper>, list: seq<WrapperId>, w: WrapperId)
    requires Distinct(list) && w in list && OnlyLastIdle(heap, list)
    ensures Distinct(Without(list, w)) && w !in Without(list, w)
    ensures OnlyLastIdle(heap - {w}, Without(list, w))
  {
    if list[0] == w {
      IdleFrame(heap, heap - {w}, list[1..]);
    } else {
      WithoutKeeps(heap, list[1..], w);
    }
  }

  lemma {:induction false} IdleLast(heap: map<WrapperId, Wrapper>, heap': map<WrapperId, Wrapper>, list: seq<WrapperId>,
                                    w: WrapperId)
    requires OnlyLastIdle(heap, list) && w in heap && w in heap' && heap' == heap[w := heap'[w]]
    requires (w !in list || heap'[w].openFileCount > 0)
    ensures OnlyLastIdle(heap', list)
  {
    if |list| > 1 {
      IdleLast(heap, heap', list[1..], w);
    }
  }

  lemma ReleaseShared(g: Shared, w: WrapperId)
    requires SharedInv(g) && w in g.heap && g.heap[w].openFileCount > 0
    ensures SharedInv(AfterRelease(g, w))
  {
    if g.heap[w].openFileCount == 1 && w in g.retired {
      WithoutKeeps(g.heap, g.retired, w);
    } else {
      IdleLast(g.heap, AfterRelease(g, w).heap, g.retired, w);
    }
  }

  // ----- each step keeps the invariant

  /** Steps that neither free a wrapper in use nor change its count keep what holds of files and reserved opens. */
  lemma FrameCore(s: State, g: Shared)
    requires Core(s) && SharedInv(g)
    requires forall w :: w in g.heap ==>
               if w in s.shared.heap then g.heap[w].openFileCount == s.shared.heap[w].openFileCount
               else g.heap[w].openFileCount == 0
    requires forall w :: w in s.shared.heap && s.shared.heap[w].openFileCount > 0 ==> w in g.heap
    ensures Core(s.(shared := g))
  {
    forall f | f in s.files
      ensures s.files[f] in g.heap
    {
      assert f in Handles(s.files, s.files[f]);
    }
    forall o | o in s.openings && s.openings[o].Holds()
      ensures s.openings[o].wrapper in g.heap
    {
      assert o in Reservations(s.openings, s.openings[o].wrapper);
    }
    forall w | w in g.heap && w !in s.shared.heap
      ensures Handles(s.files, w) == {} && Reservations(s.openings, w) == {}
    {
    }
  }

  /** Registering frees only idle retired wrappers, and adds only an idle one. */
  lemma RegisterFrame(g: Shared, context: Context, outcome: RegisterOutcome)
    requires SharedInv(g)
    ensures var h := AfterRegister(g, context, outcome);
            && (forall w :: w in h.heap ==>
                  if w in g.heap then h.heap[w] == g.heap[w] else h.heap[w].openFileCount == 0)
            && (forall w :: w in g.heap && g.heap[w].openFileCount > 0 ==> w in h.heap)
            && (forall c :: c in g.registry ==> c in h.registry && h.registry[c] == g.registry[c])
  {
    hide OnlyLastIdle, Distinct, Reaped;
    ReapedInv(g);
  }

  lemma UnregisterFrame(g: Shared, context: Context)
    requires SharedInv(g)
    requires context in g.registry ==> g.registry[context] in Reaped(g).heap
    ensures var h := AfterUnregister(g, context);
            && (forall w :: w in h.heap ==> w in g.heap && h.heap[w].openFileCount == g.heap[w].openFileCount)
            && (forall w :: w in g.heap && g.heap[w].openFileCount > 0 ==> w in h.heap)
            && h.registry == g.registry - {context}
  {
  }

  lemma RegisterCore(s: State, context: Context, outcome: RegisterOutcome)
    requires Core(s)
    ensures Safe(s, Register(context, outcome)) && Core(Apply(s, Register(context, outcome), true))
  {
    hide Partitioned, OnlyLastIdle, Counted, AfterRegister;
    CoreImpliesSafe(s, Register(context, outcome));
    RegisterShared(s.shared, context, outcome);
    RegisterFrame(s.shared, context, outcome);
    FrameCore(s, AfterRegister(s.shared, context, outcome));
  }

  /** Teardown at any time keeps what holds of files and reserved opens. */
  lemma UnregisterCore(s: State, context: Context)
    requires Core(s)
    ensures Safe(s, Unregister(context)) && Core(Apply(s, Unregister(context), false))
  {
    hide Partitioned, OnlyLastIdle, Counted, AfterUnregister, Reaped;
    CoreImpliesSafe(s, Unregister(context));
    UnregisterShared(s.shared, context);
    UnregisterFrame(s.shared, context);
    FrameCore(s, AfterUnregister(s.shared, context));
  }

  /** The handles of the opens when one of them goes on to another phase. */
  lemma MoveCounts(openings: map<OpenId, Opening>, o: OpenId, phase: Phase, w: WrapperId)
    requires o in openings
    ensures |Reservations(Move(openings, o, phase), w)| ==
            |Reservations(openings - {o}, w)| + if w == openings[o].wrapper && (phase == Reserved || phase == Opened) then 1 else 0
  {
    var moved := Move(openings, o, phase);
    assert Reservations(moved, w) == Reservations(openings - {o}, w) + if o in Reservations(moved, w) then {o} else {};
  }

  lemma DropReservation(openings: map<OpenId, Opening>, o: OpenId, w: WrapperId)
    requires o in openings
    ensures |Reservations(openings - {o}, w)| ==
            |Reservations(openings, w)| - if w == openings[o].wrapper && openings[o].Holds() then 1 else 0
  {
    assert Reservations(openings, w) ==
           Reservations(openings - {o}, w) + if w == openings[o].wrapper && openings[o].Holds() then {o} else {};
  }

  ghost predicate IsOpenStep(step: Step) {
    step.Resolve? || step.Refuse? || step.Reserve? || step.Publish? || step.Return? || step.Fail?
  }

  lemma OpenCounts(s: State, step: Step, w: WrapperId)
    requires Inv(s) && Enabled(s, step, true) && IsOpenStep(step)
    ensures Safe(s, step)
    ensures var t := Apply(s, step, true);
      |Handles(t.files, w)| + |Reservations(t.openings, w)| ==
      |Handles(s.files, w)| + |Reservations(s.openings, w)| +
      if step.Reserve? && w == s.openings[step.open].wrapper then 1 else 0
  {
    hide Core, Reservations, Handles;
    InvImpliesSafe(s, step);
    var o := step.open;
    match step
    case Resolve(_, _) =>
      var openings := Apply(s, step, true).openings;
      DropReservation(openings, o, w);
      assert openings - {o} == s.openings;
    case Return(_, f) =>
      DropReservation(s.openings, o, w);
      AddFile(s.files, f, s.openings[o].wrapper, w);
    case Fail(_) => DropReservation(s.openings, o, w);
    case _ =>
      DropReservation(s.openings, o, w);
      MoveCounts(s.openings, o, if step.Refuse? then Failing else if step.Reserve? then Reserved else Opened, w);
  }

  /** The steps of an open that release nothing. */
  lemma OpenInv(s: State, step: Step)
    requires Inv(s) && Enabled(s, step, true) && IsOpenStep(step)
    ensures Safe(s, step) && Inv(Apply(s, step, true))
  {
    hide Partitioned, OnlyLastIdle, Held, Counted, Apply, AllRegistered;
    InvImpliesSafe(s, step);
    OpenShared(s, step);
    OpenHeld(s, step);
    OpenCounted(s, step);
  }

  lemma OpenShared(s: State, step: Step)
    requires SharedInv(s.shared) && Enabled(s, step, true) && IsOpenStep(step) && Safe(s, step)
    ensures SharedInv(Apply(s, step, true).shared)
  {
    if step.Reserve? {
      ReserveShared(s.shared, s.openings[step.open].wrapper);
    }
  }

  lemma OpenHeld(s: State, step: Step)
    requires Inv(s) && Enabled(s, step, true) && IsOpenStep(step) && Safe(s, step)
    ensures Held(Apply(s, step, true)) && AllRegistered(Apply(s, step, true).shared, Apply(s, step, true).openings)
  {
    hide Partitioned, OnlyLastIdle, Counted;
    InFlightInHeap(s);
  }

  lemma OpenCounted(s: State, step: Step)
    requires Inv(s) && Enabled(s, step, true) && IsOpenStep(step) && Safe(s, step)
    ensures Counted(Apply(s, step, true))
  {
    hide Partitioned, OnlyLastIdle, Held, AllRegistered, Reservations, Handles;
    var t := Apply(s, step, true);
    forall w | w in t.shared.heap
      ensures t.shared.heap[w].openFileCount == |Handles(t.files, w)| + |Reservations(t.openings, w)|
    {
      OpenCounts(s, step, w);
    }
  }

  lemma InFlightInHeap(s: State)
    requires Partitioned(s.shared) && AllRegistered(s.shared, s.openings)
    ensures forall o :: o in s.openings ==> s.openings[o].wrapper in s.shared.heap
  {
  }

  lemma AddFile(files: map<FileId, WrapperId>, f: FileId, v: WrapperId, w: WrapperId)
    requires f !in files
    ensures |Handles(files[f := v], w)| == |Handles(files, w)| + if w == v then 1 else 0
  {
    assert Handles(files[f := v], w) == Handles(files, w) + if w == v then {f} else {};
  }

  lemma DropFile(files: map<FileId, WrapperId>, f: FileId, w: WrapperId)
    requires f in files
    ensures |Handles(files - {f}, w)| == |Handles(files, w)| - if w == files[f] then 1 else 0
  {
    assert Handles(files, w) == Handles(files - {f}, w) + if w == files[f] then {f} else {};
  }

  lemma Unheld(s: State, w: WrapperId)
    requires |Handles(s.files, w)| == 0 && |Reservations(s.openings, w)| == 0
    ensures forall f :: f in s.files ==> s.files[f] != w
    ensures forall o :: o in s.openings && s.openings[o].Holds() ==> s.openings[o].wrapper != w
  {
    forall f | f in s.files
      ensures s.files[f] != w
    {
      assert f in Handles(s.files, s.files[f]);
    }
    forall o | o in s.openings && s.openings[o].Holds()
      ensures s.openings[o].wrapper != w
    {
      assert o in Reservations(s.openings, s.openings[o].wrapper);
    }
  }

  /** Dropping a handle together with its count keeps everything, also when the wrapper is freed with it. */
  lemma ReleaseCore(s: State, w: WrapperId, files: map<FileId, WrapperId>, openings: map<OpenId, Opening>)
    requires Core(s) && w in s.shared.heap && s.shared.heap[w].openFileCount > 0
    requires files.Keys <= s.files.Keys && forall f :: f in files ==> files[f] == s.files[f]
    requires openings.Keys <= s.openings.Keys
    requires forall o :: o in openings ==>
               openings[o].wrapper == s.openings[o].wrapper && (openings[o].Holds() ==> s.openings[o].Holds())
    requires forall v :: v in s.shared.heap ==>
               |Handles(files, v)| + |Reservations(openings, v)| ==
               s.shared.heap[v].openFileCount - if v == w then 1 else 0
    ensures Core(State(AfterRelease(s.shared, w), openings, files))
  {
    hide Partitioned, OnlyLastIdle, Handles, Reservations, Without;
    ReleaseShared(s.shared, w);
    var t := State(AfterRelease(s.shared, w), openings, files);
    if w !in t.shared.heap {
      Unheld(t, w);
    }
  }

  /** An open that fails with a handle drops it, and does not end with that. */
  lemma FailCore(s: State, step: Step)
    requires Core(s) && Enabled(s, step, true) && (step.Abandon? || step.CloseFailed?)
    ensures Safe(s, step) && Core(Apply(s, step, true))
  {
    hide OnlyLastIdle, Handles, Reservations;
    CoreImpliesSafe(s, step);
    var openings := Move(s.openings, step.open, Failing);
    forall v | v in s.shared.heap
      ensures |Reservations(openings, v)| ==
              |Reservations(s.openings, v)| - if v == s.openings[step.open].wrapper then 1 else 0
    {
      DropReservation(s.openings, step.open, v);
      MoveCounts(s.openings, step.open, Failing, v);
    }
    ReleaseCore(s, s.openings[step.open].wrapper, s.files, openings);
  }

  lemma CloseCore(s: State, f: FileId)
    requires Core(s) && Enabled(s, Close(f), true)
    ensures Safe(s, Close(f)) && Core(Apply(s, Close(f), true))
  {
    hide OnlyLastIdle, Handles, Reservations;
    CoreImpliesSafe(s, Close(f));
    forall v | v in s.shared.heap {
      DropFile(s.files, f, v);
    }
    ReleaseCore(s, s.files[f], s.files - {f}, s.openings);
  }

  /** Every step keeps the invariant, and is safe. */
  lemma StepInv(s: State, step: Step)
    requires Inv(s) && Enabled(s, step, true)
    ensures Safe(s, step) && Inv(Apply(s, step, true))
  {
    hide Core, AfterRegister, AfterUnregister, AfterRelease;
    match step
    case Register(context, outcome) =>
      RegisterCore(s, context, outcome);
      KeepsRegistered(s, context, outcome);
    case Unregister(context) =>
      UnregisterCore(s, context);
      KeepsOthers(s, context);
    case Abandon(o) =>
      FailCore(s, step);
      KeepsRegistry(s.shared, s.openings[o].wrapper);
    case CloseFailed(o) =>
      FailCore(s, step);
      KeepsRegistry(s.shared, s.openings[o].wrapper);
    case ReadHeader(_) => InvImpliesSafe(s, step);
    case Access(_) => InvImpliesSafe(s, step);
    case Close(f) =>
      CloseCore(s, f);
      KeepsRegistry(s.shared, s.files[f]);
    case _ => OpenInv(s, step);
  }

  lemma KeepsRegistered(s: State, context: Context, outcome: RegisterOutcome)
    requires Core(s) && AllRegistered(s.shared, s.openings)
    ensures Owned(s.shared) && AllRegistered(AfterRegister(s.shared, context, outcome), s.openings)
  {
    hide AfterRegister;
    RegisterFrame(s.shared, context, outcome);
  }

  lemma KeepsOthers(s: State, context: Context)
    requires Core(s) && AllRegistered(s.shared, s.openings) && Quiescent(s, context)
    requires context in s.shared.registry ==> s.shared.registry[context] in Reaped(s.shared).heap
    ensures AllRegistered(AfterUnregister(s.shared, context), s.openings)
  {
    hide AfterUnregister;
    UnregisterFrame(s.shared, context);
  }

  lemma KeepsRegistry(g: Shared, w: WrapperId)
    requires w in g.heap && g.heap[w].openFileCount > 0
    ensures AfterRelease(g, w).registry == g.registry
  {
  }

  // ----- runs

  /** A run: the steps in order, each taken where it is enabled; an unsafe step may lead anywhere. */
  ghost predicate IsRunFrom(start: State, states: seq<State>, steps: seq<Step>, guarded: bool) {
    && |states| == |steps| + 1
    && states[0] == start
    && forall i :: 0 <= i < |steps| ==>
         && Enabled(states[i], steps[i], guarded)
         && (Safe(states[i], steps[i]) ==> states[i + 1] == Apply(states[i], steps[i], guarded))
  }

  ghost predicate IsRun(states: seq<State>, steps: seq<Step>, guarded: bool) {
    IsRunFrom(INITIAL, states, steps, guarded)
  }

  ghost predicate AllSafe(states: seq<State>, steps: seq<Step>) {
    |states| > |steps| && forall i :: 0 <= i < |steps| ==> Safe(states[i], steps[i])
  }

  ghost predicate AllInv(states: seq<State>) {
    forall i :: 0 <= i < |states| ==> Inv(states[i])
  }

  lemma {:induction false} RunsFrom(start: State, states: seq<State>, steps: seq<Step>)
    requires Inv(start) && IsRunFrom(start, states, steps, true)
    ensures AllInv(states) && AllSafe(states, steps)
    decreases |steps|
  {
    hide Inv;
    if steps == [] {
      assert states == [start];
    } else {
      StepInv(start, steps[0]);
      RunsFrom(states[1], states[1..], steps[1..]);
      forall i | 0 <= i < |states|
        ensures Inv(states[i])
      {
        assert i > 0 ==> states[i] == states[1..][i - 1];
      }
      assert forall i :: 0 < i < |steps| ==> states[i] == states[1..][i - 1] && steps[i] == steps[1..][i - 1];
    }
  }

  /**
    When teardown waits until no open of the context is in flight, every state of every run keeps the invariant and every
    step is safe, up to the last thing a failing open asks its VFS.
   */
  lemma RunsAreSafe(states: seq<State>, steps: seq<Step>)
    requires IsRun(states, steps, true)
    ensures AllInv(states) && AllSafe(states, steps)
  {
    RunsFrom(INITIAL, states, steps);
  }

  // ----- what the invariant means for the retired wrappers

  lemma {:induction false} IdleIsLast(heap: map<WrapperId, Wrapper>, list: seq<WrapperId>, w: WrapperId)
    requires OnlyLastIdle(heap, list) && w in list && !IsBusy(heap, w)
    ensures w == list[|list| - 1]
  {
    if |list| > 1 {
      IdleIsLast(heap, list[1..], w);
    }
  }

  /** In every state of every run, at most one retired wrapper has no open handles. */
  lemma AtMostOneIdle(states: seq<State>, steps: seq<Step>, n: nat, v: WrapperId, w: WrapperId)
    requires IsRun(states, steps, true) && n <= |steps|
    requires v in states[n].shared.retired && !IsBusy(states[n].shared.heap, v)
    requires w in states[n].shared.retired && !IsBusy(states[n].shared.heap, w)
    ensures v == w
  {
    RunsAreSafe(states, steps);
    IdleIsLast(states[n].shared.heap, states[n].shared.retired, v);
    IdleIsLast(states[n].shared.heap, states[n].shared.retired, w);
  }

  /** In every reachable state: registering a new context registers it, and changes no other. */
  lemma RegisterIsExact(s: State, context: Context, outcome: RegisterOutcome)
    requires Inv(s)
    ensures Safe(s, Register(context, outcome))
    ensures Registers(s.shared, context, outcome, Apply(s, Register(context, outcome), true).shared)
  {
    hide OnlyLastIdle, Held, Counted, AllRegistered;
  }

  /** And tearing it down takes it out of the registry, with the wrapper and all its handles retired. */
  lemma UnregisterIsExact(s: State, context: Context)
    requires Inv(s)
    ensures Safe(s, Unregister(context))
    ensures Retires(s.shared, context, Apply(s, Unregister(context), false).shared)
  {
    hide OnlyLastIdle, Held, Counted, AllRegistered;
  }

  /** Registering leaves no idle retired wrapper, whether it succeeds or not. */
  lemma RegisterReapsAll(s: State, context: Context, outcome: RegisterOutcome, w: WrapperId)
    requires Inv(s)
    ensures Safe(s, Register(context, outcome))
    ensures var g := Apply(s, Register(context, outcome), true).shared;
            w in g.retired ==> IsBusy(g.heap, w)
  {
    hide OnlyLastIdle, Distinct, Reaped;
    InvImpliesSafe(s, Register(context, outcome));
    ReapedInv(s.shared);
  }

  /** Freed exactly when it is the last handle of a retired wrapper that is dropped. */
  ghost predicate FreesLast(s: State, t: State, w: WrapperId) {
    w in s.shared.heap &&
    if w in s.shared.retired && s.shared.heap[w].openFileCount == 1
    then t.shared.heap.Keys == s.shared.heap.Keys - {w} && w !in t.shared.retired
    else t.shared.heap.Keys == s.shared.heap.Keys && t.shared.retired == s.shared.retired
  }

  /** The step that closes the last handle of a retired wrapper frees it; no other close frees anything. */
  lemma LastCloseFrees(s: State, f: FileId)
    requires Inv(s) && f in s.files
    ensures Safe(s, Close(f))
    ensures FreesLast(s, Apply(s, Close(f), true), s.files[f])
  {
    InvImpliesSafe(s, Close(f));
    var w := s.files[f];
    if w in s.shared.retired {
      WithoutKeeps(s.shared.heap, s.shared.retired, w);
    }
  }

  /** The same for an open that fails with a handle, before or after xOpen has published it. */
  lemma LastAbandonFrees(s: State, step: Step)
    requires Inv(s) && Enabled(s, step, true) && (step.Abandon? || step.CloseFailed?)
    ensures Safe(s, step)
    ensures FreesLast(s, Apply(s, step, true), s.openings[step.open].wrapper)
  {
    InvImpliesSafe(s, step);
    var w := s.openings[step.open].wrapper;
    if w in s.shared.retired {
      WithoutKeeps(s.shared.heap, s.shared.retired, w);
    }
  }

  /** Nothing leaks: when every context is torn down and every file closed, at most one wrapper is left. */
  lemma NoLeak(s: State)
    requires Inv(s) && s.shared.registry == map[] && s.files == map[] && s.openings == map[]
    ensures |s.shared.heap| <= 1
  {
    var g := s.shared;
    forall w | w in g.heap
      ensures w == g.retired[|g.retired| - 1]
    {
      assert Handles(s.files, w) == {} && Reservations(s.openings, w) == {};
      IdleIsLast(g.heap, g.retired, w);
    }
    if g.heap != map[] {
      assert g.heap.Keys == {g.retired[|g.retired| - 1]};
      assert |g.heap| == |g.heap.Keys|;
    }
  }

  // ----- why teardown has to wait

  ghost predicate EndsUnsafe(states: seq<State>, steps: seq<Step>) {
    |states| == |steps| + 1 && steps != [] && !Safe(states[|steps| - 1], steps[|steps| - 1])
  }

  /** Some run from here ends with an unsafe step, with every further teardown waiting. */
  ghost predicate CanFail(s: State) {
    exists states, steps :: IsRunFrom(s, states, steps, true) && EndsUnsafe(states, steps)
  }

  lemma PrependStep(s: State, step: Step)
    requires Enabled(s, step, true) && Safe(s, step) && CanFail(Apply(s, step, true))
    ensures CanFail(s)
  {
    hide Safe, Apply, Enabled;
    var states, steps :| IsRunFrom(Apply(s, step, true), states, steps, true) && EndsUnsafe(states, steps);
    var states', steps' := [s] + states, [step] + steps;
    assert forall i :: 0 < i < |steps'| ==>
      states'[i] == states[i - 1] && steps'[i] == steps[i - 1] && states'[i + 1] == states[i];
    assert IsRunFrom(s, states', steps', true) && EndsUnsafe(states', steps');
  }

  /** An open whose wrapper was freed touches it in its next step. */
  lemma FreedIsUnsafe(s: State, o: OpenId)
    requires o in s.openings && !s.openings[o].Holds() && s.openings[o].wrapper !in s.shared.heap
    ensures CanFail(s)
  {
    var states, steps := [s, s], [if s.openings[o].phase == Failing then Fail(o) else Reserve(o)];
    assert IsRunFrom(s, states, steps, true) && EndsUnsafe(states, steps);
  }

  /** From a state in which the wrapper of an open without a handle is retired, closing and registering lead to its end. */
  lemma {:induction false} RetiredIsUnsafe(s: State, o: OpenId)
    requires Core(s) && o in s.openings && !s.openings[o].Holds() && s.openings[o].wrapper in s.shared.retired
    ensures CanFail(s)
    decreases if s.openings[o].wrapper in s.shared.heap then s.shared.heap[s.openings[o].wrapper].openFileCount else 0
  {
    hide Core, Safe, CanFail, Enabled, Apply;
    CanDrop(s, o);
    var step :| Drops(s, o, step);
    var t := Apply(s, step, true);
    if s.openings[o].wrapper in t.shared.heap {
      RetiredIsUnsafe(t, o);
    } else {
      FreedIsUnsafe(t, o);
    }
    PrependStep(s, step);
  }

  /** The step drops a handle of the retired wrapper of an open, or frees the wrapper. */
  ghost predicate Drops(s: State, o: OpenId, step: Step)
    requires o in s.openings
  {
    Enabled(s, step, true) && Safe(s, step) &&
    var t, w := Apply(s, step, true), s.openings[o].wrapper;
    Core(t) && o in t.openings && t.openings[o] == s.openings[o] && w in s.shared.heap &&
    (w in t.shared.heap ==> w in t.shared.retired && t.shared.heap[w].openFileCount < s.shared.heap[w].openFileCount)
  }

  lemma CanDrop(s: State, o: OpenId)
    requires Core(s) && o in s.openings && !s.openings[o].Holds() && s.openings[o].wrapper in s.shared.retired
    ensures exists step :: Drops(s, o, step)
  {
    var w := s.openings[o].wrapper;
    if s.shared.heap[w].openFileCount == 0 {
      RegisterCore(s, 0, NoDefaultVfs);
      RegisterFreesIdle(s.shared, 0, NoDefaultVfs, w);
      assert Drops(s, o, Register(0, NoDefaultVfs));
    } else if Handles(s.files, w) != {} {
      var f :| f in Handles(s.files, w);
      CloseCore(s, f);
      assert Drops(s, o, Close(f));
    } else {
      var p :| p in Reservations(s.openings, w);
      var step := if s.openings[p].phase == Reserved then Abandon(p) else CloseFailed(p);
      FailCore(s, step);
      assert Drops(s, o, step);
    }
  }

  /** An open with a handle on a retired wrapper can fail, and then it has none. */
  lemma HolderIsUnsafe(s: State, o: OpenId)
    requires Core(s) && o in s.openings && s.openings[o].Holds() && s.openings[o].wrapper in s.shared.retired
    ensures CanFail(s)
  {
    hide OnlyLastIdle, Counted, CanFail;
    var step := if s.openings[o].phase == Reserved then Abandon(o) else CloseFailed(o);
    FailCore(s, step);
    var t := Apply(s, step, true);
    if s.openings[o].wrapper in t.shared.heap {
      RetiredIsUnsafe(t, o);
    } else {
      FreedIsUnsafe(t, o);
    }
    PrependStep(s, step);
  }

  /**
    Whatever else is open: when a context is torn down while an open of it is in flight, however far that is, there is a
    run in which the open touches freed memory: it fails, the other handles are closed, and someone registers.
   */
  lemma QuiescenceIsNeeded(s: State, o: OpenId)
    requires Inv(s) && o in s.openings
    ensures Safe(s, Unregister(s.openings[o].context))
    ensures CanFail(Apply(s, Unregister(s.openings[o].context), false))
  {
    hide Partitioned, OnlyLastIdle, Counted, AfterUnregister, Reaped, Owned, CanFail;
    var context := s.openings[o].context;
    UnregisterCore(s, context);
    UnregisterShared(s.shared, context);
    UnregisterRetires(s.shared, context);
    if s.openings[o].Holds() {
      HolderIsUnsafe(Apply(s, Unregister(context), false), o);
    } else {
      RetiredIsUnsafe(Apply(s, Unregister(context), false), o);
    }
  }

  /** The guard is exact: after a teardown no run fails if and only if no open of the context was in flight. */
  lemma TeardownIsExact(s: State, context: Context)
    requires Inv(s)
    ensures Safe(s, Unregister(context))
    ensures CanFail(Apply(s, Unregister(context), false)) <==> !Quiescent(s, context)
  {
    InvImpliesSafe(s, Unregister(context));
    hide Inv, Safe, Apply;
    var t := Apply(s, Unregister(context), false);
    if Quiescent(s, context) {
      StepInv(s, Unregister(context));
      SameApply(s, context);
      forall states, steps | IsRunFrom(t, states, steps, true)
        ensures !EndsUnsafe(states, steps)
      {
        RunsFrom(t, states, steps);
      }
    } else {
      var o :| o in s.openings && s.openings[o].context == context;
      QuiescenceIsNeeded(s, o);
    }
  }

  lemma SameApply(s: State, context: Context)
    requires Enabled(s, Unregister(context), true) && Safe(s, Unregister(context))
    ensures Apply(s, Unregister(context), true) == Apply(s, Unregister(context), false)
  {
  }

  /** A run from the start: register, resolve, tear down, register another context, and go on with the open. */
  const RESOLVED_STEPS := [Register(0, Registered), Resolve(0, 0), Unregister(0), Register(1, Registered), Reserve(0)]

  /** Another: the open has reserved its handle before the teardown, fails, and asks for the last error. */
  const RESERVED_STEPS := [Register(0, Registered), Resolve(0, 0), Reserve(0), Unregister(0), Abandon(0), Fail(0)]

  lemma UnsafeRun()
    ensures exists states :: IsRun(states, RESOLVED_STEPS, false) && EndsUnsafe(states, RESOLVED_STEPS)
  {
    hide AfterRegister, AfterUnregister, Reaped, Owned;
    var opening := map[0 := Opening(0, 0, Resolved)];
    FirstTwo();
    var last := State(SECOND, opening, map[]);
    var states := [INITIAL, State(FIRST, map[], map[]), State(FIRST, opening, map[]), State(RETIRED, opening, map[]), last,
                   last];
    assert IsRun(states, RESOLVED_STEPS, false) && EndsUnsafe(states, RESOLVED_STEPS);
  }

  lemma UnsafeReservedRun()
    ensures exists states :: IsRun(states, RESERVED_STEPS, false) && EndsUnsafe(states, RESERVED_STEPS)
  {
    hide AfterRegister, AfterUnregister, Reaped, Owned, AfterReserve, AfterRelease;
    FirstTwo();
    FirstBusy();
    var resolved, reserved := map[0 := Opening(0, 0, Resolved)], map[0 := Opening(0, 0, Reserved)];
    var last := State(NONE, map[0 := Opening(0, 0, Failing)], map[]);
    var states := [INITIAL, State(FIRST, map[], map[]), State(FIRST, resolved, map[]), State(BUSY, reserved, map[]),
                   State(BUSY_RETIRED, reserved, map[]), last, last];
    assert Move(resolved, 0, Reserved) == reserved && Move(reserved, 0, Failing) == last.openings;
    assert IsRun(states, RESERVED_STEPS, false) && EndsUnsafe(states, RESERVED_STEPS);
  }

  const NONE := Shared(map[], 1, map[], [])
  const FIRST := Shared(map[0 := Wrapper(0, 0, false)], 1, map[0 := 0], [])
  const RETIRED := Shared(map[0 := Wrapper(0, 0, true)], 1, map[], [0])
  const SECOND := Shared(map[1 := Wrapper(1, 0, false)], 2, map[1 := 1], [])
  const BUSY := Shared(map[0 := Wrapper(0, 1, false)], 1, map[0 := 0], [])
  const BUSY_RETIRED := Shared(map[0 := Wrapper(0, 1, true)], 1, map[], [0])

  /** Reserving a handle on 0, retiring it, and dropping the handle, which frees it. */
  lemma FirstBusy()
    ensures AfterReserve(FIRST, 0) == BUSY
    ensures Owned(BUSY) && 0 in Reaped(BUSY).heap && AfterUnregister(BUSY, 0) == BUSY_RETIRED
    ensures AfterRelease(BUSY_RETIRED, 0) == NONE
  {
    assert Reaped(BUSY) == BUSY;
  }

  /** Registering 0, retiring it, and registering 1, which frees it. */
  lemma FirstTwo()
    ensures Owned(INITIAL.shared) && AfterRegister(INITIAL.shared, 0, Registered) == FIRST
    ensures Owned(FIRST) && 0 in Reaped(FIRST).heap && AfterUnregister(FIRST, 0) == RETIRED
    ensures Owned(RETIRED) && AfterRegister(RETIRED, 1, Registered) == SECOND
  {
    assert Reaped(FIRST) == FIRST;
    assert Idle(RETIRED.heap, RETIRED.retired) == {0};
    assert Reaped(RETIRED) == NONE;
  }

  lemma UnregisterRetires(g: Shared, context: Context)
    requires SharedInv(g) && context in g.registry && g.registry[context] in Reaped(g).heap
    ensures Owned(g) && g.registry[context] in g.heap
    ensures var h, w := AfterUnregister(g, context), g.registry[context];
            w in h.retired && w in h.heap && h.heap[w].openFileCount == g.heap[w].openFileCount
  {
  }

  lemma RegisterFreesIdle(g: Shared, context: Context, outcome: RegisterOutcome, w: WrapperId)
    requires SharedInv(g) && w in g.retired && w in g.heap && g.heap[w].openFileCount == 0
    ensures Owned(g) && w !in AfterRegister(g, context, outcome).heap
  {
  }
}
