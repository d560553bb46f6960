/**
  Every interleaving of the threads of a table scan. A thread claims a slice, reads its rows into chunks of limited
  size, and emits what the remaining filters keep of each chunk.
 */
module ScanProtocol {
  import opened Bytes
  import opened ScanSlices

  type RowId = int

  /** The rows of the table that satisfy the pushed down condition, and the filters that the scan evaluates itself. */
  datatype Table = Table(bind: Bind, rows: set<RowId>, filters: seq<RowFilter>, vectorSize: nat)

  /** The rows the scan is to return. */
  function Kept(t: Table): set<RowId> {
    set r | r in t.rows && PassesAll(t.filters, r)
  }

  ghost predicate ValidTable(t: Table) {
    && t.vectorSize > 0
    && (t.bind.Some? ==> forall r :: r in t.rows ==> t.bind.value.min <= r <= t.bind.value.max)
  }

  /** The minimum and maximum that SQLite gives for the row ids of a table; those of an empty table are NULL, read as 0. */
  ghost predicate HasBounds(rows: set<RowId>, lo: int, hi: int) {
    if rows == {} then lo == hi == 0 else lo in rows && hi in rows && forall r :: r in rows ==> lo <= r <= hi
  }

  /** Whatever the rows of a table are, the bounds it is bound to leave none of them out. */
  lemma BoundTableIsValid(t: Table, stored: set<RowId>, lo: int, hi: int)
    requires HasBounds(stored, lo, hi) && t.rows <= stored && hi <= I64_MAX
    requires t.bind == GetRowIdInfo(lo, hi) && t.vectorSize > 0
    ensures ValidTable(t)
  {
  }

  // ----- one thread: chunks and filters

  /** Reads rows until the chunk is full or the statement has no more rows (sqlite_scanner.cpp:408-505). */
  method FillChunk(pending: seq<RowId>, vectorSize: nat, scanCount: nat)
    returns (chunk: seq<RowId>, left: seq<RowId>, done: bool, newCount: nat)
    ensures var n := ChunkSize(pending, vectorSize);
            chunk == pending[..n] && left == pending[n..]
    ensures |chunk| <= vectorSize && (|chunk| == vectorSize || left == [])
    ensures done == (|pending| < vectorSize)
    ensures newCount == scanCount + |chunk|
  {
    chunk, left, done, newCount := [], pending, false, scanCount;
    while true
      invariant chunk + left == pending && |chunk| <= vectorSize
      invariant newCount == scanCount + |chunk|
      decreases |left|
    {
      if |chunk| == vectorSize {
        break;
      }
      if left == [] {
        done := true;
        break;
      }
      newCount := newCount + 1;
      chunk, left := chunk + [left[0]], left[1..];
    }
  }

  /** A filter is given by the rows that pass it. */
  type RowFilter = set<RowId>

  predicate PassesAll(filters: seq<RowFilter>, r: RowId) {
    forall i :: 0 <= i < |filters| ==> r in filters[i]
  }

  /** The rows of a sequence that pass all filters, in order. */
  function FilterAll(filters: seq<RowFilter>, rows: seq<RowId>): seq<RowId> {
    if rows == [] then []
    else if PassesAll(filters, rows[0]) then [rows[0]] + FilterAll(filters, rows[1..])
    else FilterAll(filters, rows[1..])
  }

  /** Narrows a selection by one filter. */
  function Narrow(f: RowFilter, rows: seq<RowId>): seq<RowId> {
    if rows == [] then [] else (if rows[0] in f then [rows[0]] else []) + Narrow(f, rows[1..])
  }

  lemma {:induction false} NarrowAll(filters: seq<RowFilter>, f: RowFilter, rows: seq<RowId>)
    ensures Narrow(f, FilterAll(filters, rows)) == FilterAll(filters + [f], rows)
  {
    if rows != [] {
      NarrowAll(filters, f, rows[1..]);
      assert PassesAll(filters + [f], rows[0]) <==> PassesAll(filters, rows[0]) && rows[0] in f by {
        if PassesAll(filters + [f], rows[0]) {
          assert (filters + [f])[|filters|] == f;
          assert forall i :: 0 <= i < |filters| ==> (filters + [f])[i] == filters[i];
        }
      }
    }
  }

  lemma {:induction false} FilterNone(rows: seq<RowId>)
    ensures FilterAll([], rows) == rows
  {
    if rows != [] {
      FilterNone(rows[1..]);
    }
  }

  /** What a prefix of the filters rejects, all of them reject. */
  lemma {:induction false} FilterPrefix(filters: seq<RowFilter>, i: nat, rows: seq<RowId>)
    requires i <= |filters| && FilterAll(filters[..i], rows) == []
    ensures FilterAll(filters, rows) == []
  {
    if rows != [] {
      FilterPrefix(filters, i, rows[1..]);
      assert forall k :: 0 <= k < i ==> filters[..i][k] == filters[k];
    }
  }

  /** The filters narrow the selection one after the other, up to the first that leaves nothing. */
  method ApplyFilters(filters: seq<RowFilter>, chunk: seq<RowId>) returns (output: seq<RowId>)
    ensures output == FilterAll(filters, chunk)
  {
    FilterNone(chunk);
    if filters == [] || chunk == [] {
      return chunk;
    }
    output := chunk;
    var i := 0;
    while i < |filters|
      invariant i <= |filters| && output == FilterAll(filters[..i], chunk)
    {
      assert filters[..i + 1] == filters[..i] + [filters[i]];
      NarrowAll(filters[..i], filters[i], chunk);
      output := Narrow(filters[i], output);
      i := i + 1;
      if output == [] {
        FilterPrefix(filters, i, chunk);
        return;
      }
    }
    assert filters[..i] == filters;
  }

  // ----- all threads

  /** A thread of the scan: `pending` is what its statement has not returned yet. */
  datatype Thread = Thread(scanCount: nat, done: bool, pending: seq<RowId>, finished: bool)

  datatype Scan = Scan(global: Global, threads: seq<Thread>, emitted: multiset<RowId>, slices: seq<(nat, nat)>)

  datatype Step =
    | StartThread(order: seq<RowId>)
    | ClaimSlice(thread: nat, order: seq<RowId>)
    | ReadChunk(thread: nat)

  function Initial(t: Table): Scan {
    Scan(InitGlobal(t.bind), [], multiset{}, [])
  }

  function SliceRows(t: Table, claim: Claim): set<RowId> {
    match claim
    case Everything => t.rows
    case Slice(lo, hi) => set r | r in t.rows && lo <= r <= hi
    case _ => {}
  }

  /** The order in which SQLite returns the rows of a claimed slice is not specified. */
  ghost predicate Returns(t: Table, claim: Claim, order: seq<RowId>) {
    multiset(order) == multiset(SliceRows(t, claim))
  }

  ghost predicate Enabled(t: Table, s: Scan, step: Step) {
    match step
    case StartThread(order) => Returns(t, ClaimNext(t.bind, s.global, 1).0, order)
    case ClaimSlice(i, order) =>
      && i < |s.threads| && s.threads[i].done && !s.threads[i].finished
      && Returns(t, ClaimNext(t.bind, s.global, s.threads[i].scanCount).0, order)
    case ReadChunk(i) => i < |s.threads| && !s.threads[i].done
  }

  function Record(slices: seq<(nat, nat)>, claim: Claim): seq<(nat, nat)> {
    if claim.Slice? then slices + [(claim.lo, claim.hi)] else slices
  }

  function ChunkSize(pending: seq<RowId>, vectorSize: nat): (n: nat)
    ensures n <= |pending|
  {
    if |pending| < vectorSize then |pending| else vectorSize
  }

  ghost function Apply(t: Table, s: Scan, step: Step): Scan
    requires Enabled(t, s, step)
  {
    match step
    case StartThread(order) =>
      var (claim, global) := ClaimNext(t.bind, s.global, 1);
      var thread := if claim == Exhausted then Thread(1, true, [], false) else Thread(0, false, order, false);
      Scan(global, s.threads + [thread], s.emitted, Record(s.slices, claim))
    case ClaimSlice(i, order) =>
      var thread := s.threads[i];
      var (claim, global) := ClaimNext(t.bind, s.global, thread.scanCount);
      var next := if claim == Exhausted then thread.(finished := true) else Thread(0, false, order, false);
      Scan(global, s.threads[i := next], s.emitted, Record(s.slices, claim))
    case ReadChunk(i) =>
      var thread := s.threads[i];
      var n := ChunkSize(thread.pending, t.vectorSize);
      var next := Thread(thread.scanCount + n, |thread.pending| < t.vectorSize, thread.pending[n..], false);
      s.(threads := s.threads[i := next],
         emitted := s.emitted + multiset(FilterAll(t.filters, thread.pending[..n])))
  }

  // ----- conservation

  /** How often row r waits in the statements of the threads. */
  ghost function Waiting(threads: seq<Thread>, r: RowId): nat {
    if threads == [] then 0 else multiset(threads[0].pending)[r] + Waiting(threads[1..], r)
  }

  /** Whether row r has not been claimed by any thread. */
  ghost predicate Unclaimed(t: Table, g: Global, r: RowId) {
    r in t.rows && if t.bind.Some? then r >= g.position else g.position == 0
  }

  /** Each row is unclaimed, waiting in one thread, or emitted once (if it passes the filters). */
  ghost predicate ConservedRow(t: Table, s: Scan, r: RowId) {
    && Waiting(s.threads, r) + (if Unclaimed(t, s.global, r) then 1 else 0) <= (if r in t.rows then 1 else 0)
    && s.emitted[r] == if r in Kept(t) && !Unclaimed(t, s.global, r) then 1 - Waiting(s.threads, r) else 0
  }

  ghost predicate Conserved(t: Table, s: Scan) {
    forall r :: ConservedRow(t, s, r)
  }

  lemma {:induction false} WaitingUpdate(threads: seq<Thread>, i: nat, next: Thread, r: RowId)
    requires i < |threads|
    ensures Waiting(threads[i := next], r) + multiset(threads[i].pending)[r] ==
            Waiting(threads, r) + multiset(next.pending)[r]
  {
    if i > 0 {
      assert threads[i := next][1..] == threads[1..][i - 1 := next];
      WaitingUpdate(threads[1..], i - 1, next, r);
    } else {
      assert threads[0 := next][1..] == threads[1..];
    }
  }

  lemma {:induction false} WaitingSnoc(threads: seq<Thread>, next: Thread, r: RowId)
    ensures Waiting(threads + [next], r) == Waiting(threads, r) + multiset(next.pending)[r]
  {
    if threads != [] {
      assert (threads + [next])[1..] == threads[1..] + [next];
      WaitingSnoc(threads[1..], next, r);
    } else {
      assert threads + [next] == [next] && [next][1..] == [];
    }
  }

  lemma {:induction false} FilterCounts(filters: seq<RowFilter>, rows: seq<RowId>, r: RowId)
    ensures multiset(FilterAll(filters, rows))[r] == if PassesAll(filters, r) then multiset(rows)[r] else 0
  {
    if rows != [] {
      FilterCounts(filters, rows[1..], r);
      assert rows == [rows[0]] + rows[1..];
    }
  }

  /** What a claim hands out is exactly what it takes from the unclaimed rows. */
  lemma ClaimMoves(t: Table, g: Global, scanCount: nat, order: seq<RowId>, r: RowId)
    requires ValidTable(t) && Bounded(t.bind, g) && Progressed(t.bind, g, scanCount)
    requires Returns(t, ClaimNext(t.bind, g, scanCount).0, order)
    ensures var g' := ClaimNext(t.bind, g, scanCount).1;
            multiset(order)[r] + (if Unclaimed(t, g', r) then 1 else 0) == if Unclaimed(t, g, r) then 1 else 0
  {
    if t.bind.Some? && g.position <= t.bind.value.max {
      ClaimExact(t.bind, g, scanCount);
    }
  }

  // ----- consecutive slices

  /** The slices follow each other without gap or overlap, from the start to the current position. */
  ghost predicate Consecutive(start: nat, slices: seq<(nat, nat)>, position: nat) {
    if slices == [] then position == start
    else
      var last := slices[|slices| - 1];
      last.0 <= last.1 && position == last.1 + 1 && Consecutive(start, slices[..|slices| - 1], last.0)
  }

  /** All slices but a clipped last one have at least the initial group size. */
  ghost predicate FewSlices(t: Table, s: Scan) {
    t.bind.Some? ==>
      && Consecutive(Start(t.bind), s.slices, s.global.position)
      && (s.global.position <= t.bind.value.max ==>
            |s.slices| * ROWS_PER_GROUP <= s.global.position - Start(t.bind))
      && (|s.slices| > 0 ==> (|s.slices| - 1) * ROWS_PER_GROUP <= t.bind.value.max - Start(t.bind))
  }

  // ----- what every step keeps

  ghost predicate ThreadsOk(t: Table, s: Scan) {
    forall i :: 0 <= i < |s.threads| ==>
      var thread := s.threads[i];
      && Progressed(t.bind, s.global, thread.scanCount)
      && (thread.done ==> thread.pending == [])
      && (thread.finished ==> thread.done && ClaimNext(t.bind, s.global, 1).0 == Exhausted)
  }

  ghost predicate Inv(t: Table, s: Scan) {
    ValidTable(t) && Bounded(t.bind, s.global) && ThreadsOk(t, s) && Conserved(t, s) && FewSlices(t, s)
  }

  lemma ClaimKeepsSlices(t: Table, s: Scan, scanCount: nat)
    requires Bounded(t.bind, s.global) && FewSlices(t, s) && Progressed(t.bind, s.global, scanCount)
    ensures var (claim, g) := ClaimNext(t.bind, s.global, scanCount);
            FewSlices(t, s.(global := g, slices := Record(s.slices, claim)))
  {
    if t.bind.Some? && s.global.position <= t.bind.value.max {
      ClaimExact(t.bind, s.global, scanCount);
      var claim := ClaimNext(t.bind, s.global, scanCount).0;
      assert (s.slices + [(claim.lo, claim.hi)])[..|s.slices|] == s.slices;
    }
  }

  lemma StartThreadInv(t: Table, s: Scan, order: seq<RowId>)
    requires Inv(t, s) && Enabled(t, s, StartThread(order))
    ensures Inv(t, Apply(t, s, StartThread(order)))
  {
    hide FewSlices, Waiting;
    var s' := Apply(t, s, StartThread(order));
    ClaimBounded(t.bind, s.global, 1);
    ClaimKeepsSlices(t, s, 1);
    forall r
      ensures ConservedRow(t, s', r)
    {
      assert ConservedRow(t, s, r);
      ClaimMoves(t, s.global, 1, order, r);
      WaitingSnoc(s.threads, s'.threads[|s.threads|], r);
    }
    SlicesOnly(t, s.(global := s'.global, slices := s'.slices), s');
  }

  lemma SlicesOnly(t: Table, s: Scan, s': Scan)
    requires FewSlices(t, s) && s'.global == s.global && s'.slices == s.slices
    ensures FewSlices(t, s')
  {
  }

  lemma ClaimSliceInv(t: Table, s: Scan, i: nat, order: seq<RowId>)
    requires Inv(t, s) && Enabled(t, s, ClaimSlice(i, order))
    ensures Inv(t, Apply(t, s, ClaimSlice(i, order)))
  {
    hide FewSlices, Waiting;
    var s' := Apply(t, s, ClaimSlice(i, order));
    var scanCount := s.threads[i].scanCount;
    ClaimBounded(t.bind, s.global, scanCount);
    ClaimKeepsSlices(t, s, scanCount);
    forall r
      ensures ConservedRow(t, s', r)
    {
      assert ConservedRow(t, s, r);
      ClaimMoves(t, s.global, scanCount, order, r);
      WaitingUpdate(s.threads, i, s'.threads[i], r);
    }
    SlicesOnly(t, s.(global := s'.global, slices := s'.slices), s');
  }

  lemma ReadChunkInv(t: Table, s: Scan, i: nat)
    requires Inv(t, s) && Enabled(t, s, ReadChunk(i))
    ensures Inv(t, Apply(t, s, ReadChunk(i)))
  {
    hide FewSlices, Waiting, FilterAll, Bounded;
    var s' := Apply(t, s, ReadChunk(i));
    var thread := s.threads[i];
    var n := ChunkSize(thread.pending, t.vectorSize);
    assert thread.pending == thread.pending[..n] + thread.pending[n..];
    forall r
      ensures ConservedRow(t, s', r)
    {
      assert ConservedRow(t, s, r);
      FilterCounts(t.filters, thread.pending[..n], r);
      WaitingUpdate(s.threads, i, s'.threads[i], r);
    }
    SlicesOnly(t, s, s');
  }

  lemma StepInv(t: Table, s: Scan, step: Step)
    requires Inv(t, s) && Enabled(t, s, step)
    ensures Inv(t, Apply(t, s, step))
  {
    hide Inv;
    match step
    case StartThread(order) => StartThreadInv(t, s, order);
    case ClaimSlice(i, order) => ClaimSliceInv(t, s, i, order);
    case ReadChunk(i) => ReadChunkInv(t, s, i);
  }

  // ----- runs

  ghost predicate IsRun(t: Table, states: seq<Scan>, steps: seq<Step>) {
    && |states| == |steps| + 1
    && states[0] == Initial(t)
    && forall i :: 0 <= i < |steps| ==>
         Enabled(t, states[i], steps[i]) && states[i + 1] == Apply(t, states[i], steps[i])
  }

  ghost predicate AllInv(t: Table, states: seq<Scan>) {
    forall i :: 0 <= i < |states| ==> Inv(t, states[i])
  }

  lemma {:induction false} RunInv(t: Table, states: seq<Scan>, steps: seq<Step>)
    requires ValidTable(t) && IsRun(t, states, steps)
    ensures AllInv(t, states)
    decreases |steps|
  {
    if steps == [] {
    } else {
      hide Inv, Initial;
      var k := |steps| - 1;
      RunInv(t, states[..k + 1], steps[..k]);
      assert Inv(t, states[..k + 1][k]);
      StepInv(t, states[k], steps[k]);
      forall i | 0 <= i <= k
        ensures Inv(t, states[i])
      {
        assert states[i] == states[..k + 1][i];
      }
    }
  }

  /** When every thread has finished, each row that passes all filters was emitted exactly once, and no other row. */
  lemma ExactlyOnce(t: Table, states: seq<Scan>, steps: seq<Step>)
    requires ValidTable(t) && IsRun(t, states, steps)
    requires var s := states[|steps|];
             s.threads != [] && forall i :: 0 <= i < |s.threads| ==> s.threads[i].finished
    ensures states[|steps|].emitted == multiset(Kept(t))
  {
    hide FewSlices, Bounded, Waiting;
    var s := states[|steps|];
    RunInv(t, states, steps);
    assert Inv(t, states[|steps|]);
    forall r
      ensures s.emitted[r] == multiset(Kept(t))[r]
    {
      assert s.threads[0].finished;
      assert ConservedRow(t, s, r) && !Unclaimed(t, s.global, r);
      NothingWaits(s.threads, r);
    }
  }

  /** Hence a scan bound by what SQLite says of the table returns exactly its rows that pass. */
  lemma BoundScanIsExact(t: Table, stored: set<RowId>, lo: int, hi: int, states: seq<Scan>, steps: seq<Step>)
    requires HasBounds(stored, lo, hi) && t.rows <= stored && hi <= I64_MAX
    requires t.bind == GetRowIdInfo(lo, hi) && t.vectorSize > 0
    requires IsRun(t, states, steps) && states[|steps|].threads != []
    requires var threads := states[|steps|].threads; forall i :: 0 <= i < |threads| ==> threads[i].finished
    ensures states[|steps|].emitted == multiset(set r | r in t.rows && forall f :: f in t.filters ==> r in f)
  {
    BoundTableIsValid(t, stored, lo, hi);
    ExactlyOnce(t, states, steps);
    assert Kept(t) == set r | r in t.rows && forall f :: f in t.filters ==> r in f;
  }

  lemma {:induction false} NothingWaits(threads: seq<Thread>, r: RowId)
    requires forall i :: 0 <= i < |threads| ==> threads[i].pending == []
    ensures Waiting(threads, r) == 0
  {
    if threads != [] {
      NothingWaits(threads[1..], r);
    }
  }

  /** No row is ever emitted twice, and none that the filters reject. */
  lemma NeverTwice(t: Table, states: seq<Scan>, steps: seq<Step>, n: nat, r: RowId)
    requires ValidTable(t) && IsRun(t, states, steps) && n <= |steps|
    ensures states[n].emitted[r] <= if r in Kept(t) then 1 else 0
  {
    RunInv(t, states, steps);
    assert Inv(t, states[n]);
    assert ConservedRow(t, states[n], r);
  }

  /** On exhaustion the slices cover every row id from the minimum to the maximum. */
  lemma {:induction false} SlicesCover(start: nat, slices: seq<(nat, nat)>, position: nat, r: nat)
    requires Consecutive(start, slices, position) && start <= r < position
    ensures exists i :: 0 <= i < |slices| && slices[i].0 <= r <= slices[i].1
  {
    if slices != [] {
      var last := slices[|slices| - 1];
      if r < last.0 {
        SlicesCover(start, slices[..|slices| - 1], last.0, r);
        var i :| 0 <= i < |slices| - 1 && slices[..|slices| - 1][i].0 <= r <= slices[..|slices| - 1][i].1;
        assert slices[i].0 <= r <= slices[i].1;
      }
    }
  }

  lemma {:induction false} SlicesDisjoint(start: nat, slices: seq<(nat, nat)>, position: nat, i: nat, j: nat)
    requires Consecutive(start, slices, position) && i < j < |slices|
    ensures slices[i].1 < slices[j].0
    ensures slices[j].1 < position
  {
    var init := slices[..|slices| - 1];
    if j < |slices| - 1 {
      SlicesDisjoint(start, init, slices[|slices| - 1].0, i, j);
    } else if i < |slices| - 2 {
      SlicesDisjoint(start, init, slices[j].0, i, |slices| - 2);
    }
  }

  /** In every run: disjoint slices, at most span over group size of them (rounded up), within 64 bits. */
  lemma SliceBounds(t: Table, states: seq<Scan>, steps: seq<Step>, n: nat)
    requires ValidTable(t) && t.bind.Some? && IsRun(t, states, steps) && n <= |steps|
    ensures var s, span := states[n], t.bind.value.max + 1 - Start(t.bind);
            && s.global.rowsPerGroup <= Max(ROWS_PER_GROUP, 2 * (s.global.position - Start(t.bind)))
            && s.global.rowsPerGroup <= 2 * (MAX_ROWS + 1) && s.global.position <= I64_MAX + 1
            && |s.slices| <= (span + ROWS_PER_GROUP - 1) / ROWS_PER_GROUP
            && (forall i, j :: 0 <= i < j < |s.slices| ==> s.slices[i].1 < s.slices[j].0)
  {
    RunInv(t, states, steps);
    assert Inv(t, states[n]);
    var s := states[n];
    forall i, j | 0 <= i < j < |s.slices|
      ensures s.slices[i].1 < s.slices[j].0
    {
      SlicesDisjoint(Start(t.bind), s.slices, s.global.position, i, j);
    }
  }

  lemma ExhaustedCovers(t: Table, states: seq<Scan>, steps: seq<Step>, n: nat, r: nat)
    requires ValidTable(t) && t.bind.Some? && IsRun(t, states, steps) && n <= |steps|
    requires ClaimNext(t.bind, states[n].global, 1).0 == Exhausted
    requires t.bind.value.min <= r <= t.bind.value.max
    ensures exists i :: 0 <= i < |states[n].slices| && states[n].slices[i].0 <= r <= states[n].slices[i].1
  {
    RunInv(t, states, steps);
    assert Inv(t, states[n]);
    SlicesCover(Start(t.bind), states[n].slices, states[n].global.position, r);
  }
}
