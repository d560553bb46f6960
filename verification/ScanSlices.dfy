/** How the threads of a table scan claim slices of row ids, in 64-bit arithmetic. */
module ScanSlices {
  import opened Bytes

  const U64: int := 0x1_0000_0000_0000_0000
  const I64_MAX: int := 0x7FFF_FFFF_FFFF_FFFF
  const MAX_ROWS: int := 20000000000000
  const ROWS_PER_GROUP: int := 122880

  /** Unsigned 64-bit arithmetic: the number from 0 to 2^64 - 1 that is x modulo 2^64. */
  function Wrap(x: int): (w: nat)
    ensures w < U64
    decreases if x < 0 then U64 - x else x
  {
    if x < 0 then Wrap(x + U64) else if x >= U64 then Wrap(x - U64) else x
  }

  lemma {:induction false} WrapIsModulo(x: int)
    ensures Wrap(x) == x % U64
    decreases if x < 0 then U64 - x else x
  {
    if x < 0 {
      WrapIsModulo(x + U64);
    } else if x >= U64 {
      WrapIsModulo(x - U64);
    }
  }

  datatype RowIdInfo = RowIdInfo(min: nat, max: nat)

  /** The row id bounds of a table whose minimum and maximum are given, if the scan can be sliced by them. */
  function GetRowIdInfo(minVal: int, maxVal: int): (r: Option<RowIdInfo>)
    ensures r.Some? <==> 0 <= minVal < maxVal && maxVal - minVal < MAX_ROWS
    ensures r.Some? ==> r.value.min == minVal && r.value.max == maxVal
  {
    if minVal < 0 || maxVal <= minVal then None
    else if maxVal - minVal >= MAX_ROWS then None
    else Some(RowIdInfo(minVal, maxVal))
  }

  /** What the scan is bound to; rows is None when it is not sliced. */
  type Bind = b: Option<RowIdInfo> |
    b.Some? ==> b.value.max <= I64_MAX && GetRowIdInfo(b.value.min, b.value.max) == b
    witness None

  datatype Global = Global(position: nat, rowsPerGroup: nat)

  function Start(b: Bind): nat {
    if b.Some? && b.value.min > 0 then b.value.min - 1 else 0
  }

  function InitGlobal(b: Bind): Global {
    Global(Start(b), if b.Some? then ROWS_PER_GROUP else 0)
  }

  datatype Claim = Exhausted | GroupSizeNotSet | Everything | Slice(lo: nat, hi: nat)

  /** The group size a claim uses: doubled when the thread's previous slice had no rows. */
  function NextGroupSize(max: nat, g: Global, scanCount: nat): nat {
    if scanCount == 0 && g.rowsPerGroup < max then Wrap(g.rowsPerGroup * 2) else g.rowsPerGroup
  }

  function ClaimNext(b: Bind, g: Global, scanCount: nat): (Claim, Global) {
    if b.None? then
      if g.position > 0 then (Exhausted, g) else (Everything, g.(position := Wrap(-1)))
    else
      var max := b.value.max;
      if g.position > max then (Exhausted, g) else
      var size := NextGroupSize(max, g, scanCount);
      if size == 0 then (GroupSizeNotSet, g.(rowsPerGroup := size)) else
      var end := Wrap(g.position + size - 1);
      var hi := if max < end then max else end;
      (Slice(g.position, hi), Global(Wrap(hi + 1), size))
  }

  class LocalState {
    var scanCount: nat
    constructor ()
      ensures scanCount == 1
    {
      scanCount := 1;
    }
  }

  class GlobalState {
    var position: nat
    var rowsPerGroup: nat

    ghost function View(): Global
      reads this
    {
      Global(position, rowsPerGroup)
    }

    constructor (b: Bind)
      ensures View() == InitGlobal(b)
    {
      position := 0;
      rowsPerGroup := 0;
      if b.Some? {
        if b.value.min > 0 {
          position := b.value.min - 1;
        }
        rowsPerGroup := ROWS_PER_GROUP;
      }
    }

    method ClaimNextSlice(b: Bind, l: LocalState) returns (claim: Claim)
      modifies this, l
      ensures (claim, View()) == ClaimNext(b, old(View()), old(l.scanCount))
      ensures b.Some? && old(position) <= b.value.max ==> (claim == GroupSizeNotSet <==> rowsPerGroup == 0)
      ensures l.scanCount == if claim.Slice? || claim.Everything? then 0 else old(l.scanCount)
    {
      if b.None? {
        if position > 0 {
          return Exhausted;
        }
        position := Wrap(-1);
        l.scanCount := 0;
        return Everything;
      }
      var maxRowId := b.value.max;
      if position > maxRowId {
        return Exhausted;
      }
      if l.scanCount == 0 && rowsPerGroup < maxRowId {
        rowsPerGroup := Wrap(rowsPerGroup * 2);
      }
      if rowsPerGroup == 0 {
        return GroupSizeNotSet;
      }
      var rowidMin := position;
      var end := Wrap(rowidMin + rowsPerGroup - 1);
      var rowidMax := if maxRowId < end then maxRowId else end;
      position := Wrap(rowidMax + 1);
      l.scanCount := 0;
      return Slice(rowidMin, rowidMax);
    }
  }

  // ----- why 64 bits suffice

  function Max(a: int, b: int): int {
    if a < b then b else a
  }

  /** Once a slice has been claimed, the group size is at most the distance claimed so far. */
  ghost predicate Bounded(b: Bind, g: Global) {
    b.Some? ==>
      && Start(b) <= g.position <= b.value.max + 1
      && ROWS_PER_GROUP <= g.rowsPerGroup <= Max(ROWS_PER_GROUP, 2 * (g.position - Start(b)))
      && (g.position == Start(b) ==> g.rowsPerGroup == ROWS_PER_GROUP)
      && (Start(b) < g.position <= b.value.max ==> g.rowsPerGroup <= g.position - Start(b))
  }

  /** A claim that follows an empty slice can only happen after something was claimed. */
  ghost predicate Progressed(b: Bind, g: Global, scanCount: nat) {
    b.Some? && scanCount == 0 ==> g.position > Start(b)
  }

  /** No claim overflows: it is the claim of unbounded arithmetic, and its row ids fit a signed 64-bit integer. */
  lemma ClaimExact(b: Bind, g: Global, scanCount: nat)
    requires b.Some? && Bounded(b, g) && Progressed(b, g, scanCount) && g.position <= b.value.max
    ensures var doubled := scanCount == 0 && g.rowsPerGroup < b.value.max;
            var size := if doubled then 2 * g.rowsPerGroup else g.rowsPerGroup;
            var end := g.position + size - 1;
            var hi := if b.value.max < end then b.value.max else end;
            && end < U64
            && g.position <= hi <= I64_MAX
            && ClaimNext(b, g, scanCount) == (Slice(g.position, hi), Global(hi + 1, size))
  {
  }

  lemma ClaimBounded(b: Bind, g: Global, scanCount: nat)
    requires Bounded(b, g) && Progressed(b, g, scanCount)
    ensures Bounded(b, ClaimNext(b, g, scanCount).1)
    ensures ClaimNext(b, g, scanCount).0.Slice? ==> ClaimNext(b, g, scanCount).1.position > Start(b)
    ensures ClaimNext(b, g, scanCount).0 != GroupSizeNotSet
  {
    if b.Some? && g.position <= b.value.max {
      ClaimExact(b, g, scanCount);
    }
  }
}
