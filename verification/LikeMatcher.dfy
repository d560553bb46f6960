/**
  DuckDB's LIKE over bytes: a declarative meaning of patterns, and the greedy loop that only ever
  backtracks to the last '%'.
 */
module LikeMatcher {
  import opened Bytes

  /** A parsed pattern, over bytes or over code points. Dangling stands for an escape character with nothing behind it. */
  datatype Pattern =
    | End
    | Dangling
    | Literal(c: int, rest: Pattern)
    | AnyChar(rest: Pattern)
    | AnyRun(rest: Pattern)

  function Parse(p: seq<int>, escape: Option<int>, i: nat): Pattern
    requires i <= |p|
    decreases |p| - i
  {
    if i == |p| then End
    else if escape == Some(p[i]) then
      if i + 1 == |p| then Dangling else Literal(p[i + 1], Parse(p, escape, i + 2))
    else if p[i] == UNDERSCORE then AnyChar(Parse(p, escape, i + 1))
    else if p[i] == PERCENT then AnyRun(Parse(p, escape, i + 1))
    else Literal(p[i], Parse(p, escape, i + 1))
  }

  predicate EndsDangling(pat: Pattern) {
    match pat
    case End => false
    case Dangling => true
    case Literal(_, rest) => EndsDangling(rest)
    case AnyChar(rest) => EndsDangling(rest)
    case AnyRun(rest) => EndsDangling(rest)
  }

  predicate NeedsEscape(c: int, escape: Option<int>) {
    c == '%' as int || c == '_' as int || escape == Some(c)
  }

  /** Writes a pattern, with an escape character before what is not to be special. */
  function Print(pat: Pattern, escape: Option<int>): seq<int> {
    match pat
    case End => []
    case Dangling => if escape.Some? then [escape.value] else []
    case Literal(c, rest) =>
      (if NeedsEscape(c, escape) && escape.Some? then [escape.value, c] else [c]) + Print(rest, escape)
    case AnyChar(rest) => ['_' as int] + Print(rest, escape)
    case AnyRun(rest) => ['%' as int] + Print(rest, escape)
  }

  /** Every pattern can be written, if there is an escape character for what needs one. */
  ghost predicate Printable(pat: Pattern, escape: Option<int>) {
    match pat
    case End => true
    case Dangling => escape.Some?
    case Literal(c, rest) => (NeedsEscape(c, escape) ==> escape.Some?) && Printable(rest, escape)
    case AnyChar(rest) => Printable(rest, escape)
    case AnyRun(rest) => Printable(rest, escape)
  }

  lemma {:induction false} ParseDrop(p: seq<int>, escape: Option<int>, i: nat, k: nat)
    requires i + k <= |p|
    ensures Parse(p, escape, i + k) == Parse(p[i..], escape, k)
    decreases |p| - i - k
  {
    if i + k < |p| {
      ParseDrop(p, escape, i, k + 1);
      if i + k + 1 < |p| {
        ParseDrop(p, escape, i, k + 2);
      }
    }
  }

  /** Parsing undoes writing. */
  lemma {:induction false} ParsePrinted(pat: Pattern, escape: Option<int>)
    requires escape != Some('%' as int) && escape != Some('_' as int) && Printable(pat, escape)
    ensures Parse(Print(pat, escape), escape, 0) == pat
  {
    var p := Print(pat, escape);
    match pat
    case End =>
    case Dangling =>
    case Literal(c, rest) =>
      var k := if NeedsEscape(c, escape) then 2 else 1;
      ParsePrinted(rest, escape);
      ParseDrop(p, escape, k, 0);
      assert p[k..] == Print(rest, escape);
    case AnyChar(rest) =>
      ParsePrinted(rest, escape);
      ParseDrop(p, escape, 1, 0);
      assert p[1..] == Print(rest, escape);
    case AnyRun(rest) =>
      ParsePrinted(rest, escape);
      ParseDrop(p, escape, 1, 0);
      assert p[1..] == Print(rest, escape);
  }

  /** Whether the pattern matches s from position j on; a dangling escape counts as matched once it is reached. */
  ghost predicate Matches(pat: Pattern, s: seq<byte>, j: nat)
    requires j <= |s|
    decreases pat
  {
    match pat
    case End => j == |s|
    case Dangling => true
    case Literal(c, rest) => j < |s| && s[j] == c && Matches(rest, s, j + 1)
    case AnyChar(rest) => j < |s| && Matches(rest, s, AfterChar(s, j))
    case AnyRun(rest) => exists k :: j <= k <= |s| && Matches(rest, s, k)
  }

  /** Whether the pattern matches some suffix of s that starts at j or later. */
  ghost predicate MatchesFrom(pat: Pattern, s: seq<byte>, j: nat) {
    exists k :: j <= k <= |s| && Matches(pat, s, k)
  }

  /** The outcome of a LIKE: its value, or the error for a pattern that ends with the escape character. */
  datatype LikeResult = Value(matched: bool) | DanglingEscapeError

  ghost function LikeOutcome(pat: Pattern, s: seq<byte>): LikeResult {
    if Matches(pat, s, 0) then
      if EndsDangling(pat) then DanglingEscapeError else Value(true)
    else Value(false)
  }

  /** After consuming one pattern element at j, every later start also ends up at or behind the new position. */
  lemma StepFrom(pat: Pattern, s: seq<byte>, j: nat)
    requires j < |s|
    ensures pat.Literal? && MatchesFrom(pat, s, j) ==> MatchesFrom(pat.rest, s, j + 1)
    ensures pat.AnyChar? && MatchesFrom(pat, s, j) ==> MatchesFrom(pat.rest, s, AfterChar(s, j))
  {
    if MatchesFrom(pat, s, j) {
      var k :| j <= k <= |s| && Matches(pat, s, k);
      if pat.Literal? {
        assert Matches(pat.rest, s, k + 1);
      } else if pat.AnyChar? {
        AfterCharMonotone(s, j, k);
        assert Matches(pat.rest, s, AfterChar(s, k));
      }
    }
  }

  lemma AnyRunIsSearch(rest: Pattern, s: seq<byte>, j: nat)
    requires j <= |s|
    ensures Matches(AnyRun(rest), s, j) == MatchesFrom(rest, s, j)
  {
  }

  /** A run of '%' means the same as a single one. */
  lemma AnyRunFrom(rest: Pattern, s: seq<byte>, j: nat)
    requires j <= |s|
    ensures MatchesFrom(AnyRun(rest), s, j) == MatchesFrom(rest, s, j) == Matches(AnyRun(rest), s, j)
  {
    AnyRunIsSearch(rest, s, j);
    if MatchesFrom(AnyRun(rest), s, j) {
      var k :| j <= k <= |s| && Matches(AnyRun(rest), s, k);
      AnyRunIsSearch(rest, s, k);
    }
  }

  /**
    What the loop knows: `full` is the value to compute, `cur` the pattern left at position j, and `retry` the
    pattern behind the last '%' (if there is one) with the first start that has not been ruled out.
   */
  ghost predicate Progress(full: bool, cur: Pattern, j: nat, retry: Option<Pattern>, from: nat, s: seq<byte>)
    requires from <= j <= |s|
  {
    && (Matches(cur, s, j) ==> full)
    && (full ==> MatchesFrom(cur, s, j))
    && match retry
       case None => full ==> Matches(cur, s, j)
       case Some(pat) =>
         && full == MatchesFrom(pat, s, from)
         && (full ==> Matches(cur, s, j) || MatchesFrom(pat, s, from + 1))
  }

  /** The position after the first pattern element, if it is a literal or a '_' that fits at j. */
  function Fits(pat: Pattern, s: seq<byte>, j: nat): (k: Option<nat>)
    requires j < |s|
    ensures k.Some? ==> j < k.value <= |s| && (pat.Literal? || pat.AnyChar?)
  {
    if pat.AnyChar? then Some(AfterChar(s, j))
    else if pat.Literal? && s[j] == pat.c then Some(j + 1)
    else None
  }

  /** Consuming a pattern element that fits at j keeps what is known. */
  lemma ProgressConsume(full: bool, cur: Pattern, j: nat, retry: Option<Pattern>, from: nat, s: seq<byte>)
    requires from <= j < |s| && Progress(full, cur, j, retry, from, s)
    requires Fits(cur, s, j).Some?
    ensures Progress(full, cur.rest, Fits(cur, s, j).value, retry, from, s)
  {
    StepFrom(cur, s, j);
  }

  /** A '%' turns the value into a search from j on, whatever was left to retry before. */
  lemma ProgressRun(full: bool, cur: Pattern, j: nat, retry: Option<Pattern>, from: nat, s: seq<byte>)
    requires from <= j <= |s| && Progress(full, cur, j, retry, from, s) && cur.AnyRun?
    ensures full == MatchesFrom(cur, s, j)
  {
  }

  lemma ProgressSearch(full: bool, pat: Pattern, j: nat, s: seq<byte>)
    requires j <= |s| && full == MatchesFrom(pat, s, j)
    ensures Progress(full, pat, j, Some(pat), j, s)
  {
  }

  /** A mismatch at j rules out the current start. */
  lemma ProgressRetry(full: bool, cur: Pattern, j: nat, pat: Pattern, from: nat, s: seq<byte>)
    requires from <= j < |s| && Progress(full, cur, j, Some(pat), from, s)
    requires cur.End? || (cur.Literal? && Fits(cur, s, j).None?)
    ensures Progress(full, pat, from + 1, Some(pat), from + 1, s)
  {
  }

  lemma ProgressStart(cur: Pattern, s: seq<byte>)
    ensures Progress(Matches(cur, s, 0), cur, 0, None, 0, s)
  {
  }

  /** The value is known when there is nothing left to retry, or of the string. */
  lemma ProgressEnd(full: bool, cur: Pattern, j: nat, retry: Option<Pattern>, from: nat, s: seq<byte>)
    requires from <= j <= |s| && Progress(full, cur, j, retry, from, s)
    ensures Matches(cur, s, j) ==> full
    ensures retry.None? || j == |s| ==> full == Matches(cur, s, j)
  {
  }

  /** Skips a byte and its continuation bytes (sqlite_functions.cpp:266-269). */
  method SkipChar(s: seq<byte>, start: nat) returns (sidx: nat)
    requires start < |s|
    ensures sidx == AfterChar(s, start)
  {
    sidx := start + 1;
    while sidx < |s| && IsContinuation(s[sidx])
      invariant sidx <= |s| && SkipContinuation(s, sidx) == AfterChar(s, start)
    {
      sidx := sidx + 1;
    }
  }

  /** Consumes a literal or a '_' at sidx, if it fits (sqlite_functions.cpp:255-270, 283-287). */
  method TryConsume(s: seq<byte>, sidx: nat, p: seq<byte>, pidx: nat, escape: Option<byte>)
    returns (fits: bool, newPidx: nat, newSidx: nat)
    requires sidx < |s| && pidx < |p| && !Parse(p, escape, pidx).Dangling? && !Parse(p, escape, pidx).AnyRun?
    ensures pidx < newPidx <= |p|
    ensures Parse(p, escape, newPidx) == Parse(p, escape, pidx).rest
    ensures Fits(Parse(p, escape, pidx), s, sidx) == if fits then Some(newSidx) else None
  {
    var pchar := p[pidx];
    newPidx, newSidx := pidx + 1, sidx + 1;
    if escape == Some(pchar) {
      newPidx := pidx + 2;
      fits := p[pidx + 1] == s[sidx];
    } else if pchar == UNDERSCORE {
      newSidx := SkipChar(s, sidx);
      fits := true;
    } else {
      fits := pchar == s[sidx];
    }
  }

  /** Skips the rest of a run of '%' (sqlite_functions.cpp:272-275). */
  method SkipRun(p: seq<byte>, escape: Option<byte>, start: nat, ghost s: seq<byte>, ghost j: nat)
    returns (pidx: nat)
    requires start < |p| && p[start] == PERCENT && escape != Some(PERCENT) && j <= |s|
    ensures start < pidx <= |p|
    ensures MatchesFrom(Parse(p, escape, pidx), s, j) == MatchesFrom(Parse(p, escape, start), s, j)
    ensures EndsDangling(Parse(p, escape, pidx)) == EndsDangling(Parse(p, escape, start))
    ensures pidx < |p| ==> p[pidx] != PERCENT
  {
    pidx := start + 1;
    AnyRunFrom(Parse(p, escape, pidx), s, j);
    while pidx < |p| && p[pidx] == PERCENT
      invariant start < pidx <= |p|
      invariant EndsDangling(Parse(p, escape, pidx)) == EndsDangling(Parse(p, escape, start))
      invariant MatchesFrom(Parse(p, escape, pidx), s, j) == MatchesFrom(Parse(p, escape, start), s, j)
    {
      AnyRunFrom(Parse(p, escape, pidx + 1), s, j);
      pidx := pidx + 1;
    }
  }

  /** What is left of the pattern when the string is used up (sqlite_functions.cpp:295-307). */
  method MatchTail(s: seq<byte>, p: seq<byte>, escape: Option<byte>, start: nat) returns (r: LikeResult)
    requires start <= |p|
    ensures Matches(Parse(p, escape, start), s, |s|) ==>
              r == if EndsDangling(Parse(p, escape, start)) then DanglingEscapeError else Value(true)
    ensures !Matches(Parse(p, escape, start), s, |s|) ==> r == Value(false)
  {
    var pidx := start;
    while pidx < |p|
      invariant pidx <= |p|
      invariant EndsDangling(Parse(p, escape, pidx)) == EndsDangling(Parse(p, escape, start))
      invariant Matches(Parse(p, escape, pidx), s, |s|) == Matches(Parse(p, escape, start), s, |s|)
    {
      if escape == Some(p[pidx]) {
        if pidx + 1 == |p| {
          return DanglingEscapeError;
        }
        break;
      }
      if p[pidx] != PERCENT {
        break;
      }
      AnyRunFrom(Parse(p, escape, pidx + 1), s, |s|);
      pidx := pidx + 1;
    }
    return Value(pidx == |p|);
  }

  /**
    The matching loop. Only the last '%' is ever retried, and yet the result is the declarative meaning
    of the pattern - for every byte string, every pattern and every escape byte (also '%' and '_').
   */
  method LikeMatches(s: seq<byte>, p: seq<byte>, escape: Option<byte>) returns (r: LikeResult)
    ensures r == LikeOutcome(Parse(p, escape, 0), s)
  {
    hide Progress;
    ghost var cur := Parse(p, escape, 0);
    ghost var full, dangling := Matches(cur, s, 0), EndsDangling(cur);
    ghost var retry: Option<Pattern> := None;
    ProgressStart(cur, s);
    var pidx, sidx := 0, 0;
    var hasPercentage := false;
    var retryPidx, retrySidx := 0, 0;
    while sidx < |s|
      invariant 0 <= retryPidx <= pidx <= |p| && 0 <= retrySidx <= sidx <= |s|
      invariant cur == Parse(p, escape, pidx) && EndsDangling(cur) == dangling
      invariant hasPercentage ==> retry == Some(Parse(p, escape, retryPidx)) && EndsDangling(retry.value) == dangling
      invariant !hasPercentage ==> retry == None && retryPidx == 0
      invariant Progress(full, cur, sidx, retry, retrySidx, s)
      decreases |p| - retryPidx, |s| - retrySidx, |p| - pidx
    {
      ProgressEnd(full, cur, sidx, retry, retrySidx, s);
      if pidx < |p| {
        if escape == Some(p[pidx]) && pidx + 1 == |p| {
          return DanglingEscapeError;
        }
        if escape != Some(p[pidx]) && p[pidx] == PERCENT {
          ProgressRun(full, cur, sidx, retry, retrySidx, s);
          pidx := SkipRun(p, escape, pidx, s, sidx);
          if pidx == |p| {
            assert Matches(End, s, |s|);
            return Value(true);
          }
          cur := Parse(p, escape, pidx);
          ProgressSearch(full, cur, sidx, s);
          hasPercentage, retryPidx, retrySidx, retry := true, pidx, sidx, Some(cur);
          continue;
        }
        var fits, newPidx, newSidx := TryConsume(s, sidx, p, pidx, escape);
        if fits {
          ProgressConsume(full, cur, sidx, retry, retrySidx, s);
          pidx, sidx, cur := newPidx, newSidx, cur.rest;
          continue;
        }
      }
      if !hasPercentage {
        return Value(false);
      }
      ProgressRetry(full, cur, sidx, retry.value, retrySidx, s);
      pidx, cur := retryPidx, retry.value;
      retrySidx := retrySidx + 1;
      sidx := retrySidx;
    }
    ProgressEnd(full, cur, sidx, retry, retrySidx, s);
    r := MatchTail(s, p, escape, pidx);
  }
}
