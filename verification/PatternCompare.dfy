/**
  SQLite's GLOB as patternCompare reads it (src/sqlite/sqlite3.c:121743-121870): over bytes, with the characters that
  sqlite3Utf8Read makes of them, a search for a byte behind a star, and a search that gives up early.
 */
module PatternCompare {
  import opened Bytes
  import opened Utf8

  datatype Outcome = Match | NoMatch | NoWildcardMatch

  // ----- reading a character

  /** What the first byte of a longer character contributes. */
  function FirstBits(b: byte): nat
    requires b >= 0xC0
  {
    if b < 0xE0 then b - 0xC0 else if b < 0xF0 then b - 0xE0 else if b < 0xF8 then b - 0xF0
    else if b < 0xFC then b - 0xF8 else if b < 0xFE then b - 0xFC else 0
  }

  function AddBits(c: nat, s: seq<byte>): nat
    decreases |s|
  {
    if s == [] || !IsContinuation(s[0]) then c else AddBits((c * 64 + (s[0] - 0x80)) % 0x1_0000_0000, s[1..])
  }

  /** Overlong forms of ASCII, surrogates, and the last two code points of the basic plane are all read as U+FFFD. */
  function Folded(c: nat): nat {
    if c < 0x80 || 0xD800 <= c < 0xE000 || c == 0xFFFE || c == 0xFFFF then 0xFFFD else c
  }

  /** A byte below C0 stands for itself, also a continuation byte. */
  function ReadChar(s: seq<byte>): int
    requires s != []
  {
    if s[0] < 0xC0 then s[0] else Folded(AddBits(FirstBits(s[0]), s[1..]))
  }

  function AfterRead(s: seq<byte>): (r: seq<byte>)
    requires s != []
    ensures |r| < |s|
  {
    if s[0] < 0xC0 then s[1..] else s[SkipContinuation(s, 1)..]
  }

  // ----- comparing

  /** Reads a character class up to its closing bracket: whether it lists c, and what follows it. */
  function ClassScan(g: seq<byte>, c: int, prior: int, seen: bool): (r: Option<(bool, seq<byte>)>)
    ensures r.Some? ==> |r.value.1| < |g|
    decreases |g|
  {
    if g == [] then None else
    var c2, rest := ReadChar(g), AfterRead(g);
    if c2 == CLOSE_BRACKET then Some((seen, rest))
    else if c2 == DASH && rest != [] && rest[0] != CLOSE_BRACKET && prior > 0 then
      ClassScan(AfterRead(rest), c, 0, seen || prior <= c <= ReadChar(rest))
    else ClassScan(rest, c, c2, seen || c == c2)
  }

  /** What follows a character class that contains c; g starts behind its opening bracket. */
  function ClassMatch(g: seq<byte>, c: int): (rest: Option<seq<byte>>)
    ensures rest.Some? ==> |rest.value| < |g|
  {
    var invert := g != [] && ReadChar(g) == CARET;
    var body := if invert then AfterRead(g) else g;
    var leading := body != [] && ReadChar(body) == CLOSE_BRACKET;
    var scan := ClassScan(if leading then AfterRead(body) else body, c, 0, leading && c == CLOSE_BRACKET);
    if scan.None? || scan.value.0 == invert then None else Some(scan.value.1)
  }

  function Compare(g: seq<byte>, s: seq<byte>): Outcome
    decreases |g|, 0, 0
  {
    if g == [] then if s == [] then Match else NoMatch
    else
      var c, rest := ReadChar(g), AfterRead(g);
      if c == STAR then Star(rest, s)
      else if s == [] then NoMatch
      else if c == OPEN_BRACKET then
        var behind := ClassMatch(rest, ReadChar(s));
        if behind.None? then NoMatch else Compare(behind.value, AfterRead(s))
      else if c == ReadChar(s) || c == QUESTION then Compare(rest, AfterRead(s))
      else NoMatch
  }

  /** Behind a star; more stars are skipped, and each '?' takes a character. */
  function Star(g: seq<byte>, s: seq<byte>): Outcome
    decreases |g|, 2, 0
  {
    if g == [] then Match
    else
      var c, rest := ReadChar(g), AfterRead(g);
      if c == STAR then Star(rest, s)
      else if c == QUESTION then if s == [] then NoWildcardMatch else Star(rest, AfterRead(s))
      else if c == OPEN_BRACKET then SearchSet(g, s)
      else if c <= 0x80 then SearchByte(c, rest, s)
      else SearchChar(c, rest, s)
  }

  function SearchSet(g: seq<byte>, s: seq<byte>): Outcome
    decreases |g|, 1, |s|
  {
    if s == [] then NoWildcardMatch else
    var r := Compare(g, s);
    if r != NoMatch then r else SearchSet(g, AfterRead(s))
  }

  /** A search for a byte, wherever it is; a search that ended without wildcards left is final. */
  function SearchByte(c: int, g: seq<byte>, s: seq<byte>): Outcome
    decreases |g|, 1, |s|
  {
    if s == [] then NoWildcardMatch else
    var r := if s[0] == c then Compare(g, s[1..]) else NoMatch;
    if r != NoMatch then r else SearchByte(c, g, s[1..])
  }

  function SearchChar(c: int, g: seq<byte>, s: seq<byte>): Outcome
    decreases |g|, 1, |s|
  {
    if s == [] then NoWildcardMatch else
    var r := if ReadChar(s) == c then Compare(g, AfterRead(s)) else NoMatch;
    if r != NoMatch then r else SearchChar(c, g, AfterRead(s))
  }

  /** SQLite reads its arguments as C strings: up to the first NUL byte. */
  function CString(s: seq<byte>): (r: seq<byte>)
    ensures 0 !in s ==> r == s
  {
    if s == [] || s[0] == 0 then [] else [s[0]] + CString(s[1..])
  }

  /** `s GLOB g` in SQLite. */
  predicate SqliteGlob(g: seq<byte>, s: seq<byte>) {
    Compare(CString(g), CString(s)) == Match
  }

  // ----- reading what UTF-8 encodes

  /** How SQLite reads a code point. */
  function Seen(c: CodePoint): int {
    if c == 0xFFFE || c == 0xFFFF then 0xFFFD else c
  }

  ghost predicate Aligned(s: seq<byte>) {
    s == [] || !IsContinuation(s[0])
  }

  lemma AddNothing(c: nat, rest: seq<byte>)
    requires Aligned(rest)
    ensures AddBits(c, rest) == c
  {
  }

  lemma AddOne(c: nat, l: nat, rest: seq<byte>)
    requires l < 64 && c < 0x400_0000
    ensures AddBits(c, [0x80 + l] + rest) == AddBits(c * 64 + l, rest)
  {
    assert ([0x80 + l] + rest)[1..] == rest;
  }

  lemma SkipEncoded(bs: seq<byte>, rest: seq<byte>, i: nat)
    requires Aligned(rest) && i <= |bs| && forall k :: i <= k < |bs| ==> IsContinuation(bs[k])
    ensures SkipContinuation(bs + rest, i) == |bs|
    decreases |bs| - i
  {
    if i < |bs| {
      assert (bs + rest)[i] == bs[i];
      SkipEncoded(bs, rest, i + 1);
    } else {
      assert rest != [] ==> (bs + rest)[i] == rest[0];
    }
  }

  lemma ReadEncoded(c: CodePoint, rest: seq<byte>)
    requires Aligned(rest)
    ensures ReadChar(EncodeChar(c) + rest) == Seen(c) && AfterRead(EncodeChar(c) + rest) == rest
  {
    var bs := EncodeChar(c);
    var s := bs + rest;
    assert s[0] == bs[0];
    if c < 0x80 {
      assert s[1..] == rest;
    } else {
      SkipEncoded(bs, rest, 1);
      assert s[|bs|..] == rest;
      ReadLong(c, rest);
    }
  }

  lemma ReadLong(c: CodePoint, rest: seq<byte>)
    requires Aligned(rest) && c >= 0x80
    ensures AddBits(FirstBits(EncodeChar(c)[0]), (EncodeChar(c) + rest)[1..]) == c
  {
    hide AddBits;
    var q, l := c / 64, c % 64;
    var h, m := q / 64, q % 64;
    var tail := (EncodeChar(c) + rest)[1..];
    AddNothing(c, rest);
    if c < 0x800 {
      assert tail == [0x80 + l] + rest;
      AddOne(q, l, rest);
    } else if c < 0x10000 {
      assert tail == [0x80 + m] + ([0x80 + l] + rest);
      AddOne(h, m, [0x80 + l] + rest);
      AddOne(q, l, rest);
    } else {
      var f, n := h / 64, h % 64;
      assert tail == [0x80 + n] + ([0x80 + m] + ([0x80 + l] + rest));
      AddOne(f, n, [0x80 + m] + ([0x80 + l] + rest));
      AddOne(h, m, [0x80 + l] + rest);
      AddOne(q, l, rest);
    }
  }
}
