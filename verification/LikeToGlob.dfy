/** The rewrite of a constant LIKE pattern into a pattern of SQLite's (case sensitive) GLOB operator. */
module LikeToGlob {
  import opened Bytes
  import opened LikeMatcher
  import opened LikeCharacters
  import opened PatternCompare
  import opened Utf8

  // ----- the rewrite

  /** Characters that are special in GLOB patterns are matched literally within brackets. */
  function GlobLiteral(c: int): seq<int> {
    if c == STAR || c == QUESTION || c == OPEN_BRACKET then [OPEN_BRACKET, c, CLOSE_BRACKET] else [c]
  }

  function GlobOf(pat: Pattern): seq<int> {
    match pat
    case End => []
    case Dangling => []
    case Literal(c, rest) => GlobLiteral(c) + GlobOf(rest)
    case AnyChar(rest) => [QUESTION] + GlobOf(rest)
    case AnyRun(rest) => [STAR] + GlobOf(rest)
  }

  /** Appends a character that is matched literally (sqlite_sql_writer.cpp:2024-2031). */
  method AppendLiteral(prefix: seq<byte>, c: byte) returns (result: seq<byte>)
    ensures result == prefix + GlobLiteral(c)
  {
    if c == STAR || c == QUESTION || c == OPEN_BRACKET {
      result := prefix + [OPEN_BRACKET];
      result := result + [c];
      result := result + [CLOSE_BRACKET];
    } else {
      result := prefix + [c];
    }
  }

  /** Fails exactly for a pattern that ends with its escape character. */
  method ConvertLikeToGlob(p: seq<byte>, escape: Option<byte>) returns (ok: bool, result: seq<byte>)
    ensures ok == !EndsDangling(Parse(p, escape, 0))
    ensures ok ==> result == GlobOf(Parse(p, escape, 0))
  {
    hide GlobLiteral;
    result := [];
    var i := 0;
    while i < |p|
      invariant i <= |p|
      invariant EndsDangling(Parse(p, escape, i)) == EndsDangling(Parse(p, escape, 0))
      invariant result + GlobOf(Parse(p, escape, i)) == GlobOf(Parse(p, escape, 0))
    {
      ghost var before := result;
      var c := p[i];
      if escape == Some(c) {
        if i + 1 == |p| {
          return false, result;
        }
        i := i + 1;
        c := p[i];
      } else if c == PERCENT {
        result := result + [STAR];
        i := i + 1;
        Assoc(before, [STAR], GlobOf(Parse(p, escape, i)));
        continue;
      } else if c == UNDERSCORE {
        result := result + [QUESTION];
        i := i + 1;
        Assoc(before, [QUESTION], GlobOf(Parse(p, escape, i)));
        continue;
      }
      result := AppendLiteral(result, c);
      i := i + 1;
      Assoc(before, GlobLiteral(c), GlobOf(Parse(p, escape, i)));
    }
    return true, result;
  }

  // ----- the rewritten pattern, character by character

  predicate IsSpecial(c: int) {
    c == STAR || c == QUESTION || c == OPEN_BRACKET
  }

  ghost function LiteralBytes(c: CodePoint): (bs: seq<byte>)
    ensures bs != [] && !IsContinuation(bs[0])
  {
    if IsSpecial(c) then [OPEN_BRACKET, c, CLOSE_BRACKET] else EncodeChar(c)
  }

  /** The GLOB pattern of a pattern over code points, in UTF-8. */
  ghost function GlobBytes(pat: Pattern): (bs: seq<byte>)
    requires OverCodePoints(pat)
    ensures Aligned(bs)
  {
    match pat
    case End => []
    case Dangling => []
    case Literal(c, rest) => LiteralBytes(c) + GlobBytes(rest)
    case AnyChar(rest) => [QUESTION] + GlobBytes(rest)
    case AnyRun(rest) => [STAR] + GlobBytes(rest)
  }

  lemma {:induction false} LiteralsGlob(bs: seq<byte>, rest: Pattern)
    ensures EndsDangling(Literals(bs, rest)) == EndsDangling(rest)
    ensures (forall i :: 0 <= i < |bs| ==> bs[i] >= 0x80) ==>
              GlobOf(Literals(bs, rest)) == bs + GlobOf(rest)
  {
    if bs != [] {
      hide GlobLiteral;
      LiteralsGlob(bs[1..], rest);
      Assoc([bs[0]], bs[1..], GlobOf(rest));
      assert [bs[0]] + bs[1..] == bs;
    }
  }

  /** Rewriting the bytes of a pattern gives the bytes of its rewritten characters. */
  lemma {:induction false} EncodeGlob(pat: Pattern)
    requires OverCodePoints(pat)
    ensures GlobOf(EncodePattern(pat)) == GlobBytes(pat)
  {
    hide EncodeChar;
    match pat
    case End =>
    case Dangling =>
    case Literal(c, rest) =>
      EncodeGlob(rest);
      LiteralsGlob(EncodeChar(c), EncodePattern(rest));
      if c < 0x80 {
        assert Literals([c], EncodePattern(rest)) == Literal(c, Literals([], EncodePattern(rest)));
      }
    case AnyChar(rest) => EncodeGlob(rest);
    case AnyRun(rest) => EncodeGlob(rest);
  }

  lemma {:induction false} EncodeDangling(pat: Pattern)
    requires OverCodePoints(pat)
    ensures EndsDangling(EncodePattern(pat)) == EndsDangling(pat)
  {
    match pat
    case End =>
    case Dangling =>
    case Literal(c, rest) =>
      EncodeDangling(rest);
      LiteralsGlob(EncodeChar(c), EncodePattern(rest));
    case AnyChar(rest) => EncodeDangling(rest);
    case AnyRun(rest) => EncodeDangling(rest);
  }

  // ----- one step of the comparison

  lemma EncodedAligned(cs: seq<CodePoint>)
    ensures Aligned(Encode(cs))
    ensures cs != [] ==> Encode(cs) != [] && ReadChar(Encode(cs)) == Seen(cs[0]) && AfterRead(Encode(cs)) == Encode(cs[1..])
  {
    hide EncodeChar, ReadChar, AfterRead;
    if cs != [] {
      EncodedAligned(cs[1..]);
      ReadEncoded(cs[0], Encode(cs[1..]));
    }
  }

  lemma ReadAscii(b: byte, rest: seq<byte>)
    requires b < 0x80
    ensures ReadChar([b] + rest) == b && AfterRead([b] + rest) == rest
  {
  }

  lemma ClassOfOne(c: byte, rest: seq<byte>, x: int)
    requires IsSpecial(c)
    ensures ClassMatch([c, CLOSE_BRACKET] + rest, x) == if x == c then Some(rest) else None
  {
    hide ReadChar, AfterRead;
    var g := [c, CLOSE_BRACKET] + rest;
    assert g == [c] + ([CLOSE_BRACKET] + rest);
    ReadAscii(c, [CLOSE_BRACKET] + rest);
    ReadAscii(CLOSE_BRACKET, rest);
    assert ClassScan([CLOSE_BRACKET] + rest, x, c, x == c) == Some((x == c, rest));
    assert ClassScan(g, x, 0, false) == ClassScan([CLOSE_BRACKET] + rest, x, c, x == c);
  }

  /** A literal takes a character that SQLite reads as it reads the literal. */
  lemma CompareLiteral(c: CodePoint, g: seq<byte>, cs: seq<CodePoint>)
    requires Aligned(g)
    ensures Compare(LiteralBytes(c) + g, Encode(cs)) ==
            if cs != [] && Seen(cs[0]) == Seen(c) then Compare(g, Encode(cs[1..])) else NoMatch
  {
    hide EncodeChar, ReadChar, AfterRead, Encode, ClassMatch;
    EncodedAligned(cs);
    if IsSpecial(c) {
      assert LiteralBytes(c) + g == [OPEN_BRACKET] + ([c, CLOSE_BRACKET] + g);
      ReadAscii(OPEN_BRACKET, [c, CLOSE_BRACKET] + g);
      if cs != [] {
        ClassOfOne(c, g, Seen(cs[0]));
      }
    } else {
      ReadEncoded(c, g);
    }
    EmptyEncodes();
  }

  lemma EmptyEncodes()
    ensures Encode([]) == []
  {
  }

  lemma CompareWildcard(g: seq<byte>, cs: seq<CodePoint>)
    ensures Compare([QUESTION] + g, Encode(cs)) == if cs != [] then Compare(g, Encode(cs[1..])) else NoMatch
    ensures Compare([STAR] + g, Encode(cs)) == Star(g, Encode(cs)) == Star([STAR] + g, Encode(cs))
    ensures Star([QUESTION] + g, Encode(cs)) == if cs != [] then Star(g, Encode(cs[1..])) else NoWildcardMatch
  {
    hide EncodeChar, ReadChar, AfterRead, Encode;
    EncodedAligned(cs);
    EmptyEncodes();
    ReadAscii(QUESTION, g);
    ReadAscii(STAR, g);
  }

  // ----- the searches behind a star

  /** The search for a literal, over characters. */
  ghost function Search(c: CodePoint, g: seq<byte>, cs: seq<CodePoint>): Outcome
    decreases |cs|
  {
    if cs == [] then NoWildcardMatch else
    var r := if Seen(cs[0]) == Seen(c) then Compare(g, Encode(cs[1..])) else NoMatch;
    if r != NoMatch then r else Search(c, g, cs[1..])
  }

  lemma {:induction false} SearchesSet(c: CodePoint, g: seq<byte>, cs: seq<CodePoint>)
    requires IsSpecial(c) && Aligned(g)
    ensures SearchSet(LiteralBytes(c) + g, Encode(cs)) == Search(c, g, cs)
    decreases |cs|
  {
    hide EncodeChar, ReadChar, AfterRead, Encode, Compare, LiteralBytes;
    EncodedAligned(cs);
    EmptyEncodes();
    CompareLiteral(c, g, cs);
    if cs != [] {
      SearchesSet(c, g, cs[1..]);
    }
  }

  lemma {:induction false} SearchesChar(c: CodePoint, g: seq<byte>, cs: seq<CodePoint>)
    ensures SearchChar(Seen(c), g, Encode(cs)) == Search(c, g, cs)
    decreases |cs|
  {
    hide EncodeChar, ReadChar, AfterRead, Encode, Compare;
    EncodedAligned(cs);
    EmptyEncodes();
    if cs != [] {
      SearchesChar(c, g, cs[1..]);
    }
  }

  lemma {:induction false} SkipBytes(c: int, g: seq<byte>, bs: seq<byte>, s: seq<byte>)
    requires c !in bs
    ensures SearchByte(c, g, bs + s) == SearchByte(c, g, s)
    decreases |bs|
  {
    if bs == [] {
      assert bs + s == s;
    } else {
      assert (bs + s)[1..] == bs[1..] + s;
      SkipBytes(c, g, bs[1..], s);
    }
  }

  /** No byte of a longer character is ASCII, so a search for an ASCII byte is a search for a character. */
  lemma {:induction false} SearchesByte(c: CodePoint, g: seq<byte>, cs: seq<CodePoint>)
    requires c < 0x80
    ensures SearchByte(c, g, Encode(cs)) == Search(c, g, cs)
    decreases |cs|
  {
    hide EncodeChar, Compare;
    if cs != [] {
      SearchesByte(c, g, cs[1..]);
      if cs[0] < 0x80 {
        assert Encode(cs)[1..] == Encode(cs[1..]);
      } else {
        SkipBytes(c, g, EncodeChar(cs[0]), Encode(cs[1..]));
      }
    }
  }

  lemma StarLiteral(c: CodePoint, g: seq<byte>, cs: seq<CodePoint>)
    requires Aligned(g) && c != 0x80
    ensures Star(LiteralBytes(c) + g, Encode(cs)) == Search(c, g, cs)
  {
    hide EncodeChar, ReadChar, AfterRead, Encode, Compare, SearchSet, SearchByte, SearchChar, Search;
    if IsSpecial(c) {
      assert LiteralBytes(c) + g == [OPEN_BRACKET] + ([c, CLOSE_BRACKET] + g);
      ReadAscii(OPEN_BRACKET, [c, CLOSE_BRACKET] + g);
      SearchesSet(c, g, cs);
    } else {
      ReadEncoded(c, g);
      if c < 0x80 {
        SearchesByte(c, g, cs);
      } else {
        SearchesChar(c, g, cs);
      }
    }
  }

  // ----- the rewrite preserves the meaning of clean patterns

  /** SQLite does not tell it from another character, or searches it as a byte. */
  predicate IsAmbiguous(c: int, behindRun: bool) {
    0xFFFD <= c <= 0xFFFF || (behindRun && c == 0x80)
  }

  /** No literal U+FFFD, U+FFFE or U+FFFF, and no U+0080 right behind wildcards of which one is a '%'. */
  predicate IsClean(pat: Pattern, behindRun: bool) {
    match pat
    case Literal(c, rest) => !IsAmbiguous(c, behindRun) && IsClean(rest, false)
    case AnyChar(rest) => IsClean(rest, behindRun)
    case AnyRun(rest) => IsClean(rest, true)
    case _ => true
  }

  ghost predicate NoSuffix(pat: Pattern, cs: seq<CodePoint>) {
    forall k :: 0 <= k <= |cs| ==> !CharMatches(pat, cs[k..])
  }

  /** What an outcome says: giving up is final for every later start. */
  ghost predicate Exact(r: Outcome, pat: Pattern, cs: seq<CodePoint>) {
    (r == Match <==> CharMatches(pat, cs)) && (r == NoWildcardMatch ==> NoSuffix(pat, cs))
  }

  ghost predicate ExactSearch(r: Outcome, pat: Pattern, cs: seq<CodePoint>) {
    r != NoMatch && (r == NoWildcardMatch <==> NoSuffix(pat, cs))
  }

  lemma NoSuffixCons(pat: Pattern, cs: seq<CodePoint>)
    requires cs != []
    ensures NoSuffix(pat, cs) <==> !CharMatches(pat, cs) && NoSuffix(pat, cs[1..])
  {
    hide CharMatches;
    assert cs[0..] == cs;
    forall k | 0 < k <= |cs|
      ensures cs[k..] == cs[1..][k - 1..]
    {
    }
    forall k | 0 <= k <= |cs[1..]|
      ensures cs[1..][k..] == cs[k + 1..]
    {
    }
  }

  /** A pattern whose first element takes one character has no match where the rest has none behind it. */
  lemma NoSuffixBehind(pat: Pattern, cs: seq<CodePoint>)
    requires (pat.Literal? || pat.AnyChar?) && cs != [] && NoSuffix(pat.rest, cs[1..])
    ensures NoSuffix(pat, cs)
  {
    forall k | 0 <= k <= |cs|
      ensures !CharMatches(pat, cs[k..])
    {
      if k < |cs| {
        assert cs[k..][1..] == cs[1..][k..];
      }
    }
  }

  /** Over characters, comparing with the GLOB pattern of a clean pattern finds what the LIKE pattern means. */
  lemma {:induction false} GlobAgrees(pat: Pattern, cs: seq<CodePoint>)
    requires OverCodePoints(pat) && !EndsDangling(pat) && IsClean(pat, false)
    ensures Exact(Compare(GlobBytes(pat), Encode(cs)), pat, cs)
    decreases pat, 1, |cs|
  {
    hide Compare, Star, LiteralBytes, Encode, NoSuffix;
    match pat
    case End => EndAgrees(cs);
    case Literal(c, rest) =>
      CompareLiteral(c, GlobBytes(rest), cs);
      if cs != [] {
        GlobAgrees(rest, cs[1..]);
        if NoSuffix(rest, cs[1..]) {
          NoSuffixBehind(pat, cs);
        }
      }
    case AnyChar(rest) =>
      CompareWildcard(GlobBytes(rest), cs);
      if cs != [] {
        GlobAgrees(rest, cs[1..]);
        if NoSuffix(rest, cs[1..]) {
          NoSuffixBehind(pat, cs);
        }
      }
    case AnyRun(rest) =>
      CompareWildcard(GlobBytes(rest), cs);
      StarAgrees(rest, cs);
      RunSuffix(rest, cs);
  }

  lemma EndAgrees(cs: seq<CodePoint>)
    ensures Compare([], Encode(cs)) == if cs == [] then Match else NoMatch
    ensures Star([], Encode(cs)) == Match
    ensures !NoSuffix(End, cs)
  {
    EncodedAligned(cs);
    assert CharMatches(End, cs[|cs|..]);
  }

  lemma RunSuffix(rest: Pattern, cs: seq<CodePoint>)
    ensures CharMatches(AnyRun(rest), cs) <==> !NoSuffix(rest, cs)
    ensures NoSuffix(rest, cs) ==> NoSuffix(AnyRun(rest), cs)
  {
    forall k, j | 0 <= k <= |cs| && 0 <= j <= |cs[k..]|
      ensures cs[k..][j..] == cs[k + j..]
    {
    }
  }

  lemma {:induction false} StarAgrees(pat: Pattern, cs: seq<CodePoint>)
    requires OverCodePoints(pat) && !EndsDangling(pat) && IsClean(pat, true)
    ensures ExactSearch(Star(GlobBytes(pat), Encode(cs)), pat, cs)
    decreases pat, 2, |cs|
  {
    hide Compare, Star, LiteralBytes, Encode, NoSuffix, Search;
    match pat
    case End => EndAgrees(cs);
    case Literal(c, rest) =>
      StarLiteral(c, GlobBytes(rest), cs);
      SearchAgrees(c, rest, cs);
    case AnyChar(rest) =>
      CompareWildcard(GlobBytes(rest), cs);
      if cs != [] {
        StarAgrees(rest, cs[1..]);
      }
      AnyCharSuffix(rest, cs);
    case AnyRun(rest) =>
      CompareWildcard(GlobBytes(rest), cs);
      StarAgrees(rest, cs);
      RunSuffix(rest, cs);
      assert cs[0..] == cs;
      RunSuffixAll(rest, cs);
  }

  lemma AnyCharSuffix(rest: Pattern, cs: seq<CodePoint>)
    ensures NoSuffix(AnyChar(rest), cs) <==> cs == [] || NoSuffix(rest, cs[1..])
  {
    if cs != [] {
      assert forall k :: 0 <= k < |cs| ==> cs[k..][1..] == cs[1..][k..];
    }
  }

  lemma RunSuffixAll(rest: Pattern, cs: seq<CodePoint>)
    ensures NoSuffix(AnyRun(rest), cs) ==> NoSuffix(rest, cs)
  {
    if NoSuffix(AnyRun(rest), cs) {
      assert cs[0..] == cs;
      RunSuffix(rest, cs);
    }
  }

  lemma {:induction false} SearchAgrees(c: CodePoint, rest: Pattern, cs: seq<CodePoint>)
    requires OverCodePoints(rest) && !EndsDangling(rest) && IsClean(rest, false) && !IsAmbiguous(c, true)
    ensures ExactSearch(Search(c, GlobBytes(rest), cs), Literal(c, rest), cs)
    decreases rest, 3, |cs|
  {
    hide Compare, Encode, GlobBytes;
    if cs == [] {
      assert forall k :: 0 <= k <= |cs| ==> cs[k..] == cs;
    } else {
      hide Exact, ExactSearch, IsClean, EndsDangling, IsAmbiguous, Seen;
      GlobAgrees(rest, cs[1..]);
      SearchAgrees(c, rest, cs[1..]);
      SearchStep(c, rest, cs, Compare(GlobBytes(rest), Encode(cs[1..])), Search(c, GlobBytes(rest), cs[1..]));
    }
  }

  lemma SearchStep(c: CodePoint, rest: Pattern, cs: seq<CodePoint>, here: Outcome, later: Outcome)
    requires cs != [] && !IsAmbiguous(c, true)
    requires Exact(here, rest, cs[1..]) && ExactSearch(later, Literal(c, rest), cs[1..])
    ensures ExactSearch(if Seen(cs[0]) == Seen(c) && here != NoMatch then here else later, Literal(c, rest), cs)
  {
    hide NoSuffix;
    NoSuffixCons(Literal(c, rest), cs);
    if NoSuffix(rest, cs[1..]) {
      NoSuffixBehind(Literal(c, rest), cs);
    }
  }

  // ----- and only of those

  /** A text that fits the pattern character by character as SQLite reads it, with nothing for the '%'. */
  ghost predicate Fits(pat: Pattern, behindRun: bool, cs: seq<CodePoint>)
    requires OverCodePoints(pat)
  {
    match pat
    case End => cs == []
    case Dangling => false
    case Literal(c, rest) =>
      cs != [] && (Seen(cs[0]) == Seen(c) || (behindRun && c == 0x80 && cs[0] == 0x100)) && Fits(rest, false, cs[1..])
    case AnyChar(rest) => cs != [] && Fits(rest, behindRun, cs[1..])
    case AnyRun(rest) => Fits(rest, true, cs)
  }

  /** The first place a search looks at is the right one. */
  lemma {:induction false} FitsIsMatch(pat: Pattern, cs: seq<CodePoint>)
    requires OverCodePoints(pat)
    ensures Fits(pat, false, cs) ==> Compare(GlobBytes(pat), Encode(cs)) == Match
    ensures Fits(pat, true, cs) ==> Star(GlobBytes(pat), Encode(cs)) == Match
    decreases pat
  {
    hide Compare, Star, LiteralBytes, Encode, NoSuffix;
    match pat
    case End => EndAgrees(cs);
    case Dangling =>
    case Literal(c, rest) =>
      if cs != [] {
        FitsIsMatch(rest, cs[1..]);
        CompareLiteral(c, GlobBytes(rest), cs);
        if c == 0x80 {
          if (cs[0] == 0x80 || cs[0] == 0x100) && Fits(rest, false, cs[1..]) {
            ByteBehindStar(GlobBytes(rest), cs);
          }
        } else {
          StarLiteral(c, GlobBytes(rest), cs);
        }
      }
    case AnyChar(rest) =>
      CompareWildcard(GlobBytes(rest), cs);
      if cs != [] {
        FitsIsMatch(rest, cs[1..]);
      }
    case AnyRun(rest) =>
      CompareWildcard(GlobBytes(rest), cs);
      FitsIsMatch(rest, cs);
  }

  /** Behind a star, U+0080 is found in U+0100: both end with the byte 80. */
  lemma ByteBehindStar(g: seq<byte>, cs: seq<CodePoint>)
    requires Aligned(g) && cs != [] && (cs[0] == 0x80 || cs[0] == 0x100)
    requires Compare(g, Encode(cs[1..])) == Match
    ensures Star(LiteralBytes(0x80) + g, Encode(cs)) == Match
  {
    hide Compare, ReadChar, AfterRead, SearchSet, SearchChar, SearchByte;
    ReadEncoded(0x80, g);
    assert Encode(cs) == EncodeChar(cs[0]) + Encode(cs[1..]);
    SecondByteFound(g, EncodeChar(cs[0])[0], Encode(cs[1..]));
  }

  lemma SecondByteFound(g: seq<byte>, first: byte, s: seq<byte>)
    requires first != 0x80 && Compare(g, s) == Match
    ensures SearchByte(0x80, g, [first, 0x80] + s) == Match
  {
    hide Compare;
    var t := [first, 0x80] + s;
    assert t[1..] == [0x80] + s && t[1..][1..] == s;
    assert SearchByte(0x80, g, t) == SearchByte(0x80, g, t[1..]);
  }

  function Exchanged(c: int): CodePoint {
    if c == 0x80 then 0x100 else if c == 0xFFFD then 0xFFFE else 0xFFFD
  }

  /** The shortest text of a pattern that is not clean, with its first ambiguous character exchanged. */
  ghost function Near(pat: Pattern, behindRun: bool, exchange: bool): seq<CodePoint>
    requires OverCodePoints(pat)
  {
    match pat
    case Literal(c, rest) =>
      if exchange && IsAmbiguous(c, behindRun) then [Exchanged(c)] + Near(rest, false, false)
      else [c] + Near(rest, false, exchange)
    case AnyChar(rest) => [97] + Near(rest, behindRun, exchange)
    case AnyRun(rest) => Near(rest, true, exchange)
    case _ => []
  }

  lemma {:induction false} NearFits(pat: Pattern, behindRun: bool, exchange: bool)
    requires OverCodePoints(pat) && !EndsDangling(pat)
    ensures Fits(pat, behindRun, Near(pat, behindRun, exchange))
  {
    match pat
    case End =>
    case Literal(c, rest) =>
      NearFits(rest, false, false);
      NearFits(rest, false, exchange);
      var near := Near(pat, behindRun, exchange);
      assert near[1..] == Near(rest, false, exchange && !IsAmbiguous(c, behindRun));
    case AnyChar(rest) =>
      NearFits(rest, behindRun, exchange);
      assert Near(pat, behindRun, exchange)[1..] == Near(rest, behindRun, exchange);
    case AnyRun(rest) => NearFits(rest, true, exchange);
  }

  function Shortest(pat: Pattern): nat {
    match pat
    case Literal(_, rest) => 1 + Shortest(rest)
    case AnyChar(rest) => 1 + Shortest(rest)
    case AnyRun(rest) => Shortest(rest)
    case _ => 0
  }

  lemma {:induction false} MatchIsLong(pat: Pattern, cs: seq<CodePoint>)
    requires CharMatches(pat, cs)
    ensures |cs| >= Shortest(pat)
    decreases pat
  {
    match pat
    case End =>
    case Dangling =>
    case Literal(_, rest) => MatchIsLong(rest, cs[1..]);
    case AnyChar(rest) => MatchIsLong(rest, cs[1..]);
    case AnyRun(rest) =>
      var k :| 0 <= k <= |cs| && CharMatches(rest, cs[k..]);
      MatchIsLong(rest, cs[k..]);
  }

  lemma {:induction false} NearIsShort(pat: Pattern, behindRun: bool, exchange: bool)
    requires OverCodePoints(pat)
    ensures |Near(pat, behindRun, exchange)| == Shortest(pat)
  {
    match pat
    case End =>
    case Dangling =>
    case Literal(c, rest) =>
      NearIsShort(rest, false, false);
      NearIsShort(rest, false, exchange);
    case AnyChar(rest) => NearIsShort(rest, behindRun, exchange);
    case AnyRun(rest) => NearIsShort(rest, true, exchange);
  }

  /** It is too short for a '%' to take anything, and differs where it was exchanged. */
  lemma {:induction false} NearDiffers(pat: Pattern, behindRun: bool)
    requires OverCodePoints(pat) && !EndsDangling(pat) && !IsClean(pat, behindRun)
    ensures !CharMatches(pat, Near(pat, behindRun, true))
  {
    var near := Near(pat, behindRun, true);
    match pat
    case Literal(c, rest) =>
      if !IsAmbiguous(c, behindRun) {
        NearDiffers(rest, false);
        assert near[1..] == Near(rest, false, true);
      }
    case AnyChar(rest) =>
      NearDiffers(rest, behindRun);
      assert near[1..] == Near(rest, behindRun, true);
    case AnyRun(rest) =>
      NearDiffers(rest, true);
      NearIsShort(rest, true, true);
      assert near[0..] == near;
      forall k | 0 <= k <= |near|
        ensures !CharMatches(rest, near[k..])
      {
        if CharMatches(rest, near[k..]) {
          MatchIsLong(rest, near[k..]);
        }
      }
  }

  ghost predicate NoNul(pat: Pattern) {
    match pat
    case Literal(c, rest) => c != 0 && NoNul(rest)
    case AnyChar(rest) => NoNul(rest)
    case AnyRun(rest) => NoNul(rest)
    case _ => true
  }

  lemma {:induction false} ParseNoNul(p: seq<int>, escape: Option<int>, i: nat)
    requires 0 !in p && i <= |p|
    ensures NoNul(Parse(p, escape, i))
    decreases |p| - i
  {
    if i < |p| {
      ParseNoNul(p, escape, i + 1);
      if i + 1 < |p| {
        ParseNoNul(p, escape, i + 2);
      }
    }
  }

  lemma {:induction false} GlobOfNoNul(pat: Pattern)
    requires NoNul(pat)
    ensures 0 !in GlobOf(pat)
  {
    match pat
    case End =>
    case Dangling =>
    case Literal(c, rest) => GlobOfNoNul(rest);
    case AnyChar(rest) => GlobOfNoNul(rest);
    case AnyRun(rest) => GlobOfNoNul(rest);
  }

  lemma {:induction false} NearNoNul(pat: Pattern, behindRun: bool, exchange: bool)
    requires OverCodePoints(pat) && NoNul(pat)
    ensures 0 !in Near(pat, behindRun, exchange)
  {
    match pat
    case End =>
    case Dangling =>
    case Literal(c, rest) =>
      NearNoNul(rest, false, false);
      NearNoNul(rest, false, exchange);
    case AnyChar(rest) => NearNoNul(rest, behindRun, exchange);
    case AnyRun(rest) => NearNoNul(rest, true, exchange);
  }

  lemma {:induction false} EncodeNul(cs: seq<CodePoint>)
    ensures 0 in Encode(cs) <==> 0 in cs
  {
    if cs != [] {
      EncodeNul(cs[1..]);
      assert 0 in EncodeChar(cs[0]) <==> cs[0] == 0;
      assert cs == [cs[0]] + cs[1..];
    }
  }

  /** Reading up to the first NUL byte reads some of the characters, and not all of them if there is one. */
  lemma {:induction false} CStringPrefix(cs: seq<CodePoint>) returns (k: nat)
    ensures k <= |cs| && CString(Encode(cs)) == Encode(cs[..k])
    ensures 0 in Encode(cs) ==> k < |cs|
  {
    hide EncodeChar, CString;
    k := 0;
    if cs == [] || cs[0] == 0 {
      StartsWithNul(cs);
    } else {
      var rest := CStringPrefix(cs[1..]);
      k := rest + 1;
      assert cs[..k] == [cs[0]] + cs[1..][..rest];
      EncodeCons(cs[0], cs[1..][..rest]);
      CStringConcat(EncodeChar(cs[0]), Encode(cs[1..]));
    }
  }

  lemma StartsWithNul(cs: seq<CodePoint>)
    requires cs == [] || cs[0] == 0
    ensures CString(Encode(cs)) == []
  {
    assert cs != [] ==> EncodeChar(0) == [0] && Encode(cs)[0] == 0;
  }

  lemma CStringDecodes(cs: seq<CodePoint>)
    ensures Decode(CString(Encode(cs))).Some?
  {
    hide EncodeChar, DecodeChar;
    var k := CStringPrefix(cs);
    DecodeEncode(cs[..k]);
  }

  lemma {:induction false} CStringConcat(a: seq<byte>, b: seq<byte>)
    requires 0 !in a
    ensures CString(a + b) == a + CString(b)
  {
    if a == [] {
      assert a + b == b;
    } else {
      assert (a + b)[1..] == a[1..] + b;
      CStringConcat(a[1..], b);
    }
  }

  // ----- the rewrite of a constant pattern

  /** A NUL-free pattern of valid UTF-8 that the code replaces by `g`. */
  ghost predicate Converts(p: seq<byte>, escape: Option<byte>, g: seq<byte>) {
    Decode(p).Some? && 0 !in p && (escape.Some? ==> escape.value < 0x80) &&
    !EndsDangling(Parse(p, escape, 0)) && g == GlobOf(Parse(p, escape, 0))
  }

  ghost predicate CleanPattern(p: seq<byte>, escape: Option<byte>)
    requires Decode(p).Some?
  {
    IsClean(Parse(Decode(p).value, escape, 0), false)
  }

  lemma ConvertsCharacters(p: seq<byte>, escape: Option<byte>, g: seq<byte>)
    requires Converts(p, escape, g)
    ensures var pat := Parse(Decode(p).value, escape, 0);
            OverCodePoints(pat) && NoNul(pat) && !EndsDangling(pat) && CString(g) == GlobBytes(pat)
  {
    hide EncodeChar, DecodeChar;
    var pc := Decode(p).value;
    EncodeDecode(p);
    ParseEncoded(pc, escape);
    EncodeDangling(Parse(pc, escape, 0));
    EncodeGlob(Parse(pc, escape, 0));
    ParseNoNul(p, escape, 0);
    GlobOfNoNul(Parse(p, escape, 0));
    EncodeNul(pc);
    ParseNoNul(pc, escape, 0);
  }

  /**
    For a clean pattern that converts, and any valid UTF-8 text: GLOB with the rewritten pattern is LIKE on the
    text up to its first NUL byte, whatever the escape character is (also '%', '_', '*', '?' or '[').
   */
  lemma RewritePreservesLike(p: seq<byte>, escape: Option<byte>, s: seq<byte>, g: seq<byte>)
    requires Converts(p, escape, g) && CleanPattern(p, escape) && Decode(s).Some?
    ensures SqliteGlob(g, s) == Matches(Parse(p, escape, 0), CString(s), 0)
    ensures 0 !in s ==> LikeOutcome(Parse(p, escape, 0), s) == Value(SqliteGlob(g, s))
  {
    hide EncodeChar, DecodeChar, Compare, GlobBytes, Matches, CharMatches, GlobOf;
    ConvertsCharacters(p, escape, g);
    EncodeDecode(s);
    CStringDecodes(Decode(s).value);
    EncodeDecode(CString(s));
    GlobAgrees(Parse(Decode(p).value, escape, 0), Decode(CString(s)).value);
    LikeOverCharacters(p, escape, CString(s));
  }

  /** On every NUL-free text, GLOB with the rewritten pattern gives what LIKE gives. */
  ghost predicate AgreesOnTexts(p: seq<byte>, escape: Option<byte>, g: seq<byte>) {
    forall s: seq<byte> :: Decode(s).Some? && 0 !in s ==>
      LikeOutcome(Parse(p, escape, 0), s) == Value(SqliteGlob(g, s))
  }

  lemma UncleanDiffers(p: seq<byte>, escape: Option<byte>, g: seq<byte>) returns (s: seq<byte>)
    requires Converts(p, escape, g) && !CleanPattern(p, escape)
    ensures Decode(s).Some? && 0 !in s
    ensures LikeOutcome(Parse(p, escape, 0), s) == Value(false) && SqliteGlob(g, s)
  {
    hide EncodeChar, DecodeChar, Compare, GlobBytes, Matches, CharMatches, GlobOf, Near, Fits;
    ConvertsCharacters(p, escape, g);
    var pat := Parse(Decode(p).value, escape, 0);
    var near := Near(pat, false, true);
    s := Encode(near);
    DecodeEncode(near);
    NearNoNul(pat, false, true);
    EncodeNul(near);
    NearFits(pat, false, true);
    FitsIsMatch(pat, near);
    NearDiffers(pat, false);
    LikeOverCharacters(p, escape, s);
  }

  /** For every pattern that converts, the rewrite is exact on NUL-free texts if and only if the pattern is clean. */
  lemma AgreesIffClean(p: seq<byte>, escape: Option<byte>, g: seq<byte>)
    requires Converts(p, escape, g)
    ensures AgreesOnTexts(p, escape, g) <==> CleanPattern(p, escape)
  {
    hide DecodeChar, SqliteGlob, LikeOutcome, GlobOf, EndsDangling;
    if CleanPattern(p, escape) {
      forall s: seq<byte> | Decode(s).Some? && 0 !in s
        ensures LikeOutcome(Parse(p, escape, 0), s) == Value(SqliteGlob(g, s))
      {
        RewritePreservesLike(p, escape, s, g);
      }
    } else {
      var s := UncleanDiffers(p, escape, g);
    }
  }

  /** What the code makes of a pattern without escape character, and what it and LIKE then say of a text. */
  ghost predicate MatchesGlobOnly(p: seq<byte>, g: seq<byte>, s: seq<byte>) {
    var pat := Parse(p, None, 0);
    !EndsDangling(pat) && g == GlobOf(pat) && LikeOutcome(pat, s) == Value(false) && SqliteGlob(g, s)
  }

  /** SQLite reads U+FFFE and U+FFFF as the same character: the one matches GLOB with the other. */
  lemma NoncharactersDiffer()
    ensures MatchesGlobOnly([0xEF, 0xBF, 0xBF], [0xEF, 0xBF, 0xBF], [0xEF, 0xBF, 0xBE])
  {
    hide Compare;
    var p := [0xEF, 0xBF, 0xBF];
    NoncharactersCompare(p, [0xEF, 0xBF, 0xBE]);
    assert Parse(p, None, 2) == Literal(0xBF, End);
    assert Parse(p, None, 0) == Literal(0xEF, Literal(0xBF, Literal(0xBF, End)));
  }

  lemma NoncharactersCompare(g: seq<byte>, s: seq<byte>)
    requires g == [0xEF, 0xBF, 0xBF] && s == [0xEF, 0xBF, 0xBE]
    ensures Compare(g, s) == Match
  {
    hide Compare, ReadChar, AfterRead;
    assert LiteralBytes(0xFFFF) + [] == g && Encode([0xFFFE]) == s;
    EndAgrees([]);
    CompareLiteral(0xFFFF, [], [0xFFFE]);
  }

  /** Behind a star U+0080 is searched as the byte 80, and found within U+0100. */
  lemma ByteSearchDiffers()
    ensures MatchesGlobOnly([PERCENT, 0xC2, 0x80], [STAR, 0xC2, 0x80], [0xC4, 0x80])
  {
    hide Compare;
    var p := [PERCENT, 0xC2, 0x80];
    ByteSearchCompare([0xC2, 0x80], [0xC4, 0x80]);
    assert Parse(p, None, 2) == Literal(0x80, End);
    assert Parse(p, None, 0) == AnyRun(Literal(0xC2, Literal(0x80, End)));
    assert [STAR] + [0xC2, 0x80] == [STAR, 0xC2, 0x80];
  }

  lemma ByteSearchCompare(g: seq<byte>, s: seq<byte>)
    requires g == [0xC2, 0x80] && s == [0xC4, 0x80]
    ensures Compare([STAR] + g, s) == Match
  {
    hide Compare, Star, ReadChar, AfterRead;
    assert LiteralBytes(0x80) + [] == g && Encode([0x100]) == s;
    EndAgrees([]);
    ByteBehindStar([], [0x100]);
    CompareWildcard(g, [0x100]);
  }

  // ----- a NUL byte in the text

  /** Whichever clean pattern is rewritten, GLOB gives on this text what LIKE gives. */
  ghost predicate AlwaysAgrees(s: seq<byte>) {
    forall p: seq<byte>, escape: Option<byte>, g: seq<byte> :: Converts(p, escape, g) && CleanPattern(p, escape) ==>
      LikeOutcome(Parse(p, escape, 0), s) == Value(SqliteGlob(g, s))
  }

  function Repeat(b: byte, n: nat): (r: seq<byte>)
    ensures |r| == n && forall i :: 0 <= i < n ==> r[i] == b
  {
    if n == 0 then [] else [b] + Repeat(b, n - 1)
  }

  function AnyChars(n: nat): Pattern {
    if n == 0 then End else AnyChar(AnyChars(n - 1))
  }

  lemma {:induction false} ParseUnderscores(p: seq<int>, i: nat)
    requires i <= |p| && forall k :: 0 <= k < |p| ==> p[k] == UNDERSCORE
    ensures Parse(p, None, i) == AnyChars(|p| - i)
    decreases |p| - i
  {
    if i < |p| {
      ParseUnderscores(p, i + 1);
    }
  }

  lemma {:induction false} AnyCharsMatch(n: nat, cs: seq<CodePoint>)
    ensures CharMatches(AnyChars(n), cs) <==> |cs| == n
    ensures !EndsDangling(AnyChars(n)) && IsClean(AnyChars(n), false) && GlobOf(AnyChars(n)) == Repeat(QUESTION, n)
  {
    if n > 0 {
      AnyCharsMatch(n - 1, if cs == [] then [] else cs[1..]);
    }
  }

  lemma {:induction false} UnderscoresDecode(n: nat)
    ensures Decode(Repeat(UNDERSCORE, n)) == Some(Repeat(UNDERSCORE, n))
  {
    hide DecodeChar;
    if n > 0 {
      UnderscoresDecode(n - 1);
      EncodeCons(UNDERSCORE, Repeat(UNDERSCORE, n - 1));
      EncodeDecode(Repeat(UNDERSCORE, n - 1));
      DecodeEncode([UNDERSCORE] + Repeat(UNDERSCORE, n - 1));
    }
  }

  /** As many '_' as there are characters before the NUL byte: they match for GLOB, and not for LIKE. */
  lemma NulDiffers(s: seq<byte>, n: nat)
    requires Decode(s).Some? && 0 in s && Decode(CString(s)).Some? && n == |Decode(CString(s)).value|
    requires n < |Decode(s).value|
    ensures Converts(Repeat(UNDERSCORE, n), None, Repeat(QUESTION, n)) && CleanPattern(Repeat(UNDERSCORE, n), None)
    ensures LikeOutcome(Parse(Repeat(UNDERSCORE, n), None, 0), s) == Value(false) && SqliteGlob(Repeat(QUESTION, n), s)
  {
    hide DecodeChar, EncodeChar, SqliteGlob, Matches, CharMatches;
    var p := Repeat(UNDERSCORE, n);
    UnderscoresDecode(n);
    ParseUnderscores(p, 0);
    AnyCharsMatch(n, Decode(s).value);
    AnyCharsMatch(n, Decode(CString(s)).value);
    RewritePreservesLike(p, None, s, Repeat(QUESTION, n));
    LikeOverCharacters(p, None, s);
    LikeOverCharacters(p, None, CString(s));
  }

  /** For every valid UTF-8 text, all clean patterns agree on it if and only if it has no NUL byte. */
  lemma AgreesUnlessNul(s: seq<byte>)
    requires Decode(s).Some?
    ensures AlwaysAgrees(s) <==> 0 !in s
  {
    hide DecodeChar, EncodeChar, SqliteGlob, LikeOutcome, GlobOf, EndsDangling;
    if 0 !in s {
      forall p: seq<byte>, escape: Option<byte>, g: seq<byte> | Converts(p, escape, g) && CleanPattern(p, escape)
        ensures LikeOutcome(Parse(p, escape, 0), s) == Value(SqliteGlob(g, s))
      {
        RewritePreservesLike(p, escape, s, g);
      }
    } else {
      var cs := Decode(s).value;
      EncodeDecode(s);
      var k := CStringPrefix(cs);
      DecodeEncode(cs[..k]);
      NulDiffers(s, k);
    }
  }

  /** For example 'a' matches all that SQLite sees of "a\0b", but LIKE 'a' does not match it. */
  lemma NulByteDiffers()
    ensures SqliteGlob([97], [97, 0, 98]) && !Matches(Parse([97], None, 0), [97, 0, 98], 0)
  {
  }
}
