/** On valid UTF-8 the byte-level LIKE is a LIKE over characters: '_' takes one code point, '%' a run of them. */
module LikeCharacters {
  import opened Bytes
  import opened LikeMatcher
  import opened Utf8

  ghost predicate CharMatches(pat: Pattern, cs: seq<CodePoint>) {
    match pat
    case End => cs == []
    case Dangling => true
    case Literal(c, rest) => cs != [] && cs[0] == c && CharMatches(rest, cs[1..])
    case AnyChar(rest) => cs != [] && CharMatches(rest, cs[1..])
    case AnyRun(rest) => exists k :: 0 <= k <= |cs| && CharMatches(rest, cs[k..])
  }

  /** Whether the literals of a pattern are code points. */
  ghost predicate OverCodePoints(pat: Pattern) {
    match pat
    case Literal(c, rest) => IsCodePoint(c) && OverCodePoints(rest)
    case AnyChar(rest) => OverCodePoints(rest)
    case AnyRun(rest) => OverCodePoints(rest)
    case _ => true
  }

  ghost function Literals(bs: seq<byte>, rest: Pattern): Pattern {
    if bs == [] then rest else Literal(bs[0], Literals(bs[1..], rest))
  }

  /** A pattern over code points as a pattern over their bytes. */
  ghost function EncodePattern(pat: Pattern): Pattern
    requires OverCodePoints(pat)
  {
    match pat
    case End => End
    case Dangling => Dangling
    case Literal(c, rest) => Literals(EncodeChar(c), EncodePattern(rest))
    case AnyChar(rest) => AnyChar(EncodePattern(rest))
    case AnyRun(rest) => AnyRun(EncodePattern(rest))
  }

  // ----- parsing

  lemma {:induction false} ParseLiterals(bs: seq<byte>, rest: seq<byte>, escape: Option<byte>)
    requires forall i :: 0 <= i < |bs| ==> bs[i] >= 0x80
    requires escape.Some? ==> escape.value < 0x80
    ensures Parse(bs + rest, escape, 0) == Literals(bs, Parse(rest, escape, 0))
  {
    if bs == [] {
      assert bs + rest == rest;
    } else {
      ParseDrop(bs + rest, escape, 1, 0);
      assert (bs + rest)[1..] == bs[1..] + rest;
      ParseLiterals(bs[1..], rest, escape);
    }
  }

  /** An escaped character is literal, however many bytes it has. */
  lemma ParseEscaped(c: CodePoint, rest: seq<byte>, escape: Option<byte>)
    requires escape.Some? && escape.value < 0x80
    ensures Parse([escape.value] + (EncodeChar(c) + rest), escape, 0) == Literals(EncodeChar(c), Parse(rest, escape, 0))
  {
    hide EncodeChar;
    var bs := EncodeChar(c);
    var p := [escape.value] + (bs + rest);
    assert p[1] == bs[0];
    ParseDrop(p, escape, 2, 0);
    assert p[2..] == (bs + rest)[1..] == bs[1..] + rest;
    ParseLiterals(bs[1..], rest, escape);
  }

  lemma ParseChar(c: CodePoint, rest: seq<byte>, escape: Option<byte>)
    requires escape.Some? ==> escape.value < 0x80
    requires escape != Some(c)
    ensures Parse(EncodeChar(c) + rest, escape, 0) ==
            var tail := Parse(rest, escape, 0);
            if c == UNDERSCORE then AnyChar(tail)
            else if c == PERCENT then AnyRun(tail)
            else Literals(EncodeChar(c), tail)
  {
    hide EncodeChar;
    var p := EncodeChar(c) + rest;
    if c < 0x80 {
      ParseDrop(p, escape, 1, 0);
      assert p[1..] == rest;
      assert Literals([c], Parse(rest, escape, 0)) == Literal(c, Literals([], Parse(rest, escape, 0)));
    } else {
      ParseLiterals(EncodeChar(c), rest, escape);
    }
  }

  lemma EncodedEscape(pc: seq<CodePoint>, escape: byte)
    requires |pc| >= 2 && pc[0] == escape < 0x80
    requires OverCodePoints(Parse(pc[2..], Some(escape), 0))
    requires Parse(Encode(pc[2..]), Some(escape), 0) == EncodePattern(Parse(pc[2..], Some(escape), 0))
    ensures OverCodePoints(Parse(pc, Some(escape), 0))
    ensures Parse(Encode(pc), Some(escape), 0) == EncodePattern(Parse(pc, Some(escape), 0))
  {
    hide EncodeChar;
    ParseDrop(pc, Some(escape), 2, 0);
    ParseEscaped(pc[1], Encode(pc[2..]), Some(escape));
    assert pc[1..][1..] == pc[2..];
    assert Encode(pc[1..]) == EncodeChar(pc[1]) + Encode(pc[2..]);
    assert Encode(pc) == [escape] + Encode(pc[1..]);
  }

  lemma EncodedChar(pc: seq<CodePoint>, escape: Option<byte>)
    requires pc != [] && escape != Some(pc[0])
    requires escape.Some? ==> escape.value < 0x80
    requires OverCodePoints(Parse(pc[1..], escape, 0))
    requires Parse(Encode(pc[1..]), escape, 0) == EncodePattern(Parse(pc[1..], escape, 0))
    ensures OverCodePoints(Parse(pc, escape, 0))
    ensures Parse(Encode(pc), escape, 0) == EncodePattern(Parse(pc, escape, 0))
  {
    hide EncodeChar;
    ParseDrop(pc, escape, 1, 0);
    ParseChar(pc[0], Encode(pc[1..]), escape);
  }

  /** Parsing the bytes of a pattern is parsing its characters. */
  lemma {:induction false} ParseEncoded(pc: seq<CodePoint>, escape: Option<byte>)
    requires escape.Some? ==> escape.value < 0x80
    ensures OverCodePoints(Parse(pc, escape, 0))
    ensures Parse(Encode(pc), escape, 0) == EncodePattern(Parse(pc, escape, 0))
    decreases |pc|
  {
    hide EncodeChar;
    if pc == [] {
    } else if escape != Some(pc[0]) {
      ParseEncoded(pc[1..], escape);
      EncodedChar(pc, escape);
    } else if |pc| == 1 {
      assert Encode(pc) == [pc[0]];
    } else {
      ParseEncoded(pc[2..], escape);
      EncodedEscape(pc, escape.value);
    }
  }

  // ----- matching

  lemma {:induction false} EncodeConcat(a: seq<CodePoint>, b: seq<CodePoint>)
    ensures Encode(a + b) == Encode(a) + Encode(b)
  {
    hide EncodeChar;
    if a == [] {
      assert a + b == b;
    } else {
      assert (a + b)[1..] == a[1..] + b;
      EncodeConcat(a[1..], b);
    }
  }

  lemma {:induction false} MatchPrefix(bs: seq<byte>, rest: Pattern, pre: seq<byte>, text: seq<byte>)
    ensures Matches(Literals(bs, rest), pre + text, |pre|) <==>
            bs <= text && Matches(rest, (pre + bs) + text[|bs|..], |pre + bs|)
  {
    if bs == [] {
      assert pre + bs == pre;
    } else if text != [] && text[0] == bs[0] {
      var pre' := pre + [bs[0]];
      assert pre + text == pre' + text[1..];
      MatchPrefix(bs[1..], rest, pre', text[1..]);
      assert pre' + bs[1..] == pre + bs;
      assert bs[1..] <= text[1..] <==> bs <= text;
    }
  }

  /** The first character of encoded text is found from its bytes alone. */
  lemma FirstChar(c: CodePoint, s: seq<byte>, cs: seq<CodePoint>)
    requires Encode(cs) == s && EncodeChar(c) <= s
    ensures cs != [] && cs[0] == c
  {
    var n := |EncodeChar(c)|;
    assert s == EncodeChar(c) + s[n..];
    DecodeEncodedChar(c, s[n..]);
    DecodeEncodedChar(cs[0], Encode(cs[1..]));
  }

  lemma StartsWithChar(c: CodePoint, cs: seq<CodePoint>)
    ensures cs != [] && cs[0] == c <==> EncodeChar(c) <= Encode(cs)
  {
    hide EncodeChar;
    if EncodeChar(c) <= Encode(cs) {
      FirstChar(c, Encode(cs), cs);
    }
  }

  /** From anywhere within a character, AfterChar finds the character's end. */
  lemma AfterWithin(pre: seq<byte>, cs: seq<CodePoint>, k: nat)
    requires cs != [] && |pre| <= k < |pre| + |EncodeChar(cs[0])|
    ensures AfterChar(pre + Encode(cs), k) == |pre| + |EncodeChar(cs[0])|
  {
    hide EncodeChar;
    var s, e := pre + Encode(cs), |pre| + |EncodeChar(cs[0])|;
    forall i | k < i < e
      ensures IsContinuation(s[i])
    {
      assert s[i] == EncodeChar(cs[0])[i - |pre|];
    }
    if cs[1..] != [] {
      assert Encode(cs[1..]) == EncodeChar(cs[1]) + Encode(cs[1..][1..]);
      assert s[e] == EncodeChar(cs[1])[0];
    }
  }

  /** What a match within a character can be moved to: the start of that character. */
  lemma WithinCharIsNoBetter(pat: Pattern, pre: seq<byte>, cs: seq<CodePoint>, k: nat)
    requires OverCodePoints(pat) && cs != [] && |pre| <= k < |pre| + |EncodeChar(cs[0])|
    requires Matches(EncodePattern(pat), pre + Encode(cs), k)
    ensures Matches(EncodePattern(pat), pre + Encode(cs), |pre|)
  {
    hide EncodeChar;
    var s := pre + Encode(cs);
    match pat
    case Literal(c, rest) =>
      assert s[k] == EncodeChar(c)[0];
      assert s[k] == EncodeChar(cs[0])[k - |pre|];
    case AnyChar(rest) =>
      AfterWithin(pre, cs, k);
      AfterWithin(pre, cs, |pre|);
    case AnyRun(rest) =>
      AnyRunIsSearch(EncodePattern(rest), s, k);
      AnyRunIsSearch(EncodePattern(rest), s, |pre|);
    case _ =>
  }

  lemma {:induction false} RunOverChars(pat: Pattern, pre: seq<byte>, cs: seq<CodePoint>, k: nat) returns (i: nat)
    requires OverCodePoints(pat) && |pre| <= k <= |pre + Encode(cs)|
    requires Matches(EncodePattern(pat), pre + Encode(cs), k)
    ensures i <= |cs| && CharMatches(pat, cs[i..])
    decreases pat, 1, |cs|
  {
    hide EncodeChar;
    if cs != [] && k >= |pre| + |EncodeChar(cs[0])| {
      assert pre + Encode(cs) == (pre + EncodeChar(cs[0])) + Encode(cs[1..]);
      i := RunOverChars(pat, pre + EncodeChar(cs[0]), cs[1..], k);
      assert cs[1..][i..] == cs[i + 1..];
      i := i + 1;
    } else {
      if cs != [] {
        WithinCharIsNoBetter(pat, pre, cs, k);
      }
      BytesAgree(pat, pre, cs);
      i := 0;
      assert cs[0..] == cs;
    }
  }

  lemma {:induction false} BytesAgreeLiteral(pat: Pattern, pre: seq<byte>, cs: seq<CodePoint>)
    requires OverCodePoints(pat) && pat.Literal?
    ensures Matches(EncodePattern(pat), pre + Encode(cs), |pre|) == CharMatches(pat, cs)
    decreases pat, 0, 0
  {
    hide EncodeChar;
    var bs := EncodeChar(pat.c);
    MatchPrefix(bs, EncodePattern(pat.rest), pre, Encode(cs));
    StartsWithChar(pat.c, cs);
    if cs != [] && cs[0] == pat.c {
      assert Encode(cs)[|bs|..] == Encode(cs[1..]);
      BytesAgree(pat.rest, pre + bs, cs[1..]);
    }
  }

  lemma {:induction false} BytesAgreeRun(pat: Pattern, pre: seq<byte>, cs: seq<CodePoint>)
    requires OverCodePoints(pat) && pat.AnyRun?
    ensures Matches(EncodePattern(pat), pre + Encode(cs), |pre|) == CharMatches(pat, cs)
    decreases pat, 0, 0
  {
    hide EncodeChar;
    var s, rest := pre + Encode(cs), EncodePattern(pat.rest);
    AnyRunIsSearch(rest, s, |pre|);
    if Matches(AnyRun(rest), s, |pre|) {
      var k :| |pre| <= k <= |s| && Matches(rest, s, k);
      var i := RunOverChars(pat.rest, pre, cs, k);
    }
    if CharMatches(pat, cs) {
      var k :| 0 <= k <= |cs| && CharMatches(pat.rest, cs[k..]);
      EncodeConcat(cs[..k], cs[k..]);
      assert cs == cs[..k] + cs[k..];
      var pre' := pre + Encode(cs[..k]);
      assert s == pre' + Encode(cs[k..]);
      BytesAgree(pat.rest, pre', cs[k..]);
      assert Matches(rest, s, |pre'|);
    }
  }

  lemma {:induction false} BytesAgree(pat: Pattern, pre: seq<byte>, cs: seq<CodePoint>)
    requires OverCodePoints(pat)
    ensures Matches(EncodePattern(pat), pre + Encode(cs), |pre|) == CharMatches(pat, cs)
    decreases pat, 0, 1
  {
    hide EncodeChar;
    match pat
    case End => assert cs != [] ==> Encode(cs) != [];
    case Dangling =>
    case Literal(_, _) => BytesAgreeLiteral(pat, pre, cs);
    case AnyRun(_) => BytesAgreeRun(pat, pre, cs);
    case AnyChar(rest) =>
      if cs != [] {
        AfterWithin(pre, cs, |pre|);
        assert pre + Encode(cs) == (pre + EncodeChar(cs[0])) + Encode(cs[1..]);
        BytesAgree(rest, pre + EncodeChar(cs[0]), cs[1..]);
      }
  }

  /** For valid UTF-8 text and pattern, LIKE over bytes is LIKE over characters. */
  lemma LikeOverCharacters(p: seq<byte>, escape: Option<byte>, s: seq<byte>)
    requires Decode(p).Some? && Decode(s).Some?
    requires escape.Some? ==> escape.value < 0x80
    ensures Matches(Parse(p, escape, 0), s, 0) <==> CharMatches(Parse(Decode(p).value, escape, 0), Decode(s).value)
  {
    EncodeDecode(p);
    EncodeDecode(s);
    ParseEncoded(Decode(p).value, escape);
    BytesAgree(Parse(Decode(p).value, escape, 0), [], Decode(s).value);
    assert [] + s == s;
  }
}
