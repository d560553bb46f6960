/** UTF-8 as defined in section 3 of RFC 3629, as a pair of inverse functions. */
module Utf8 {
  import opened Bytes

  predicate IsCodePoint(c: int) {
    0 <= c < 0x110000 && !(0xD800 <= c < 0xE000)
  }

  /** A Unicode scalar value. */
  type CodePoint = c: int | 0 <= c < 0x110000 && !(0xD800 <= c < 0xE000)

  function EncodeChar(c: CodePoint): (s: seq<byte>)
    ensures 1 <= |s| <= 4
    ensures !IsContinuation(s[0])
    ensures forall i :: 1 <= i < |s| ==> IsContinuation(s[i])
    ensures if c < 0x80 then s == [c] else forall i :: 0 <= i < |s| ==> 0x80 <= s[i]
  {
    var q := c / 64;
    var h := q / 64;
    if c < 0x80 then [c]
    else if c < 0x800 then [0xC0 + q, 0x80 + c % 64]
    else if c < 0x10000 then [0xE0 + h, 0x80 + q % 64, 0x80 + c % 64]
    else [0xF0 + h / 64, 0x80 + h % 64, 0x80 + q % 64, 0x80 + c % 64]
  }

  function Encode(cs: seq<CodePoint>): seq<byte> {
    if cs == [] then [] else EncodeChar(cs[0]) + Encode(cs[1..])
  }

  function Tail(s: seq<byte>, i: nat): (bits: Option<int>)
    ensures bits.Some? ==> 0 <= bits.value < 64
  {
    if i < |s| && IsContinuation(s[i]) then Some(s[i] - 0x80) else None
  }

  /** The first character of s with its length in bytes; overlong forms, surrogates and values beyond 10FFFF fail. */
  function DecodeChar(s: seq<byte>): (r: Option<(CodePoint, nat)>)
    requires s != []
    ensures r.Some? ==> 1 <= r.value.1 <= |s|
  {
    var b := s[0];
    if b < 0x80 then Some((b, 1))
    else if b < 0xC0 then None
    else if b < 0xE0 then
      if Tail(s, 1).None? then None else
      var c := (b - 0xC0) * 64 + Tail(s, 1).value;
      if c < 0x80 then None else Some((c, 2))
    else if b < 0xF0 then
      if Tail(s, 1).None? || Tail(s, 2).None? then None else
      var c := ((b - 0xE0) * 64 + Tail(s, 1).value) * 64 + Tail(s, 2).value;
      if c < 0x800 || 0xD800 <= c < 0xE000 then None else Some((c, 3))
    else if b < 0xF8 then
      if Tail(s, 1).None? || Tail(s, 2).None? || Tail(s, 3).None? then None else
      var c := (((b - 0xF0) * 64 + Tail(s, 1).value) * 64 + Tail(s, 2).value) * 64 + Tail(s, 3).value;
      if c < 0x10000 || 0x110000 <= c then None else Some((c, 4))
    else None
  }

  function Decode(s: seq<byte>): Option<seq<CodePoint>> {
    if s == [] then Some([]) else
    var first := DecodeChar(s);
    if first.None? then None else
    var rest := Decode(s[first.value.1..]);
    if rest.None? then None else Some([first.value.0] + rest.value)
  }

  lemma DecodeEncodedChar(c: CodePoint, rest: seq<byte>)
    ensures DecodeChar(EncodeChar(c) + rest) == Some((c, |EncodeChar(c)|))
  {
    var s := EncodeChar(c) + rest;
    assert forall i :: 0 <= i < |EncodeChar(c)| ==> s[i] == EncodeChar(c)[i];
  }

  lemma Digit(q: int, r: int)
    requires 0 <= r < 64
    ensures (q * 64 + r) / 64 == q && (q * 64 + r) % 64 == r
  {
  }

  lemma EncodeTwo(h: int, l: int)
    requires 0 <= l < 64 && 0x80 <= h * 64 + l < 0x800
    ensures EncodeChar(h * 64 + l) == [0xC0 + h, 0x80 + l]
  {
    Digit(h, l);
  }

  lemma EncodeThree(h: int, m: int, l: int)
    requires 0 <= m < 64 && 0 <= l < 64
    requires 0x800 <= (h * 64 + m) * 64 + l < 0xD800 || 0xE000 <= (h * 64 + m) * 64 + l < 0x10000
    ensures EncodeChar((h * 64 + m) * 64 + l) == [0xE0 + h, 0x80 + m, 0x80 + l]
  {
    Digit(h * 64 + m, l);
    Digit(h, m);
  }

  lemma EncodeFour(h: int, m: int, k: int, l: int)
    requires 0 <= m < 64 && 0 <= k < 64 && 0 <= l < 64
    requires 0x10000 <= ((h * 64 + m) * 64 + k) * 64 + l < 0x110000
    ensures EncodeChar(((h * 64 + m) * 64 + k) * 64 + l) == [0xF0 + h, 0x80 + m, 0x80 + k, 0x80 + l]
  {
    Digit((h * 64 + m) * 64 + k, l);
    Digit(h * 64 + m, k);
    Digit(h, m);
  }

  lemma EncodeDecodedChar(s: seq<byte>)
    requires s != [] && DecodeChar(s).Some?
    ensures s[..DecodeChar(s).value.1] == EncodeChar(DecodeChar(s).value.0)
  {
    var n := DecodeChar(s).value.1;
    var b: int := s[0];
    if n == 2 {
      EncodeTwo(b - 0xC0, Tail(s, 1).value);
    } else if n == 3 {
      EncodeThree(b - 0xE0, Tail(s, 1).value, Tail(s, 2).value);
    } else if n == 4 {
      EncodeFour(b - 0xF0, Tail(s, 1).value, Tail(s, 2).value, Tail(s, 3).value);
    }
  }

  lemma EncodeCons(c: CodePoint, cs: seq<CodePoint>)
    ensures Encode([c] + cs) == EncodeChar(c) + Encode(cs)
  {
    assert ([c] + cs)[1..] == cs;
  }

  lemma {:induction false} DecodeEncode(cs: seq<CodePoint>)
    ensures Decode(Encode(cs)) == Some(cs)
  {
    if cs != [] {
      var s := Encode(cs);
      DecodeEncodedChar(cs[0], Encode(cs[1..]));
      assert s[|EncodeChar(cs[0])|..] == Encode(cs[1..]);
      DecodeEncode(cs[1..]);
      assert cs == [cs[0]] + cs[1..];
    }
  }

  lemma {:induction false} EncodeDecode(s: seq<byte>)
    requires Decode(s).Some?
    ensures Encode(Decode(s).value) == s
  {
    if s != [] {
      var (c, n) := DecodeChar(s).value;
      EncodeDecodedChar(s);
      EncodeDecode(s[n..]);
      EncodeCons(c, Decode(s[n..]).value);
      assert s == s[..n] + s[n..];
    }
  }
}
