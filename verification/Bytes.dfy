/** Byte strings, their order, and the character structure that UTF-8 gives them. */
module Bytes {
  datatype Option<+T> = None | Some(value: T)

  type byte = b: int | 0 <= b < 256

  const PERCENT: byte := 37
  const STAR: byte := 42
  const QUESTION: byte := 63
  const OPEN_BRACKET: byte := 91
  const CLOSE_BRACKET: byte := 93
  const CARET: byte := 94
  const DASH: byte := 45
  const UNDERSCORE: byte := 95

  lemma Assoc<T>(a: seq<T>, b: seq<T>, c: seq<T>)
    ensures (a + b) + c == a + (b + c)
  {
  }

  function Pow10(k: nat): (p: nat)
    ensures p >= 1
  {
    if k == 0 then 1 else 10 * Pow10(k - 1)
  }

  /** The order of byte strings: byte by byte, and a proper prefix comes first. */
  predicate Less(s: seq<byte>, t: seq<byte>) {
    t != [] && (s == [] || s[0] < t[0] || (s[0] == t[0] && Less(s[1..], t[1..])))
  }

  /** A byte of the form 10xxxxxx, which never starts a character (section 3 of RFC 3629). */
  predicate IsContinuation(b: byte) {
    0x80 <= b < 0xC0
  }

  /** The first position at or after j that does not hold a continuation byte. */
  function SkipContinuation(s: seq<byte>, j: nat): (k: nat)
    requires j <= |s|
    ensures j <= k <= |s|
    ensures k < |s| ==> !IsContinuation(s[k])
    ensures forall i :: j <= i < k ==> IsContinuation(s[i])
    decreases |s| - j
  {
    if j < |s| && IsContinuation(s[j]) then SkipContinuation(s, j + 1) else j
  }

  /** The position after the byte at j and the continuation bytes that follow it. */
  function AfterChar(s: seq<byte>, j: nat): (k: nat)
    requires j < |s|
    ensures j < k <= |s|
  {
    SkipContinuation(s, j + 1)
  }

  /** Starting later never ends earlier, so the leftmost match of a pattern segment suffices. */
  lemma AfterCharMonotone(s: seq<byte>, j: nat, k: nat)
    requires j <= k < |s|
    ensures AfterChar(s, j) <= AfterChar(s, k)
  {
    assert AfterChar(s, k) < |s| ==> !IsContinuation(s[AfterChar(s, k)]);
  }
}
