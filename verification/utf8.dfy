/** Bytes, and the part of `Buffer.toString('utf8')` the dictionary reader
    depends on. One-byte (ASCII) and two-byte sequences are decoded; every
    other byte becomes U+FFFD. No letter, digit or line break is encoded
    with more than two bytes, so those characters come out exactly as full
    UTF-8 decoding gives them. */
module Utf8 {

  newtype byte = b: int | 0 <= b < 0x100

  const LineFeed: byte := 0x0A

  predicate IsContinuation(b: byte) {
    0x80 <= b < 0xC0
  }

  predicate IsTwoByteLead(b: byte) {
    0xC2 <= b < 0xE0
  }

  /** The number of bytes the first character of `bytes` takes. */
  function Width(bytes: seq<byte>): (n: nat)
    requires bytes != []
    ensures 1 <= n <= |bytes|
  {
    if IsTwoByteLead(bytes[0]) && |bytes| >= 2 && IsContinuation(bytes[1]) then 2 else 1
  }

  /** The first character of `bytes`. */
  function FirstChar(bytes: seq<byte>): char
    requires bytes != []
  {
    if bytes[0] < 0x80 then bytes[0] as char
    else if Width(bytes) == 2 then ((bytes[0] as int - 0xC0) * 0x40 + (bytes[1] as int - 0x80)) as char
    else '\U{FFFD}'
  }

  function Decode(bytes: seq<byte>): (s: string)
    ensures |s| <= |bytes|
    decreases |bytes|
  {
    if bytes == [] then [] else [FirstChar(bytes)] + Decode(bytes[Width(bytes)..])
  }

  /** The first character of `a + b` is that of `a` when `a` ends in an
      ASCII byte. */
  lemma FirstCharOfAppend(a: seq<byte>, b: seq<byte>)
    requires a != [] && a[|a| - 1] < 0x80
    ensures Width(a + b) == Width(a)
    ensures FirstChar(a + b) == FirstChar(a)
    ensures (a + b)[Width(a)..] == a[Width(a)..] + b
  {
    assert (a + b)[0] == a[0];
    if |a| >= 2 {
      assert (a + b)[1] == a[1];
    }
  }

  /** Decoding splits after an ASCII byte: nothing before it can pair with
      a byte after it. */
  lemma {:induction false} DecodeAppend(a: seq<byte>, b: seq<byte>)
    requires a == [] || a[|a| - 1] < 0x80
    ensures Decode(a + b) == Decode(a) + Decode(b)
    decreases |a|
  {
    if a == [] {
      assert a + b == b;
    } else {
      FirstCharOfAppend(a, b);
      DecodeAppend(a[Width(a)..], b);
    }
  }

  /** An ASCII byte decodes on its own. */
  lemma DecodeOneByte(x: byte, rest: seq<byte>)
    requires x < 0x80
    ensures Decode([x] + rest) == [x as char] + Decode(rest)
  {
    assert ([x] + rest)[0] == x;
    assert ([x] + rest)[1..] == rest;
  }

  /** A lead byte and a continuation byte decode together to one
      character. */
  lemma DecodeTwoBytes(x: byte, y: byte, rest: seq<byte>)
    requires IsTwoByteLead(x) && IsContinuation(y)
    ensures Decode([x, y] + rest) == [((x as int - 0xC0) * 0x40 + (y as int - 0x80)) as char] + Decode(rest)
  {
    var bytes := [x, y] + rest;
    assert bytes[0] == x && bytes[1] == y;
    assert bytes[2..] == rest;
  }

  /** ASCII bytes decode to the characters with the same codes. */
  lemma {:induction false} DecodeAscii(bytes: seq<byte>)
    requires forall i | 0 <= i < |bytes| :: bytes[i] < 0x80
    ensures |Decode(bytes)| == |bytes|
    ensures forall i | 0 <= i < |bytes| :: Decode(bytes)[i] == bytes[i] as char
  {
    if bytes != [] {
      DecodeAscii(bytes[1..]);
    }
  }

  /** A byte sequence ending in a line feed decodes to a string ending in
      `\n`. */
  lemma {:induction false} DecodeEndsInLineBreak(bytes: seq<byte>)
    requires bytes != [] && bytes[|bytes| - 1] == LineFeed
    ensures Decode(bytes) != [] && Decode(bytes)[|Decode(bytes)| - 1] == '\n'
  {
    var n := |bytes| - 1;
    assert bytes == bytes[..n] + [LineFeed];
    DecodeAfterLineFeed(bytes[..n]);
  }

  lemma {:induction false} DecodeAfterLineFeed(a: seq<byte>)
    ensures Decode(a + [LineFeed]) == Decode(a) + ['\n']
    decreases |a|
  {
    if a == [] {
      assert a + [LineFeed] == [LineFeed];
    } else {
      var ab := a + [LineFeed];
      assert ab[0] == a[0];
      if |a| >= 2 {
        assert ab[1] == a[1];
      }
      assert Width(ab) == Width(a) && FirstChar(ab) == FirstChar(a);
      assert ab[Width(a)..] == a[Width(a)..] + [LineFeed];
      DecodeAfterLineFeed(a[Width(a)..]);
    }
  }
}
