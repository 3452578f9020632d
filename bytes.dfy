/** Bytes on the wire and their relation to the text the handler works on. */
module Bytes {

  newtype byte = x: int | 0 <= x < 256

  predicate IsAsciiChar(c: char) {
    c as int < 128
  }

  predicate IsAscii(s: string) {
    forall i :: 0 <= i < |s| ==> IsAsciiChar(s[i])
  }

  predicate IsAsciiBytes(b: seq<byte>) {
    forall i :: 0 <= i < |b| ==> b[i] < 128
  }

  /** The UTF-8 encoding of one character (what `str::as_bytes` yields for it). */
  function EncodeChar(c: char): (b: seq<byte>)
    ensures 1 <= |b| <= 4
    ensures |b| == 1 <==> IsAsciiChar(c)
    ensures IsAsciiChar(c) ==> b[0] as int == c as int
    ensures !IsAsciiChar(c) ==> forall i :: 0 <= i < |b| ==> b[i] >= 128
  {
    var v := c as int;
    if v < 0x80 then [v as byte]
    else if v < 0x800 then [(0xC0 + v / 64) as byte, (0x80 + v % 64) as byte]
    else if v < 0x1_0000 then
      [(0xE0 + v / 4096) as byte, (0x80 + (v / 64) % 64) as byte, (0x80 + v % 64) as byte]
    else
      [(0xF0 + v / 262144) as byte, (0x80 + (v / 4096) % 64) as byte,
       (0x80 + (v / 64) % 64) as byte, (0x80 + v % 64) as byte]
  }

  /** The UTF-8 encoding of a string (`String::into_bytes`). */
  function Encode(s: string): (b: seq<byte>)
    ensures |s| <= |b| <= 4 * |s|
  {
    if s == [] then [] else EncodeChar(s[0]) + Encode(s[1..])
  }

  /** Lossy decoding restricted to ASCII input, where it is the byte-for-byte identity. */
  function Decode(b: seq<byte>): (s: string)
    requires IsAsciiBytes(b)
    ensures |s| == |b| && IsAscii(s)
    ensures forall i :: 0 <= i < |b| ==> s[i] as int == b[i] as int
  {
    seq(|b|, i requires 0 <= i < |b| => b[i] as int as char)
  }

  lemma {:induction false} EncodeAppend(s: string, t: string)
    ensures Encode(s + t) == Encode(s) + Encode(t)
  {
    if s == [] {
      assert s + t == t;
    } else {
      assert (s + t)[0] == s[0];
      assert (s + t)[1..] == s[1..] + t;
      EncodeAppend(s[1..], t);
    }
  }

  /** On ASCII text the encoding keeps every character as one byte of the same value. */
  lemma {:induction false} EncodeAscii(s: string)
    requires IsAscii(s)
    ensures |Encode(s)| == |s|
    ensures forall i :: 0 <= i < |s| ==> Encode(s)[i] as int == s[i] as int
  {
    if s != [] {
      EncodeAscii(s[1..]);
      var e := Encode(s);
      assert e == EncodeChar(s[0]) + Encode(s[1..]);
      forall i | 0 <= i < |s|
        ensures e[i] as int == s[i] as int
      {
        if i > 0 {
          assert e[i] == Encode(s[1..])[i - 1];
        }
      }
    }
  }

  /** Encoding what was decoded gives back the ASCII bytes. */
  lemma EncodeDecode(b: seq<byte>)
    requires IsAsciiBytes(b)
    ensures Encode(Decode(b)) == b
  {
    var s := Decode(b);
    EncodeAscii(s);
    assert forall i :: 0 <= i < |b| ==> Encode(s)[i] as int == b[i] as int;
  }

  /** Decoding what was encoded gives back the ASCII text. */
  lemma DecodeEncode(s: string)
    requires IsAscii(s)
    ensures IsAsciiBytes(Encode(s)) && Decode(Encode(s)) == s
  {
    EncodeAscii(s);
  }

  /** A non-ASCII character has no one-byte encoding, so the encoding is longer. */
  lemma {:induction false} EncodeLengthIffAscii(s: string)
    ensures |Encode(s)| == |s| <==> IsAscii(s)
  {
    if s != [] {
      EncodeLengthIffAscii(s[1..]);
      assert IsAscii(s) <==> IsAsciiChar(s[0]) && IsAscii(s[1..]) by {
        if IsAsciiChar(s[0]) && IsAscii(s[1..]) {
          forall i | 0 <= i < |s| ensures IsAsciiChar(s[i]) {
            if i > 0 { assert s[i] == s[1..][i - 1]; }
          }
        }
      }
    }
  }
}
