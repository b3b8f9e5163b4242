/** `str.encode("utf-8")` and strict `bytes.decode("utf-8")`: the encoding
    of Unicode scalar values of RFC 3629, whose decoder refuses overlong
    forms, surrogates and values above U+10FFFF. */
module Utf8 {
  import opened Wrappers
  import opened Bytes

  /** The bytes of one character, most significant bits first. */
  function EncodeChar(c: char): (r: seq<byte>)
    ensures 1 <= |r| <= 4
  {
    var cp := c as int;
    var r0, a := cp % 64, cp / 64;
    var r1, b := a % 64, a / 64;
    var r2, d := b % 64, b / 64;
    if cp < 0x80 then [cp]
    else if cp < 0x800 then [0xC0 + a, 0x80 + r0]
    else if cp < 0x10000 then [0xE0 + b, 0x80 + r1, 0x80 + r0]
    else [0xF0 + d, 0x80 + r2, 0x80 + r1, 0x80 + r0]
  }

  function Encode(s: string): (r: seq<byte>)
    ensures |s| <= |r| <= 4 * |s|
    decreases |s|
  {
    if s == [] then [] else EncodeChar(s[0]) + Encode(s[1..])
  }

  predicate IsContinuation(b: byte) {
    0x80 <= b < 0xC0
  }

  /** The second byte of a three-byte form: no overlong form, no surrogate. */
  predicate SecondOfThree(b0: byte, b1: byte) {
    if b0 == 0xE0 then 0xA0 <= b1 < 0xC0
    else if b0 == 0xED then 0x80 <= b1 < 0xA0
    else IsContinuation(b1)
  }

  /** The second byte of a four-byte form: no overlong form, nothing above U+10FFFF. */
  predicate SecondOfFour(b0: byte, b1: byte) {
    if b0 == 0xF0 then 0x90 <= b1 < 0xC0
    else if b0 == 0xF4 then 0x80 <= b1 < 0x90
    else IsContinuation(b1)
  }

  /** The first character of `b` and the number of bytes it takes, or None
      when `b` does not start with a well-formed sequence. */
  function DecodeOne(b: seq<byte>): (r: Option<(char, nat)>)
    requires |b| > 0
    ensures r.Some? ==> 1 <= r.value.1 <= |b|
  {
    var b0: int := b[0];
    if b0 < 0x80 then Some((b0 as char, 1))
    else if 0xC2 <= b0 < 0xE0 then
      if |b| >= 2 && IsContinuation(b[1])
      then Some((Combine(b0 - 0xC0, b[1]) as char, 2))
      else None
    else if 0xE0 <= b0 < 0xF0 then
      if |b| >= 3 && SecondOfThree(b0, b[1]) && IsContinuation(b[2])
      then Some((Combine(Combine(b0 - 0xE0, b[1]), b[2]) as char, 3))
      else None
    else if 0xF0 <= b0 < 0xF5 then
      if |b| >= 4 && SecondOfFour(b0, b[1]) && IsContinuation(b[2]) && IsContinuation(b[3])
      then Some((Combine(Combine(Combine(b0 - 0xF0, b[1]), b[2]), b[3]) as char, 4))
      else None
    else None
  }

  /** Appends the six payload bits of a continuation byte. */
  function Combine(high: int, cont: byte): int {
    high * 64 + (cont as int - 0x80)
  }

  /** Strict decoding: None stands for the `UnicodeDecodeError`. */
  function Decode(b: seq<byte>): (r: Option<string>)
    ensures r.Some? ==> |r.value| <= |b|
    decreases |b|
  {
    if b == [] then Some([])
    else
      match DecodeOne(b)
      case None => None
      case Some((c, n)) =>
        match Decode(b[n..])
        case None => None
        case Some(rest) => Some([c] + rest)
  }

  lemma DecodeOneEncodeChar(c: char, rest: seq<byte>)
    ensures DecodeOne(EncodeChar(c) + rest) == Some((c, |EncodeChar(c)|))
  {
    var cp := c as int;
    var r0, a := cp % 64, cp / 64;
    var r1, b := a % 64, a / 64;
    var r2, d := b % 64, b / 64;
    assert cp == a * 64 + r0 && a == b * 64 + r1 && b == d * 64 + r2;
  }

  lemma {:induction false} DecodeEncode(s: string)
    ensures Decode(Encode(s)) == Some(s)
    decreases |s|
  {
    if s != [] {
      var e := EncodeChar(s[0]);
      DecodeOneEncodeChar(s[0], Encode(s[1..]));
      assert Encode(s)[|e|..] == Encode(s[1..]);
      DecodeEncode(s[1..]);
      assert [s[0]] + s[1..] == s;
    }
  }

  lemma SplitSix(high: int, cont: byte)
    requires high >= 0 && IsContinuation(cont)
    ensures Combine(high, cont) / 64 == high && Combine(high, cont) % 64 == cont - 0x80
  {
  }

  /** The decoder accepts only the encoder's own output: a decoded character
      re-encodes to exactly the bytes it came from. */
  lemma EncodeCharDecodeOne(b: seq<byte>)
    requires |b| > 0 && DecodeOne(b).Some?
    ensures EncodeChar(DecodeOne(b).value.0) == b[..DecodeOne(b).value.1]
  {
    var b0: int := b[0];
    if 0xC2 <= b0 < 0xE0 {
      SplitSix(b0 - 0xC0, b[1]);
    } else if 0xE0 <= b0 < 0xF0 {
      EncodeThree(b);
    } else if 0xF0 <= b0 < 0xF5 {
      EncodeFour(b);
    }
  }

  lemma EncodeThree(b: seq<byte>)
    requires |b| >= 3 && 0xE0 <= b[0] < 0xF0 && SecondOfThree(b[0], b[1]) && IsContinuation(b[2])
    ensures DecodeOne(b).Some? && EncodeChar(DecodeOne(b).value.0) == b[..3]
  {
    var a := Combine(b[0] - 0xE0, b[1]);
    SplitSix(b[0] - 0xE0, b[1]);
    SplitSix(a, b[2]);
  }

  lemma EncodeFour(b: seq<byte>)
    requires |b| >= 4 && 0xF0 <= b[0] < 0xF5 && SecondOfFour(b[0], b[1])
    requires IsContinuation(b[2]) && IsContinuation(b[3])
    ensures DecodeOne(b).Some? && EncodeChar(DecodeOne(b).value.0) == b[..4]
  {
    var a2 := Combine(b[0] - 0xF0, b[1]);
    var a := Combine(a2, b[2]);
    SplitSix(b[0] - 0xF0, b[1]);
    SplitSix(a2, b[2]);
    SplitSix(a, b[3]);
  }

  lemma {:induction false} EncodeDecode(b: seq<byte>)
    requires Decode(b).Some?
    ensures Encode(Decode(b).value) == b
    decreases |b|
  {
    if b != [] {
      var c, n := DecodeOne(b).value.0, DecodeOne(b).value.1;
      EncodeCharDecodeOne(b);
      EncodeDecode(b[n..]);
      var tail := Decode(b[n..]).value;
      assert Decode(b).value == [c] + tail;
      EncodeCons(c, tail, b, n);
    }
  }

  /** Re-encoding a first character and the rest of a decoded string. */
  lemma EncodeCons(c: char, tail: string, b: seq<byte>, n: nat)
    requires n <= |b| && EncodeChar(c) == b[..n] && Encode(tail) == b[n..]
    ensures Encode([c] + tail) == b
  {
    assert ([c] + tail)[0] == c && ([c] + tail)[1..] == tail;
    assert b == b[..n] + b[n..];
  }
}
