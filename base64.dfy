/** Base 64 with the standard alphabet and `=` padding (section 4 of
    RFC 4648), as `base64.b64encode` and `base64.b64decode` apply it. */
module Base64 {
  import opened Wrappers
  import opened Bytes

  const Pad := '='

  /** The character for a 6-bit value (Table 1 of RFC 4648). */
  function Symbol(v: int): (c: char)
    requires 0 <= v < 64
  {
    if v < 26 then ('A' as int + v) as char
    else if v < 52 then ('a' as int + (v - 26)) as char
    else if v < 62 then ('0' as int + (v - 52)) as char
    else if v == 62 then '+'
    else '/'
  }

  /** The 6-bit value of an alphabet character; None for anything else,
      the padding character included. */
  function Value(c: char): (r: Option<int>)
    ensures r.Some? ==> 0 <= r.value < 64 && Symbol(r.value) == c
  {
    if 'A' <= c <= 'Z' then Some(c as int - 'A' as int)
    else if 'a' <= c <= 'z' then Some(c as int - 'a' as int + 26)
    else if '0' <= c <= '9' then Some(c as int - '0' as int + 52)
    else if c == '+' then Some(62)
    else if c == '/' then Some(63)
    else None
  }

  lemma SymbolValue(v: int)
    requires 0 <= v < 64
    ensures Value(Symbol(v)) == Some(v)
  {
  }

  /** Every 3 bytes become 4 characters; a final group of 1 or 2 bytes is
      padded with `==` or `=`. */
  function Encode(b: seq<byte>): (r: string)
    ensures |r| == 4 * ((|b| + 2) / 3)
    ensures |r| % 4 == 0 && (r == "" <==> b == [])
    decreases |b|
  {
    if |b| == 0 then ""
    else if |b| == 1 then [Symbol(b[0] / 4), Symbol((b[0] % 4) * 16), Pad, Pad]
    else if |b| == 2 then [Symbol(b[0] / 4), Symbol((b[0] % 4) * 16 + b[1] / 16), Symbol((b[1] % 16) * 4), Pad]
    else EncodeGroup(b[0], b[1], b[2]) + Encode(b[3..])
  }

  /** Three bytes as four characters. */
  function EncodeGroup(b0: byte, b1: byte, b2: byte): (r: string)
    ensures |r| == 4
  {
    [Symbol(b0 / 4), Symbol((b0 % 4) * 16 + b1 / 16), Symbol((b1 % 16) * 4 + b2 / 64), Symbol(b2 % 64)]
  }

  /** The three bytes that four 6-bit values carry. */
  function Group(v0: int, v1: int, v2: int, v3: int): (r: seq<byte>)
    requires 0 <= v0 < 64 && 0 <= v1 < 64 && 0 <= v2 < 64 && 0 <= v3 < 64
    ensures |r| == 3
  {
    [v0 * 4 + v1 / 16, (v1 % 16) * 16 + v2 / 4, (v2 % 4) * 64 + v3]
  }

  predicate AllSymbols(q: string)
    requires |q| == 4
  {
    Value(q[0]).Some? && Value(q[1]).Some? && Value(q[2]).Some? && Value(q[3]).Some?
  }

  /** Four alphabet characters as three bytes. */
  function DecodeGroup(q: string): seq<byte>
    requires |q| == 4 && AllSymbols(q)
  {
    Group(Value(q[0]).value, Value(q[1]).value, Value(q[2]).value, Value(q[3]).value)
  }

  /** The last group of four characters, which may end in padding. Bits a
      padded group does not use are ignored, as `b64decode` ignores them. */
  function DecodeLast(q: string): (r: Option<seq<byte>>)
    requires |q| == 4
    ensures r.Some? ==> 1 <= |r.value| <= 3
  {
    if AllSymbols(q) then Some(DecodeGroup(q))
    else if Value(q[0]).Some? && Value(q[1]).Some? && Value(q[2]).Some? && q[3] == Pad then
      var v0, v1, v2 := Value(q[0]).value, Value(q[1]).value, Value(q[2]).value;
      Some([v0 * 4 + v1 / 16, (v1 % 16) * 16 + v2 / 4])
    else if Value(q[0]).Some? && Value(q[1]).Some? && q[2] == Pad && q[3] == Pad then
      var v0, v1 := Value(q[0]).value, Value(q[1]).value;
      Some([v0 * 4 + v1 / 16])
    else None
  }

  /** None stands for the `binascii.Error` of a malformed input: a length
      that is not a multiple of four, a character outside the alphabet, or
      padding anywhere but at the end. */
  function Decode(s: string): (r: Option<seq<byte>>)
    ensures r.Some? ==> |s| % 4 == 0
    decreases |s|
  {
    if |s| == 0 then Some([])
    else if |s| < 4 then None
    else if |s| == 4 then DecodeLast(s)
    else if !AllSymbols(s[..4]) then None
    else
      match Decode(s[4..])
      case None => None
      case Some(rest) =>
        var group := DecodeGroup(s[..4]);
        assert |group| == 3 && |s| == |s[4..]| + 4;
        Some(group + rest)
  }

  /** Splitting three bytes into four 6-bit values and regrouping them gives
      the bytes back. */
  lemma GroupOfSymbols(b0: byte, b1: byte, b2: byte)
    ensures Group(b0 / 4, (b0 % 4) * 16 + b1 / 16, (b1 % 16) * 4 + b2 / 64, b2 % 64) == [b0, b1, b2]
  {
    var v1 := (b0 % 4) * 16 + b1 / 16;
    var v2 := (b1 % 16) * 4 + b2 / 64;
    assert v1 / 16 == b0 % 4 && v1 % 16 == b1 / 16;
    assert v2 / 4 == b1 % 16 && v2 % 4 == b2 / 64;
  }

  lemma DecodeEncodeGroup(b0: byte, b1: byte, b2: byte)
    ensures AllSymbols(EncodeGroup(b0, b1, b2)) && DecodeGroup(EncodeGroup(b0, b1, b2)) == [b0, b1, b2]
  {
    SymbolValue(b0 / 4);
    SymbolValue((b0 % 4) * 16 + b1 / 16);
    SymbolValue((b1 % 16) * 4 + b2 / 64);
    SymbolValue(b2 % 64);
    GroupOfSymbols(b0, b1, b2);
  }

  lemma DecodeEncodeOne(b0: byte)
    ensures Decode(Encode([b0])) == Some([b0])
  {
    var v0, v1 := b0 / 4, (b0 % 4) * 16;
    var q := Encode([b0]);
    assert q == [Symbol(v0), Symbol(v1), Pad, Pad];
    SymbolValue(v0);
    SymbolValue(v1);
    assert !AllSymbols(q) && Value(q[2]).None?;
    assert v0 * 4 + v1 / 16 == b0;
    assert Decode(q) == DecodeLast(q) == Some([b0]);
  }

  lemma DecodeEncodeTwo(b0: byte, b1: byte)
    ensures Decode(Encode([b0, b1])) == Some([b0, b1])
  {
    var v0, v1, v2 := b0 / 4, (b0 % 4) * 16 + b1 / 16, (b1 % 16) * 4;
    var q := Encode([b0, b1]);
    assert q == [Symbol(v0), Symbol(v1), Symbol(v2), Pad];
    SymbolValue(v0);
    SymbolValue(v1);
    SymbolValue(v2);
    assert !AllSymbols(q);
    assert v1 / 16 == b0 % 4 && v1 % 16 == b1 / 16 && v2 / 4 == b1 % 16;
    assert Decode(q) == DecodeLast(q) == Some([b0, b1]);
  }

  lemma DecodeGroupThen(b0: byte, b1: byte, b2: byte, rest: seq<byte>)
    requires Decode(Encode(rest)) == Some(rest)
    ensures Decode(Encode([b0, b1, b2] + rest)) == Some([b0, b1, b2] + rest)
  {
    var x := [b0, b1, b2] + rest;
    assert x[3..] == rest;
    var q := EncodeGroup(b0, b1, b2);
    var e := Encode(x);
    assert e == q + Encode(rest);
    DecodeEncodeGroup(b0, b1, b2);
    if rest == [] {
      assert e == q;
      assert x == [b0, b1, b2];
      assert Decode(e) == DecodeLast(q) == Some(DecodeGroup(q));
    } else {
      assert e[..4] == q;
      assert e[4..] == Encode(rest);
    }
  }

  lemma DecodeEncodeShort(b: seq<byte>)
    requires 1 <= |b| <= 2
    ensures Decode(Encode(b)) == Some(b)
  {
    if |b| == 1 {
      DecodeEncodeOne(b[0]);
      assert b == [b[0]];
    } else {
      DecodeEncodeTwo(b[0], b[1]);
      assert b == [b[0], b[1]];
    }
  }

  lemma DecodeEncodeLong(b: seq<byte>)
    requires |b| >= 3
    requires Decode(Encode(b[3..])) == Some(b[3..])
    ensures Decode(Encode(b)) == Some(b)
  {
    SplitThree(b);
    DecodeGroupThen(b[0], b[1], b[2], b[3..]);
  }

  lemma SplitThree(b: seq<byte>)
    requires |b| >= 3
    ensures [b[0], b[1], b[2]] + b[3..] == b
  {
  }

  lemma {:induction false} DecodeEncode(b: seq<byte>)
    ensures Decode(Encode(b)) == Some(b)
    decreases |b|
  {
    if 1 <= |b| <= 2 {
      DecodeEncodeShort(b);
    } else if |b| >= 3 {
      DecodeEncode(b[3..]);
      DecodeEncodeLong(b);
    }
  }

  /** The encoder writes only alphabet characters, followed by at most two
      padding characters. */
  lemma {:induction false} EncodeAlphabet(b: seq<byte>)
    ensures forall k :: 0 <= k < |Encode(b)| ==> Value(Encode(b)[k]).Some? || Encode(b)[k] == Pad
    ensures forall k :: 0 <= k < |Encode(b)| - 2 ==> Value(Encode(b)[k]).Some?
    decreases |b|
  {
    if |b| >= 3 {
      EncodeAlphabet(b[3..]);
      var e := Encode(b);
      assert forall k :: 4 <= k < |e| ==> e[k] == Encode(b[3..])[k - 4];
      DecodeEncodeGroup(b[0], b[1], b[2]);
      assert e[..4] == EncodeGroup(b[0], b[1], b[2]);
    } else if |b| == 2 {
      SymbolValue(b[0] / 4);
      SymbolValue((b[0] % 4) * 16 + b[1] / 16);
      SymbolValue((b[1] % 16) * 4);
    } else if |b| == 1 {
      SymbolValue(b[0] / 4);
      SymbolValue((b[0] % 4) * 16);
    }
  }
}
