/**
 * Base 64 as section 4 of RFC 4648 defines it: the standard alphabet, "="
 * padding, no line breaks. Encoded text is a sequence of ASCII codes.
 * Decoding is that of the basic decoder of the Java platform: the final
 * padding may be left out, the unused low bits of a last partial group are
 * ignored, and any other irregularity is an illegal argument.
 */
module Base64 {
  import opened FileSystem

  const Pad: byte := 61  // '='

  /** The alphabet symbol for a six-bit value: A-Z, a-z, 0-9, '+', '/'. */
  function Symbol(v: int): (c: byte)
    requires 0 <= v < 64
    ensures c != Pad && Value(c) == v
  {
    if v < 26 then (65 + v) as byte
    else if v < 52 then (97 + v - 26) as byte
    else if v < 62 then (48 + v - 52) as byte
    else if v == 62 then 43
    else 47
  }

  /** The six-bit value of an alphabet symbol, or -1 for any other code. */
  function Value(c: byte): (v: int)
    ensures -1 <= v < 64
  {
    if 65 <= c <= 90 then c as int - 65
    else if 97 <= c <= 122 then c as int - 97 + 26
    else if 48 <= c <= 57 then c as int - 48 + 52
    else if c == 43 then 62
    else if c == 47 then 63
    else -1
  }

  predicate IsSymbol(c: byte)
  {
    Value(c) >= 0
  }

  /** Symbol and Value are inverse bijections between six-bit values and the alphabet. */
  lemma SymbolValue(c: byte)
    ensures IsSymbol(c) ==> Symbol(Value(c)) == c
  {
  }

  // The bytes of a group, from the values of its symbols.
  function Byte0(v0: int, v1: int): byte
    requires 0 <= v0 < 64 && 0 <= v1 < 64
  {
    (v0 * 4 + v1 / 16) as byte
  }

  function Byte1(v1: int, v2: int): byte
    requires 0 <= v1 < 64 && 0 <= v2 < 64
  {
    ((v1 % 16) * 16 + v2 / 4) as byte
  }

  function Byte2(v2: int, v3: int): byte
    requires 0 <= v2 < 64 && 0 <= v3 < 64
  {
    ((v2 % 4) * 64 + v3) as byte
  }

  /** The encoded text: 4 symbols per 3 bytes, the last group padded with "=". */
  function Encode(b: seq<byte>): (s: seq<byte>)
    ensures |s| == 4 * ((|b| + 2) / 3)
    ensures forall i :: 0 <= i < |s| ==> IsSymbol(s[i]) || s[i] == Pad
    decreases |b|
  {
    if b == [] then []
    else
      var x0 := b[0] as int;
      if |b| == 1 then
        [Symbol(x0 / 4), Symbol((x0 % 4) * 16), Pad, Pad]
      else
        var x1 := b[1] as int;
        if |b| == 2 then
          [Symbol(x0 / 4), Symbol((x0 % 4) * 16 + x1 / 16), Symbol((x1 % 16) * 4), Pad]
        else
          var x2 := b[2] as int;
          [Symbol(x0 / 4), Symbol((x0 % 4) * 16 + x1 / 16), Symbol((x1 % 16) * 4 + x2 / 64), Symbol(x2 % 64)]
          + Encode(b[3..])
  }

  /** Decoding: whole groups of four symbols, then a last, possibly partial or padded, group. */
  function Decode(s: seq<byte>): (r: Result<seq<byte>>)
    ensures r.Err? ==> r.error == IllegalArgument
    decreases |s|
  {
    if s == [] then Ok([])
    else if |s| >= 4 && IsSymbol(s[0]) && IsSymbol(s[1]) && IsSymbol(s[2]) && IsSymbol(s[3]) then
      var v0, v1, v2, v3 := Value(s[0]), Value(s[1]), Value(s[2]), Value(s[3]);
      match Decode(s[4..])
      case Ok(rest) => Ok([Byte0(v0, v1), Byte1(v1, v2), Byte2(v2, v3)] + rest)
      case Err(e) => Err(e)
    else DecodeLast(s)
  }

  /**
   * The last group: two or three symbols, at the end of the input or
   * followed by the padding that completes the group to four; a single
   * symbol, padding elsewhere, or any other code is illegal.
   */
  function DecodeLast(s: seq<byte>): (r: Result<seq<byte>>)
    ensures r.Err? ==> r.error == IllegalArgument
    ensures r.Ok? ==> 1 <= |r.value| <= 2
  {
    if |s| < 2 || !IsSymbol(s[0]) || !IsSymbol(s[1]) then Err(IllegalArgument)
    else
      var v0, v1 := Value(s[0]), Value(s[1]);
      if |s| == 2 then Ok([Byte0(v0, v1)])
      else if !IsSymbol(s[2]) then
        (if s[2] == Pad && |s| == 4 && s[3] == Pad then Ok([Byte0(v0, v1)]) else Err(IllegalArgument))
      else
        var v2 := Value(s[2]);
        if |s| == 3 || (|s| == 4 && s[3] == Pad) then Ok([Byte0(v0, v1), Byte1(v1, v2)])
        else Err(IllegalArgument)
  }

  /** A whole group of three bytes comes back from its four symbols. */
  lemma GroupRoundTrip(x0: int, x1: int, x2: int)
    requires 0 <= x0 < 256 && 0 <= x1 < 256 && 0 <= x2 < 256
    ensures var v0, v1, v2, v3 := x0 / 4, (x0 % 4) * 16 + x1 / 16, (x1 % 16) * 4 + x2 / 64, x2 % 64;
      0 <= v0 < 64 && 0 <= v1 < 64 && 0 <= v2 < 64 && 0 <= v3 < 64 &&
      Byte0(v0, v1) as int == x0 && Byte1(v1, v2) as int == x1 && Byte2(v2, v3) as int == x2
  {
    var v1, v2 := (x0 % 4) * 16 + x1 / 16, (x1 % 16) * 4 + x2 / 64;
    assert v1 / 16 == x0 % 4 && v1 % 16 == x1 / 16;
    assert v2 / 4 == x1 % 16 && v2 % 4 == x2 / 64;
  }

  /** Decoding undoes encoding, for every byte sequence. */
  lemma {:induction false} DecodeEncode(b: seq<byte>)
    ensures Decode(Encode(b)) == Ok(b)
    decreases |b|
  {
    if |b| == 1 {
      DecodeEncodeOne(b);
    } else if |b| == 2 {
      DecodeEncodeTwo(b);
    } else if |b| >= 3 {
      DecodeEncode(b[3..]);
      EncodeGroup(b);
      DecodeThree(b, Encode(b), Encode(b[3..]));
    }
  }

  /** A group of four symbols that encodes three bytes, then text that decodes to the rest. */
  lemma DecodeThree(b: seq<byte>, s: seq<byte>, t: seq<byte>)
    requires |b| >= 3 && Decode(t) == Ok(b[3..])
    requires var x0, x1, x2 := b[0] as int, b[1] as int, b[2] as int;
      s == [Symbol(x0 / 4), Symbol((x0 % 4) * 16 + x1 / 16), Symbol((x1 % 16) * 4 + x2 / 64), Symbol(x2 % 64)] + t
    ensures Decode(s) == Ok(b)
  {
    var x0, x1, x2 := b[0] as int, b[1] as int, b[2] as int;
    var v0, v1, v2, v3 := x0 / 4, (x0 % 4) * 16 + x1 / 16, (x1 % 16) * 4 + x2 / 64, x2 % 64;
    GroupRoundTrip(x0, x1, x2);
    DecodeGroup(s, t, b[3..], v0, v1, v2, v3);
    GroupBytes(b, [Byte0(v0, v1), Byte1(v1, v2), Byte2(v2, v3)]);
  }

  /** One byte: two symbols and two pads, decoded as a last group. */
  lemma DecodeEncodeOne(b: seq<byte>)
    requires |b| == 1
    ensures Decode(Encode(b)) == Ok(b)
  {
    EncodeOne(b);
    DecodeOne(b, Encode(b));
  }

  /** The encoding of one byte, unfolded once. */
  lemma EncodeOne(b: seq<byte>)
    requires |b| == 1
    ensures var x0 := b[0] as int; Encode(b) == [Symbol(x0 / 4), Symbol((x0 % 4) * 16), Pad, Pad]
  {
  }

  /** The two symbols and two pads that encode one byte decode to that byte. */
  lemma DecodeOne(b: seq<byte>, s: seq<byte>)
    requires |b| == 1
    requires var x0 := b[0] as int; s == [Symbol(x0 / 4), Symbol((x0 % 4) * 16), Pad, Pad]
    ensures Decode(s) == Ok(b)
  {
    var x0 := b[0] as int;
    var v0, v1 := x0 / 4, (x0 % 4) * 16;
    OneRoundTrip(x0);
    DecodePadded(s, v0, v1);
    SameBytes([Byte0(v0, v1)], b);
  }

  /** A single byte comes back from its two symbols. */
  lemma OneRoundTrip(x0: int)
    requires 0 <= x0 < 256
    ensures var v0, v1 := x0 / 4, (x0 % 4) * 16;
      0 <= v0 < 64 && 0 <= v1 < 64 && Byte0(v0, v1) as int == x0
  {
    assert (x0 % 4) * 16 / 16 == x0 % 4;
  }

  /** Two symbols and two pads decode as one byte. */
  lemma DecodePadded(s: seq<byte>, v0: int, v1: int)
    requires 0 <= v0 < 64 && 0 <= v1 < 64 && s == [Symbol(v0), Symbol(v1), Pad, Pad]
    ensures Decode(s) == Ok([Byte0(v0, v1)])
  {
    assert !IsSymbol(Pad);
    assert Decode(s) == DecodeLast(s);
  }

  /** Two bytes: three symbols and a pad, decoded as a last group. */
  lemma DecodeEncodeTwo(b: seq<byte>)
    requires |b| == 2
    ensures Decode(Encode(b)) == Ok(b)
  {
    EncodeTwo(b);
    DecodeTwo(b, Encode(b));
  }

  /** The encoding of two bytes, unfolded once. */
  lemma EncodeTwo(b: seq<byte>)
    requires |b| == 2
    ensures var x0, x1 := b[0] as int, b[1] as int;
      Encode(b) == [Symbol(x0 / 4), Symbol((x0 % 4) * 16 + x1 / 16), Symbol((x1 % 16) * 4), Pad]
  {
  }

  /** The three symbols and pad that encode two bytes decode to those bytes. */
  lemma DecodeTwo(b: seq<byte>, s: seq<byte>)
    requires |b| == 2
    requires var x0, x1 := b[0] as int, b[1] as int;
      s == [Symbol(x0 / 4), Symbol((x0 % 4) * 16 + x1 / 16), Symbol((x1 % 16) * 4), Pad]
    ensures Decode(s) == Ok(b)
  {
    var x0, x1 := b[0] as int, b[1] as int;
    var v0, v1, v2 := x0 / 4, (x0 % 4) * 16 + x1 / 16, (x1 % 16) * 4;
    TwoRoundTrip(x0, x1);
    DecodeHalfPadded(s, v0, v1, v2);
    SameBytes([Byte0(v0, v1), Byte1(v1, v2)], b);
  }

  /** Two bytes come back from their three symbols. */
  lemma TwoRoundTrip(x0: int, x1: int)
    requires 0 <= x0 < 256 && 0 <= x1 < 256
    ensures var v0, v1, v2 := x0 / 4, (x0 % 4) * 16 + x1 / 16, (x1 % 16) * 4;
      0 <= v0 < 64 && 0 <= v1 < 64 && 0 <= v2 < 64 && Byte0(v0, v1) as int == x0 && Byte1(v1, v2) as int == x1
  {
    var v1, v2 := (x0 % 4) * 16 + x1 / 16, (x1 % 16) * 4;
    assert v1 / 16 == x0 % 4 && v1 % 16 == x1 / 16;
    assert v2 / 4 == x1 % 16;
  }

  /** Three symbols and a pad decode as two bytes. */
  lemma DecodeHalfPadded(s: seq<byte>, v0: int, v1: int, v2: int)
    requires 0 <= v0 < 64 && 0 <= v1 < 64 && 0 <= v2 < 64 && s == [Symbol(v0), Symbol(v1), Symbol(v2), Pad]
    ensures Decode(s) == Ok([Byte0(v0, v1), Byte1(v1, v2)])
  {
    assert !IsSymbol(Pad);
    assert Decode(s) == DecodeLast(s);
  }

  /** Three bytes or more: a whole group of four symbols, then the encoding of the rest. */
  lemma EncodeGroup(b: seq<byte>)
    requires |b| >= 3
    ensures var x0, x1, x2 := b[0] as int, b[1] as int, b[2] as int;
      Encode(b) == [Symbol(x0 / 4), Symbol((x0 % 4) * 16 + x1 / 16), Symbol((x1 % 16) * 4 + x2 / 64), Symbol(x2 % 64)]
        + Encode(b[3..])
  {
  }

  /** Four symbols followed by text that decodes: one group of three bytes, then the rest. */
  lemma DecodeGroup(s: seq<byte>, t: seq<byte>, rest: seq<byte>, v0: int, v1: int, v2: int, v3: int)
    requires 0 <= v0 < 64 && 0 <= v1 < 64 && 0 <= v2 < 64 && 0 <= v3 < 64
    requires s == [Symbol(v0), Symbol(v1), Symbol(v2), Symbol(v3)] + t && Decode(t) == Ok(rest)
    ensures Decode(s) == Ok([Byte0(v0, v1), Byte1(v1, v2), Byte2(v2, v3)] + rest)
  {
    assert s[4..] == t;
  }

  /** Byte sequences with the same values are equal. */
  lemma SameBytes(g: seq<byte>, b: seq<byte>)
    requires |g| == |b| && forall i :: 0 <= i < |b| ==> g[i] as int == b[i] as int
    ensures g == b
  {
  }

  /** Three bytes equal to the first three, then the rest, are the whole sequence. */
  lemma GroupBytes(b: seq<byte>, g: seq<byte>)
    requires |b| >= 3 && |g| == 3 && g[0] as int == b[0] as int && g[1] as int == b[1] as int && g[2] as int == b[2] as int
    ensures g + b[3..] == b
  {
  }

  /** Empty text decodes to no bytes; a single code never decodes. */
  lemma DecodeShort(c: byte)
    ensures Decode([]) == Ok([])
    ensures Decode([c]).Err?
  {
  }

  /** Padding is accepted only in last position: nothing may follow a complete padded group. */
  lemma DecodeRejectsAfterPadding(s: seq<byte>, t: seq<byte>)
    requires |s| == 4 && IsSymbol(s[0]) && IsSymbol(s[1]) && s[3] == Pad && t != []
    ensures Decode(s + t).Err?
  {
    assert (s + t)[3] == Pad;
  }

  // ---------------------------------------------------------------------
  // Text as Java strings: the encoded codes read as ISO 8859-1 characters

  /** A string's ISO 8859-1 bytes; a character outside that charset becomes '?'. */
  function Latin1(t: string): (b: seq<byte>)
    ensures |b| == |t|
    ensures forall i :: 0 <= i < |t| ==> (t[i] as int < 256 ==> b[i] as int == t[i] as int)
  {
    seq(|t|, i requires 0 <= i < |t| => if t[i] as int < 256 then t[i] as int as byte else 63)
  }

  /** The characters of ISO 8859-1 bytes. */
  function FromLatin1(b: seq<byte>): (t: string)
    ensures |t| == |b|
    ensures forall i :: 0 <= i < |b| ==> t[i] as int == b[i] as int
  {
    seq(|b|, i requires 0 <= i < |b| => b[i] as int as char)
  }

  /** encodeToString: the encoded codes as a string. */
  function EncodeToString(b: seq<byte>): (t: string)
    ensures |t| == 4 * ((|b| + 2) / 3)
  {
    FromLatin1(Encode(b))
  }

  /** decode(String): the string's ISO 8859-1 bytes, decoded. */
  function DecodeString(t: string): Result<seq<byte>>
  {
    Decode(Latin1(t))
  }

  /** The text of an encoding uses only the alphabet and "=". */
  lemma EncodedText(b: seq<byte>)
    ensures forall i :: 0 <= i < |EncodeToString(b)| ==>
      var c := EncodeToString(b)[i];
      c == '=' || c == '+' || c == '/' || 'A' <= c <= 'Z' || 'a' <= c <= 'z' || '0' <= c <= '9'
  {
    var s := Encode(b);
    forall i | 0 <= i < |s| ensures IsSymbol(s[i]) || s[i] == Pad {
    }
  }

  /** The string round trip: decoding the encoded string gives back the bytes. */
  lemma DecodeEncodeString(b: seq<byte>)
    ensures DecodeString(EncodeToString(b)) == Ok(b)
  {
    var s := Encode(b);
    assert Latin1(FromLatin1(s)) == s;
    DecodeEncode(b);
  }
}
