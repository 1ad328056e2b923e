/**
 * The flat names of FlatFileSystem: a path is stored under the lower-case
 * hexadecimal form of the bytes of its printed form, and a flat name is
 * turned back into a path by decoding its pairs of digits. Strings and bytes
 * are related by ISO-8859-1: a character below 256 is its own byte, any
 * other character becomes '?'.
 */
module FlatNames {
  import opened FileSystem
  import opened FilePaths

  // ---------------------------------------------------------------------
  // Characters and bytes

  /** The byte that getBytes gives for a character. */
  function CharByte(c: char): byte
  {
    if c as int < 256 then c as int as byte else 63
  }

  /** getBytes: one byte per character. */
  function EncodeChars(s: string): (r: seq<byte>)
    ensures |r| == |s|
  {
    seq(|s|, i requires 0 <= i < |s| => CharByte(s[i]))
  }

  /** new String(bytes): one character per byte. */
  function DecodeChars(bytes: seq<byte>): (r: string)
    ensures |r| == |bytes|
  {
    seq(|bytes|, i requires 0 <= i < |bytes| => bytes[i] as int as char)
  }

  /** The characters that the byte conversion represents faithfully. */
  predicate Latin1(s: string)
  {
    forall i :: 0 <= i < |s| ==> s[i] as int < 256
  }

  /** Strings of such characters survive the round trip through bytes. */
  lemma CharsRoundTrip(s: string)
    requires Latin1(s)
    ensures DecodeChars(EncodeChars(s)) == s
  {
    var t := DecodeChars(EncodeChars(s));
    forall i | 0 <= i < |s|
      ensures t[i] == s[i]
    {
      assert s[i] as int < 256;
    }
  }

  // ---------------------------------------------------------------------
  // Encoding

  /** The lower-case hexadecimal digit of a value below 16. */
  function HexDigit(v: int): (c: char)
    requires 0 <= v < 16
  {
    if v < 10 then (48 + v) as char else (87 + v) as char
  }

  /** Every byte as two hexadecimal digits, high nibble first. */
  function HexOf(bytes: seq<byte>): (r: string)
    ensures |r| == 2 * |bytes|
  {
    seq(2 * |bytes|, i requires 0 <= i < 2 * |bytes| =>
      if i % 2 == 0 then HexDigit(bytes[i / 2] as int / 16) else HexDigit(bytes[i / 2] as int % 16))
  }

  /**
   * "%x" of a non-negative BigInteger: its digits without the leading
   * zeros, and "0" for zero.
   */
  function StripZeros(s: string): (r: string)
    ensures |r| >= 1
  {
    if |s| == 0 then "0"
    else if s[0] == '0' && |s| > 1 then StripZeros(s[1..])
    else s
  }

  /** toFlatFilename: the magnitude of the bytes of the printed path, in hexadecimal. */
  function ToFlat(p: FilePath): string
  {
    StripZeros(HexOf(EncodeChars(ToString(p))))
  }

  // ---------------------------------------------------------------------
  // Decoding

  /** Character.digit(c, 16) on ASCII characters: the value of a digit of either case, -1 otherwise. */
  function DigitValue(c: char): (v: int)
    ensures -1 <= v < 16
  {
    if '0' <= c <= '9' then c as int - 48
    else if 'a' <= c <= 'f' then c as int - 87
    else if 'A' <= c <= 'F' then c as int - 55
    else -1
  }

  /**
   * Integer.valueOf of a two-character string in base 16: two digits, or a
   * sign followed by one digit; anything else is a number format error.
   */
  function PairValue(a: char, b: char): (r: Option<int>)
    ensures r.Some? ==> -15 <= r.value < 256
  {
    if a == '+' || a == '-' then
      (if DigitValue(b) < 0 then None else Some(if a == '-' then -DigitValue(b) else DigitValue(b)))
    else if DigitValue(a) < 0 || DigitValue(b) < 0 then None
    else Some(16 * DigitValue(a) + DigitValue(b))
  }

  /** byteValue: the low eight bits of the two's complement form. */
  function ByteValue(v: int): byte
  {
    (v % 256) as byte
  }

  /** Every pair of characters of the name is a number. */
  predicate PairsValid(s: string)
    requires |s| % 2 == 0
  {
    forall j :: 0 <= j < |s| / 2 ==> PairValue(s[2 * j], s[2 * j + 1]).Some?
  }

  /** The bytes of a name of even length: one per pair, unless a pair is not a number. */
  function DecodePairs(s: string): (r: Result<seq<byte>>)
    requires |s| % 2 == 0
    ensures r.Ok? <==> PairsValid(s)
    ensures r.Err? ==> r.error == NumberFormat
    ensures r.Ok? ==> |r.value| == |s| / 2
  {
    if PairsValid(s) then
      Ok(seq(|s| / 2, j requires 0 <= j < |s| / 2 => ByteValue(PairValue(s[2 * j], s[2 * j + 1]).value)))
    else Err(NumberFormat)
  }

  /**
   * fromFlatFilename: one leading "/" is removed and makes the path
   * absolute; the rest must have an even length, and its pairs are decoded
   * to the bytes of the printed path.
   */
  function FromFlat(filename: string): (r: Result<FilePath>)
    ensures r.Err? ==> r.error == InvalidFlatFilename || r.error == NumberFormat
    ensures r.Ok? && StartsWithSlash(filename) ==> Normal(r.value)
  {
    var absolute := StartsWithSlash(filename);
    var name := if absolute then filename[1..] else filename;
    if |name| % 2 != 0 then Err(InvalidFlatFilename)
    else match DecodePairs(name)
      case Err(e) => Err(e)
      case Ok(bytes) =>
        var path := DecodeChars(bytes);
        Ok(Parse(if absolute then "/" + path else path))
  }

  /** The decoding loop: each pair in turn into the array, the first bad pair failing it. */
  method DecodeName(name: string) returns (r: Result<seq<byte>>)
    requires |name| % 2 == 0
    ensures r == DecodePairs(name)
  {
    var decoded := new byte[|name| / 2];
    var i, k := 0, 0;
    while i < |name|
      invariant i == 2 * k && 0 <= k <= decoded.Length
      invariant forall j :: 0 <= j < k ==> PairValue(name[2 * j], name[2 * j + 1]).Some?
      invariant forall j :: 0 <= j < k ==> decoded[j] == ByteValue(PairValue(name[2 * j], name[2 * j + 1]).value)
    {
      var v := PairValue(name[i], name[i + 1]);
      if v.None? {
        assert !PairsValid(name) by {
          assert PairValue(name[2 * k], name[2 * k + 1]).None?;
        }
        return Err(NumberFormat);
      }
      decoded[k] := ByteValue(v.value);
      i, k := i + 2, k + 1;
    }
    assert PairsValid(name);
    assert decoded[..] == DecodePairs(name).value;
    r := Ok(decoded[..]);
  }

  // ---------------------------------------------------------------------
  // What the encoding promises

  /** Every character of a flat name is a lower-case hexadecimal digit. */
  predicate HexName(s: string)
  {
    forall i :: 0 <= i < |s| ==> ('0' <= s[i] <= '9' || 'a' <= s[i] <= 'f')
  }

  lemma {:induction false} StripZerosSuffix(s: string)
    requires HexName(s)
    ensures HexName(StripZeros(s))
  {
    if |s| > 1 && s[0] == '0' {
      StripZerosSuffix(s[1..]);
    }
  }

  /**
   * A flat name is a non-empty string of lower-case hexadecimal digits:
   * a valid segment name with no separator in it.
   */
  lemma ToFlatHex(p: FilePath)
    ensures HexName(ToFlat(p)) && ValidName(ToFlat(p))
  {
    var h := HexOf(EncodeChars(ToString(p)));
    StripZerosSuffix(h);
    var f := ToFlat(p);
    assert f[0] in f && f[|f| - 1] in f;
    forall i | 0 <= i < |f|
      ensures f[i] != '/'
    {
    }
  }

  /** A digit reads back as its value. */
  lemma DigitRoundTrip(v: int)
    requires 0 <= v < 16
    ensures DigitValue(HexDigit(v)) == v
  {
  }

  /** The two digits of a byte read back as the byte. */
  lemma PairRoundTrip(b: byte)
    ensures PairValue(HexDigit(b as int / 16), HexDigit(b as int % 16)) == Some(b as int)
  {
    DigitRoundTrip(b as int / 16);
    DigitRoundTrip(b as int % 16);
    assert HexDigit(b as int / 16) != '+' && HexDigit(b as int / 16) != '-';
  }

  /** The two digits of the j-th byte. */
  lemma HexAt(bytes: seq<byte>, j: int)
    requires 0 <= j < |bytes|
    ensures HexOf(bytes)[2 * j] == HexDigit(bytes[j] as int / 16)
    ensures HexOf(bytes)[2 * j + 1] == HexDigit(bytes[j] as int % 16)
  {
    var i := 2 * j;
    assert i / 2 == j && i % 2 == 0;
    assert (i + 1) / 2 == j && (i + 1) % 2 == 1;
  }

  /** The j-th decoded byte comes from the j-th pair. */
  lemma DecodeAt(s: string, j: int)
    requires |s| % 2 == 0 && PairsValid(s) && 0 <= j < |s| / 2
    ensures DecodePairs(s).value[j] == ByteValue(PairValue(s[2 * j], s[2 * j + 1]).value)
  {
  }

  /** The j-th pair of the digits of some bytes reads back as the j-th byte. */
  lemma PairAt(bytes: seq<byte>, j: int)
    requires 0 <= j < |bytes|
    ensures PairValue(HexOf(bytes)[2 * j], HexOf(bytes)[2 * j + 1]) == Some(bytes[j] as int)
  {
    HexAt(bytes, j);
    PairRoundTrip(bytes[j]);
  }

  /** Two digits per byte decode back to the bytes. */
  lemma DecodeHex(bytes: seq<byte>)
    ensures DecodePairs(HexOf(bytes)) == Ok(bytes)
  {
    var h := HexOf(bytes);
    assert |h| / 2 == |bytes|;
    forall j | 0 <= j < |h| / 2
      ensures PairValue(h[2 * j], h[2 * j + 1]).Some?
    {
      PairAt(bytes, j);
    }
    assert PairsValid(h);
    var d := DecodePairs(h).value;
    forall j | 0 <= j < |bytes|
      ensures d[j] == bytes[j]
    {
      PairAt(bytes, j);
      DecodeAt(h, j);
    }
    assert d == bytes;
  }

  /** The printed form of an absolute path starts with "/", whose code is above 0x0f. */
  lemma NoLeadingZero(p: FilePath)
    requires p.absolute
    ensures ToFlat(p) == HexOf(EncodeChars(ToString(p)))
  {
    var s := ToString(p);
    assert s[0] == '/';
    var h := HexOf(EncodeChars(s));
    assert h[0] == HexDigit(47 / 16);
  }

  /** A leading "/" adds nothing to a path string that already starts with one. */
  lemma ParseExtraSlash(p: FilePath)
    requires Normal(p)
    ensures Parse("/" + ToString(p)) == p
  {
    var s := ToString(p);
    SplitSlash(s);
    assert KeepAll([""]) == [] by { assert [""][..0] == []; }
    KeepAllAppend([""], Split(s));
    assert Pieces("/" + s) == Pieces(s);
    PiecesToString(p);
    AllValidNoUp(p.parts);
    NormalizedIdentity(p.parts);
    assert ("/" + s)[0] == '/';
  }

  /**
   * Round trip: the flat name of an absolute path whose characters the
   * byte conversion keeps decodes back to the path, with or without the
   * leading "/" that a listing of the inner store adds.
   */
  lemma FlatRoundTrip(p: FilePath)
    requires Normal(p) && Latin1(ToString(p))
    ensures FromFlat(ToFlat(p)) == Ok(p)
    ensures FromFlat("/" + ToFlat(p)) == Ok(p)
  {
    var s := ToString(p);
    NoLeadingZero(p);
    var f := ToFlat(p);
    DecodeHex(EncodeChars(s));
    CharsRoundTrip(s);
    ToFlatHex(p);
    ToStringShape(p);
    assert !StartsWithSlash(f);
    ParseToString(p);
    var g := "/" + f;
    assert StartsWithSlash(g) && g[1..] == f;
    ParseExtraSlash(p);
  }

  /** Distinct absolute paths are stored under distinct flat names. */
  lemma FlatInjective(p: FilePath, q: FilePath)
    requires Normal(p) && Latin1(ToString(p)) && Normal(q) && Latin1(ToString(q))
    ensures ToFlat(p) == ToFlat(q) ==> p == q
  {
    FlatRoundTrip(p);
    FlatRoundTrip(q);
  }

  /** A name of odd length, once any leading "/" is removed, is refused. */
  lemma OddNameRefused(filename: string)
    requires !StartsWithSlash(filename) && |filename| % 2 == 1
    ensures FromFlat(filename) == Err(InvalidFlatFilename) && FromFlat("/" + filename) == Err(InvalidFlatFilename)
  {
    assert ("/" + filename)[1..] == filename;
  }

  /** The bytes of "foo" give the flat name of the first example. */
  lemma HexFoo()
    ensures HexOf([0x66, 0x6f, 0x6f]) == "666f6f"
  {
  }

  /** The bytes of "/foo/bar.txt" give the flat name of the second example. */
  lemma HexFooBar()
    ensures HexOf([0x2f, 0x66, 0x6f, 0x6f, 0x2f, 0x62, 0x61, 0x72, 0x2e, 0x74, 0x78, 0x74]) ==
            "2f666f6f2f6261722e747874"
  {
    var x: seq<byte>, y: seq<byte>, z: seq<byte> := [0x2f, 0x66, 0x6f, 0x6f], [0x2f, 0x62, 0x61, 0x72], [0x2e, 0x74, 0x78, 0x74];
    HexSlashFoo();
    HexSlashBar();
    HexDotTxt();
    HexAppend(x, y);
    HexAppend(x + y, z);
    FooBarBytes(x, y, z);
    FooBarDigits();
  }

  lemma FooBarBytes(x: seq<byte>, y: seq<byte>, z: seq<byte>)
    requires x == [0x2f, 0x66, 0x6f, 0x6f] && y == [0x2f, 0x62, 0x61, 0x72] && z == [0x2e, 0x74, 0x78, 0x74]
    ensures x + y + z == [0x2f, 0x66, 0x6f, 0x6f, 0x2f, 0x62, 0x61, 0x72, 0x2e, 0x74, 0x78, 0x74]
  {
  }

  lemma FooBarDigits()
    ensures "2f666f6f" + "2f626172" + "2e747874" == "2f666f6f2f6261722e747874"
  {
    var t := "2f666f6f2f6261722e747874";
    assert t[..8] == "2f666f6f" && t[8..16] == "2f626172" && t[16..] == "2e747874";
    assert t == t[..8] + t[8..16] + t[16..];
  }

  lemma HexSlashFoo()
    ensures HexOf([0x2f, 0x66, 0x6f, 0x6f]) == "2f666f6f"
  {
  }

  lemma HexSlashBar()
    ensures HexOf([0x2f, 0x62, 0x61, 0x72]) == "2f626172"
  {
  }

  lemma HexDotTxt()
    ensures HexOf([0x2e, 0x74, 0x78, 0x74]) == "2e747874"
  {
  }

  /** The digits of two byte sequences side by side are the digits of each, side by side. */
  lemma HexAppend(a: seq<byte>, b: seq<byte>)
    ensures HexOf(a + b) == HexOf(a) + HexOf(b)
  {
    var l, r := HexOf(a + b), HexOf(a) + HexOf(b);
    forall i | 0 <= i < |l| ensures l[i] == r[i] {
      if i >= 2 * |a| {
        assert (i - 2 * |a|) / 2 == i / 2 - |a| && (i - 2 * |a|) % 2 == i % 2;
      }
    }
  }

  /** The documented example "foo", stored as "666f6f". */
  lemma FlatFoo()
    ensures ToFlat(FilePath(["foo"], false)) == "666f6f"
  {
    var p := FilePath(["foo"], false);
    assert ToString(p) == "foo";
    assert EncodeChars("foo") == [0x66, 0x6f, 0x6f];
    HexFoo();
  }

  /**
   * The documented example "/foo/bar.txt", stored as
   * "2f666f6f2f6261722e747874", which decodes back to "/foo/bar.txt".
   */
  lemma FlatFooBar()
    ensures ToFlat(FilePath(["foo", "bar.txt"], true)) == "2f666f6f2f6261722e747874"
    ensures FromFlat("2f666f6f2f6261722e747874") == Ok(FilePath(["foo", "bar.txt"], true))
  {
    var q := FilePath(["foo", "bar.txt"], true);
    FooBarPrinted();
    HexFooBar();
    FooBarValid();
    FlatRoundTrip(q);
  }

  lemma FooBarPrinted()
    ensures ToString(FilePath(["foo", "bar.txt"], true)) == "/foo/bar.txt"
    ensures EncodeChars("/foo/bar.txt") == [0x2f, 0x66, 0x6f, 0x6f, 0x2f, 0x62, 0x61, 0x72, 0x2e, 0x74, 0x78, 0x74]
  {
    assert Join(["bar.txt"]) == "bar.txt";
    assert ["foo", "bar.txt"][1..] == ["bar.txt"];
  }

  lemma FooBarValid()
    ensures Normal(FilePath(["foo", "bar.txt"], true)) && Latin1("/foo/bar.txt")
  {
    assert ValidName("foo") by { assert "foo"[0] == 'f' && "foo"[2] == 'o'; }
    assert ValidName("bar.txt") by { assert "bar.txt"[0] == 'b' && "bar.txt"[6] == 't'; }
  }
}
