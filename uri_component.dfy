/** ECMAScript `encodeURIComponent`: every character outside the unreserved
    set `A-Z a-z 0-9 - _ . ! ~ * ' ( )` is replaced by the percent-encoding
    (section 2.1 of RFC 3986, upper-case hexadecimal) of each byte of its
    UTF-8 encoding. */
module UriComponent {
  import opened Options

  type Byte = b: int | 0 <= b < 256

  /** The characters `encodeURIComponent` leaves as they are */
  predicate IsUnreserved(c: char) {
    || ('A' <= c <= 'Z') || ('a' <= c <= 'z') || ('0' <= c <= '9')
    || c == '-' || c == '_' || c == '.' || c == '!' || c == '~'
    || c == '*' || c == '\'' || c == '(' || c == ')'
  }

  const HexDigits := "0123456789ABCDEF"

  function HexDigit(n: int): (c: char)
    requires 0 <= n < 16
    ensures IsUnreserved(c)
  {
    HexDigits[n]
  }

  /** The value of a hexadecimal digit, either case, as read back by a percent-decoder */
  function HexValue(c: char): Option<int> {
    if '0' <= c <= '9' then Some(c as int - '0' as int)
    else if 'A' <= c <= 'F' then Some(c as int - 'A' as int + 10)
    else if 'a' <= c <= 'f' then Some(c as int - 'a' as int + 10)
    else None
  }

  lemma HexValueOfDigit(n: int)
    requires 0 <= n < 16
    ensures HexValue(HexDigit(n)) == Some(n)
  {
  }

  /** UTF-8 encoding of one Unicode scalar value */
  function Utf8(c: char): (bs: seq<Byte>)
    ensures 1 <= |bs| <= 4
    ensures |bs| == 1 <==> c as int < 0x80
    ensures |bs| == 1 ==> bs[0] == c as int
  {
    var cp := c as int;
    if cp < 0x80 then [cp]
    else if cp < 0x800 then [0xC0 + cp / 0x40, 0x80 + cp % 0x40]
    else if cp < 0x1_0000 then [0xE0 + cp / 0x1000, 0x80 + cp / 0x40 % 0x40, 0x80 + cp % 0x40]
    else [0xF0 + cp / 0x4_0000, 0x80 + cp / 0x1000 % 0x40, 0x80 + cp / 0x40 % 0x40, 0x80 + cp % 0x40]
  }

  /** UTF-8 encoding of a string */
  function Utf8String(s: string): seq<Byte> {
    if s == [] then [] else Utf8(s[0]) + Utf8String(s[1..])
  }

  /** `%XY` for one byte */
  function PercentByte(b: Byte): (p: string)
    ensures |p| == 3 && p[0] == '%' && IsUnreserved(p[1]) && IsUnreserved(p[2])
  {
    ['%', HexDigit(b / 16), HexDigit(b % 16)]
  }

  /** `%XY` for each byte */
  function PercentBytes(bs: seq<Byte>): (e: string)
    ensures |e| == 3 * |bs|
    ensures forall i :: 0 <= i < |e| ==> e[i] == '%' || IsUnreserved(e[i])
  {
    if bs == [] then []
    else PercentByte(bs[0]) + PercentBytes(bs[1..])
  }

  function EncodeChar(c: char): string {
    if IsUnreserved(c) then [c] else PercentBytes(Utf8(c))
  }

  /** `encodeURIComponent(s)` */
  function Encode(s: string): (e: string)
    ensures forall i :: 0 <= i < |e| ==> e[i] == '%' || IsUnreserved(e[i])
  {
    if s == [] then [] else EncodeChar(s[0]) + Encode(s[1..])
  }

  /** A percent-decoder to bytes: `%XY` is the byte `XY`, an ASCII character is its own code,
      anything else is malformed. */
  function Decode(e: string): Option<seq<Byte>> {
    if e == [] then Some([])
    else if e[0] == '%' then
      if |e| < 3 then None
      else match (HexValue(e[1]), HexValue(e[2]), Decode(e[3..]))
        case (Some(hi), Some(lo), Some(rest)) =>
          if hi < 16 && lo < 16 then Some([hi * 16 + lo] + rest) else None
        case _ => None
    else if e[0] as int < 0x80 then
      match Decode(e[1..])
      case Some(rest) => Some([e[0] as int] + rest)
      case None => None
    else None
  }

  /** Prepending to both sides of a successful decode */
  function Prepend(bs: seq<Byte>, d: Option<seq<Byte>>): Option<seq<Byte>> {
    match d
    case Some(rest) => Some(bs + rest)
    case None => None
  }

  lemma {:induction false} DecodePercentByte(b: Byte, tail: string)
    ensures Decode(PercentByte(b) + tail) == Prepend([b], Decode(tail))
  {
    var e := PercentByte(b) + tail;
    HexValueOfDigit(b / 16);
    HexValueOfDigit(b % 16);
    assert e[1] == HexDigit(b / 16) && e[2] == HexDigit(b % 16);
    assert e[3..] == tail;
  }

  lemma {:induction false} DecodePercentBytes(bs: seq<Byte>, tail: string)
    ensures Decode(PercentBytes(bs) + tail) == Prepend(bs, Decode(tail))
  {
    if bs == [] {
      assert PercentBytes(bs) + tail == tail;
      match Decode(tail)
      case Some(rest) => assert [] + rest == rest;
      case None =>
    } else {
      var b := bs[0];
      var rest := PercentBytes(bs[1..]) + tail;
      PercentBytesCons(bs, tail);
      DecodePercentByte(b, rest);
      DecodePercentBytes(bs[1..], tail);
      PrependTwice(b, bs[1..], Decode(tail));
      assert [b] + bs[1..] == bs;
    }
  }

  lemma {:induction false} PercentBytesCons(bs: seq<Byte>, tail: string)
    requires bs != []
    ensures PercentBytes(bs) + tail == PercentByte(bs[0]) + (PercentBytes(bs[1..]) + tail)
  {
  }

  lemma {:induction false} PrependTwice(b: Byte, bs: seq<Byte>, d: Option<seq<Byte>>)
    ensures Prepend([b], Prepend(bs, d)) == Prepend([b] + bs, d)
  {
    match d
    case Some(r) => assert [b] + (bs + r) == ([b] + bs) + r;
    case None =>
  }

  lemma {:induction false} DecodeEncodeChar(c: char, tail: string)
    ensures Decode(EncodeChar(c) + tail) == Prepend(Utf8(c), Decode(tail))
  {
    if IsUnreserved(c) {
      assert c as int < 0x80;
      assert ([c] + tail)[1..] == tail;
    } else {
      DecodePercentBytes(Utf8(c), tail);
    }
  }

  /** Percent-decoding an encoded string gives back its UTF-8 bytes: the encoding loses nothing. */
  lemma {:induction false} DecodeEncode(s: string)
    ensures Decode(Encode(s)) == Some(Utf8String(s))
  {
    if s == [] {
    } else {
      DecodeEncode(s[1..]);
      DecodeEncodeChar(s[0], Encode(s[1..]));
    }
  }

  /** A string of unreserved characters is encoded as itself, and only such a string is. */
  lemma {:induction false} EncodeIdentityIff(s: string)
    ensures Encode(s) == s <==> forall i :: 0 <= i < |s| ==> IsUnreserved(s[i])
  {
    if s != [] {
      EncodeIdentityIff(s[1..]);
      if !IsUnreserved(s[0]) {
        var e := EncodeChar(s[0]);
        assert |e| >= 3 && e[0] == '%';
        EncodeLength(s[1..]);
        assert |Encode(s)| > |s|;
      } else {
        assert Encode(s) == [s[0]] + Encode(s[1..]);
        if Encode(s) == s {
          assert Encode(s[1..]) == s[1..];
        }
      }
    }
  }

  lemma {:induction false} EncodeLength(s: string)
    ensures |Encode(s)| >= |s|
  {
    if s != [] { EncodeLength(s[1..]); }
  }
}
