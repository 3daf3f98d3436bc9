/** `encodeURIComponent`: every character outside the unreserved set is
    written as the UTF-8 bytes of its code point (RFC 3629), each byte as
    `%` and two upper-case hexadecimal digits (section 2.1 of RFC 3986).
    A reference decoder states what the encoding preserves. */
module Uri {

  import opened Seqs

  type Byte = b: int | 0 <= b < 256

  /** The characters `encodeURIComponent` leaves as they are. */
  predicate Unreserved(c: char)
  {
    || ('A' <= c <= 'Z') || ('a' <= c <= 'z') || ('0' <= c <= '9')
    || c == '-' || c == '_' || c == '.' || c == '!' || c == '~' || c == '*'
    || c == '\'' || c == '(' || c == ')'
  }

  /** An upper-case hexadecimal digit. */
  predicate IsHexDigit(c: char)
  {
    ('0' <= c <= '9') || ('A' <= c <= 'F')
  }

  /** The characters an encoded component is made of. */
  predicate UriSafe(c: char)
  {
    Unreserved(c) || c == '%' || IsHexDigit(c)
  }

  /** A Unicode scalar value: a code point that is not a surrogate. */
  predicate IsScalar(cp: int)
  {
    (0 <= cp < 0xD800) || (0xE000 <= cp < 0x11_0000)
  }

  /** True when `b` is a UTF-8 continuation byte. */
  predicate IsContinuation(b: Byte)
  {
    0x80 <= b < 0xC0
  }

  /** The UTF-8 encoding of one character, one to four bytes. */
  function Utf8Char(c: char): (bs: seq<Byte>)
    ensures 1 <= |bs| <= 4
    ensures (c as int < 0x80) <==> |bs| == 1
  {
    var cp := c as int;
    if cp < 0x80 then [cp]
    else if cp < 0x800 then [0xC0 + cp / 64, 0x80 + cp % 64]
    else if cp < 0x1_0000 then [0xE0 + cp / 4096, 0x80 + (cp / 64) % 64, 0x80 + cp % 64]
    else [0xF0 + cp / 262144, 0x80 + (cp / 4096) % 64, 0x80 + (cp / 64) % 64, 0x80 + cp % 64]
  }

  /** The UTF-8 encoding of a string. */
  function Utf8Encode(s: string): seq<Byte>
  {
    if s == [] then [] else Utf8Char(s[0]) + Utf8Encode(s[1..])
  }

  function PrependChar(c: char, o: Option<string>): Option<string>
  {
    match o
    case None => None
    case Some(t) => Some([c] + t)
  }

  function PrependBytes(bs: seq<Byte>, o: Option<seq<Byte>>): Option<seq<Byte>>
  {
    match o
    case None => None
    case Some(t) => Some(bs + t)
  }

  /** The character of a code point, when it is a scalar value. */
  function CharOf(cp: int): Option<char>
  {
    if IsScalar(cp) then Some(cp as char) else None
  }

  /** Decodes UTF-8; None on a malformed sequence. */
  function Utf8Decode(bs: seq<Byte>): Option<string>
    decreases |bs|
  {
    if bs == [] then Some([])
    else
      var b0: int := bs[0];
      if b0 < 0x80 then PrependChar(b0 as char, Utf8Decode(bs[1..]))
      else if 0xC0 <= b0 < 0xE0 && |bs| >= 2 && IsContinuation(bs[1]) then
        var cp := (b0 - 0xC0) * 64 + (bs[1] as int - 0x80);
        match CharOf(cp)
        case None => None
        case Some(c) => PrependChar(c, Utf8Decode(bs[2..]))
      else if 0xE0 <= b0 < 0xF0 && |bs| >= 3 && IsContinuation(bs[1]) && IsContinuation(bs[2]) then
        var cp := (b0 - 0xE0) * 4096 + (bs[1] as int - 0x80) * 64 + (bs[2] as int - 0x80);
        match CharOf(cp)
        case None => None
        case Some(c) => PrependChar(c, Utf8Decode(bs[3..]))
      else if 0xF0 <= b0 < 0xF8 && |bs| >= 4 && IsContinuation(bs[1]) && IsContinuation(bs[2]) && IsContinuation(bs[3]) then
        var cp := (b0 - 0xF0) * 262144 + (bs[1] as int - 0x80) * 4096 + (bs[2] as int - 0x80) * 64 + (bs[3] as int - 0x80);
        match CharOf(cp)
        case None => None
        case Some(c) => PrependChar(c, Utf8Decode(bs[4..]))
      else None
  }

  /** The upper-case hexadecimal digit of `d`. */
  function HexDigit(d: int): (c: char)
    requires 0 <= d < 16
    ensures IsHexDigit(c)
  {
    if d < 10 then ('0' as int + d) as char else ('A' as int + d - 10) as char
  }

  /** The value of a hexadecimal digit of either case. */
  function HexValue(c: char): Option<int>
  {
    if '0' <= c <= '9' then Some(c as int - '0' as int)
    else if 'A' <= c <= 'F' then Some(c as int - 'A' as int + 10)
    else if 'a' <= c <= 'f' then Some(c as int - 'a' as int + 10)
    else None
  }

  /** `%XY` for one byte. */
  function PercentByte(b: Byte): string
  {
    ['%', HexDigit(b / 16), HexDigit(b % 16)]
  }

  function PercentBytes(bs: seq<Byte>): string
  {
    if bs == [] then [] else PercentByte(bs[0]) + PercentBytes(bs[1..])
  }

  /** The encoding of one character. */
  function EncodeChar(c: char): string
  {
    if Unreserved(c) then [c] else PercentBytes(Utf8Char(c))
  }

  /** `encodeURIComponent`. */
  function EncodeUriComponent(s: string): (r: string)
    ensures forall i :: 0 <= i < |r| ==> UriSafe(r[i])
  {
    if s == [] then [] else
      var e := EncodeChar(s[0]);
      EncodeCharSafe(s[0]);
      e + EncodeUriComponent(s[1..])
  }

  lemma EncodeCharSafe(c: char)
    ensures forall i :: 0 <= i < |EncodeChar(c)| ==> UriSafe(EncodeChar(c)[i])
  {
    if !Unreserved(c) {
      PercentBytesSafe(Utf8Char(c));
    }
  }

  lemma {:induction false} PercentBytesSafe(bs: seq<Byte>)
    ensures forall i :: 0 <= i < |PercentBytes(bs)| ==> UriSafe(PercentBytes(bs)[i])
  {
    if bs != [] {
      PercentBytesSafe(bs[1..]);
    }
  }

  /** Percent-decoding to bytes: `%XY` is the byte XY, any other ASCII
      character stands for its own code; None on anything else. */
  function PercentDecode(t: string): Option<seq<Byte>>
    decreases |t|
  {
    if t == [] then Some([])
    else if t[0] == '%' then
      if |t| >= 3 && HexValue(t[1]).Some? && HexValue(t[2]).Some? then
        var hi := HexValue(t[1]).value;
        var lo := HexValue(t[2]).value;
        if 0 <= hi < 16 && 0 <= lo < 16 then PrependBytes([hi * 16 + lo], PercentDecode(t[3..]))
        else None
      else None
    else if t[0] as int < 0x80 then PrependBytes([t[0] as int], PercentDecode(t[1..]))
    else None
  }

  /** The reference decoder (`decodeURIComponent` on what the encoder emits). */
  function DecodeUriComponent(t: string): Option<string>
  {
    match PercentDecode(t)
    case None => None
    case Some(bs) => Utf8Decode(bs)
  }

  /** A byte survives `%XY` and back. */
  lemma PercentByteDecode(b: Byte, t: string)
    ensures PercentDecode(PercentByte(b) + t) == PrependBytes([b], PercentDecode(t))
  {
    var s := PercentByte(b) + t;
    assert s[0] == '%' && s[3..] == t;
    var hi, lo := b / 16, b % 16;
    assert HexValue(s[1]) == Some(hi);
    assert HexValue(s[2]) == Some(lo);
  }

  lemma {:induction false} PercentBytesDecode(bs: seq<Byte>, t: string)
    ensures PercentDecode(PercentBytes(bs) + t) == PrependBytes(bs, PercentDecode(t))
  {
    if bs != [] {
      assert PercentBytes(bs) + t == PercentByte(bs[0]) + (PercentBytes(bs[1..]) + t);
      PercentByteDecode(bs[0], PercentBytes(bs[1..]) + t);
      PercentBytesDecode(bs[1..], t);
      PrependBytesConcat([bs[0]], bs[1..], PercentDecode(t));
      assert [bs[0]] + bs[1..] == bs;
    } else {
      assert PercentBytes(bs) + t == t;
      if PercentDecode(t).Some? {
        assert bs + PercentDecode(t).value == PercentDecode(t).value;
      }
    }
  }

  lemma PrependBytesConcat(a: seq<Byte>, b: seq<Byte>, o: Option<seq<Byte>>)
    ensures PrependBytes(a, PrependBytes(b, o)) == PrependBytes(a + b, o)
  {
    if o.Some? {
      assert a + (b + o.value) == (a + b) + o.value;
    }
  }

  lemma PercentDecodeChar(c: char, t: string)
    ensures PercentDecode(EncodeChar(c) + t) == PrependBytes(Utf8Char(c), PercentDecode(t))
  {
    if Unreserved(c) {
      var s := [c] + t;
      assert s[0] == c && s[1..] == t;
    } else {
      PercentBytesDecode(Utf8Char(c), t);
    }
  }

  /** Percent-decoding an encoded string gives its UTF-8 bytes. */
  lemma {:induction false} PercentDecodeEncode(s: string)
    ensures PercentDecode(EncodeUriComponent(s)) == Some(Utf8Encode(s))
  {
    if s != [] {
      PercentDecodeChar(s[0], EncodeUriComponent(s[1..]));
      PercentDecodeEncode(s[1..]);
    }
  }

  /** UTF-8 decoding reads one encoded character back off the front. */
  lemma Utf8DecodeChar(c: char, rest: seq<Byte>)
    ensures Utf8Decode(Utf8Char(c) + rest) == PrependChar(c, Utf8Decode(rest))
  {
    var cp := c as int;
    if cp < 0x80 {
      assert (Utf8Char(c) + rest)[1..] == rest;
    } else if cp < 0x800 {
      Utf8DecodeTwo(c, rest);
    } else if cp < 0x1_0000 {
      Utf8DecodeThree(c, rest);
    } else {
      Utf8DecodeFour(c, rest);
    }
  }

  lemma Utf8DecodeTwo(c: char, rest: seq<Byte>)
    requires 0x80 <= c as int < 0x800
    ensures Utf8Decode(Utf8Char(c) + rest) == PrependChar(c, Utf8Decode(rest))
  {
    var cp := c as int;
    var bs := Utf8Char(c) + rest;
    assert bs[2..] == rest;
    assert bs[0] == 0xC0 + cp / 64 && bs[1] == 0x80 + cp % 64;
    assert (bs[0] as int - 0xC0) * 64 + (bs[1] as int - 0x80) == cp;
  }

  lemma Utf8DecodeThree(c: char, rest: seq<Byte>)
    requires 0x800 <= c as int < 0x1_0000
    ensures Utf8Decode(Utf8Char(c) + rest) == PrependChar(c, Utf8Decode(rest))
  {
    var cp := c as int;
    var bs := Utf8Char(c) + rest;
    assert bs[3..] == rest;
    Split3(cp);
    assert bs[0] == 0xE0 + cp / 4096;
  }

  lemma Utf8DecodeFour(c: char, rest: seq<Byte>)
    requires 0x1_0000 <= c as int
    ensures Utf8Decode(Utf8Char(c) + rest) == PrependChar(c, Utf8Decode(rest))
  {
    var cp := c as int;
    var bs := Utf8Char(c) + rest;
    assert bs[4..] == rest;
    Split4(cp);
    assert bs[0] == 0xF0 + cp / 262144;
  }

  lemma Split3(cp: int)
    requires 0x800 <= cp < 0x1_0000
    ensures (cp / 4096) * 4096 + ((cp / 64) % 64) * 64 + cp % 64 == cp
  {
    assert cp / 4096 == (cp / 64) / 64;
  }

  lemma Split4(cp: int)
    requires 0x1_0000 <= cp < 0x11_0000
    ensures (cp / 262144) * 262144 + ((cp / 4096) % 64) * 4096 + ((cp / 64) % 64) * 64 + cp % 64 == cp
  {
    assert cp / 4096 == (cp / 64) / 64;
    assert cp / 262144 == (cp / 4096) / 64;
  }

  lemma {:induction false} Utf8RoundTrip(s: string)
    ensures Utf8Decode(Utf8Encode(s)) == Some(s)
  {
    if s != [] {
      Utf8DecodeChar(s[0], Utf8Encode(s[1..]));
      Utf8RoundTrip(s[1..]);
      assert s == [s[0]] + s[1..];
    }
  }

  /** The encoding loses nothing: the reference decoder recovers the text. */
  lemma DecodeEncode(s: string)
    ensures DecodeUriComponent(EncodeUriComponent(s)) == Some(s)
  {
    PercentDecodeEncode(s);
    Utf8RoundTrip(s);
  }

  /** The encoding works character by character: encoding a concatenation
      concatenates the encodings. */
  lemma {:induction false} EncodeConcat(a: string, b: string)
    ensures EncodeUriComponent(a + b) == EncodeUriComponent(a) + EncodeUriComponent(b)
  {
    if a == [] {
      assert a + b == b;
    } else {
      assert (a + b)[0] == a[0] && (a + b)[1..] == a[1..] + b;
      EncodeConcat(a[1..], b);
    }
  }

  /** `á` (U+00E1) is sent as the two UTF-8 bytes C3 A1. */
  lemma EncodeAcuteA()
    ensures EncodeUriComponent("á") == "%C3%A1"
  {
    assert Utf8Char('á') == [0xC3, 0xA1];
  }
}
