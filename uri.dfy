/**
 * Encoding of a URI path segment: UTF-8 bytes (RFC 3629), then each byte
 * outside the characters that section 3.3 of RFC 3986 allows in a path
 * (`pchar` and "/") written as "%" and two upper-case hex digits
 * (section 2.1 of RFC 3986). This is what UriUtils.encodePath does with
 * charset UTF-8.
 */
module UriEncoding {
  import opened Wrappers
  import opened Bytes

  /** `unreserved` of section 2.3 of RFC 3986. */
  predicate IsUnreserved(c: char)
  {
    || 'A' <= c <= 'Z' || 'a' <= c <= 'z' || '0' <= c <= '9'
    || c == '-' || c == '.' || c == '_' || c == '~'
  }

  /** `sub-delims` of section 2.2 of RFC 3986. */
  predicate IsSubDelimiter(c: char)
  {
    || c == '!' || c == '$' || c == '&' || c == '\'' || c == '(' || c == ')'
    || c == '*' || c == '+' || c == ',' || c == ';' || c == '='
  }

  /** The characters a path may carry unencoded: `pchar` (section 3.3) and "/". */
  predicate IsPathAllowed(c: char)
  {
    IsUnreserved(c) || IsSubDelimiter(c) || c == ':' || c == '@' || c == '/'
  }

  /** The character whose code is the byte `b` (Latin-1 reading). */
  function ByteChar(b: Byte): char
  {
    b as char
  }

  function HexDigit(n: Byte): (c: char)
    requires n < 16
    ensures IsPathAllowed(c)
  {
    if n < 10 then ('0' as int + n) as char else ('A' as int + n - 10) as char
  }

  predicate IsHexDigit(c: char)
  {
    '0' <= c <= '9' || 'A' <= c <= 'F' || 'a' <= c <= 'f'
  }

  function HexValue(c: char): (n: Byte)
    requires IsHexDigit(c)
    ensures n < 16
  {
    if '0' <= c <= '9' then c as int - '0' as int
    else if 'A' <= c <= 'F' then c as int - 'A' as int + 10
    else c as int - 'a' as int + 10
  }

  lemma HexRoundTrip(n: Byte)
    requires n < 16
    ensures IsHexDigit(HexDigit(n)) && HexValue(HexDigit(n)) == n
  {
  }

  /** One byte as it appears in an encoded path. */
  function EncodeByte(b: Byte): (r: string)
    ensures |r| == 1 || |r| == 3
    ensures |r| == 1 <==> IsPathAllowed(ByteChar(b))
    ensures forall i :: 0 <= i < |r| ==> IsPathAllowed(r[i]) || r[i] == '%'
  {
    if IsPathAllowed(ByteChar(b)) then [ByteChar(b)]
    else ['%', HexDigit(b / 16), HexDigit(b % 16)]
  }

  /** Percent-encoding of a byte string. */
  function PercentEncode(bs: seq<Byte>): (r: string)
    ensures |bs| <= |r| <= 3 * |bs|
    ensures forall i :: 0 <= i < |r| ==> IsPathAllowed(r[i]) || r[i] == '%'
  {
    if bs == [] then "" else EncodeByte(bs[0]) + PercentEncode(bs[1..])
  }

  /** Percent-decoding; None when the text is not a well-formed encoded path. */
  function PercentDecode(t: string): Option<seq<Byte>>
  {
    if t == [] then Some([])
    else if t[0] == '%' then
      if |t| >= 3 && IsHexDigit(t[1]) && IsHexDigit(t[2]) then
        match PercentDecode(t[3..])
        case None => None
        case Some(rest) => Some([HexValue(t[1]) * 16 + HexValue(t[2])] + rest)
      else None
    else if IsPathAllowed(t[0]) then
      match PercentDecode(t[1..])
      case None => None
      case Some(rest) => Some([t[0] as int] + rest)
    else None
  }

  /** Decoding one encoded byte followed by an encoded remainder. */
  lemma DecodeByteThen(b: Byte, rest: string)
    ensures PercentDecode(EncodeByte(b) + rest) ==
              match PercentDecode(rest)
              case None => None
              case Some(r) => Some([b] + r)
  {
    var t := EncodeByte(b) + rest;
    if IsPathAllowed(ByteChar(b)) {
      assert t[0] == ByteChar(b) && t[1..] == rest;
      assert t[0] != '%';
      assert t[0] as int == b;
    } else {
      var hi, lo := b / 16, b % 16;
      HexRoundTrip(hi);
      HexRoundTrip(lo);
      assert t[0] == '%' && t[1] == HexDigit(hi) && t[2] == HexDigit(lo) && t[3..] == rest;
      assert HexValue(t[1]) * 16 + HexValue(t[2]) == b;
    }
  }

  /** Percent-decoding inverts percent-encoding. */
  lemma {:induction false} PercentRoundTrip(bs: seq<Byte>)
    ensures PercentDecode(PercentEncode(bs)) == Some(bs)
    decreases |bs|
  {
    if bs != [] {
      PercentRoundTrip(bs[1..]);
      DecodeByteThen(bs[0], PercentEncode(bs[1..]));
      assert [bs[0]] + bs[1..] == bs;
    }
  }

  /** A continuation byte `10xxxxxx` carrying the low six bits of `x`. */
  function Continuation(x: nat): (r: Byte)
    ensures 0x80 <= r < 0xC0
  {
    0x80 + x % 64
  }

  /**
   * The UTF-8 encoding of one Unicode scalar value (section 3 of RFC 3629):
   * one to four bytes, the first marking the length, the others `10xxxxxx`.
   */
  function Utf8Char(c: char): (r: seq<Byte>)
    ensures 1 <= |r| <= 4
    ensures |r| == 1 <==> c as int < 0x80
    ensures |r| == 1 ==> r[0] == c as int
    ensures |r| > 1 ==> r[0] >= 0xC0 && forall i :: 1 <= i < |r| ==> 0x80 <= r[i] < 0xC0
  {
    var cp := c as int;
    var q1 := cp / 64;
    var q2 := q1 / 64;
    var q3 := q2 / 64;
    if cp < 0x80 then [cp]
    else if cp < 0x800 then [0xC0 + q1, Continuation(cp)]
    else if cp < 0x10000 then [0xE0 + q2, Continuation(q1), Continuation(cp)]
    else [0xF0 + q3, Continuation(q2), Continuation(q1), Continuation(cp)]
  }

  /** String.getBytes(UTF_8). */
  function Utf8(s: string): (r: seq<Byte>)
    ensures |s| <= |r| <= 4 * |s|
  {
    if s == [] then [] else Utf8Char(s[0]) + Utf8(s[1..])
  }

  predicate IsContinuation(b: Byte) { 0x80 <= b < 0xC0 }

  /** The Unicode scalar values: code points other than the surrogates. */
  predicate IsScalar(cp: int) { 0 <= cp < 0xD800 || 0xE000 <= cp < 0x11_0000 }

  /** The bits of `b` below its marker bits. */
  function Payload(b: Byte, marker: int): int { b as int - marker }

  /**
   * The scalar value UTF-8 encodes at the front of `bs` and the number of
   * bytes it takes; None for a malformed, overlong or truncated sequence.
   */
  function DecodeScalar(bs: seq<Byte>): (r: Option<(char, nat)>)
    ensures r.Some? ==> 1 <= r.value.1 <= |bs|
  {
    if |bs| == 0 then None
    else if bs[0] < 0x80 then Some((bs[0] as char, 1))
    else if bs[0] < 0xC2 then None
    else if bs[0] < 0xE0 then
      if |bs| >= 2 && IsContinuation(bs[1]) then
        Some(((Payload(bs[0], 0xC0) * 64 + Payload(bs[1], 0x80)) as char, 2))
      else None
    else if bs[0] < 0xF0 then
      if |bs| >= 3 && IsContinuation(bs[1]) && IsContinuation(bs[2]) then
        var cp := (Payload(bs[0], 0xE0) * 64 + Payload(bs[1], 0x80)) * 64 + Payload(bs[2], 0x80);
        if cp >= 0x800 && IsScalar(cp) then Some((cp as char, 3)) else None
      else None
    else if bs[0] < 0xF5 then
      if |bs| >= 4 && IsContinuation(bs[1]) && IsContinuation(bs[2]) && IsContinuation(bs[3]) then
        var cp := ((Payload(bs[0], 0xF0) * 64 + Payload(bs[1], 0x80)) * 64 + Payload(bs[2], 0x80)) * 64
                  + Payload(bs[3], 0x80);
        if 0x10000 <= cp && IsScalar(cp) then Some((cp as char, 4)) else None
      else None
    else None
  }

  /** UTF-8 decoding of a whole byte string; None when it is not well-formed. */
  function Utf8Decode(bs: seq<Byte>): Option<string>
    decreases |bs|
  {
    if bs == [] then Some([])
    else
      match DecodeScalar(bs)
      case None => None
      case Some((c, n)) =>
        match Utf8Decode(bs[n..])
        case None => None
        case Some(rest) => Some([c] + rest)
  }

  /** Decoding the front of a byte string recovers the scalar value encoded there. */
  lemma DecodeScalarInverts(c: char, rest: seq<Byte>)
    ensures DecodeScalar(Utf8Char(c) + rest) == Some((c, |Utf8Char(c)|))
  {
    var cp := c as int;
    var q1 := cp / 64;
    var q2 := q1 / 64;
    var q3 := q2 / 64;
    var t := Utf8Char(c) + rest;
    assert q1 * 64 + cp % 64 == cp;
    assert q2 * 64 + q1 % 64 == q1;
    assert q3 * 64 + q2 % 64 == q2;
    if cp < 0x80 {
    } else if cp < 0x800 {
      assert t[0] == 0xC0 + q1 && t[1] == 0x80 + cp % 64;
    } else if cp < 0x10000 {
      assert t[0] == 0xE0 + q2 && t[1] == 0x80 + q1 % 64 && t[2] == 0x80 + cp % 64;
    } else {
      assert t[0] == 0xF0 + q3 && t[1] == 0x80 + q2 % 64 && t[2] == 0x80 + q1 % 64 && t[3] == 0x80 + cp % 64;
    }
  }

  /** UTF-8 decoding inverts UTF-8 encoding. */
  lemma {:induction false} Utf8RoundTrip(s: string)
    ensures Utf8Decode(Utf8(s)) == Some(s)
    decreases |s|
  {
    if s != [] {
      var head := Utf8Char(s[0]);
      var bs := Utf8(s);
      assert bs == head + Utf8(s[1..]);
      DecodeScalarInverts(s[0], Utf8(s[1..]));
      assert bs[|head|..] == Utf8(s[1..]);
      Utf8RoundTrip(s[1..]);
      assert [s[0]] + s[1..] == s;
    }
  }

  /** Decoding of an encoded path: percent-decoding, then UTF-8 decoding. */
  function DecodePath(t: string): Option<string>
  {
    match PercentDecode(t)
    case None => None
    case Some(bs) => Utf8Decode(bs)
  }

  /** UriUtils.encodePath(s, UTF_8). */
  function EncodePath(s: string): (r: string)
    ensures PercentDecode(r) == Some(Utf8(s))
    ensures DecodePath(r) == Some(s)
    ensures forall i :: 0 <= i < |r| ==> IsPathAllowed(r[i]) || r[i] == '%'
  {
    PercentRoundTrip(Utf8(s));
    Utf8RoundTrip(s);
    PercentEncode(Utf8(s))
  }

  /** A path made only of allowed characters is returned unchanged. */
  lemma {:induction false} EncodePathKeepsAllowed(s: string)
    requires forall i :: 0 <= i < |s| ==> IsPathAllowed(s[i])
    ensures EncodePath(s) == s
    decreases |s|
  {
    if s != [] {
      EncodePathKeepsAllowed(s[1..]);
      assert Utf8Char(s[0]) == [s[0] as int];
      assert ByteChar(s[0] as int) == s[0];
      assert [s[0]] + s[1..] == s;
    }
  }

  /** Each disallowed byte takes two more characters than it had. */
  lemma {:induction false} PercentEncodeGrows(bs: seq<Byte>, j: nat)
    requires j < |bs| && !IsPathAllowed(ByteChar(bs[j]))
    ensures |PercentEncode(bs)| >= |bs| + 2
    decreases |bs|
  {
    if j > 0 {
      PercentEncodeGrows(bs[1..], j - 1);
    }
  }

  /** A disallowed character leaves a disallowed byte in the UTF-8 encoding. */
  lemma {:induction false} Utf8KeepsDisallowed(s: string, i: nat) returns (j: nat)
    requires i < |s| && !IsPathAllowed(s[i])
    ensures j < |Utf8(s)| && !IsPathAllowed(ByteChar(Utf8(s)[j]))
    decreases |s|
  {
    var head := Utf8Char(s[0]);
    assert Utf8(s) == head + Utf8(s[1..]);
    if i == 0 {
      j := 0;
      assert ByteChar(head[0]) as int == head[0];
    } else {
      var k := Utf8KeepsDisallowed(s[1..], i - 1);
      j := |head| + k;
      assert Utf8(s)[j] == Utf8(s[1..])[k];
    }
  }

  /** A character outside the allowed set, '%' included, forces an encoding different from the input. */
  lemma EncodePathChangesDisallowed(s: string, i: nat)
    requires i < |s| && !IsPathAllowed(s[i])
    ensures EncodePath(s) != s
  {
    var j := Utf8KeepsDisallowed(s, i);
    PercentEncodeGrows(Utf8(s), j);
  }
}
