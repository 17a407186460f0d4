/**
  `encodeURIComponent` of ECMA-262 (section 19.2.6, "URI Handling
  Functions") over strings of Unicode scalar values, and the decoding that
  undoes it: percent-escapes to bytes, then UTF-8 to characters.
*/
module UriComponent {
  import opened Wrappers

  type Byte = b: int | 0 <= b < 256

  predicate IsAsciiAlpha(c: char) {
    'a' <= c <= 'z' || 'A' <= c <= 'Z'
  }

  predicate IsDecimalDigit(c: char) {
    '0' <= c <= '9'
  }

  /** The uriMark characters `- _ . ! ~ * ' ( )`. */
  predicate IsUriMark(c: char) {
    c == '-' || c == '_' || c == '.' || c == '!' || c == '~' || c == '*' || c == '\'' || c == '(' || c == ')'
  }

  /** The characters `encodeURIComponent` leaves as they are. */
  predicate IsUnescaped(c: char) {
    IsAsciiAlpha(c) || IsDecimalDigit(c) || IsUriMark(c)
  }

  predicate AllUnescaped(s: string) {
    forall i :: 0 <= i < |s| ==> IsUnescaped(s[i])
  }

  predicate IsUpperHexDigit(c: char) {
    '0' <= c <= '9' || 'A' <= c <= 'F'
  }

  /**
    The shape of `encodeURIComponent` output: every character is unescaped
    or a `%` that starts a triple with two uppercase hexadecimal digits.
  */
  predicate IsEncoded(r: string) {
    forall i :: 0 <= i < |r| ==> IsEncodedAt(r, i)
  }

  /** Position `i` holds an unescaped character or the `%` of a `%XX` triple. */
  predicate IsEncodedAt(r: string, i: nat)
    requires i < |r|
  {
    IsUnescaped(r[i]) || (r[i] == '%' && i + 2 < |r| && IsUpperHexDigit(r[i + 1]) && IsUpperHexDigit(r[i + 2]))
  }

  /** The UTF-8 bytes of a scalar value, six bits per continuation byte. */
  function Utf8(c: char): (bs: seq<Byte>)
    ensures 1 <= |bs| <= 4
    ensures |bs| == 1 <==> c as int < 0x80
  {
    var n := c as int;
    var n1 := n / 64;
    var n2 := n1 / 64;
    var n3 := n2 / 64;
    if n < 0x80 then [n]
    else if n < 0x800 then [0xC0 + n1, 0x80 + n % 64]
    else if n < 0x10000 then [0xE0 + n2, 0x80 + n1 % 64, 0x80 + n % 64]
    else [0xF0 + n3, 0x80 + n2 % 64, 0x80 + n1 % 64, 0x80 + n % 64]
  }

  /** The UTF-8 bytes of a string, character after character. */
  function Utf8String(s: string): seq<Byte> {
    if s == [] then [] else Utf8(s[0]) + Utf8String(s[1..])
  }

  /** The uppercase hexadecimal digit of `n`. */
  function HexDigit(n: int): (c: char)
    requires 0 <= n < 16
    ensures IsUpperHexDigit(c)
  {
    if n < 10 then (48 + n) as char else (55 + n) as char
  }

  /** `%XX` for every byte, `XX` in uppercase hexadecimal. */
  function PercentEscape(bs: seq<Byte>): (r: string)
    ensures |r| == 3 * |bs|
  {
    if bs == [] then "" else ['%', HexDigit(bs[0] / 16), HexDigit(bs[0] % 16)] + PercentEscape(bs[1..])
  }

  /** What one character becomes: itself when unescaped, its UTF-8 bytes as `%XX` otherwise. */
  function EncodeChar(c: char): string {
    if IsUnescaped(c) then [c] else PercentEscape(Utf8(c))
  }

  /** `encodeURIComponent(s)`. */
  function EncodeURIComponent(s: string): (r: string)
    ensures IsEncoded(r)
  {
    if s == [] then ""
    else
      var head := EncodeChar(s[0]);
      var tail := EncodeURIComponent(s[1..]);
      EncodeCharIsEncoded(s[0]);
      EncodedConcat(head, tail);
      head + tail
  }

  lemma EncodedConcat(a: string, b: string)
    requires IsEncoded(a) && IsEncoded(b)
    ensures IsEncoded(a + b)
  {
    var r := a + b;
    forall i | 0 <= i < |r|
      ensures IsEncodedAt(r, i)
    {
      if i < |a| {
        assert r[i] == a[i];
        assert IsEncodedAt(a, i);
        if !IsUnescaped(a[i]) {
          assert r[i + 1] == a[i + 1] && r[i + 2] == a[i + 2];
        }
      } else {
        assert r[i] == b[i - |a|];
        var j := i - |a|;
        assert IsEncodedAt(b, j);
        if !IsUnescaped(b[i - |a|]) {
          assert r[i + 1] == b[i + 1 - |a|] && r[i + 2] == b[i + 2 - |a|];
        }
      }
    }
  }

  lemma {:induction false} PercentEscapeIsEncoded(bs: seq<Byte>)
    ensures IsEncoded(PercentEscape(bs))
  {
    if bs != [] {
      PercentEscapeIsEncoded(bs[1..]);
      var triple := ['%', HexDigit(bs[0] / 16), HexDigit(bs[0] % 16)];
      assert IsEncodedAt(triple, 0) && IsEncodedAt(triple, 1) && IsEncodedAt(triple, 2);
      assert IsEncoded(triple);
      EncodedConcat(triple, PercentEscape(bs[1..]));
    }
  }

  lemma EncodeCharIsEncoded(c: char)
    ensures IsEncoded(EncodeChar(c))
  {
    if !IsUnescaped(c) {
      PercentEscapeIsEncoded(Utf8(c));
    }
  }

  /** A string of unescaped characters is its own encoding: no `%` is added. */
  lemma {:induction false} EncodeUnescapedIsIdentity(s: string)
    requires AllUnescaped(s)
    ensures EncodeURIComponent(s) == s
  {
    if s != [] {
      EncodeUnescapedIsIdentity(s[1..]);
      assert s == [s[0]] + s[1..];
    }
  }

  /** Encoding never shortens, and lengthens exactly when some character is escaped. */
  lemma {:induction false} EncodeLength(s: string)
    ensures |EncodeURIComponent(s)| >= |s|
    ensures |EncodeURIComponent(s)| == |s| <==> AllUnescaped(s)
  {
    if s != [] {
      EncodeLength(s[1..]);
      assert AllUnescaped(s) <==> IsUnescaped(s[0]) && AllUnescaped(s[1..]) by {
        if IsUnescaped(s[0]) && AllUnescaped(s[1..]) {
          forall i | 0 <= i < |s| ensures IsUnescaped(s[i]) {
            if i > 0 { assert s[i] == s[1..][i - 1]; }
          }
        }
      }
    }
  }

  /** The encoding gives back its input exactly when no character of it needs escaping. */
  lemma EncodeIsIdentityIff(s: string)
    ensures EncodeURIComponent(s) == s <==> AllUnescaped(s)
  {
    EncodeLength(s);
    if AllUnescaped(s) {
      EncodeUnescapedIsIdentity(s);
    }
  }

  /** The value of a hexadecimal digit in either case, as percent-decoding accepts it. */
  function HexValue(c: char): (r: Option<int>)
    ensures r.Some? ==> 0 <= r.value < 16
  {
    if '0' <= c <= '9' then Some(c as int - 48)
    else if 'A' <= c <= 'F' then Some(c as int - 55)
    else if 'a' <= c <= 'f' then Some(c as int - 87)
    else None
  }

  /** The bytes a percent-encoded string stands for: `%XX` is one byte, any other character its UTF-8 bytes. */
  function PercentDecodeBytes(r: string): Option<seq<Byte>> {
    if r == [] then Some([])
    else if r[0] == '%' then
      if |r| >= 3 && HexValue(r[1]).Some? && HexValue(r[2]).Some? then
        match PercentDecodeBytes(r[3..])
        case None => None
        case Some(t) => Some([HexValue(r[1]).value * 16 + HexValue(r[2]).value] + t)
      else None
    else
      match PercentDecodeBytes(r[1..])
      case None => None
      case Some(t) => Some(Utf8(r[0]) + t)
  }

  predicate IsContinuation(b: Byte) {
    0x80 <= b < 0xC0
  }

  /**
    The scalar value UTF-8 encodes at the front of `bs` and how many bytes
    it takes; None for a stray continuation byte, a truncated sequence, an
    overlong form, a surrogate or a value above U+10FFFF.
  */
  function DecodeFirst(bs: seq<Byte>): (r: Option<(char, nat)>)
    ensures r.Some? ==> 1 <= r.value.1 <= |bs|
  {
    if |bs| == 0 then None
    else
      var b0: int := bs[0];
      if b0 < 0x80 then Some((b0 as char, 1))
      else if b0 < 0xC0 then None
      else if b0 < 0xE0 then
        if |bs| < 2 || !IsContinuation(bs[1]) then None
        else
          var n := (b0 - 0xC0) * 64 + (bs[1] as int - 0x80);
          if n < 0x80 then None else Some((n as char, 2))
      else if b0 < 0xF0 then
        if |bs| < 3 || !IsContinuation(bs[1]) || !IsContinuation(bs[2]) then None
        else
          var n := ((b0 - 0xE0) * 64 + (bs[1] as int - 0x80)) * 64 + (bs[2] as int - 0x80);
          if n < 0x800 || 0xD800 <= n < 0xE000 then None else Some((n as char, 3))
      else if b0 < 0xF8 then
        if |bs| < 4 || !IsContinuation(bs[1]) || !IsContinuation(bs[2]) || !IsContinuation(bs[3]) then None
        else
          var n := (((b0 - 0xF0) * 64 + (bs[1] as int - 0x80)) * 64 + (bs[2] as int - 0x80)) * 64 + (bs[3] as int - 0x80);
          if n < 0x10000 || n >= 0x110000 then None else Some((n as char, 4))
      else None
  }

  /** The characters a UTF-8 byte sequence encodes, or None when it is not valid UTF-8. */
  function Utf8Decode(bs: seq<Byte>): Option<string>
    decreases |bs|
  {
    if bs == [] then Some("")
    else
      match DecodeFirst(bs)
      case None => None
      case Some(ck) =>
        match Utf8Decode(bs[ck.1..])
        case None => None
        case Some(t) => Some([ck.0] + t)
  }

  /** Percent-decoding followed by UTF-8 decoding, as `decodeURIComponent` reads a string. */
  function PercentDecode(r: string): Option<string> {
    match PercentDecodeBytes(r)
    case None => None
    case Some(bs) => Utf8Decode(bs)
  }

  /** Every scalar value's UTF-8 bytes decode back to it. */
  lemma DecodeFirstUtf8(c: char, rest: seq<Byte>)
    ensures DecodeFirst(Utf8(c) + rest) == Some((c, |Utf8(c)|))
  {
    var bs := Utf8(c) + rest;
    var n := c as int;
    if n < 0x80 {
    } else if n < 0x800 {
      assert bs[0] == 0xC0 + n / 64 && bs[1] == 0x80 + n % 64;
    } else if n < 0x10000 {
      assert bs[0] == 0xE0 + n / 64 / 64 && bs[1] == 0x80 + n / 64 % 64 && bs[2] == 0x80 + n % 64;
    } else {
      assert bs[0] == 0xF0 + n / 64 / 64 / 64 && bs[1] == 0x80 + n / 64 / 64 % 64;
      assert bs[2] == 0x80 + n / 64 % 64 && bs[3] == 0x80 + n % 64;
    }
  }

  /** UTF-8 decoding undoes UTF-8 encoding. */
  lemma {:induction false} Utf8RoundTrip(s: string)
    ensures Utf8Decode(Utf8String(s)) == Some(s)
  {
    if s != [] {
      var bs := Utf8String(s);
      DecodeFirstUtf8(s[0], Utf8String(s[1..]));
      assert bs[|Utf8(s[0])|..] == Utf8String(s[1..]);
      Utf8RoundTrip(s[1..]);
      assert s == [s[0]] + s[1..];
    }
  }

  lemma HexValueOfDigit(n: int)
    requires 0 <= n < 16
    ensures HexValue(HexDigit(n)) == Some(n)
  {
  }

  lemma {:induction false} DecodeEscape(bs: seq<Byte>, rest: string, t: seq<Byte>)
    requires PercentDecodeBytes(rest) == Some(t)
    ensures PercentDecodeBytes(PercentEscape(bs) + rest) == Some(bs + t)
  {
    if bs != [] {
      DecodeEscape(bs[1..], rest, t);
      var r := PercentEscape(bs) + rest;
      HexValueOfDigit(bs[0] / 16);
      HexValueOfDigit(bs[0] % 16);
      assert r[1] == HexDigit(bs[0] / 16) && r[2] == HexDigit(bs[0] % 16);
      assert r[0] == '%';
      assert r[3..] == PercentEscape(bs[1..]) + rest;
      assert bs[0] / 16 * 16 + bs[0] % 16 == bs[0];
      assert HexValue(r[1]).value * 16 + HexValue(r[2]).value == bs[0];
      assert PercentDecodeBytes(r[3..]) == Some(bs[1..] + t);
      var tail: seq<Byte> := bs[1..] + t;
      assert bs + t == [bs[0]] + tail;
      assert PercentDecodeBytes(r) == Some([bs[0]] + tail);
    } else {
      assert PercentEscape(bs) + rest == rest && bs + t == t;
    }
  }

  lemma DecodeEncodedChar(c: char, rest: string, t: seq<Byte>)
    requires PercentDecodeBytes(rest) == Some(t)
    ensures PercentDecodeBytes(EncodeChar(c) + rest) == Some(Utf8(c) + t)
  {
    if IsUnescaped(c) {
      assert ([c] + rest)[1..] == rest;
    } else {
      DecodeEscape(Utf8(c), rest, t);
    }
  }

  /** Percent-decoding the encoding of a string gives the string's UTF-8 bytes. */
  lemma {:induction false} PercentDecodeOfEncoding(s: string)
    ensures PercentDecodeBytes(EncodeURIComponent(s)) == Some(Utf8String(s))
  {
    if s != [] {
      PercentDecodeOfEncoding(s[1..]);
      DecodeEncodedChar(s[0], EncodeURIComponent(s[1..]), Utf8String(s[1..]));
    }
  }

  /** Decoding the output of `encodeURIComponent` gives back its input. */
  lemma DecodeEncode(s: string)
    ensures PercentDecode(EncodeURIComponent(s)) == Some(s)
  {
    PercentDecodeOfEncoding(s);
    Utf8RoundTrip(s);
  }
}
