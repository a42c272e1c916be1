/** Percent-encoding (section 2.1 of RFC 3986) as the service meets it:
    WebUtility.UrlDecode on the incoming file name, and Uri.EscapeDataString
    followed by `.Replace("%2F", "/")` on the S3 key of the returned URL. */
module Percent {
  import opened Strings

  /** The value of a hexadecimal digit (either case), or -1. */
  function HexValue(c: char): int
  {
    if '0' <= c <= '9' then c as int - '0' as int
    else if 'A' <= c <= 'F' then c as int - 'A' as int + 10
    else if 'a' <= c <= 'f' then c as int - 'a' as int + 10
    else -1
  }

  /** The upper-case hexadecimal digit Uri.EscapeDataString writes. */
  function HexDigit(n: int): (c: char)
    requires 0 <= n < 16
    ensures HexValue(c) == n
    ensures c != '%' && c != '+' && c != '/'
  {
    if n < 10 then ('0' as int + n) as char else ('A' as int + n - 10) as char
  }

  /** The unreserved characters of section 2.3 of RFC 3986. */
  predicate Unreserved(c: char)
  {
    'A' <= c <= 'Z' || 'a' <= c <= 'z' || '0' <= c <= '9' || c == '-' || c == '.' || c == '_' || c == '~'
  }

  /** The scalar value a one-to-four byte UTF-8 sequence encodes. */
  function Utf8Scalar(bs: seq<byte>): int
    requires 1 <= |bs| <= 4
  {
    var b: seq<int> := bs;
    if |b| == 1 then b[0]
    else if |b| == 2 then (b[0] - 0xC0) * 64 + (b[1] - 0x80)
    else if |b| == 3 then (b[0] - 0xE0) * 4096 + (b[1] - 0x80) * 64 + (b[2] - 0x80)
    else (b[0] - 0xF0) * 262144 + (b[1] - 0x80) * 4096 + (b[2] - 0x80) * 64 + (b[3] - 0x80)
  }

  /** The UTF-8 encoding of one character (Utf8RoundTrip below decodes it back). */
  function Utf8(c: char): (bs: seq<byte>)
    ensures 1 <= |bs| <= 4
    ensures |bs| == 1 <==> c as int < 0x80
    ensures |bs| == 1 ==> bs[0] == c as int
    ensures |bs| > 1 ==> forall i :: 0 <= i < |bs| ==> bs[i] >= 0x80
  {
    var n := c as int;
    if n < 0x80 then [n]
    else if n < 0x800 then [0xC0 + n / 64, 0x80 + n % 64]
    else if n < 0x10000 then [0xE0 + n / 4096, 0x80 + (n / 64) % 64, 0x80 + n % 64]
    else [0xF0 + n / 262144, 0x80 + (n / 4096) % 64, 0x80 + (n / 64) % 64, 0x80 + n % 64]
  }

  /** Decoding the UTF-8 bytes of a character gives back its scalar value. */
  lemma Utf8RoundTrip(c: char)
    ensures Utf8Scalar(Utf8(c)) == c as int
  {
    var n := c as int;
    var q1, r1 := n / 64, n % 64;
    assert n == 64 * q1 + r1;
    var q2, r2 := q1 / 64, q1 % 64;
    assert q1 == 64 * q2 + r2;
    var q3, r3 := q2 / 64, q2 % 64;
    assert q2 == 64 * q3 + r3;
    assert n / 4096 == q2;
    assert n / 262144 == q3;
    assert (n / 64) % 64 == r2;
    assert (n / 4096) % 64 == r3;
  }

  function Utf8Bytes(s: string): seq<byte>
  {
    if s == [] then [] else Utf8(s[0]) + Utf8Bytes(s[1..])
  }

  /** Each byte as the character with that code (how the model reads a decoded byte). */
  function BytesAsChars(bs: seq<byte>): string
  {
    seq(|bs|, i requires 0 <= i < |bs| => bs[i] as char)
  }

  /** "%XY" per byte, upper-case hex. */
  function PercentEncode(bs: seq<byte>): string
  {
    if bs == [] then [] else ['%', HexDigit(bs[0] / 16), HexDigit(bs[0] % 16)] + PercentEncode(bs[1..])
  }

  function EscapeChar(c: char): string
  {
    if Unreserved(c) then [c] else PercentEncode(Utf8(c))
  }

  /** Uri.EscapeDataString: every character outside the unreserved set becomes
      the percent-encoding of its UTF-8 bytes. */
  function EscapeDataString(s: string): string
  {
    if s == [] then [] else EscapeChar(s[0]) + EscapeDataString(s[1..])
  }

  /** Reference definition of the key written into the returned URL: like
      EscapeDataString, but '/' stays literal. */
  function EscapeKeepSlash(s: string): string
  {
    if s == [] then []
    else (if s[0] == '/' then "/" else EscapeChar(s[0])) + EscapeKeepSlash(s[1..])
  }

  /** The decoding loop of WebUtility.UrlDecode: '+' is a space when
      `plusIsSpace`, "%XY" with two hex digits is the byte XY, anything else is
      copied. */
  function Unescape(s: string, plusIsSpace: bool): string
  {
    if s == [] then []
    else if s[0] == '+' && plusIsSpace then [' '] + Unescape(s[1..], plusIsSpace)
    else if s[0] == '%' && |s| >= 3 && HexValue(s[1]) >= 0 && HexValue(s[2]) >= 0 then
      [(16 * HexValue(s[1]) + HexValue(s[2])) as char] + Unescape(s[3..], plusIsSpace)
    else [s[0]] + Unescape(s[1..], plusIsSpace)
  }

  /** WebUtility.UrlDecode. */
  function UrlDecode(s: string): string
  {
    Unescape(s, true)
  }

  /** Text with nothing to decode is its own decoding: no '%', and no '+'
      when '+' means a space. */
  lemma {:induction false} UnescapeIdentity(s: string, plusIsSpace: bool)
    requires forall i :: 0 <= i < |s| ==> s[i] != '%' && (plusIsSpace ==> s[i] != '+')
    ensures Unescape(s, plusIsSpace) == s
  {
    if s != [] {
      UnescapeIdentity(s[1..], plusIsSpace);
      assert s == [s[0]] + s[1..];
    }
  }

  /** Decoding works piecewise once the left part holds no '%' or '+'. */
  lemma {:induction false} UnescapePlainPrefix(a: string, b: string, plusIsSpace: bool)
    requires forall i :: 0 <= i < |a| ==> a[i] != '%' && a[i] != '+'
    ensures Unescape(a + b, plusIsSpace) == a + Unescape(b, plusIsSpace)
  {
    if a == [] {
      assert a + b == b;
    } else {
      assert (a + b)[1..] == a[1..] + b;
      UnescapePlainPrefix(a[1..], b, plusIsSpace);
    }
  }

  // ---- EscapeDataString(key).Replace("%2F", "/") is EscapeKeepSlash(key) ----

  lemma SkipPlainChar(c: char, y: string)
    requires c != '%'
    ensures Replace([c] + y, "%2F", "/") == [c] + Replace(y, "%2F", "/")
  {
    assert ([c] + y)[1..] == y;
    if |[c] + y| >= 3 {
      assert ([c] + y)[..3][0] == c;
    }
  }

  lemma SkipEncodedByte(b: byte, y: string)
    requires b != 0x2F
    ensures Replace(PercentEncode([b]) + y, "%2F", "/") == PercentEncode([b]) + Replace(y, "%2F", "/")
  {
    var h1, h2 := HexDigit(b / 16), HexDigit(b % 16);
    assert PercentEncode([b]) == ['%', h1, h2];
    var s := ['%', h1, h2] + y;
    assert s[..3] == ['%', h1, h2];
    assert b == 16 * (b / 16) + b % 16;
    assert s[..3] != "%2F";
    assert s[1..] == [h1] + ([h2] + y);
    SkipPlainChar(h1, [h2] + y);
    SkipPlainChar(h2, y);
  }

  lemma {:induction false} SkipEncodedBytes(bs: seq<byte>, y: string)
    requires forall i :: 0 <= i < |bs| ==> bs[i] != 0x2F
    ensures Replace(PercentEncode(bs) + y, "%2F", "/") == PercentEncode(bs) + Replace(y, "%2F", "/")
  {
    if bs == [] {
      assert PercentEncode(bs) + y == y;
    } else {
      var head, tail := PercentEncode([bs[0]]), PercentEncode(bs[1..]);
      EncodedCons(bs, y);
      PercentEncodeCons(bs);
      SkipEncodedByte(bs[0], tail + y);
      SkipEncodedBytes(bs[1..], y);
      ConcatAssoc(head, tail, Replace(y, "%2F", "/"));
    }
  }

  /** Uri.EscapeDataString(key).Replace("%2F", "/") equals the reference
      EscapeKeepSlash(key): the only "%2F" in the escaped text is the escape
      of a '/', because every other escape is of a different byte and no
      other '%' is written. */
  lemma {:induction false} EscapeThenRestoreSlashes(s: string)
    ensures Replace(EscapeDataString(s), "%2F", "/") == EscapeKeepSlash(s)
  {
    if s != [] {
      var c, rest := s[0], EscapeDataString(s[1..]);
      assert EscapeDataString(s) == EscapeChar(c) + rest;
      EscapeThenRestoreSlashes(s[1..]);
      if c == '/' {
        assert EscapeChar(c) == PercentEncode([0x2F]) == "%2F";
        assert ("%2F" + rest)[..3] == "%2F";
        assert ("%2F" + rest)[3..] == rest;
      } else if Unreserved(c) {
        SkipPlainChar(c, rest);
      } else {
        var bs := Utf8(c);
        assert forall i :: 0 <= i < |bs| ==> bs[i] != 0x2F;
        SkipEncodedBytes(bs, rest);
      }
    }
  }

  /** The kept-slash escaping is a homomorphism: a key split at a '/' escapes
      segment by segment, so the key's segment structure is preserved. */
  lemma {:induction false} EscapeKeepSlashConcat(a: string, b: string)
    ensures EscapeKeepSlash(a + b) == EscapeKeepSlash(a) + EscapeKeepSlash(b)
  {
    if a == [] {
      assert a + b == b;
    } else {
      var head := if a[0] == '/' then "/" else EscapeChar(a[0]);
      assert (a + b)[0] == a[0];
      assert (a + b)[1..] == a[1..] + b;
      EscapeKeepSlashConcat(a[1..], b);
      ConcatAssoc(head, EscapeKeepSlash(a[1..]), EscapeKeepSlash(b));
    }
  }

  /** The escaped text holds a '/' exactly where the key does. */
  lemma {:induction false} EscapeKeepSlashSlashes(s: string)
    ensures '/' in EscapeKeepSlash(s) <==> '/' in s
  {
    if s != [] {
      EscapeKeepSlashSlashes(s[1..]);
      var c := s[0];
      assert EscapeKeepSlash(s) == (if c == '/' then "/" else EscapeChar(c)) + EscapeKeepSlash(s[1..]);
      if c != '/' && !Unreserved(c) {
        NoSlashInEncoding(Utf8(c));
      }
      assert s == [c] + s[1..];
    }
  }

  lemma {:induction false} NoSlashInEncoding(bs: seq<byte>)
    ensures '/' !in PercentEncode(bs)
  {
    if bs != [] {
      NoSlashInEncoding(bs[1..]);
    }
  }

  // ---- decoding undoes the escaping ----

  lemma PercentEncodeCons(bs: seq<byte>)
    requires bs != []
    ensures PercentEncode(bs) == PercentEncode([bs[0]]) + PercentEncode(bs[1..])
  {
    assert [bs[0]][1..] == [];
  }

  lemma EncodedCons(bs: seq<byte>, y: string)
    requires bs != []
    ensures PercentEncode(bs) + y == PercentEncode([bs[0]]) + (PercentEncode(bs[1..]) + y)
  {
    PercentEncodeCons(bs);
    ConcatAssoc(PercentEncode([bs[0]]), PercentEncode(bs[1..]), y);
  }

  lemma ConcatAssoc<T>(a: seq<T>, b: seq<T>, c: seq<T>)
    ensures (a + b) + c == a + (b + c)
  {
  }

  lemma BytesAsCharsCons(bs: seq<byte>)
    requires bs != []
    ensures BytesAsChars(bs) == [bs[0] as char] + BytesAsChars(bs[1..])
  {
  }

  lemma UnescapeOneByte(b: byte, z: string, plusIsSpace: bool)
    ensures Unescape(PercentEncode([b]) + z, plusIsSpace) == [b as char] + Unescape(z, plusIsSpace)
  {
    var h1, h2 := HexDigit(b / 16), HexDigit(b % 16);
    assert PercentEncode([b]) == ['%', h1, h2];
    var s := ['%', h1, h2] + z;
    assert s[0] == '%' && s[1] == h1 && s[2] == h2 && s[3..] == z;
    assert 16 * HexValue(h1) + HexValue(h2) == b;
  }

  lemma {:induction false} UnescapeEncodedBytes(bs: seq<byte>, y: string, plusIsSpace: bool)
    ensures Unescape(PercentEncode(bs) + y, plusIsSpace) == BytesAsChars(bs) + Unescape(y, plusIsSpace)
  {
    if bs == [] {
      assert PercentEncode(bs) + y == y;
    } else {
      var b, tail := bs[0], PercentEncode(bs[1..]);
      EncodedCons(bs, y);
      UnescapeOneByte(b, tail + y, plusIsSpace);
      UnescapeEncodedBytes(bs[1..], y, plusIsSpace);
      BytesAsCharsCons(bs);
      ConcatAssoc([b as char], BytesAsChars(bs[1..]), Unescape(y, plusIsSpace));
    }
  }

  /** Percent-decoding the kept-slash escaping of a key gives back the key's
      UTF-8 bytes, one character per byte, under either decoding mode. */
  lemma {:induction false} UnescapeInvertsEscape(s: string, plusIsSpace: bool)
    ensures Unescape(EscapeKeepSlash(s), plusIsSpace) == BytesAsChars(Utf8Bytes(s))
  {
    if s != [] {
      var c, rest := s[0], EscapeKeepSlash(s[1..]);
      UnescapeInvertsEscape(s[1..], plusIsSpace);
      assert BytesAsChars(Utf8(c) + Utf8Bytes(s[1..])) == BytesAsChars(Utf8(c)) + BytesAsChars(Utf8Bytes(s[1..]));
      if c == '/' || Unreserved(c) {
        assert ([c] + rest)[1..] == rest;
        assert BytesAsChars(Utf8(c)) == [c];
      } else {
        UnescapeEncodedBytes(Utf8(c), rest, plusIsSpace);
      }
    }
  }

  /** For an ASCII key, WebUtility.UrlDecode undoes the escaping exactly. */
  lemma {:induction false} UrlDecodeInvertsEscapeAscii(s: string)
    requires forall i :: 0 <= i < |s| ==> s[i] as int < 0x80
    ensures UrlDecode(EscapeKeepSlash(s)) == s
  {
    UnescapeInvertsEscape(s, true);
    AsciiBytesAsChars(s);
  }

  /** Uri.EscapeDataString works character by character. */
  lemma {:induction false} EscapeDataStringConcat(a: string, b: string)
    ensures EscapeDataString(a + b) == EscapeDataString(a) + EscapeDataString(b)
  {
    if a == [] {
      assert a + b == b;
    } else {
      assert (a + b)[0] == a[0];
      assert (a + b)[1..] == a[1..] + b;
      EscapeDataStringConcat(a[1..], b);
      calc {
        EscapeDataString(a + b);
        EscapeChar(a[0]) + EscapeDataString(a[1..] + b);
        EscapeChar(a[0]) + (EscapeDataString(a[1..]) + EscapeDataString(b));
        (EscapeChar(a[0]) + EscapeDataString(a[1..])) + EscapeDataString(b);
      }
    }
  }

  /** Percent-decoding undoes Uri.EscapeDataString as well, '/' included. */
  lemma {:induction false} UnescapeInvertsDataEscape(s: string, plusIsSpace: bool)
    ensures Unescape(EscapeDataString(s), plusIsSpace) == BytesAsChars(Utf8Bytes(s))
  {
    if s != [] {
      var c, rest := s[0], EscapeDataString(s[1..]);
      UnescapeInvertsDataEscape(s[1..], plusIsSpace);
      assert BytesAsChars(Utf8(c) + Utf8Bytes(s[1..])) == BytesAsChars(Utf8(c)) + BytesAsChars(Utf8Bytes(s[1..]));
      if Unreserved(c) {
        assert ([c] + rest)[1..] == rest;
        assert BytesAsChars(Utf8(c)) == [c];
      } else {
        UnescapeEncodedBytes(Utf8(c), rest, plusIsSpace);
      }
    }
  }

  /** A file name that is the EscapeDataString form of an ASCII text (an
      encoded URL, say) decodes back to that text. */
  lemma UrlDecodeInvertsDataEscapeAscii(s: string)
    requires forall i :: 0 <= i < |s| ==> s[i] as int < 0x80
    ensures UrlDecode(EscapeDataString(s)) == s
  {
    UnescapeInvertsDataEscape(s, true);
    AsciiBytesAsChars(s);
  }

  lemma {:induction false} AsciiBytesAsChars(s: string)
    requires forall i :: 0 <= i < |s| ==> s[i] as int < 0x80
    ensures BytesAsChars(Utf8Bytes(s)) == s
  {
    if s != [] {
      AsciiBytesAsChars(s[1..]);
      assert Utf8Bytes(s) == [s[0] as int] + Utf8Bytes(s[1..]);
    }
  }
}
