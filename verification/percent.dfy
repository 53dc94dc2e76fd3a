/** `urllib.parse.quote(s)` as the upload script calls it (app.py:109): percent-encoding
    in the sense of section 2.1 of RFC 3986. Python leaves the unreserved characters of
    section 2.3 (letters, digits, `-`, `.`, `_`, `~`) and its default safe character `/`
    as they are; every other character is encoded as UTF-8 and each byte written as `%`
    and two upper-case hexadecimal digits. */
module Percent {
  import opened Strings

  type Byte = b: int | 0 <= b < 256

  /** Section 2.3 of RFC 3986: ALPHA / DIGIT / "-" / "." / "_" / "~". */
  predicate IsUnreserved(c: char) {
    || 'A' <= c <= 'Z'
    || 'a' <= c <= 'z'
    || '0' <= c <= '9'
    || c == '-' || c == '.' || c == '_' || c == '~'
  }

  /** Characters `quote` copies unchanged: the unreserved ones and its default `safe='/'`. */
  predicate IsQuoteSafe(c: char) {
    IsUnreserved(c) || c == '/'
  }

  /** The UTF-8 encoding of one Unicode scalar value (RFC 3629). */
  function Utf8(c: char): (bs: seq<Byte>)
    ensures 1 <= |bs| <= 4
    ensures IsAsciiChar(c) <==> |bs| == 1
    ensures IsAsciiChar(c) ==> bs == [c as int]
  {
    var n := c as int;
    if n < 0x80 then [n]
    else if n < 0x800 then [0xC0 + n / 64, 0x80 + n % 64]
    else if n < 0x10000 then [0xE0 + n / 4096, 0x80 + (n / 64) % 64, 0x80 + n % 64]
    else [0xF0 + n / 262144, 0x80 + (n / 4096) % 64, 0x80 + (n / 64) % 64, 0x80 + n % 64]
  }

  /** The code point a one-to-four-byte UTF-8 sequence stands for, read by its length. */
  function Utf8Decode(bs: seq<Byte>): int
    requires 1 <= |bs| <= 4
  {
    var b0: int := bs[0];
    if |bs| == 1 then b0
    else
      var b1: int := bs[1];
      if |bs| == 2 then (b0 - 0xC0) * 64 + (b1 - 0x80)
      else
        var b2: int := bs[2];
        if |bs| == 3 then (b0 - 0xE0) * 4096 + (b1 - 0x80) * 64 + (b2 - 0x80)
        else
          var b3: int := bs[3];
          (b0 - 0xF0) * 262144 + (b1 - 0x80) * 4096 + (b2 - 0x80) * 64 + (b3 - 0x80)
  }

  /** Decoding undoes the encoding of every character. */
  lemma Utf8RoundTrip(c: char)
    ensures Utf8Decode(Utf8(c)) == c as int
  {
    var n := c as int;
    if 0x80 <= n < 0x800 {
      assert (n / 64) * 64 + n % 64 == n;
    } else if 0x800 <= n < 0x10000 {
      var q := n / 64;
      assert q * 64 + n % 64 == n;
      assert (q / 64) * 64 + q % 64 == q;
      assert n / 4096 == q / 64;
    } else if 0x10000 <= n {
      var q := n / 64;
      var q2 := q / 64;
      assert q * 64 + n % 64 == n;
      assert q2 * 64 + q % 64 == q;
      assert (q2 / 64) * 64 + q2 % 64 == q2;
      assert n / 4096 == q2;
      assert n / 262144 == q2 / 64;
    }
  }

  /** The UTF-8 encoding of a string: its characters' encodings, in order. */
  function Utf8Encode(s: string): seq<Byte> {
    if |s| == 0 then [] else Utf8(s[0]) + Utf8Encode(s[1..])
  }

  const HexDigits := "0123456789ABCDEF"

  predicate IsHexDigit(c: char) {
    '0' <= c <= '9' || 'A' <= c <= 'F' || 'a' <= c <= 'f'
  }

  function HexValue(c: char): (v: nat)
    requires IsHexDigit(c)
    ensures v < 16
  {
    if '0' <= c <= '9' then c as int - '0' as int
    else if 'A' <= c <= 'F' then c as int - 'A' as int + 10
    else c as int - 'a' as int + 10
  }

  /** The upper-case digit for `v` is a hexadecimal digit that reads back as `v`. */
  lemma HexDigitReadsBack(v: nat)
    requires v < 16
    ensures IsUnreserved(HexDigits[v]) && IsHexDigit(HexDigits[v])
    ensures HexValue(HexDigits[v]) == v
  {
    if v < 10 {
      assert HexDigits[v] as int == '0' as int + v;
    } else {
      assert HexDigits[v] as int == 'A' as int + v - 10;
    }
  }

  /** `%XX` for one byte, upper-case hexadecimal. */
  function PercentByte(b: Byte): (r: string)
    ensures |r| == 3 && r[0] == '%'
    ensures IsUnreserved(r[1]) && IsHexDigit(r[1]) && IsUnreserved(r[2]) && IsHexDigit(r[2])
    ensures HexValue(r[1]) * 16 + HexValue(r[2]) == b
  {
    HexDigitReadsBack(b / 16);
    HexDigitReadsBack(b % 16);
    ['%', HexDigits[b / 16], HexDigits[b % 16]]
  }

  function PercentBytes(bs: seq<Byte>): (r: string)
    ensures |r| == 3 * |bs|
    ensures forall i :: 0 <= i < |r| ==> IsUnreserved(r[i]) || r[i] == '%'
  {
    if |bs| == 0 then "" else PercentByte(bs[0]) + PercentBytes(bs[1..])
  }

  function QuoteChar(c: char): string {
    if IsQuoteSafe(c) then [c] else PercentBytes(Utf8(c))
  }

  /** `quote(s)` with the default `safe='/'`. */
  function Quote(s: string): (r: string)
    ensures |r| >= |s|
    ensures forall i :: 0 <= i < |r| ==> IsQuoteSafe(r[i]) || r[i] == '%'
  {
    if |s| == 0 then "" else QuoteChar(s[0]) + Quote(s[1..])
  }

  /** `urllib.parse.unquote_to_bytes(s)`: the string as UTF-8, with every `%` followed
      by two hexadecimal digits (either case) replaced by the byte they spell. */
  function UnquoteToBytes(s: string): seq<Byte> {
    if |s| == 0 then []
    else if s[0] == '%' && |s| >= 3 && IsHexDigit(s[1]) && IsHexDigit(s[2]) then
      [HexValue(s[1]) * 16 + HexValue(s[2])] + UnquoteToBytes(s[3..])
    else Utf8(s[0]) + UnquoteToBytes(s[1..])
  }

  /** Every character `quote` leaves alone is copied, so a safe string is unchanged; and
      any other character grows into at least three, so a string `quote` does not change
      holds only safe characters. */
  lemma {:induction false} QuoteIdentity(s: string)
    ensures Quote(s) == s <==> forall i :: 0 <= i < |s| ==> IsQuoteSafe(s[i])
  {
    if |s| > 0 {
      QuoteIdentity(s[1..]);
      if IsQuoteSafe(s[0]) {
        assert Quote(s) == [s[0]] + Quote(s[1..]);
        assert s == [s[0]] + s[1..];
        assert (forall i :: 0 <= i < |s| ==> IsQuoteSafe(s[i]))
           <==> (forall i :: 0 <= i < |s[1..]| ==> IsQuoteSafe(s[1..][i]));
      } else {
        assert |QuoteChar(s[0])| >= 3;
        assert |Quote(s)| > |s|;
      }
    }
  }

  lemma UnquotePercentByte(b: Byte, rest: string)
    ensures UnquoteToBytes(PercentByte(b) + rest) == [b] + UnquoteToBytes(rest)
  {
    var p := PercentByte(b);
    var s := p + rest;
    assert s[0] == '%' && s[1] == p[1] && s[2] == p[2];
    assert s[3..] == rest;
  }

  lemma {:induction false} UnquotePercentBytes(bs: seq<Byte>, rest: string)
    ensures UnquoteToBytes(PercentBytes(bs) + rest) == bs + UnquoteToBytes(rest)
  {
    if |bs| > 0 {
      var tail := PercentBytes(bs[1..]) + rest;
      assert PercentBytes(bs) + rest == PercentByte(bs[0]) + tail;
      UnquotePercentByte(bs[0], tail);
      UnquotePercentBytes(bs[1..], rest);
      assert bs == [bs[0]] + bs[1..];
    } else {
      assert PercentBytes(bs) + rest == rest;
    }
  }

  /** Unquoting undoes quoting: the bytes spelled by `quote(s)` are the UTF-8 encoding
      of `s`. */
  lemma {:induction false} UnquoteQuote(s: string)
    ensures UnquoteToBytes(Quote(s)) == Utf8Encode(s)
  {
    if |s| > 0 {
      UnquoteQuote(s[1..]);
      var c := s[0];
      if IsQuoteSafe(c) {
        var q := [c] + Quote(s[1..]);
        assert q[1..] == Quote(s[1..]);
        assert c != '%';
      } else {
        UnquotePercentBytes(Utf8(c), Quote(s[1..]));
      }
    }
  }
}
