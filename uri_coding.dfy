/** The text encodings `keypairToAuth` passes its credentials through:
    UTF-8 (RFC 3629), `encodeURIComponent`, `unescape` and the one-char-per-byte
    strings that `unescape` produces. Characters are Unicode scalar values. */
module UriCoding {
  import opened Base64

  /** The UTF-8 encoding of one character. */
  function Utf8Char(c: char): (bytes: seq<byte>)
    ensures 1 <= |bytes| <= 4
    ensures (c as int < 0x80) == (|bytes| == 1)
  {
    var cp := c as int;
    if cp < 0x80 then [cp]
    else if cp < 0x800 then [0xC0 + cp / 0x40, 0x80 + cp % 0x40]
    else if cp < 0x10000 then [0xE0 + cp / 0x1000, 0x80 + (cp / 0x40) % 0x40, 0x80 + cp % 0x40]
    else [0xF0 + cp / 0x40000, 0x80 + (cp / 0x1000) % 0x40, 0x80 + (cp / 0x40) % 0x40, 0x80 + cp % 0x40]
  }

  /** The UTF-8 encoding of a string; also what `Buffer.from(s)` holds. */
  function Utf8(s: string): seq<byte>
    decreases |s|
  {
    if |s| == 0 then [] else Utf8Char(s[0]) + Utf8(s[1..])
  }

  /** A "binary string": one character per byte, with that byte as its code. */
  function Latin1(bytes: seq<byte>): (s: string)
    ensures |s| == |bytes|
  {
    seq(|bytes|, i requires 0 <= i < |bytes| => bytes[i] as char)
  }

  /** The characters `encodeURIComponent` leaves as they are. */
  predicate IsUnreserved(c: char)
  {
    ('A' <= c <= 'Z') || ('a' <= c <= 'z') || ('0' <= c <= '9')
    || c == '-' || c == '_' || c == '.' || c == '!' || c == '~' || c == '*' || c == '\'' || c == '(' || c == ')'
  }

  /** The upper-case hexadecimal digit of a nibble. */
  function HexDigit(d: int): char
    requires 0 <= d < 16
  {
    if d < 10 then ('0' as int + d) as char else ('A' as int + (d - 10)) as char
  }

  /** The hexadecimal digits `unescape` accepts, in either case. */
  predicate IsHexDigit(c: char)
  {
    ('0' <= c <= '9') || ('A' <= c <= 'F') || ('a' <= c <= 'f')
  }

  /** The value of a hexadecimal digit. */
  function HexValue(c: char): (v: int)
    requires IsHexDigit(c)
    ensures 0 <= v < 16
  {
    if '0' <= c <= '9' then c as int - '0' as int
    else if 'A' <= c <= 'F' then c as int - 'A' as int + 10
    else c as int - 'a' as int + 10
  }

  /** Each byte as "%" and two upper-case hexadecimal digits. */
  function PercentEncode(bytes: seq<byte>): string
    decreases |bytes|
  {
    if |bytes| == 0 then ""
    else ['%', HexDigit(bytes[0] / 16), HexDigit(bytes[0] % 16)] + PercentEncode(bytes[1..])
  }

  /** `encodeURIComponent(s)`: unreserved characters stay, every other
      character becomes the percent-escapes of its UTF-8 bytes. */
  function EncodeURIComponent(s: string): string
    decreases |s|
  {
    if |s| == 0 then ""
    else (if IsUnreserved(s[0]) then [s[0]] else PercentEncode(Utf8Char(s[0]))) + EncodeURIComponent(s[1..])
  }

  /** `unescape(s)` for its "%XX" escapes: each becomes the character with
      that code, and every other character is copied. */
  function Unescape(s: string): string
    decreases |s|
  {
    if |s| == 0 then ""
    else if s[0] == '%' && |s| >= 3 && IsHexDigit(s[1]) && IsHexDigit(s[2]) then
      [(HexValue(s[1]) * 16 + HexValue(s[2])) as char] + Unescape(s[3..])
    else [s[0]] + Unescape(s[1..])
  }

  /** The characters below 0x80. */
  predicate IsAscii(s: string)
  {
    forall i :: 0 <= i < |s| ==> s[i] as int < 0x80
  }

  /** The number of bytes at or above 0x80. */
  function HighCount(bytes: seq<byte>): nat
    decreases |bytes|
  {
    if |bytes| == 0 then 0 else (if bytes[0] >= 0x80 then 1 else 0) + HighCount(bytes[1..])
  }

  /** UTF-8 encodes a string character by character. */
  lemma {:induction false} Utf8Append(a: string, b: string)
    ensures Utf8(a + b) == Utf8(a) + Utf8(b)
    decreases |a|
  {
    if |a| > 0 {
      assert (a + b)[1..] == a[1..] + b;
      Utf8Append(a[1..], b);
    } else {
      assert a + b == b;
    }
  }

  /** An ASCII string is encoded as its character codes, and only an ASCII
      string is encoded without bytes at or above 0x80. */
  lemma {:induction false} Utf8Ascii(s: string)
    ensures IsAscii(s) ==> Utf8(s) == seq(|s|, i requires 0 <= i < |s| => s[i] as int)
    ensures IsAscii(s) <==> HighCount(Utf8(s)) == 0
    decreases |s|
  {
    if |s| > 0 {
      Utf8Ascii(s[1..]);
      HighCountAppend(Utf8Char(s[0]), Utf8(s[1..]));
      var lead := Utf8Char(s[0]);
      if s[0] as int >= 0x80 {
        assert lead[0] >= 0x80;
        HighCountAppend([lead[0]], lead[1..]);
        assert lead == [lead[0]] + lead[1..];
        assert !IsAscii(s);
      } else {
        assert HighCount(lead) == 0;
        assert IsAscii(s) <==> IsAscii(s[1..]) by {
          if IsAscii(s[1..]) {
            forall i | 0 <= i < |s| ensures s[i] as int < 0x80 {
              if i > 0 { assert s[i] == s[1..][i - 1]; }
            }
          }
          if IsAscii(s) {
            forall i | 0 <= i < |s[1..]| ensures s[1..][i] as int < 0x80 {
              assert s[1..][i] == s[i + 1];
            }
          }
        }
      }
    }
  }

  /** The high bytes of two pieces add up. */
  lemma {:induction false} HighCountAppend(a: seq<byte>, b: seq<byte>)
    ensures HighCount(a + b) == HighCount(a) + HighCount(b)
    decreases |a|
  {
    if |a| > 0 {
      assert (a + b)[1..] == a[1..] + b;
      HighCountAppend(a[1..], b);
    } else {
      assert a + b == b;
    }
  }

  /** UTF-8-encoding a binary string adds one byte per byte at or above 0x80,
      and leaves a sequence without such bytes as it is. */
  lemma {:induction false} Latin1Utf8(bytes: seq<byte>)
    ensures |Utf8(Latin1(bytes))| == |bytes| + HighCount(bytes)
    ensures HighCount(bytes) == 0 ==> Utf8(Latin1(bytes)) == bytes
    decreases |bytes|
  {
    if |bytes| > 0 {
      var s := Latin1(bytes);
      assert s[1..] == Latin1(bytes[1..]);
      Latin1Utf8(bytes[1..]);
      assert Utf8(s) == Utf8Char(bytes[0] as char) + Utf8(s[1..]);
      if HighCount(bytes) == 0 {
        assert bytes == [bytes[0]] + bytes[1..];
      }
    }
  }

  /** The two digits of a byte read back as that byte. */
  lemma HexRoundTrip(b: byte)
    ensures IsHexDigit(HexDigit(b / 16)) && IsHexDigit(HexDigit(b % 16))
    ensures HexValue(HexDigit(b / 16)) * 16 + HexValue(HexDigit(b % 16)) == b
  {
    var hi, lo := b / 16, b % 16;
    assert HexValue(HexDigit(hi)) == hi;
    assert HexValue(HexDigit(lo)) == lo;
  }

  /** One "%XX" escape in front of the rest. */
  lemma UnescapeStep(x: char, y: char, tail: string)
    requires IsHexDigit(x) && IsHexDigit(y)
    ensures Unescape(['%', x, y] + tail) == [(HexValue(x) * 16 + HexValue(y)) as char] + Unescape(tail)
  {
    assert (['%', x, y] + tail)[3..] == tail;
  }

  /** The escape of the first byte comes first. */
  lemma PercentEncodeCons(bytes: seq<byte>, rest: string)
    requires |bytes| > 0
    ensures PercentEncode(bytes) + rest ==
      ['%', HexDigit(bytes[0] / 16), HexDigit(bytes[0] % 16)] + (PercentEncode(bytes[1..]) + rest)
  {
  }

  /** `unescape` turns percent-escaped bytes back into one character per byte. */
  lemma {:induction false} UnescapePercent(bytes: seq<byte>, rest: string)
    ensures Unescape(PercentEncode(bytes) + rest) == Latin1(bytes) + Unescape(rest)
    decreases |bytes|
  {
    if |bytes| > 0 {
      var b := bytes[0];
      var tail := PercentEncode(bytes[1..]) + rest;
      var escape := ['%', HexDigit(b / 16), HexDigit(b % 16)];
      calc {
        Unescape(PercentEncode(bytes) + rest);
        { PercentEncodeCons(bytes, rest); }
        Unescape(escape + tail);
        { HexRoundTrip(b); UnescapeStep(HexDigit(b / 16), HexDigit(b % 16), tail); }
        [b as char] + Unescape(tail);
        { UnescapePercent(bytes[1..], rest); }
        [b as char] + (Latin1(bytes[1..]) + Unescape(rest));
        { Latin1Append([b], bytes[1..]); assert [b] + bytes[1..] == bytes; }
        Latin1(bytes) + Unescape(rest);
      }
    } else {
      assert PercentEncode(bytes) + rest == rest;
    }
  }

  /** `unescape(encodeURIComponent(s))` is the binary string of the UTF-8
      bytes of `s`. */
  lemma {:induction false} UnescapeEncode(s: string)
    ensures Unescape(EncodeURIComponent(s)) == Latin1(Utf8(s))
    decreases |s|
  {
    if |s| > 0 {
      var c := s[0];
      var tail := EncodeURIComponent(s[1..]);
      UnescapeEncode(s[1..]);
      Latin1Append(Utf8Char(c), Utf8(s[1..]));
      if IsUnreserved(c) {
        assert EncodeURIComponent(s) == [c] + tail;
        assert ([c] + tail)[1..] == tail;
        assert Latin1(Utf8Char(c)) == [c];
      } else {
        UnescapePercent(Utf8Char(c), tail);
      }
    }
  }

  /** A binary string is built byte by byte. */
  lemma Latin1Append(a: seq<byte>, b: seq<byte>)
    ensures Latin1(a + b) == Latin1(a) + Latin1(b)
  {
  }
}
