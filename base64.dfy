/** The standard base64 encoding of section 4 of RFC 4648, with a strict
    decoder as its inverse. */
module Base64 {
  import opened Wrappers

  type byte = x: int | 0 <= x < 256

  /** A six-bit group, the value of one base64 character. */
  type sextet = x: int | 0 <= x < 64

  /** The character of the base64 alphabet for a sextet (Table 1 of RFC 4648). */
  function CharOf(i: sextet): char
  {
    if i < 26 then ('A' as int + i) as char
    else if i < 52 then ('a' as int + (i - 26)) as char
    else if i < 62 then ('0' as int + (i - 52)) as char
    else if i == 62 then '+'
    else '/'
  }

  /** The sextet a base64 character stands for; None outside the alphabet. */
  function SextetOf(c: char): Option<sextet>
  {
    if 'A' <= c <= 'Z' then Some(c as int - 'A' as int)
    else if 'a' <= c <= 'z' then Some(c as int - 'a' as int + 26)
    else if '0' <= c <= '9' then Some(c as int - '0' as int + 52)
    else if c == '+' then Some(62)
    else if c == '/' then Some(63)
    else None
  }

  /** The characters that may appear in an encoding: the alphabet and the pad. */
  predicate IsBase64Char(c: char)
  {
    SextetOf(c).Some? || c == '='
  }

  /** The alphabet and its lookup are inverse to each other, and the pad
      character is outside the alphabet. */
  lemma AlphabetBijective(i: sextet, c: char)
    ensures SextetOf(CharOf(i)) == Some(i)
    ensures SextetOf(c) == Some(i) ==> CharOf(i) == c
    ensures CharOf(i) != '=' && SextetOf('=') == None
  {
  }

  /** The four characters of a full group of three bytes. */
  function EncodeTriple(b0: byte, b1: byte, b2: byte): string
  {
    [CharOf(b0 / 4), CharOf((b0 % 4) * 16 + b1 / 16), CharOf((b1 % 16) * 4 + b2 / 64), CharOf(b2 % 64)]
  }

  /** The padded last group of a single byte. */
  function EncodeSingle(b0: byte): string
  {
    [CharOf(b0 / 4), CharOf((b0 % 4) * 16), '=', '=']
  }

  /** The padded last group of two bytes. */
  function EncodePair(b0: byte, b1: byte): string
  {
    [CharOf(b0 / 4), CharOf((b0 % 4) * 16 + b1 / 16), CharOf((b1 % 16) * 4), '=']
  }

  /** The encoding of a byte sequence: full groups of three bytes, then a
      last group of one or two bytes padded with "==" or "=". */
  function Encode(bytes: seq<byte>): string
    decreases |bytes|
  {
    if |bytes| == 0 then ""
    else if |bytes| == 1 then EncodeSingle(bytes[0])
    else if |bytes| == 2 then EncodePair(bytes[0], bytes[1])
    else EncodeTriple(bytes[0], bytes[1], bytes[2]) + Encode(bytes[3..])
  }

  /** The bytes of one group of four characters; padding is accepted only in
      the last group, and the bits it drops must be zero. */
  function DecodeGroup(g: string, last: bool): Option<seq<byte>>
    requires |g| == 4
  {
    var o0, o1, o2, o3 := SextetOf(g[0]), SextetOf(g[1]), SextetOf(g[2]), SextetOf(g[3]);
    if o0.None? || o1.None? then None
    else if last && g[2] == '=' && g[3] == '=' then
      if o1.value % 16 == 0 then Some([o0.value * 4 + o1.value / 16]) else None
    else if o2.None? then None
    else if last && g[3] == '=' then
      if o2.value % 4 == 0 then Some([o0.value * 4 + o1.value / 16, (o1.value % 16) * 16 + o2.value / 4]) else None
    else if o3.None? then None
    else Some([o0.value * 4 + o1.value / 16, (o1.value % 16) * 16 + o2.value / 4, (o2.value % 4) * 64 + o3.value])
  }

  /** The strict decoder: groups of four characters, the last of which may be padded. */
  function Decode(s: string): Option<seq<byte>>
    decreases |s|
  {
    if |s| == 0 then Some([])
    else if |s| < 4 then None
    else
      match DecodeGroup(s[..4], |s| == 4)
      case None => None
      case Some(group) =>
        if |s| == 4 then Some(group)
        else
          match Decode(s[4..])
          case None => None
          case Some(rest) => Some(group + rest)
  }

  /** Four characters for every started group of three bytes. */
  lemma {:induction false} EncodeLength(bytes: seq<byte>)
    ensures |Encode(bytes)| == 4 * ((|bytes| + 2) / 3)
    ensures |Encode(bytes)| % 4 == 0
    decreases |bytes|
  {
    var groups := (|bytes| + 2) / 3;
    if |bytes| <= 2 {
      assert groups == if |bytes| == 0 then 0 else 1;
    } else {
      var t, rest := EncodeTriple(bytes[0], bytes[1], bytes[2]), bytes[3..];
      EncodeLength(rest);
      GroupCount(|rest|);
      assert |bytes| == |rest| + 3;
      assert Encode(bytes) == t + Encode(rest);
    }
    assert |Encode(bytes)| == 4 * groups;
    MultipleOfFour(groups);
  }

  /** Three more bytes start one more group. */
  lemma GroupCount(n: nat)
    ensures (n + 3 + 2) / 3 == (n + 2) / 3 + 1
  {
  }

  /** Four times anything leaves no remainder modulo four. */
  lemma MultipleOfFour(k: int)
    ensures (4 * k) % 4 == 0
  {
  }

  /** An encoding uses only the alphabet and the pad character. */
  lemma {:induction false} EncodeAlphabet(bytes: seq<byte>)
    ensures forall i :: 0 <= i < |Encode(bytes)| ==> IsBase64Char(Encode(bytes)[i])
    decreases |bytes|
  {
    if |bytes| > 2 {
      EncodeAlphabet(bytes[3..]);
      var t := EncodeTriple(bytes[0], bytes[1], bytes[2]);
      forall i | 0 <= i < 4 ensures IsBase64Char(t[i]) {
      }
    }
  }

  /** One padded byte decodes back to itself. */
  lemma SingleRoundTrip(b0: byte)
    ensures DecodeGroup(EncodeSingle(b0), true) == Some([b0])
  {
    var c0, c1 := b0 / 4, (b0 % 4) * 16;
    AlphabetBijective(c0, ' ');
    AlphabetBijective(c1, ' ');
    assert c1 % 16 == 0 && c0 * 4 + c1 / 16 == b0;
  }

  /** Two padded bytes decode back to themselves. */
  lemma PairRoundTrip(b0: byte, b1: byte)
    ensures DecodeGroup(EncodePair(b0, b1), true) == Some([b0, b1])
  {
    var c0, c1, c2 := b0 / 4, (b0 % 4) * 16 + b1 / 16, (b1 % 16) * 4;
    AlphabetBijective(c0, ' ');
    AlphabetBijective(c1, ' ');
    AlphabetBijective(c2, ' ');
    assert c2 % 4 == 0;
    assert c1 / 16 == b0 % 4 && c1 % 16 == b1 / 16;
    assert c0 * 4 + c1 / 16 == b0;
    assert (c1 % 16) * 16 + c2 / 4 == b1;
  }

  /** Packing a quotient and a small remainder unpacks to the same two, for
      the bit-field widths base64 uses. */
  lemma Unpack(q: int, r: int, m: int)
    requires m == 4 || m == 16 || m == 64
    requires 0 <= r < m
    ensures (q * m + r) / m == q && (q * m + r) % m == r
  {
    if m == 4 {
      assert q * m + r == q * 4 + r;
    } else if m == 16 {
      assert q * m + r == q * 16 + r;
    } else {
      assert q * m + r == q * 64 + r;
    }
  }

  /** The four sextets of three bytes put the three bytes back together. */
  lemma TripleArith(b0: byte, b1: byte, b2: byte)
    ensures var c0, c1, c2, c3 := b0 / 4, (b0 % 4) * 16 + b1 / 16, (b1 % 16) * 4 + b2 / 64, b2 % 64;
      && 0 <= c1 < 64 && 0 <= c2 < 64
      && c0 * 4 + c1 / 16 == b0
      && (c1 % 16) * 16 + c2 / 4 == b1
      && (c2 % 4) * 64 + c3 == b2
  {
    Unpack(b0 % 4, b1 / 16, 16);
    Unpack(b1 % 16, b2 / 64, 4);
  }

  /** Three bytes assembled from four sextets split back into those sextets. */
  lemma SextetArith(c0: sextet, c1: sextet, c2: sextet, c3: sextet)
    ensures var b0, b1, b2 := c0 * 4 + c1 / 16, (c1 % 16) * 16 + c2 / 4, (c2 % 4) * 64 + c3;
      && 0 <= b0 < 256 && 0 <= b1 < 256 && 0 <= b2 < 256
      && b0 / 4 == c0 && (b0 % 4) * 16 + b1 / 16 == c1
      && (b1 % 16) * 4 + b2 / 64 == c2 && b2 % 64 == c3
  {
    Unpack(c0, c1 / 16, 4);
    Unpack(c1 % 16, c2 / 4, 16);
    Unpack(c2 % 4, c3, 64);
  }

  /** A full group decodes back to its three bytes, wherever it stands. */
  lemma TripleRoundTrip(b0: byte, b1: byte, b2: byte, last: bool)
    ensures DecodeGroup(EncodeTriple(b0, b1, b2), last) == Some([b0, b1, b2])
  {
    var c0, c1, c2, c3 := b0 / 4, (b0 % 4) * 16 + b1 / 16, (b1 % 16) * 4 + b2 / 64, b2 % 64;
    TripleArith(b0, b1, b2);
    AlphabetBijective(c0, ' ');
    AlphabetBijective(c1, ' ');
    AlphabetBijective(c2, ' ');
    AlphabetBijective(c3, ' ');
  }

  /** Decoding a group followed by more groups. */
  lemma DecodeCons(g: string, rest: string)
    requires |g| == 4
    requires DecodeGroup(g, rest == []).Some?
    requires Decode(rest).Some?
    ensures Decode(g + rest) == Some(DecodeGroup(g, rest == []).value + Decode(rest).value)
  {
    var s := g + rest;
    assert s[..4] == g;
    assert s[4..] == rest;
    if rest == [] {
      assert DecodeGroup(g, true).value + [] == DecodeGroup(g, true).value;
    }
  }

  /** A sequence of at least three bytes is its first three and the rest. */
  lemma SplitThree(bytes: seq<byte>)
    requires |bytes| > 2
    ensures bytes == [bytes[0], bytes[1], bytes[2]] + bytes[3..]
  {
  }

  /** A full group in front of an encoding that decodes back. */
  lemma DecodeEncodeFull(bytes: seq<byte>)
    requires |bytes| > 2
    requires Decode(Encode(bytes[3..])) == Some(bytes[3..])
    ensures Decode(Encode(bytes)) == Some(bytes)
  {
    var t := EncodeTriple(bytes[0], bytes[1], bytes[2]);
    var rest := Encode(bytes[3..]);
    assert Encode(bytes) == t + rest;
    TripleRoundTrip(bytes[0], bytes[1], bytes[2], rest == []);
    DecodeCons(t, rest);
    SplitThree(bytes);
  }

  /** Decoding undoes encoding. */
  lemma {:induction false} DecodeEncode(bytes: seq<byte>)
    ensures Decode(Encode(bytes)) == Some(bytes)
    decreases |bytes|
  {
    if |bytes| == 1 {
      SingleRoundTrip(bytes[0]);
      assert Encode(bytes)[..4] == Encode(bytes);
      assert bytes == [bytes[0]];
    } else if |bytes| == 2 {
      PairRoundTrip(bytes[0], bytes[1]);
      assert Encode(bytes)[..4] == Encode(bytes);
      assert bytes == [bytes[0], bytes[1]];
    } else if |bytes| > 2 {
      DecodeEncode(bytes[3..]);
      DecodeEncodeFull(bytes);
    }
  }

  /** A group the decoder reads as one byte is that byte's padded group. */
  lemma GroupSingle(g: string)
    requires |g| == 4 && g[2] == '=' && g[3] == '='
    requires DecodeGroup(g, true).Some?
    ensures var d := DecodeGroup(g, true).value;
      |d| == 1 && EncodeSingle(d[0]) == g
  {
    var c0: int, c1: int := SextetOf(g[0]).value, SextetOf(g[1]).value;
    AlphabetBijective(c0, g[0]);
    AlphabetBijective(c1, g[1]);
    Unpack(c0, c1 / 16, 4);
    assert c1 / 16 * 16 == c1;
    assert g == [g[0], g[1], '=', '='];
  }

  /** A group the decoder reads as two bytes is their padded group. */
  lemma GroupPair(g: string)
    requires |g| == 4 && g[2] != '=' && g[3] == '='
    requires DecodeGroup(g, true).Some?
    ensures var d := DecodeGroup(g, true).value;
      |d| == 2 && EncodePair(d[0], d[1]) == g
  {
    var c0: int, c1: int, c2: int := SextetOf(g[0]).value, SextetOf(g[1]).value, SextetOf(g[2]).value;
    AlphabetBijective(c0, g[0]);
    AlphabetBijective(c1, g[1]);
    AlphabetBijective(c2, g[2]);
    Unpack(c0, c1 / 16, 4);
    Unpack(c1 % 16, c2 / 4, 16);
    assert c2 / 4 * 4 == c2;
    assert g == [g[0], g[1], g[2], '='];
  }

  /** A group the decoder reads as three bytes is their full group. */
  lemma GroupTriple(g: string, last: bool)
    requires |g| == 4 && !(last && g[3] == '=')
    requires DecodeGroup(g, last).Some?
    ensures var d := DecodeGroup(g, last).value;
      |d| == 3 && EncodeTriple(d[0], d[1], d[2]) == g
  {
    var c0: int, c1: int := SextetOf(g[0]).value, SextetOf(g[1]).value;
    var c2: int, c3: int := SextetOf(g[2]).value, SextetOf(g[3]).value;
    AlphabetBijective(c0, g[0]);
    AlphabetBijective(c1, g[1]);
    AlphabetBijective(c2, g[2]);
    AlphabetBijective(c3, g[3]);
    SextetArith(c0, c1, c2, c3);
    var b0, b1, b2 := c0 * 4 + c1 / 16, (c1 % 16) * 16 + c2 / 4, (c2 % 4) * 64 + c3;
    assert DecodeGroup(g, last) == Some([b0, b1, b2]);
    assert b0 / 4 == c0 && (b0 % 4) * 16 + b1 / 16 == c1;
    assert (b1 % 16) * 4 + b2 / 64 == c2 && b2 % 64 == c3;
  }

  /** A group the decoder accepts is the encoding of what it decodes to. */
  lemma GroupRoundTrip(g: string, last: bool)
    requires |g| == 4
    requires DecodeGroup(g, last).Some?
    ensures var d := DecodeGroup(g, last).value;
      && 1 <= |d| <= 3
      && (|d| < 3 ==> last)
      && (|d| == 1 ==> EncodeSingle(d[0]) == g)
      && (|d| == 2 ==> EncodePair(d[0], d[1]) == g)
      && (|d| == 3 ==> EncodeTriple(d[0], d[1], d[2]) == g)
  {
    AlphabetBijective(0, g[2]);
    if last && g[2] == '=' && g[3] == '=' {
      GroupSingle(g);
    } else if last && g[3] == '=' {
      GroupPair(g);
    } else {
      GroupTriple(g, last);
    }
  }

  /** Encoding undoes decoding: a string the decoder accepts is the encoding
      of what it decodes to, so every byte sequence has exactly one encoding. */
  lemma {:induction false} EncodeDecode(s: string)
    requires Decode(s).Some?
    ensures Encode(Decode(s).value) == s
    decreases |s|
  {
    if |s| > 0 {
      var g := s[..4];
      GroupRoundTrip(g, |s| == 4);
      var d := DecodeGroup(g, |s| == 4).value;
      if |s| == 4 {
        assert g == s;
      } else {
        EncodeDecode(s[4..]);
        var rest := Decode(s[4..]).value;
        assert Decode(s).value == d + rest;
        assert (d + rest)[..3] == d && (d + rest)[3..] == rest;
        assert s == g + s[4..];
      }
    }
  }
}
