/** `keypairToAuth` (main.js:13-16): the HTTP Basic credential of section 2
    of RFC 7617, "Basic " followed by the base64 of "key:secret". */
module Auth {
  import opened Wrappers
  import opened Base64
  import opened UriCoding

  /** The user-pass of RFC 7617: key and secret joined by a colon. */
  function UserPass(key: string, secret: string): string
  {
    key + ":" + secret
  }

  /** The bytes main.js encodes: the string of `unescape(encodeURIComponent(..))`
      is handed to `Buffer.from`, which UTF-8-encodes it a second time. */
  function AsWrittenBytes(key: string, secret: string): seq<byte>
  {
    Utf8(Unescape(EncodeURIComponent(UserPass(key, secret))))
  }

  /** `keypairToAuth(key, secret)` as main.js computes it. */
  function KeypairToAuthAsWritten(key: string, secret: string): string
  {
    "Basic " + Encode(AsWrittenBytes(key, secret))
  }

  /** The credential with the UTF-8 bytes of "key:secret", encoded once. */
  function KeypairToAuth(key: string, secret: string): string
  {
    "Basic " + Encode(Utf8(UserPass(key, secret)))
  }

  /** main.js encodes the UTF-8 bytes of the credentials twice over. */
  lemma AsWrittenDoubleEncodes(key: string, secret: string)
    ensures AsWrittenBytes(key, secret) == Utf8(Latin1(Utf8(UserPass(key, secret))))
  {
    UnescapeEncode(UserPass(key, secret));
  }

  /** The credential starts with "Basic ", and the rest is a padded base64
      string that decodes to the UTF-8 bytes of "key:secret". */
  lemma KeypairToAuthDecodes(key: string, secret: string)
    ensures var auth := KeypairToAuth(key, secret);
      && |auth| >= 6 && auth[..6] == "Basic "
      && |auth[6..]| % 4 == 0
      && (forall i :: 6 <= i < |auth| ==> IsBase64Char(auth[i]))
      && Decode(auth[6..]) == Some(Utf8(UserPass(key, secret)))
  {
    var bytes := Utf8(UserPass(key, secret));
    var auth := KeypairToAuth(key, secret);
    assert auth[6..] == Encode(bytes);
    EncodeLength(bytes);
    EncodeAlphabet(bytes);
    DecodeEncode(bytes);
    assert forall i :: 6 <= i < |auth| ==> auth[i] == Encode(bytes)[i - 6];
  }

  /** For ASCII credentials the payload decodes to the character codes of
      "key:secret", which read back as "key:secret". */
  lemma AsciiRoundTrip(key: string, secret: string)
    requires IsAscii(key) && IsAscii(secret)
    ensures var auth := KeypairToAuth(key, secret);
      && Decode(auth[6..]).Some?
      && Decode(auth[6..]).value == seq(|UserPass(key, secret)|, i requires 0 <= i < |UserPass(key, secret)| => UserPass(key, secret)[i] as int)
      && Latin1(Decode(auth[6..]).value) == UserPass(key, secret)
  {
    var u := UserPass(key, secret);
    assert IsAscii(u) by {
      forall i | 0 <= i < |u| ensures u[i] as int < 0x80 {
        if i < |key| { assert u[i] == key[i]; }
        else if i > |key| { assert u[i] == secret[i - |key| - 1]; }
      }
    }
    KeypairToAuthDecodes(key, secret);
    Utf8Ascii(u);
  }

  /** main.js produces the intended credential exactly when "key:secret" is
      ASCII; any other character is double-encoded. */
  lemma AsWrittenAgreesIffAscii(key: string, secret: string)
    ensures KeypairToAuthAsWritten(key, secret) == KeypairToAuth(key, secret) <==> IsAscii(UserPass(key, secret))
  {
    var u := UserPass(key, secret);
    var once := Utf8(u);
    AsWrittenDoubleEncodes(key, secret);
    Utf8Ascii(u);
    Latin1Utf8(once);
    if KeypairToAuthAsWritten(key, secret) == KeypairToAuth(key, secret) {
      assert Encode(AsWrittenBytes(key, secret)) == KeypairToAuthAsWritten(key, secret)[6..];
      assert Encode(once) == KeypairToAuth(key, secret)[6..];
      DecodeEncode(AsWrittenBytes(key, secret));
      DecodeEncode(once);
      assert AsWrittenBytes(key, secret) == once;
    }
  }

  /** A concrete input on which main.js goes wrong: "é" as the key. */
  lemma AsWrittenCounterexample()
    ensures KeypairToAuthAsWritten("\U{E9}", "x") != KeypairToAuth("\U{E9}", "x")
  {
    var u := UserPass("\U{E9}", "x");
    assert u[0] as int == 0xE9;
    AsWrittenAgreesIffAscii("\U{E9}", "x");
  }

  // The examples below take their literal inputs as parameters fixed by
  // `requires`, so that the solver does not unfold the encoders on the
  // literals in every proof obligation.

  /** The credential for key "abc" and secret "xyz". */
  lemma AbcXyzExample(key: string, secret: string)
    requires key == "abc" && secret == "xyz"
    ensures KeypairToAuth(key, secret) == "Basic YWJjOnh5eg=="
  {
    var u := UserPass(key, secret);
    AbcXyzUtf8(u);
    AbcXyzBase64(Utf8(u));
  }

  /** The UTF-8 bytes of "abc:xyz" are its character codes. */
  lemma AbcXyzUtf8(u: string)
    requires u == "abc:xyz"
    ensures Utf8(u) == [97, 98, 99, 58, 120, 121, 122]
  {
    assert IsAscii(u);
    Utf8Ascii(u);
  }

  /** The base64 of the bytes of "abc:xyz". */
  lemma AbcXyzBase64(bytes: seq<byte>)
    requires bytes == [97, 98, 99, 58, 120, 121, 122]
    ensures Encode(bytes) == "YWJjOnh5eg=="
  {
    var rest := bytes[3..];
    assert Encode(bytes) == EncodeTriple(97, 98, 99) + Encode(rest);
    assert Encode(rest) == EncodeTriple(58, 120, 121) + Encode(rest[3..]);
    assert rest[3..] == [122];
    assert EncodeTriple(97, 98, 99) == "YWJj" by {
      assert CharOf(24) == 'Y' && CharOf(22) == 'W' && CharOf(9) == 'J' && CharOf(35) == 'j';
    }
    assert EncodeTriple(58, 120, 121) == "Onh5" by {
      assert CharOf(14) == 'O' && CharOf(39) == 'n' && CharOf(33) == 'h' && CharOf(57) == '5';
    }
    assert EncodeSingle(122) == "eg==" by {
      assert CharOf(30) == 'e' && CharOf(32) == 'g';
    }
  }

  /** The UTF-8 bytes of "é:x". */
  lemma EacuteUtf8(u: string)
    requires u == UserPass("\U{E9}", "x")
    ensures Utf8(u) == [0xC3, 0xA9, 58, 120]
  {
    assert u == ['\U{E9}', ':', 'x'];
    assert Utf8Char('\U{E9}') == [0xC3, 0xA9];
    assert Utf8(u[2..]) == [120] + Utf8(u[3..]);
    assert Utf8(u[1..]) == [58] + Utf8(u[2..]);
    assert Utf8(u) == [0xC3, 0xA9] + Utf8(u[1..]);
  }

  /** The intended credential for key "é" and secret "x": base64 of C3 A9 3A 78. */
  lemma EacuteIntended(key: string, secret: string)
    requires key == "\U{E9}" && secret == "x"
    ensures KeypairToAuth(key, secret) == "Basic w6k6eA=="
  {
    var bytes := Utf8(UserPass(key, secret));
    EacuteUtf8(UserPass(key, secret));
    assert Encode(bytes) == EncodeTriple(0xC3, 0xA9, 58) + Encode(bytes[3..]);
    assert bytes[3..] == [120];
    assert EncodeTriple(0xC3, 0xA9, 58) == "w6k6" by {
      assert CharOf(48) == 'w' && CharOf(58) == '6' && CharOf(36) == 'k';
    }
    assert EncodeSingle(120) == "eA==" by {
      assert CharOf(30) == 'e' && CharOf(0) == 'A';
    }
  }

  /** The bytes main.js produces for "é:x": each of C3 and A9 becomes two bytes. */
  lemma EacuteDoubled(bytes: seq<byte>)
    requires bytes == [0xC3, 0xA9, 58, 120]
    ensures Utf8(Latin1(bytes)) == [0xC3, 0x83, 0xC2, 0xA9, 58, 120]
  {
    var l := Latin1(bytes);
    assert l == ['\U{C3}', '\U{A9}', ':', 'x'];
    assert Utf8Char('\U{C3}') == [0xC3, 0x83];
    assert Utf8Char('\U{A9}') == [0xC2, 0xA9];
    assert Utf8(l[3..]) == [120] + Utf8(l[4..]);
    assert Utf8(l[2..]) == [58] + Utf8(l[3..]);
    assert Utf8(l[1..]) == [0xC2, 0xA9] + Utf8(l[2..]);
    assert Utf8(l) == [0xC3, 0x83] + Utf8(l[1..]);
  }

  /** The base64 of the double-encoded bytes of "é:x". */
  lemma EacuteSixBytes(bytes: seq<byte>)
    requires bytes == [0xC3, 0x83, 0xC2, 0xA9, 58, 120]
    ensures Encode(bytes) == "w4PCqTp4"
  {
    var rest := bytes[3..];
    assert Encode(bytes) == EncodeTriple(0xC3, 0x83, 0xC2) + Encode(rest);
    assert Encode(rest) == EncodeTriple(0xA9, 58, 120) + Encode(rest[3..]);
    assert rest[3..] == [];
    assert EncodeTriple(0xC3, 0x83, 0xC2) == "w4PC" by {
      assert CharOf(48) == 'w' && CharOf(56) == '4' && CharOf(15) == 'P' && CharOf(2) == 'C';
    }
    assert EncodeTriple(0xA9, 58, 120) == "qTp4" by {
      assert CharOf(42) == 'q' && CharOf(19) == 'T' && CharOf(41) == 'p' && CharOf(56) == '4';
    }
  }

  /** The bytes main.js encodes for key "é" and secret "x". */
  lemma EacuteAsWrittenBytes(key: string, secret: string)
    requires key == "\U{E9}" && secret == "x"
    ensures AsWrittenBytes(key, secret) == [0xC3, 0x83, 0xC2, 0xA9, 58, 120]
  {
    var once := Utf8(UserPass(key, secret));
    AsWrittenDoubleEncodes(key, secret);
    EacuteUtf8(UserPass(key, secret));
    EacuteDoubled(once);
  }

  /** What main.js sends for key "é" and secret "x": base64 of C3 83 C2 A9 3A 78. */
  lemma EacuteAsWritten(key: string, secret: string)
    requires key == "\U{E9}" && secret == "x"
    ensures KeypairToAuthAsWritten(key, secret) == "Basic w4PCqTp4"
  {
    EacuteAsWrittenBytes(key, secret);
    EacuteSixBytes(AsWrittenBytes(key, secret));
  }
}
