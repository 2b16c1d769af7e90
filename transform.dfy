/**
 * The textual transform of the codec (`encode` and `decode`).
 *
 * `encode` takes the UTF-8 bytes of a string and writes them in Base64;
 * `decode` reads Base64 back to bytes and turns each byte into the character
 * with that code (Latin-1, Node's `'binary'`).  The two agree only on ASCII
 * text.  Decoding here is strict: a token that is not canonical Base64
 * decodes to the empty text.
 */
module Transform {
  import opened Wrappers
  import opened Strings
  import Base64

  type Byte = Base64.Byte

  /** The UTF-8 encoding of one Unicode scalar value. */
  function Utf8Char(c: char): (bytes: seq<Byte>)
    ensures 1 <= |bytes| <= 4
    ensures |bytes| == 1 <==> c as int < 0x80
    ensures c as int < 0x80 ==> bytes == [c as int]
  {
    var n := c as int;
    if n < 0x80 then [n]
    else if n < 0x800 then [0xC0 + n / 64, 0x80 + n % 64]
    else if n < 0x10000 then [0xE0 + n / 4096, 0x80 + (n / 64) % 64, 0x80 + n % 64]
    else [0xF0 + n / 262144, 0x80 + (n / 4096) % 64, 0x80 + (n / 64) % 64, 0x80 + n % 64]
  }

  /** `Buffer.from(str)`: the UTF-8 bytes of a string. */
  function Utf8(s: string): seq<Byte>
    decreases |s|
  {
    if s == [] then [] else Utf8Char(s[0]) + Utf8(s[1..])
  }

  /** `buffer.toString('binary')`: each byte becomes the character with that code. */
  function Latin1(bytes: seq<Byte>): (s: string)
    ensures |s| == |bytes|
    ensures forall i :: 0 <= i < |s| ==> s[i] as int == bytes[i]
  {
    seq(|bytes|, i requires 0 <= i < |bytes| => bytes[i] as char)
  }

  /** `encode(str)`. */
  function Encode(s: string): string {
    Base64.Encode(Utf8(s))
  }

  /** `decode(encoded)`; a token that is not canonical Base64 reads as `""`. */
  function Decode(token: string): string {
    match Base64.Decode(token)
    case None => ""
    case Some(bytes) => Latin1(bytes)
  }

  /** On ASCII text UTF-8 is the identity on codes. */
  lemma {:induction false} Utf8Ascii(s: string)
    requires IsAscii(s)
    ensures |Utf8(s)| == |s|
    ensures forall i :: 0 <= i < |s| ==> Utf8(s)[i] == s[i] as int
    decreases |s|
  {
    if s != [] {
      assert IsAscii(s[1..]) by {
        forall i | 0 <= i < |s[1..]| ensures s[1..][i] as int < 0x80 {
          assert s[1..][i] == s[i + 1];
        }
      }
      Utf8Ascii(s[1..]);
      forall i | 0 <= i < |s| ensures Utf8(s)[i] == s[i] as int {
        if i > 0 { assert Utf8(s)[i] == Utf8(s[1..])[i - 1]; }
      }
    }
  }

  /** `decode(encode(s)) == s` for ASCII text. */
  lemma RoundTrip(s: string)
    requires IsAscii(s)
    ensures Decode(Encode(s)) == s
  {
    Base64.RoundTrip(Utf8(s));
    Utf8Ascii(s);
    assert Latin1(Utf8(s)) == s;
  }

  /**
   * Non-ASCII text does not survive: `é` (U+00E9) is written as the two
   * UTF-8 bytes C3 A9 and read back as the two characters U+00C3 U+00A9.
   */
  lemma NonAsciiDoesNotRoundTrip()
    ensures Decode(Encode("é")) == "Ã©"
    ensures Decode(Encode("é")) != "é"
  {
    var bytes: seq<Byte> := [0xC3, 0xA9];
    Utf8OfEAcute();
    Base64.RoundTrip(bytes);
    assert Base64.Decode(Encode("é")) == Some(bytes);
    var t := Latin1(bytes);
    assert t[0] == 'Ã' && t[1] == '©';
  }

  /** "é" (U+00E9) is the two bytes 0xC3 0xA9 in UTF-8. */
  lemma Utf8OfEAcute()
    ensures Utf8("é") == [0xC3, 0xA9]
  {
    var s := "é";
    assert s[1..] == [];
    assert Utf8(s) == Utf8Char(s[0]) + Utf8([]);
  }

  /** UTF-8 never shortens text, and lengthens every text that is not ASCII. */
  lemma {:induction false} Utf8Length(s: string)
    ensures |Utf8(s)| >= |s|
    ensures !IsAscii(s) ==> |Utf8(s)| > |s|
    decreases |s|
  {
    if s != [] {
      Utf8Length(s[1..]);
      if !IsAscii(s) && s[0] as int < 0x80 {
        var i :| 0 <= i < |s| && s[i] as int >= 0x80;
        assert s[1..][i - 1] == s[i];
      }
    }
  }

  /** No text outside ASCII survives `encode` then `decode`: it comes back longer. */
  lemma NonAsciiNeverRoundTrips(s: string)
    requires !IsAscii(s)
    ensures |Decode(Encode(s))| > |s|
    ensures Decode(Encode(s)) != s
  {
    Utf8Length(s);
    Base64.RoundTrip(Utf8(s));
  }

  /** An n-byte input yields 4 * ceil(n / 3) token characters; for ASCII text n is its length. */
  lemma EncodeShape(s: string)
    ensures |Encode(s)| == 4 * ((|Utf8(s)| + 2) / 3)
    ensures Base64.IsTokenText(Encode(s))
    ensures IsAscii(s) ==> |Encode(s)| == 4 * ((|s| + 2) / 3)
  {
    Base64.EncodeShape(Utf8(s));
    if IsAscii(s) { Utf8Ascii(s); }
  }

  /** A canonical token whose bytes are all ASCII is re-created by encoding its text. */
  lemma DecodeEncode(token: string)
    requires Base64.Decode(token).Some?
    requires forall i :: 0 <= i < |Base64.Decode(token).value| ==> Base64.Decode(token).value[i] < 0x80
    ensures Encode(Decode(token)) == token
  {
    var bytes := Base64.Decode(token).value;
    var s := Latin1(bytes);
    Utf8Ascii(s);
    assert Utf8(s) == bytes;
    Base64.Canonical(token);
  }
}
