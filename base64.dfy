/**
 * Base64 with padding, the standard alphabet of RFC 4648 section 4.
 *
 * Encoding works in two layers: every group of 3 bytes (24 bits) becomes
 * 4 sextets, a final group of 1 or 2 bytes becomes 2 or 3 sextets; each
 * sextet is then spelled as one alphabet character, and `=` pads the token
 * to a multiple of 4 characters.  `Decode` is the strict (canonical)
 * inverse: it accepts exactly the tokens `Encode` produces and returns
 * `None` for anything else.
 */
module Base64 {
  import opened Wrappers

  type Byte = b: int | 0 <= b < 256
  type Sextet = v: int | 0 <= v < 64

  const Pad: char := '='

  /**
   * The 64 characters of the alphabet of RFC 4648 section 4: `A`-`Z` stand
   * for 0-25, `a`-`z` for 26-51, `0`-`9` for 52-61, `+` for 62 and `/` for 63.
   */
  predicate IsAlphabetChar(c: char) {
    ('A' <= c <= 'Z') || ('a' <= c <= 'z') || ('0' <= c <= '9') || c == '+' || c == '/'
  }

  /** The character that stands for sextet `v`. */
  function CharOf(v: Sextet): (c: char)
    ensures IsAlphabetChar(c)
  {
    if v < 26 then ('A' as int + v) as char
    else if v < 52 then ('a' as int + (v - 26)) as char
    else if v < 62 then ('0' as int + (v - 52)) as char
    else if v == 62 then '+'
    else '/'
  }

  /** The sextet an alphabet character stands for. */
  function ValueOf(c: char): (v: Sextet)
    requires IsAlphabetChar(c)
    ensures CharOf(v) == c
  {
    if 'A' <= c <= 'Z' then c as int - 'A' as int
    else if 'a' <= c <= 'z' then c as int - 'a' as int + 26
    else if '0' <= c <= '9' then c as int - '0' as int + 52
    else if c == '+' then 62
    else 63
  }

  /** `CharOf` and `ValueOf` are inverse: the alphabet is a bijection with 0..63. */
  lemma ValueOfCharOf(v: Sextet)
    ensures ValueOf(CharOf(v)) == v
  {
  }

  // ---------------------------------------------------------------------
  // Bytes and sextets

  /** Groups of 3 bytes as 4 sextets; a last group of 1 or 2 bytes as 2 or 3 sextets, low bits zero. */
  function Sextets(bytes: seq<Byte>): seq<Sextet>
    decreases |bytes|
  {
    if |bytes| == 0 then []
    else if |bytes| == 1 then [bytes[0] / 4, (bytes[0] % 4) * 16]
    else if |bytes| == 2 then [bytes[0] / 4, (bytes[0] % 4) * 16 + bytes[1] / 16, (bytes[1] % 16) * 4]
    else Group(bytes[0], bytes[1], bytes[2]) + Sextets(bytes[3..])
  }

  /** The 24 bits of three bytes as four sextets, most significant first. */
  function Group(a: Byte, b: Byte, c: Byte): seq<Sextet> {
    [a / 4, (a % 4) * 16 + b / 16, (b % 16) * 4 + c / 64, c % 64]
  }

  /** Four sextets as the three bytes of their 24 bits. */
  function Ungroup(q: seq<Sextet>): seq<Byte>
    requires |q| == 4
  {
    var v0: int, v1: int, v2: int, v3: int := q[0], q[1], q[2], q[3];
    [v0 * 4 + v1 / 16, (v1 % 16) * 16 + v2 / 4, (v2 % 4) * 64 + v3]
  }

  /**
   * A last partial group of 2 or 3 sextets as 1 or 2 bytes; `None` for a
   * single sextet, or when bits are set that no byte fills.
   */
  function UngroupLast(s: seq<Sextet>): Option<seq<Byte>>
    requires |s| < 4
  {
    if |s| == 0 then Some([])
    else if |s| == 1 then None
    else if |s| == 2 then
      var v0: int, v1: int := s[0], s[1];
      if v1 % 16 == 0 then Some([v0 * 4 + v1 / 16]) else None
    else
      var v0: int, v1: int, v2: int := s[0], s[1], s[2];
      if v2 % 4 == 0 then Some([v0 * 4 + v1 / 16, (v1 % 16) * 16 + v2 / 4]) else None
  }

  /** The bytes that sextets spell, or `None` when they spell none. */
  function Bytes(s: seq<Sextet>): Option<seq<Byte>>
    decreases |s|
  {
    if |s| < 4 then UngroupLast(s)
    else
      match Bytes(s[4..])
      case None => None
      case Some(rest) => Some(Ungroup(s[..4]) + rest)
  }

  // ---------------------------------------------------------------------
  // Sextets and characters

  /** Each sextet spelled as its alphabet character. */
  function Spell(s: seq<Sextet>): (t: seq<char>)
    ensures |t| == |s|
    ensures forall i :: 0 <= i < |t| ==> IsAlphabetChar(t[i])
  {
    seq(|s|, i requires 0 <= i < |s| => CharOf(s[i]))
  }

  predicate IsAlphabetText(t: seq<char>) {
    forall i :: 0 <= i < |t| ==> IsAlphabetChar(t[i])
  }

  /** Each alphabet character read as its sextet. */
  function Values(t: seq<char>): (s: seq<Sextet>)
    requires IsAlphabetText(t)
    ensures |s| == |t|
  {
    seq(|t|, i requires 0 <= i < |t| => ValueOf(t[i]))
  }

  /** The padding after `n` bytes: none, `==` or `=`, by `n % 3`. */
  function Padding(n: nat): string {
    if n % 3 == 0 then "" else if n % 3 == 1 then "==" else "="
  }

  /** The token without its (at most two) trailing `=`. */
  function Unpadded(token: seq<char>): seq<char> {
    if |token| >= 2 && token[|token| - 2] == Pad && token[|token| - 1] == Pad then token[..|token| - 2]
    else if |token| >= 1 && token[|token| - 1] == Pad then token[..|token| - 1]
    else token
  }

  function Encode(bytes: seq<Byte>): seq<char> {
    Spell(Sextets(bytes)) + Padding(|bytes|)
  }

  function Decode(token: seq<char>): Option<seq<Byte>> {
    var body := Unpadded(token);
    if |token| % 4 != 0 || !IsAlphabetText(body) then None
    else Bytes(Values(body))
  }

  // ---------------------------------------------------------------------
  // Properties

  /** A character of a token: an alphabet character or the pad. */
  predicate IsTokenChar(c: char) {
    IsAlphabetChar(c) || c == Pad
  }

  /** Every character of `t` is a token character. */
  predicate IsTokenText(t: seq<char>) {
    forall i :: 0 <= i < |t| ==> IsTokenChar(t[i])
  }

  lemma DivMod4(q: int, r: int)
    requires 0 <= r < 4
    ensures (q * 4 + r) / 4 == q && (q * 4 + r) % 4 == r
  {
  }

  lemma DivMod16(q: int, r: int)
    requires 0 <= r < 16
    ensures (q * 16 + r) / 16 == q && (q * 16 + r) % 16 == r
  {
  }

  lemma DivMod64(q: int, r: int)
    requires 0 <= r < 64
    ensures (q * 64 + r) / 64 == q && (q * 64 + r) % 64 == r
  {
  }

  /** n bytes become 4 * floor(n / 3) sextets, plus 2 or 3 for a last group of 1 or 2. */
  lemma {:induction false} SextetsLength(bytes: seq<Byte>)
    ensures |Sextets(bytes)| == 4 * (|bytes| / 3) + (if |bytes| % 3 == 0 then 0 else |bytes| % 3 + 1)
    decreases |bytes|
  {
    if |bytes| >= 3 {
      SextetsLength(bytes[3..]);
    }
  }

  /** Three bytes read back from their group of four sextets. */
  lemma GroupBytes(a: Byte, b: Byte, c: Byte)
    ensures Ungroup(Group(a, b, c)) == [a, b, c]
  {
    var s := Group(a, b, c);
    DivMod16(a % 4, b / 16);
    DivMod4(b % 16, c / 64);
    var v0: int, v1: int, v2: int, v3: int := s[0], s[1], s[2], s[3];
    assert v0 * 4 + v1 / 16 == a;
    assert (v1 % 16) * 16 + v2 / 4 == b;
    assert (v2 % 4) * 64 + v3 == c;
  }

  /** A whole group in front reads back group by group. */
  lemma BytesAppend(q: seq<Sextet>, tail: seq<Sextet>)
    requires |q| == 4 && Bytes(tail).Some?
    ensures Bytes(q + tail) == Some(Ungroup(q) + Bytes(tail).value)
  {
    var t := q + tail;
    assert t[4..] == tail && t[..4] == q;
  }

  /** Reading back the sextets of a byte sequence gives the bytes. */
  lemma {:induction false} BytesOfSextets(bytes: seq<Byte>)
    ensures Bytes(Sextets(bytes)) == Some(bytes)
    decreases |bytes|
  {
    if |bytes| == 1 {
      var a := bytes[0];
      DivMod4(a / 4, a % 4);
      assert bytes == [a];
    } else if |bytes| == 2 {
      var a, b := bytes[0], bytes[1];
      DivMod16(a % 4, b / 16);
      var s := Sextets(bytes);
      var v0: int, v1: int, v2: int := s[0], s[1], s[2];
      assert v0 * 4 + v1 / 16 == a;
      assert (v1 % 16) * 16 + v2 / 4 == b;
      assert bytes == [a, b];
    } else if |bytes| >= 3 {
      BytesOfSextets(bytes[3..]);
      GroupBytes(bytes[0], bytes[1], bytes[2]);
      BytesAppend(Group(bytes[0], bytes[1], bytes[2]), Sextets(bytes[3..]));
      assert bytes[..3] == [bytes[0], bytes[1], bytes[2]];
      assert bytes == [bytes[0], bytes[1], bytes[2]] + bytes[3..];
    }
  }

  /** Any four sextets are the group of the three bytes they read back as. */
  lemma BlockGroup(q: seq<Sextet>)
    requires |q| == 4
    ensures var bs := Ungroup(q); Group(bs[0], bs[1], bs[2]) == q
  {
    var v0: int, v1: int, v2: int, v3: int := q[0], q[1], q[2], q[3];
    var bs := Ungroup(q);
    DivMod4(v0, v1 / 16);
    DivMod16(v1 % 16, v2 / 4);
    DivMod64(v2 % 4, v3);
    assert bs[0] / 4 == v0;
    assert (bs[0] % 4) * 16 + bs[1] / 16 == v1;
    assert (bs[1] % 16) * 4 + bs[2] / 64 == v2;
    assert bs[2] % 64 == v3;
  }

  /** Sextets that read back as bytes are exactly the sextets of those bytes. */
  lemma {:induction false} SextetsOfBytes(s: seq<Sextet>)
    requires Bytes(s).Some?
    ensures Sextets(Bytes(s).value) == s
    decreases |s|
  {
    var bytes := Bytes(s).value;
    if |s| == 2 {
      var v0: int, v1: int := s[0], s[1];
      DivMod4(v0, v1 / 16);
      assert bytes[0] / 4 == v0 && (bytes[0] % 4) * 16 == v1;
    } else if |s| == 3 {
      var v0: int, v1: int, v2: int := s[0], s[1], s[2];
      DivMod4(v0, v1 / 16);
      DivMod16(v1 % 16, v2 / 4);
      assert bytes[0] / 4 == v0;
      assert (bytes[0] % 4) * 16 + bytes[1] / 16 == v1;
      assert (bytes[1] % 16) * 4 == v2;
    } else if |s| >= 4 {
      var q, tail := s[..4], s[4..];
      BlockGroup(q);
      SextetsOfBytes(tail);
      var block, rest := Ungroup(q), Bytes(tail).value;
      assert bytes == block + rest;
      assert bytes[3..] == rest;
      assert Sextets(bytes) == Group(block[0], block[1], block[2]) + Sextets(rest);
      assert s == q + tail;
    }
  }

  /** Only a count of the form 4k, 4k + 2 or 4k + 3 reads back as bytes, and then 3k, 3k + 1 or 3k + 2 bytes. */
  lemma {:induction false} BytesLength(s: seq<Sextet>)
    requires Bytes(s).Some?
    ensures |s| % 4 != 1
    ensures |Bytes(s).value| == 3 * (|s| / 4) + (if |s| % 4 == 0 then 0 else |s| % 4 - 1)
    decreases |s|
  {
    if |s| >= 4 {
      BytesLength(s[4..]);
    }
  }

  lemma SpellValues(t: seq<char>)
    requires IsAlphabetText(t)
    ensures Spell(Values(t)) == t
  {
  }

  lemma ValuesSpell(s: seq<Sextet>)
    ensures IsAlphabetText(Spell(s)) && Values(Spell(s)) == s
  {
    forall i | 0 <= i < |s| ensures ValueOf(CharOf(s[i])) == s[i] {
      ValueOfCharOf(s[i]);
    }
  }

  /** The padding comes off again: alphabet characters are never `=`. */
  lemma UnpaddedSpell(s: seq<Sextet>, n: nat)
    ensures Unpadded(Spell(s) + Padding(n)) == Spell(s)
  {
    var t := Spell(s) + Padding(n);
    if |Padding(n)| == 1 {
      assert t[..|t| - 1] == Spell(s);
    } else if |Padding(n)| == 2 {
      assert t[..|t| - 2] == Spell(s);
    } else {
      assert t == Spell(s);
      assert |t| >= 1 ==> t[|t| - 1] != Pad;
    }
  }

  /** n bytes become 4 * ceil(n / 3) characters, all alphabet characters or `=`. */
  lemma EncodeShape(bytes: seq<Byte>)
    ensures |Encode(bytes)| == 4 * ((|bytes| + 2) / 3)
    ensures |Encode(bytes)| % 4 == 0
    ensures IsTokenText(Encode(bytes))
  {
    SextetsLength(bytes);
    var t := Encode(bytes);
    forall i | 0 <= i < |t| ensures IsTokenChar(t[i]) {
      if i >= |Sextets(bytes)| { assert t[i] == Padding(|bytes|)[i - |Sextets(bytes)|]; }
    }
  }

  /** Decoding an encoded byte sequence gives it back. */
  lemma RoundTrip(bytes: seq<Byte>)
    ensures Decode(Encode(bytes)) == Some(bytes)
  {
    var s := Sextets(bytes);
    EncodeShape(bytes);
    UnpaddedSpell(s, |bytes|);
    ValuesSpell(s);
    BytesOfSextets(bytes);
  }

  /**
   * A token of whole groups whose body spells `m` sextets ends in exactly the
   * padding `Encode` writes after the matching number of bytes.
   */
  lemma PaddingOfToken(token: seq<char>, n: nat)
    requires |token| % 4 == 0 && IsAlphabetText(Unpadded(token))
    requires var m := |Unpadded(token)|; m % 4 != 1 && n == 3 * (m / 4) + (if m % 4 == 0 then 0 else m % 4 - 1)
    ensures token == Unpadded(token) + Padding(n)
  {
    var body := Unpadded(token);
    if |body| == |token| {
      assert body == token;
    } else if |body| == |token| - 1 {
      assert token == body + [Pad];
    } else {
      assert token == body + [Pad, Pad];
    }
  }

  /**
   * Decoding accepts only canonical tokens: whatever it accepts is exactly
   * what `Encode` produces for the decoded bytes.
   */
  lemma Canonical(token: seq<char>)
    requires Decode(token).Some?
    ensures Encode(Decode(token).value) == token
  {
    var body := Unpadded(token);
    var s := Values(body);
    var bytes := Bytes(s).value;
    SextetsOfBytes(s);
    SpellValues(body);
    BytesLength(s);
    PaddingOfToken(token, |bytes|);
  }

  /** The test vectors of section 10 of RFC 4648 for one, two and three bytes. */
  lemma TestVectors()
    ensures Encode([102]) == "Zg=="
    ensures Encode([102, 111]) == "Zm8="
    ensures Encode([102, 111, 111]) == "Zm9v"
    ensures Encode([102, 111, 111, 98, 97, 114]) == "Zm9vYmFy"
  {
    assert Sextets([102]) == [25, 32];
    assert Sextets([102, 111]) == [25, 38, 60];
    assert Sextets([102, 111, 111]) == [25, 38, 61, 47];
    assert Sextets([98, 97, 114]) == [24, 38, 5, 50];
    assert [102, 111, 111, 98, 97, 114][3..] == [98, 97, 114];
  }

  /** Only texts of whole 4-character groups decode. */
  lemma DecodeLength(token: seq<char>)
    requires |token| % 4 != 0
    ensures Decode(token) == None
  {
  }
}
