/**
 * Numbers as text: the decimal form `${n}` gives an integer id, and the
 * "is this field numeric" test (`isNaN(field)`) with the value `field * 1`.
 */
module Numbers {
  import opened Strings

  predicate IsDigit(c: char) {
    '0' <= c <= '9'
  }

  /** A non-empty run of decimal digits. */
  predicate IsDigits(s: string) {
    |s| > 0 && forall i :: 0 <= i < |s| ==> IsDigit(s[i])
  }

  function DigitChar(d: int): (c: char)
    requires 0 <= d < 10
    ensures IsDigit(c) && c as int - '0' as int == d
  {
    ('0' as int + d) as char
  }

  /** The decimal digits of a natural number, most significant first, without leading zeros. */
  function NatToString(n: nat): string
    decreases n
  {
    if n < 10 then [DigitChar(n)] else NatToString(n / 10) + [DigitChar(n % 10)]
  }

  /** `${n}` for an integer: a minus sign for negative numbers, then the digits. */
  function IntToString(n: int): string {
    if n < 0 then "-" + NatToString(-n) else NatToString(n)
  }

  /** The value of a run of decimal digits. */
  function DigitsValue(s: string): nat
    requires IsDigits(s)
    decreases |s|
  {
    var last := s[|s| - 1] as int - '0' as int;
    if |s| == 1 then last else DigitsValue(s[..|s| - 1]) * 10 + last
  }

  /**
   * The text forms that `isNaN` accepts and this model covers: the empty
   * text (which JavaScript reads as 0), and decimal digits with an optional
   * `+` or `-` sign.
   */
  predicate IsNumeric(s: string) {
    s == "" || IsDigits(s) || (|s| >= 2 && (s[0] == '+' || s[0] == '-') && IsDigits(s[1..]))
  }

  /** `s * 1` for a numeric text. */
  /**
   * A character JavaScript's `Number(text)` skips as leading white space:
   * the white space and line terminators of ECMAScript (tab, line feed,
   * vertical tab, form feed, carriage return, U+FEFF, U+2028, U+2029) and
   * the space separators of Unicode.
   */
  predicate IsJsWhiteSpace(c: char) {
    c == ' ' || c == '\t' || c == '\n' || c == '\U{B}' || c == '\U{C}' || c == '\r'
    || c == '\U{A0}' || c == '\U{1680}' || '\U{2000}' <= c <= '\U{200A}' || c == '\U{2028}'
    || c == '\U{2029}' || c == '\U{202F}' || c == '\U{205F}' || c == '\U{3000}' || c == '\U{FEFF}'
  }

  /**
   * Text that `isNaN` might read as a number: the empty text, or text whose
   * first character is white space, a digit, a sign, `.` or the `I` of
   * `Infinity`.  Every text `Number` accepts starts so, decimal, `0x`, `0o`,
   * `0b` and exponent forms included; text outside this set is never
   * numeric in JavaScript.
   */
  predicate MayReadAsNumber(s: string) {
    s == [] || IsJsWhiteSpace(s[0]) || IsDigit(s[0]) || s[0] in "+-.I"
  }

  /** The numeric texts of this model are among those JavaScript may read as numbers. */
  lemma NumericMayReadAsNumber(s: string)
    requires IsNumeric(s)
    ensures MayReadAsNumber(s)
  {
    if s != [] && IsDigits(s) {
      assert IsDigit(s[0]);
    }
  }

  function NumericValue(s: string): int
    requires IsNumeric(s)
  {
    if s == "" then 0
    else if IsDigits(s) then DigitsValue(s)
    else if s[0] == '-' then 0 - DigitsValue(s[1..])
    else DigitsValue(s[1..])
  }

  /** The digits of `n` are digits, and they read back as `n`. */
  lemma {:induction false} NatToStringValue(n: nat)
    ensures IsDigits(NatToString(n))
    ensures DigitsValue(NatToString(n)) == n
    decreases n
  {
    if n >= 10 {
      NatToStringValue(n / 10);
      var s := NatToString(n);
      assert s[..|s| - 1] == NatToString(n / 10);
    }
  }

  /** The decimal form of an integer is numeric text of that very value: numbers round-trip. */
  lemma IntToStringValue(n: int)
    ensures IsNumeric(IntToString(n))
    ensures NumericValue(IntToString(n)) == n
  {
    if n < 0 {
      NatToStringValue(-n);
      assert IntToString(n)[1..] == NatToString(-n);
    } else {
      NatToStringValue(n);
    }
  }

  /** The decimal form of an integer is ASCII and free of the delimiter. */
  lemma IntToStringPlain(n: int)
    ensures IsAscii(IntToString(n))
    ensures Delimiter !in IntToString(n)
  {
    NatToStringValue(if n < 0 then -n else n);
    var s := IntToString(n);
    if n < 0 {
      assert forall i :: 1 <= i < |s| ==> s[i] == NatToString(-n)[i - 1];
    }
  }
}
