/**
 * Digits and integer text: the decimal and hexadecimal notations the adapter
 * reads and writes.  `ParseBigUint` is num-bigint's `BigUint::from_str`
 * (radix 10), the parser behind every `from_str` call in wasm/src/lib.rs;
 * `NatToDecimal` and `ToHex` are the integer-to-text conversions of
 * JavaScript (`${n}`, `Array.prototype.toString`, `n.toString(16)`).
 */
module Text {
  import opened Wrappers
  import opened Bytes

  predicate IsDigit(c: char)
  {
    '0' <= c <= '9'
  }

  function DigitValue(c: char): (d: nat)
    requires IsDigit(c)
    ensures d < 10
  {
    c as int - '0' as int
  }

  predicate AllDigits(s: string)
  {
    forall i :: 0 <= i < |s| ==> IsDigit(s[i])
  }

  /** The value of a string of decimal digits, most significant digit first. */
  function DecimalValue(s: string): nat
    requires AllDigits(s)
  {
    if s == [] then 0 else 10 * DecimalValue(s[..|s| - 1]) + DigitValue(s[|s| - 1])
  }

  function DigitChar(d: nat): (c: char)
    requires d < 10
    ensures IsDigit(c) && DigitValue(c) == d
  {
    ('0' as int + d) as char
  }

  /** Decimal text of n without leading zeros ("0" for zero). */
  function NatToDecimal(n: nat): (s: string)
    ensures |s| >= 1 && AllDigits(s)
    ensures DecimalValue(s) == n
    ensures s[0] == '0' ==> n == 0
  {
    if n < 10 then
      [DigitChar(n)]
    else
      var s := NatToDecimal(n / 10) + [DigitChar(n % 10)];
      assert s[..|s| - 1] == NatToDecimal(n / 10);
      s
  }

  predicate IsHexDigit(c: char)
  {
    IsDigit(c) || 'a' <= c <= 'f' || 'A' <= c <= 'F'
  }

  function HexDigitValue(c: char): (d: nat)
    requires IsHexDigit(c)
    ensures d < 16
  {
    if IsDigit(c) then DigitValue(c)
    else if 'a' <= c <= 'f' then c as int - 'a' as int + 10
    else c as int - 'A' as int + 10
  }

  predicate AllHexDigits(s: string)
  {
    forall i :: 0 <= i < |s| ==> IsHexDigit(s[i])
  }

  /** The value of a string of hexadecimal digits, most significant digit first. */
  function HexValue(s: string): nat
    requires AllHexDigits(s)
  {
    if s == [] then 0 else 16 * HexValue(s[..|s| - 1]) + HexDigitValue(s[|s| - 1])
  }

  /** The lower-case hexadecimal digit for d. */
  function HexChar(d: nat): (c: char)
    requires d < 16
    ensures IsHexDigit(c) && HexDigitValue(c) == d
  {
    if d < 10 then DigitChar(d) else ('a' as int + d - 10) as char
  }

  /** `n.toString(16)` for n >= 0: lower-case hexadecimal without leading zeros. */
  function ToHex(n: nat): (s: string)
    ensures |s| >= 1 && AllHexDigits(s)
    ensures HexValue(s) == n
    ensures s[0] == '0' ==> n == 0
  {
    if n < 16 then
      [HexChar(n)]
    else
      var s := ToHex(n / 16) + [HexChar(n % 16)];
      assert s[..|s| - 1] == ToHex(n / 16);
      s
  }

  /** 16^k. */
  function Pow16(k: nat): (r: nat)
    ensures r >= 1
  {
    if k == 0 then 1 else 16 * Pow16(k - 1)
  }

  /** Two hexadecimal digits make one byte. */
  lemma {:induction false} Pow16Double(k: nat)
    ensures Pow16(2 * k) == Pow256(k)
  {
    if k > 0 {
      Pow16Double(k - 1);
      assert Pow16(2 * k) == 16 * (16 * Pow16(2 * (k - 1)));
    }
  }

  /** k hexadecimal digits denote less than 16^k. */
  lemma {:induction false} HexValueBound(s: string)
    requires AllHexDigits(s)
    ensures HexValue(s) < Pow16(|s|)
  {
    if s != [] {
      HexValueBound(s[..|s| - 1]);
    }
  }

  /** Leading '0's do not change the value. */
  lemma {:induction false} HexValueLeadingZeros(z: string, s: string)
    requires forall i :: 0 <= i < |z| ==> z[i] == '0'
    requires AllHexDigits(s)
    ensures AllHexDigits(z + s) && HexValue(z + s) == HexValue(s)
  {
    if s == [] {
      assert z + s == z;
      if z != [] {
        HexValueLeadingZeros(z[..|z| - 1], []);
        assert z[..|z| - 1] + [] == z[..|z| - 1];
      }
    } else {
      assert (z + s)[..|z + s| - 1] == z + s[..|s| - 1];
      HexValueLeadingZeros(z, s[..|s| - 1]);
    }
  }

  /** A number below 16^k needs at most k hexadecimal digits. */
  lemma {:induction false} ToHexLength(n: nat, k: nat)
    requires k >= 1 && n < Pow16(k)
    ensures |ToHex(n)| <= k
  {
    if n >= 16 {
      assert k >= 2;
      DivModUnique(n, 16, n / 16, n % 16);
      assert n / 16 < Pow16(k - 1);
      ToHexLength(n / 16, k - 1);
    }
  }

  // ---------------------------------------------------------------------
  // num-bigint's decimal parser.

  /** One leading '+' is dropped, unless a second '+' follows it. */
  function StripPlus(s: string): string
  {
    if |s| >= 1 && s[0] == '+' && !(|s| >= 2 && s[1] == '+') then s[1..] else s
  }

  predicate DigitsOrSeparators(t: string)
  {
    forall i :: 0 <= i < |t| ==> IsDigit(t[i]) || t[i] == '_'
  }

  /** The digits of t with the '_' separators taken out. */
  function WithoutSeparators(t: string): (r: string)
    requires DigitsOrSeparators(t)
    ensures AllDigits(r) && |r| <= |t|
  {
    if t == [] then []
    else if t[0] == '_' then WithoutSeparators(t[1..])
    else [t[0]] + WithoutSeparators(t[1..])
  }

  /**
   * `BigUint::from_str`: an optional single '+', then a non-empty run of decimal
   * digits and '_' separators that does not start with '_'.  Anything else,
   * including "", "-5" and "1.5", is a parse error.
   */
  function ParseBigUint(s: string): (r: Option<nat>)
  {
    var t := StripPlus(s);
    if t == [] || t[0] == '_' || !DigitsOrSeparators(t) then None
    else Some(DecimalValue(WithoutSeparators(t)))
  }

  lemma {:induction false} WithoutSeparatorsOfDigits(t: string)
    requires AllDigits(t)
    ensures WithoutSeparators(t) == t
  {
    if t != [] {
      WithoutSeparatorsOfDigits(t[1..]);
    }
  }

  /** Decimal text parses back to the number it was made from. */
  lemma ParseDecimalRoundTrip(n: nat)
    ensures ParseBigUint(NatToDecimal(n)) == Some(n)
  {
    var s := NatToDecimal(n);
    assert StripPlus(s) == s;
    WithoutSeparatorsOfDigits(s);
  }

  /** A successful parse means the text was digits (after an optional '+'), and nothing else. */
  lemma ParseBigUintAccepts(s: string)
    requires ParseBigUint(s).Some?
    ensures |s| >= 1 && (IsDigit(s[0]) || (s[0] == '+' && |s| >= 2 && IsDigit(s[1])))
    ensures forall i :: 1 <= i < |s| ==> IsDigit(s[i]) || s[i] == '_'
  {
    var t := StripPlus(s);
    if t != s {
      assert forall i :: 1 <= i < |s| ==> s[i] == t[i - 1];
    }
  }
}
