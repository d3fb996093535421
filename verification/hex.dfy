/**
 * Python's `hex()` on a non-negative integer: "0x" followed by the
 * lowercase hexadecimal digits of the value, without leading zeros
 * ("0x0" for zero). Used for the names of unregistered entry types.
 */
module Hex {

  const Alphabet: string := "0123456789abcdef"

  predicate IsLowerHexDigit(c: char) {
    c in Alphabet
  }

  /** The value of one lowercase hexadecimal digit. */
  function DigitValue(c: char): (d: nat)
    requires IsLowerHexDigit(c)
    ensures d < 16 && Alphabet[d] == c
  {
    if c == '0' then 0 else if c == '1' then 1 else if c == '2' then 2
    else if c == '3' then 3 else if c == '4' then 4 else if c == '5' then 5
    else if c == '6' then 6 else if c == '7' then 7 else if c == '8' then 8
    else if c == '9' then 9 else if c == 'a' then 10 else if c == 'b' then 11
    else if c == 'c' then 12 else if c == 'd' then 13 else if c == 'e' then 14
    else 15
  }

  lemma DigitValueOfAlphabet(d: nat)
    requires d < 16
    ensures DigitValue(Alphabet[d]) == d
  {
  }

  /** The digits of `n` in base 16, most significant first, without leading zeros. */
  function Digits(n: nat): (s: string)
    ensures |s| >= 1
    ensures n < 16 ==> s == [Alphabet[n]]
    ensures forall i :: 0 <= i < |s| ==> IsLowerHexDigit(s[i])
    ensures s[0] == '0' <==> n == 0
  {
    if n < 16 then [Alphabet[n]] else Digits(n / 16) + [Alphabet[n % 16]]
  }

  /** `hex(n)` as Python writes it. */
  function ToHex(n: nat): (s: string)
    ensures |s| >= 3 && s[..2] == "0x"
  {
    "0x" + Digits(n)
  }

  /** The value of a string of lowercase hexadecimal digits: the inverse of `Digits`. */
  function ParseDigits(s: string): (n: nat)
    requires forall i :: 0 <= i < |s| ==> IsLowerHexDigit(s[i])
  {
    if s == [] then 0 else 16 * ParseDigits(s[..|s| - 1]) + DigitValue(s[|s| - 1])
  }

  /** Reading back the digits of `n` gives `n`: `hex` loses no information. */
  lemma {:induction false} ParseDigitsOfDigits(n: nat)
    ensures ParseDigits(Digits(n)) == n
  {
    var s := Digits(n);
    DigitValueOfAlphabet(n % 16);
    if n >= 16 {
      assert s[..|s| - 1] == Digits(n / 16);
      ParseDigitsOfDigits(n / 16);
      assert n == 16 * (n / 16) + n % 16;
    }
  }

  /** Distinct values have distinct `hex` renderings. */
  lemma ToHexInjective(m: nat, n: nat)
    ensures ToHex(m) == ToHex(n) ==> m == n
  {
    if ToHex(m) == ToHex(n) {
      assert Digits(m) == ToHex(m)[2..] == ToHex(n)[2..] == Digits(n);
      ParseDigitsOfDigits(m);
      ParseDigitsOfDigits(n);
    }
  }
}
