/** Decimal rendering and parsing of 64-bit integers: strconv.FormatInt (and "%d")
    against strconv.ParseInt and strconv.Atoi with base 10. */
module Decimal {
  import opened Strings

  type Int64 = x: int | -0x8000_0000_0000_0000 <= x < 0x8000_0000_0000_0000

  predicate IsDigit(c: char) { '0' <= c <= '9' }

  function DigitChar(d: nat): (c: Octet)
    requires d < 10
    ensures IsDigit(c) && DigitValue(c) == d
  {
    ('0' as int + d) as char
  }

  function DigitValue(c: char): (d: nat)
    requires IsDigit(c)
    ensures d < 10
  {
    c as int - '0' as int
  }

  predicate AllDigits(s: string) {
    forall i :: 0 <= i < |s| ==> IsDigit(s[i])
  }

  function FormatNat(n: nat): (s: GoString)
    ensures s != [] && AllDigits(s)
  {
    if n < 10 then [DigitChar(n)] else FormatNat(n / 10) + [DigitChar(n % 10)]
  }

  function FormatInt(x: int): (s: GoString)
    ensures s != [] && (IsDigit(s[0]) || s[0] == '-')
    ensures forall i :: 0 <= i < |s| ==> IsDigit(s[i]) || s[i] == '-'
  {
    if x < 0 then ['-'] + FormatNat(-x) else FormatNat(x)
  }

  /** The number a digit string denotes. */
  function NatOfDigits(s: string): nat
    requires AllDigits(s)
  {
    if s == [] then 0 else 10 * NatOfDigits(s[..|s| - 1]) + DigitValue(s[|s| - 1])
  }

  /** strconv.ParseInt(s, 10, 64): an optional sign, at least one digit, nothing else, and in range. */
  function ParseInt(s: string): Option<Int64>
  {
    var digits := if s != [] && (s[0] == '+' || s[0] == '-') then s[1..] else s;
    if digits == [] || !AllDigits(digits) then None
    else
      var n: int := NatOfDigits(digits);
      if s[0] == '-' then if n <= 0x8000_0000_0000_0000 then Some(-n) else None
      else if n < 0x8000_0000_0000_0000 then Some(n) else None
  }

  lemma {:induction false} NatRoundTrip(n: nat)
    ensures NatOfDigits(FormatNat(n)) == n
  {
    var s := FormatNat(n);
    if n >= 10 {
      NatRoundTrip(n / 10);
      assert s[..|s| - 1] == FormatNat(n / 10);
    } else {
      assert s[..|s| - 1] == [];
    }
  }

  lemma ParseUnsigned(digits: string)
    requires digits != [] && AllDigits(digits) && NatOfDigits(digits) < 0x8000_0000_0000_0000
    ensures ParseInt(digits) == Some(NatOfDigits(digits))
  {
    assert IsDigit(digits[0]);
  }

  lemma ParseSigned(digits: string)
    requires digits != [] && AllDigits(digits) && NatOfDigits(digits) <= 0x8000_0000_0000_0000
    ensures ParseInt(['-'] + digits) == Some(0 - NatOfDigits(digits))
  {
    assert (['-'] + digits)[1..] == digits;
  }

  /** Parsing undoes formatting for every 64-bit integer, the most negative one included. */
  lemma ParseFormat(x: Int64)
    ensures ParseInt(FormatInt(x)) == Some(x)
  {
    var y: int := x;
    if y < 0 {
      NatRoundTrip(-y);
      ParseSigned(FormatNat(-y));
    } else {
      NatRoundTrip(y);
      ParseUnsigned(FormatNat(y));
    }
  }

  lemma FormatIntInjective(x: Int64, y: Int64)
    requires FormatInt(x) == FormatInt(y)
    ensures x == y
  {
    ParseFormat(x);
    ParseFormat(y);
  }

  /** A text whose first character is neither a digit nor a sign is not a number. */
  lemma ParseNeedsNumber(s: string)
    requires s != [] && !IsDigit(s[0]) && s[0] != '+' && s[0] != '-'
    ensures ParseInt(s) == None
  {
  }

  /** A number and one more digit, written in order. */
  lemma DigitsInOrder(n: nat, d: nat)
    requires d < 10 && n > 0
    ensures FormatInt(10 * n + d) == FormatInt(n) + ["0123456789"[d]] && FormatInt(d) == ["0123456789"[d]]
    ensures FormatInt(0 - n) == "-" + FormatInt(n)
  {
  }
}
