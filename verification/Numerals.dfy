/** Decimal and hexadecimal numerals. */
module Numerals {
  predicate IsDigit(c: char) { '0' <= c <= '9' }
  predicate IsHexDigit(c: char) { IsDigit(c) || 'a' <= c <= 'f' || 'A' <= c <= 'F' }

  function DigitValue(c: char): (v: nat)
    ensures v < 16 && (IsDigit(c) ==> v < 10)
  {
    if IsDigit(c) then c as nat - '0' as nat
    else if 'a' <= c <= 'f' then c as nat - 'a' as nat + 10
    else if 'A' <= c <= 'F' then c as nat - 'A' as nat + 10
    else 0
  }

  predicate AllDigits(s: string) { forall k | 0 <= k < |s| :: IsDigit(s[k]) }
  predicate AllHexDigits(s: string) { forall k | 0 <= k < |s| :: IsHexDigit(s[k]) }

  /** The value of a numeral in base 10 or 16. */
  function NumeralValue(s: string, base: nat): nat {
    if s == "" then 0 else NumeralValue(s[..|s| - 1], base) * base + DigitValue(s[|s| - 1])
  }

  function Digit(d: nat): (c: char)
    requires d < 16
    ensures IsHexDigit(c) && DigitValue(c) == d && (d < 10 ==> IsDigit(c))
  {
    if d < 10 then d as char + '0' else (d - 10) as char + 'a'
  }

  /** The shortest numeral of `n`. */
  function Decimal(n: nat): (s: string)
    ensures s != ""
  {
    if n < 10 then [Digit(n)] else Decimal(n / 10) + [Digit(n % 10)]
  }

  function Hexadecimal(n: nat): (s: string)
    ensures s != ""
  {
    if n < 16 then [Digit(n)] else Hexadecimal(n / 16) + [Digit(n % 16)]
  }

  lemma {:induction false} DecimalValue(n: nat)
    ensures AllDigits(Decimal(n)) && NumeralValue(Decimal(n), 10) == n
  {
    var s := Decimal(n);
    if n < 10 {
      assert s[..|s| - 1] == "";
    } else {
      DecimalValue(n / 10);
      assert s[..|s| - 1] == Decimal(n / 10);
    }
  }

  lemma {:induction false} HexadecimalValue(n: nat)
    ensures AllHexDigits(Hexadecimal(n)) && NumeralValue(Hexadecimal(n), 16) == n
  {
    var s := Hexadecimal(n);
    if n < 16 {
      assert s[..|s| - 1] == "";
    } else {
      HexadecimalValue(n / 16);
      assert s[..|s| - 1] == Hexadecimal(n / 16);
    }
  }

  /** How many digits are left once the leading zeros are gone. */
  function Significant(s: string): nat {
    if s == "" then 0 else if s[0] == '0' then Significant(s[1..]) else |s|
  }

  function Power16(n: nat): nat { if n == 0 then 1 else 16 * Power16(n - 1) }

  lemma {:induction false} PowerGrows(m: nat, n: nat)
    requires m <= n
    ensures Power16(m) <= Power16(n)
    decreases n
  {
    if m < n {
      PowerGrows(m, n - 1);
    }
  }

  lemma {:induction false} ValueBelowPower(s: string)
    requires AllHexDigits(s)
    ensures NumeralValue(s, 16) < Power16(|s|)
    decreases |s|
  {
    if s != "" {
      ValueBelowPower(s[..|s| - 1]);
    }
  }

  lemma {:induction false} LeadingZero(s: string)
    requires AllHexDigits(s) && s != "" && s[0] == '0'
    ensures NumeralValue(s, 16) == NumeralValue(s[1..], 16)
    decreases |s|
  {
    if |s| == 1 {
      assert s[..0] == "";
    } else {
      LeadingZero(s[..|s| - 1]);
      assert s[1..][..|s| - 2] == s[..|s| - 1][1..];
    }
  }

  lemma {:induction false} ValueAbovePower(s: string)
    requires AllHexDigits(s) && s != "" && s[0] != '0'
    ensures NumeralValue(s, 16) >= Power16(|s| - 1)
    decreases |s|
  {
    if |s| > 1 {
      ValueAbovePower(s[..|s| - 1]);
    } else {
      assert DigitValue(s[0]) > 0;
    }
  }

  /** A hexadecimal numeral is below 16 to the `n` exactly when it has at most `n` significant digits. */
  lemma {:induction false} SignificantBound(s: string, n: nat)
    requires AllHexDigits(s)
    ensures NumeralValue(s, 16) < Power16(n) <==> Significant(s) <= n
    decreases |s|
  {
    if s != "" {
      if s[0] == '0' {
        LeadingZero(s);
        SignificantBound(s[1..], n);
      } else {
        ValueBelowPower(s);
        ValueAbovePower(s);
        if |s| <= n {
          PowerGrows(|s|, n);
        } else {
          PowerGrows(n, |s| - 1);
        }
      }
    } else {
      PowerGrows(0, n);
    }
  }
}
