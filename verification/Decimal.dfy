/** Decimal digit strings and the standard library's bounded integer parsing. */
module Decimal {
  import opened Options

  predicate IsDigit(c: char) {
    '0' <= c <= '9'
  }

  predicate AllDigits(s: string) {
    forall i :: 0 <= i < |s| ==> IsDigit(s[i])
  }

  /** The number a digit string writes, most significant digit first. */
  function Value(s: string): nat
    requires AllDigits(s)
  {
    if s == "" then 0 else 10 * Value(s[..|s| - 1]) + (s[|s| - 1] as int - '0' as int)
  }

  /** `str::parse` for an unsigned type whose largest value is `max`: an optional `+`, then digits. */
  function ParseUnsigned(s: string, max: nat): Option<nat> {
    var digits := if "+" <= s then s[1..] else s;
    if digits == "" || !AllDigits(digits) || Value(digits) > max then None else Some(Value(digits))
  }

  /** `str::parse` for a signed type with least value `-(max + 1)`, on a text that starts with `-`. */
  function ParseNegative(s: string, max: nat): Option<int>
    requires "-" <= s
  {
    var digits := s[1..];
    if digits == "" || !AllDigits(digits) || Value(digits) > max + 1 then None else Some(0 - Value(digits))
  }

  /** Decimal printing, without leading zeros. */
  function Print(n: nat): (s: string)
    ensures s != "" && AllDigits(s)
  {
    if n < 10 then [('0' as int + n) as char] else Print(n / 10) + [('0' as int + n % 10) as char]
  }

  /** The digit of each value below ten. */
  const DIGITS := "0123456789"

  ghost function Power(n: nat): nat {
    if n == 0 then 1 else 10 * Power(n - 1)
  }

  lemma DigitExact(c: char)
    ensures IsDigit(c) <==> c in DIGITS
    ensures IsDigit(c) ==> 0 <= c as int - '0' as int < 10 && DIGITS[c as int - '0' as int] == c
  {
    assert DIGITS[0] == '0' && DIGITS[1] == '1' && DIGITS[2] == '2' && DIGITS[3] == '3' && DIGITS[4] == '4';
    assert DIGITS[5] == '5' && DIGITS[6] == '6' && DIGITS[7] == '7' && DIGITS[8] == '8' && DIGITS[9] == '9';
  }

  lemma ValueLast(s: string, c: char)
    requires AllDigits(s) && IsDigit(c)
    ensures AllDigits(s + [c]) && Value(s + [c]) == 10 * Value(s) + (c as int - '0' as int)
  {
    assert (s + [c])[..|s|] == s;
  }

  lemma TenTimes(d: nat, p: nat)
    ensures d * (10 * p) == 10 * (d * p)
  {}

  /** A digit counts ten times as much as the same digit one place behind it. */
  lemma {:induction false} ValueExact(c: char, s: string)
    requires IsDigit(c) && AllDigits(s)
    ensures AllDigits([c] + s) && Value([c] + s) == (c as int - '0' as int) * Power(|s|) + Value(s)
  {
    if s == "" {
      ValueLast("", c);
      assert "" + [c] == [c] + s;
    } else {
      hide Value;
      var n := |s| - 1;
      ValueExact(c, s[..n]);
      ValueLast([c] + s[..n], s[n]);
      ValueLast(s[..n], s[n]);
      TenTimes(c as int - '0' as int, Power(n));
      assert s == s[..n] + [s[n]] && [c] + s == [c] + s[..n] + [s[n]];
    }
  }

  /** An unsigned number is an optional plus sign and digits, in range. */
  lemma ParseUnsignedExact(s: string, max: nat, n: nat)
    ensures ParseUnsigned(s, max) == Some(n) <==>
            n <= max && exists digits :: (s == digits || s == "+" + digits) && Writes(digits, n)
  {
    var digits := if "+" <= s then s[1..] else s;
    assert "+" <= s ==> s == "+" + digits;
    if ParseUnsigned(s, max) == Some(n) {
      assert Writes(digits, n);
    }
    forall d | (s == d || s == "+" + d) && Writes(d, n) ensures d == digits {
      assert s == "+" + d ==> s[1..] == d;
      assert s == d ==> s[0] != '+';
    }
  }

  ghost predicate Writes(digits: string, n: nat) {
    digits != "" && AllDigits(digits) && Value(digits) == n
  }

  lemma ParseNegativeExact(s: string, max: nat, n: int)
    requires "-" <= s
    ensures ParseNegative(s, max) == Some(n) <==>
            -(max as int) - 1 <= n <= 0 && exists digits :: s == "-" + digits && Writes(digits, -n)
  {
    assert s == "-" + s[1..];
    forall d | s == "-" + d ensures d == s[1..] {
      assert ("-" + d)[1..] == d;
    }
    if ParseNegative(s, max) == Some(n) {
      assert Writes(s[1..], -n);
    }
  }

  /** A number is printed without a leading zero. */
  lemma {:induction false} PrintLeads(n: nat)
    ensures n > 0 ==> Print(n)[0] != '0'
    ensures n < 10 ==> |Print(n)| == 1
  {
    if n >= 10 {
      PrintLeads(n / 10);
    }
  }

  lemma {:induction false} ValuePrint(n: nat)
    ensures Value(Print(n)) == n
  {
    var s := Print(n);
    if n < 10 {
      assert s[..0] == "";
    } else {
      assert s[..|s| - 1] == Print(n / 10);
      ValuePrint(n / 10);
    }
  }

  /** Printing then parsing gives back every number the type holds. */
  lemma ParsePrint(n: nat, max: nat)
    requires n <= max
    ensures ParseUnsigned(Print(n), max) == Some(n)
  {
    ValuePrint(n);
    assert IsDigit(Print(n)[0]);
  }
}
