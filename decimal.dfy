/** Canonical decimal text of a non-negative count, as strconv.Itoa produces it. */
module Decimal {

  predicate IsDigit(c: char) {
    '0' <= c <= '9'
  }

  function DigitChar(d: nat): (c: char)
    requires d < 10
    ensures IsDigit(c) && c as int - '0' as int == d
  {
    ('0' as int + d) as char
  }

  function DigitValue(c: char): (d: nat)
    requires IsDigit(c)
    ensures d < 10 && DigitChar(d) == c
  {
    c as int - '0' as int
  }

  function Pow10(k: nat): (p: nat)
    ensures p >= 1
  {
    if k == 0 then 1 else 10 * Pow10(k - 1)
  }

  /** Decimal digits of n, most significant first, with no leading zero except for 0 itself. */
  function Itoa(n: nat): (s: string)
    ensures |s| >= 1
    ensures forall k :: 0 <= k < |s| ==> IsDigit(s[k])
    ensures s[0] == '0' ==> n == 0 && s == "0"
    decreases n
  {
    if n < 10 then [DigitChar(n)] else Itoa(n / 10) + [DigitChar(n % 10)]
  }

  /** Value of a string of decimal digits (the reading a client gives to the text reply). */
  function Atoi(s: string): nat
    requires forall k :: 0 <= k < |s| ==> IsDigit(s[k])
  {
    if s == [] then 0
    else Atoi(s[..|s| - 1]) * 10 + DigitValue(s[|s| - 1])
  }

  /** Reading the decimal text back gives the count that was written. */
  lemma {:induction false} AtoiItoa(n: nat)
    ensures Atoi(Itoa(n)) == n
    decreases n
  {
    var s := Itoa(n);
    if n >= 10 {
      AtoiItoa(n / 10);
      assert s[..|s| - 1] == Itoa(n / 10);
    }
  }

  /** The text has D characters exactly when n has D decimal digits:
      10^(D-1) <= n < 10^D, with 0 counting as one digit. */
  lemma {:induction false} ItoaLength(n: nat)
    ensures n < Pow10(|Itoa(n)|)
    ensures |Itoa(n)| > 1 ==> Pow10(|Itoa(n)| - 1) <= n
    decreases n
  {
    if n >= 10 {
      ItoaLength(n / 10);
    }
  }
}
