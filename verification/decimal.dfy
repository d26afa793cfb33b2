/** Non-negative integers as decimal text: how Python's `str(int)` prints a
    count, and how a JSON reader or a reader of the report takes it back. */
module Decimal {

  import opened Wrappers

  predicate IsDigit(c: char) {
    '0' <= c <= '9'
  }

  predicate AllDigits(s: string) {
    forall i :: 0 <= i < |s| ==> IsDigit(s[i])
  }

  function DigitChar(d: nat): (c: char)
    requires d < 10
    ensures IsDigit(c)
  {
    ('0' as int + d) as char
  }

  function DigitValue(c: char): (d: nat)
    requires IsDigit(c)
    ensures d < 10
  {
    c as int - '0' as int
  }

  /** Decimal text without superfluous leading zeros, as Python prints an
      `int` and as JSON requires a number to be written. */
  predicate Canonical(s: string) {
    |s| >= 1 && AllDigits(s) && (s[0] == '0' ==> |s| == 1)
  }

  /** The value of a string of digits, most significant first. */
  function Value(s: string): nat
    requires AllDigits(s)
  {
    if s == [] then 0 else Value(s[..|s| - 1]) * 10 + DigitValue(s[|s| - 1])
  }

  /** `str(n)` for a non-negative `n`. */
  function Show(n: nat): (s: string)
    ensures Canonical(s)
    ensures s[0] == '0' <==> n == 0
  {
    if n < 10 then [DigitChar(n)]
    else Show(n / 10) + [DigitChar(n % 10)]
  }

  /** Reads a whole string as a canonical decimal number. */
  function ReadNat(s: string): Option<nat> {
    if Canonical(s) then Some(Value(s)) else None
  }

  /** Length of the longest run of digits at the start of `t`. */
  function LeadingDigits(t: string): (n: nat)
    ensures n <= |t|
    ensures AllDigits(t[..n])
    ensures n < |t| ==> !IsDigit(t[n])
  {
    if t == [] || !IsDigit(t[0]) then 0 else 1 + LeadingDigits(t[1..])
  }

  /** Length of the longest run of digits at the end of `t`. */
  function TrailingDigits(t: string): (n: nat)
    ensures n <= |t|
    ensures AllDigits(t[|t| - n..])
    ensures n < |t| ==> !IsDigit(t[|t| - n - 1])
  {
    if t == [] || !IsDigit(t[|t| - 1]) then 0
    else
      var n := 1 + TrailingDigits(t[..|t| - 1]);
      assert t[|t| - n..] == t[..|t| - 1][|t| - n..] + [t[|t| - 1]];
      n
  }

  /** Reading back what `Show` printed gives the number again. */
  lemma {:induction false} ReadShow(n: nat)
    ensures ReadNat(Show(n)) == Some(n)
  {
    var s := Show(n);
    if n >= 10 {
      ReadShow(n / 10);
      assert s[..|s| - 1] == Show(n / 10);
      assert DigitValue(s[|s| - 1]) == n % 10;
    } else {
      assert s[..|s| - 1] == [];
      assert Value(s) == Value(s[..|s| - 1]) * 10 + DigitValue(s[0]);
      assert DigitValue(s[0]) == n;
    }
  }

  /** A number printed in front of text that does not start with a digit is
      read up to exactly its last digit. */
  lemma {:induction false} LeadingDigitsOfShow(n: nat, rest: string)
    requires rest == [] || !IsDigit(rest[0])
    ensures LeadingDigits(Show(n) + rest) == |Show(n)|
  {
    LeadingDigitsOfDigits(Show(n), rest);
  }

  lemma {:induction false} LeadingDigitsOfDigits(p: string, rest: string)
    requires AllDigits(p)
    requires rest == [] || !IsDigit(rest[0])
    ensures LeadingDigits(p + rest) == |p|
  {
    if p != [] {
      assert (p + rest)[1..] == p[1..] + rest;
      LeadingDigitsOfDigits(p[1..], rest);
    }
  }

  /** A number printed after text that does not end in a digit is read back
      from the end up to exactly its first digit. */
  lemma {:induction false} TrailingDigitsOfShow(front: string, n: nat)
    requires front == [] || !IsDigit(front[|front| - 1])
    ensures TrailingDigits(front + Show(n)) == |Show(n)|
  {
    TrailingDigitsOfDigits(front, Show(n));
  }

  lemma {:induction false} TrailingDigitsOfDigits(front: string, p: string)
    requires AllDigits(p)
    requires front == [] || !IsDigit(front[|front| - 1])
    ensures TrailingDigits(front + p) == |p|
  {
    if p != [] {
      assert (front + p)[..|front + p| - 1] == front + p[..|p| - 1];
      TrailingDigitsOfDigits(front, p[..|p| - 1]);
    } else {
      assert front + p == front;
    }
  }
}
