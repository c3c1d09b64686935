/** Decimal numerals as the C library prints and scans them. */
module Decimal {
  import opened Options

  /** The number of values of the source's 32-bit `unsigned int`. */
  const UINT_RANGE: nat := 0x1_0000_0000

  predicate IsDigit(c: char) {
    '0' <= c <= '9'
  }

  predicate AllDigits(s: string) {
    forall i :: 0 <= i < |s| ==> IsDigit(s[i])
  }

  function DigitChar(d: nat): (c: char)
    requires d < 10
    ensures IsDigit(c) && DigitValue(c) == d
  {
    '0' + d as char
  }

  function DigitValue(c: char): nat
    requires IsDigit(c)
  {
    c as nat - '0' as nat
  }

  /** The numeral `operator<<` or `%u` writes. */
  function Print(n: nat): string {
    if n < 10 then [DigitChar(n)] else Print(n / 10) + [DigitChar(n % 10)]
  }

  function Value(s: string): nat
    requires AllDigits(s)
  {
    if s == [] then 0 else 10 * Value(s[..|s| - 1]) + DigitValue(s[|s| - 1])
  }

  /** A numeral without superfluous leading zeros. */
  predicate Canonical(s: string) {
    s != [] && AllDigits(s) && (|s| > 1 ==> s[0] != '0')
  }

  lemma {:induction false} PrintIsCanonical(n: nat)
    ensures Canonical(Print(n))
    ensures Value(Print(n)) == n
    ensures n > 0 ==> Print(n)[0] != '0'
  {
    if n >= 10 {
      PrintIsCanonical(n / 10);
      assert Print(n)[..|Print(n)| - 1] == Print(n / 10);
    } else {
      assert Print(n)[..0] == [];
    }
  }

  lemma {:induction false} CanonicalValuePositive(s: string)
    requires Canonical(s) && s[0] != '0'
    ensures Value(s) > 0
  {
    if |s| > 1 {
      CanonicalValuePositive(s[..|s| - 1]);
    }
  }

  /** Every canonical numeral is the printed form of its value. */
  lemma {:induction false} CanonicalIsPrinted(s: string)
    requires Canonical(s)
    ensures Print(Value(s)) == s
  {
    var front := s[..|s| - 1];
    if front == [] {
      assert Value(front) == 0;
      assert s == [s[0]];
    } else {
      CanonicalIsPrinted(front);
      CanonicalValuePositive(front);
      assert s == front + [s[|s| - 1]];
    }
  }

  /** The digits, and the order they are printed in. */
  lemma PrintedDigits(n: nat, d: nat)
    requires d < 10
    ensures Print(d) == ["0123456789"[d]]
    ensures n > 0 ==> Print(10 * n + d) == Print(n) + Print(d)
  {
    var m := 10 * n + d;
    assert m / 10 == n && m % 10 == d;
  }

  /** A zero in front does not count. With CanonicalIsPrinted this gives the value of any digits. */
  lemma {:induction false} LeadingZero(s: string)
    requires AllDigits(s)
    ensures Value("0" + s) == Value(s)
  {
    var t := "0" + s;
    if s == "" {
      assert t[..0] == "";
    } else {
      LeadingZero(s[..|s| - 1]);
      assert t[..|s|] == "0" + s[..|s| - 1];
    }
  }

  lemma PrintInjective(m: nat, n: nat)
    requires Print(m) == Print(n)
    ensures m == n
  {
    PrintIsCanonical(m);
    PrintIsCanonical(n);
  }

  /** The length of the longest prefix of digits. */
  function DigitRun(s: string): (n: nat)
    ensures n <= |s| && AllDigits(s[..n])
    ensures n < |s| ==> !IsDigit(s[n])
  {
    if s == [] || !IsDigit(s[0]) then 0 else 1 + DigitRun(s[1..])
  }

  lemma {:induction false} DigitRunOf(digits: string, rest: string)
    requires AllDigits(digits) && (rest != [] ==> !IsDigit(rest[0]))
    ensures DigitRun(digits + rest) == |digits|
  {
    if digits == [] {
      assert digits + rest == rest;
    } else {
      DigitRunOf(digits[1..], rest);
      assert (digits + rest)[1..] == digits[1..] + rest;
    }
  }

  predicate IsSpace(c: char) {
    c == ' ' || '\t' <= c <= '\r'
  }

  function SkipSpace(s: string): string {
    if s != [] && IsSpace(s[0]) then SkipSpace(s[1..]) else s
  }

  /** What `sscanf (s, "%u", ...)` stores: leading blanks and one sign are accepted, the
      conversion fails without a digit, and the value is reduced to 32 bits. */
  function ScanUnsigned(s: string): Option<nat> {
    var t := SkipSpace(s);
    var negative := t != [] && t[0] == '-';
    var u := if t != [] && (t[0] == '-' || t[0] == '+') then t[1..] else t;
    var n := DigitRun(u);
    if n == 0 then None
    else if negative then Some((0 - Value(u[..n])) % UINT_RANGE)
    else Some(Value(u[..n]) % UINT_RANGE)
  }

  /** Scanning a printed number that is not followed by a further digit gives it back. */
  lemma ScanPrinted(n: nat, rest: string)
    requires rest != [] ==> !IsDigit(rest[0])
    ensures ScanUnsigned(Print(n) + rest) == Some(n % UINT_RANGE)
  {
    PrintIsCanonical(n);
    var s := Print(n) + rest;
    assert IsDigit(s[0]) && SkipSpace(s) == s;
    DigitRunOf(Print(n), rest);
    assert s[..|Print(n)|] == Print(n);
  }

  /** Blanks, tabs and line ends before the number are skipped, one sign is accepted, and the digits up
      to the first other character are read; a minus sign negates modulo 2^32. Without a digit there
      is no number. */
  lemma ScanReads(blanks: string, sign: string, digits: string, rest: string)
    requires forall k :: 0 <= k < |blanks| ==> blanks[k] == ' ' || '\t' <= blanks[k] <= '\r'
    requires AllDigits(digits) && (rest != "" ==> !('0' <= rest[0] <= '9'))
    requires sign == "" || sign == "+" || sign == "-"
    requires digits == "" && sign == "" && rest != "" ==>
      rest[0] != '+' && rest[0] != '-' && !(rest[0] == ' ' || '\t' <= rest[0] <= '\r')
    ensures ScanUnsigned(blanks + (sign + (digits + rest))) ==
      if digits == "" then None
      else Some((if sign == "-" then 0 - Value(digits) else Value(digits)) % UINT_RANGE)
  {
    var tail := sign + (digits + rest);
    FirstOfTail(sign, digits, rest);
    SkipsBlanks(blanks, tail);
    DigitRunOf(digits, rest);
    hide SkipSpace, DigitRun, Value;
    UnsignedPart(blanks + tail, sign, digits, rest);
  }

  lemma UnsignedPart(s: string, sign: string, digits: string, rest: string)
    requires SkipSpace(s) == sign + (digits + rest) && AllDigits(digits) && DigitRun(digits + rest) == |digits|
    requires sign == "" || sign == "+" || sign == "-"
    requires sign == "" && digits + rest != "" ==> (digits + rest)[0] != '+' && (digits + rest)[0] != '-'
    ensures ScanUnsigned(s) ==
      if digits == "" then None
      else Some((if sign == "-" then 0 - Value(digits) else Value(digits)) % UINT_RANGE)
  {
    hide SkipSpace, DigitRun, Value;
    var t, u := SkipSpace(s), digits + rest;
    assert u[..|digits|] == digits;
    if sign == "" {
      assert t == u;
    } else {
      assert t[0] == sign[0] && t[1..] == u;
    }
  }

  lemma FirstOfTail(sign: string, digits: string, rest: string)
    requires |sign| <= 1
    ensures var tail := sign + (digits + rest);
            && (sign != "" ==> tail[0] == sign[0])
            && (sign == "" && digits != "" ==> tail[0] == digits[0])
            && (sign == "" && digits == "" && tail != "" ==> rest != "" && tail[0] == rest[0])
  {
  }

  lemma {:induction false} SkipsBlanks(blanks: string, tail: string)
    requires forall k :: 0 <= k < |blanks| ==> blanks[k] == ' ' || '\t' <= blanks[k] <= '\r'
    requires tail != "" ==> !IsSpace(tail[0])
    ensures SkipSpace(blanks + tail) == tail
  {
    if blanks == "" {
      assert blanks + tail == tail;
    } else {
      assert (blanks + tail)[1..] == blanks[1..] + tail;
      SkipsBlanks(blanks[1..], tail);
    }
  }
}
