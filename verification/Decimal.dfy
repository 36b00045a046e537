/** Decimal text as the C++ runtime writes and reads it: std::to_string, std::from_chars, std::stoll. */
module Decimal {
  import opened Common

  predicate IsDigit(c: char) { '0' <= c <= '9' }

  predicate AllDigits(s: string) { forall i :: 0 <= i < |s| ==> IsDigit(s[i]) }

  function DigitChar(d: nat): (c: char)
    requires d < 10
    ensures IsDigit(c) && DigitValue(c) == d
  {
    ('0' as int + d) as char
  }

  function DigitValue(c: char): (d: nat)
    requires IsDigit(c)
    ensures d < 10
  {
    c as int - '0' as int
  }

  function Show(n: nat): (s: string)
    ensures |s| > 0 && AllDigits(s)
  {
    if n < 10 then [DigitChar(n)] else Show(n / 10) + [DigitChar(n % 10)]
  }

  function Read(s: string): nat
    requires AllDigits(s)
  {
    if s == "" then 0 else Read(s[..|s| - 1]) * 10 + DigitValue(s[|s| - 1])
  }

  lemma {:induction false} ReadShow(n: nat)
    ensures Read(Show(n)) == n
  {
    var s := Show(n);
    if n < 10 {
      assert s[..|s| - 1] == "";
    } else {
      assert s[..|s| - 1] == Show(n / 10);
      ReadShow(n / 10);
    }
  }

  function Pow10(k: nat): (p: nat)
    ensures p > 0
  {
    if k == 0 then 1 else 10 * Pow10(k - 1)
  }

  /** Digits have their place values: the leading one counts a power of ten. */
  lemma {:induction false} LeadingDigit(c: char, s: string)
    requires IsDigit(c) && AllDigits(s)
    ensures AllDigits([c] + s) && Read([c] + s) == (c as int - '0' as int) * Pow10(|s|) + Read(s)
  {
    if s == "" {
      assert ([c] + s)[..0] == "";
    } else {
      var n := |s| - 1;
      assert ([c] + s)[..n + 1] == [c] + s[..n];
      LeadingDigit(c, s[..n]);
      TenTimes(c as int - '0' as int, Pow10(n), Read(s[..n]), DigitValue(s[n]));
    }
  }

  lemma TenTimes(d: nat, p: nat, r: nat, last: nat)
    ensures (d * p + r) * 10 + last == d * (10 * p) + (r * 10 + last)
  {}

  function ShowInt(i: int): string {
    if i < 0 then "-" + Show(-i) else Show(i)
  }

  /** Length of the digit run that s starts with. */
  function DigitRun(s: string): (k: nat)
    ensures k <= |s| && AllDigits(s[..k]) && (k < |s| ==> !IsDigit(s[k]))
  {
    if s == "" || !IsDigit(s[0]) then 0 else
      var k := DigitRun(s[1..]);
      assert s[..k + 1] == [s[0]] + s[1..][..k];
      k + 1
  }

  predicate IsSpace(c: char) { c == ' ' || '\t' <= c <= '\r' }

  function SkipSpace(s: string): string {
    if s != "" && IsSpace(s[0]) then SkipSpace(s[1..]) else s
  }

  /** std::stoll in base ten: leading white space and one sign are skipped, text after the
      digits is ignored, and a missing or out-of-range number raises an exception (None). */
  function StollRead(text: string): Option<Int64> {
    var s := SkipSpace(text);
    var negative := s != "" && s[0] == '-';
    var body := if s != "" && (s[0] == '-' || s[0] == '+') then s[1..] else s;
    var k := DigitRun(body);
    if k == 0 then None else
      var n := Read(body[..k]);
      var i: int := if negative then -(n as int) else n;
      if INT64_MIN <= i <= INT64_MAX then Some(i) else None
  }

  lemma StollReadsShown(i: Int64)
    ensures StollRead(ShowInt(i)) == Some(i)
  {
    var n: nat := if i < 0 then -(i as int) else i;
    var digits := Show(n);
    assert digits[..|digits|] == digits;
    ReadShow(n);
    assert IsDigit(digits[0]);
    if i < 0 {
      assert ShowInt(i)[1..] == digits;
    }
    hide Show, Read, DigitRun;
  }
}
