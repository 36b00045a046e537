/** Well-formed UTF-8 (section 4 of RFC 3629) over strings whose characters are bytes, and where such
    a string may be cut. */
module Utf8 {

  predicate IsAscii(c: char) { c as int < 0x80 }

  predicate IsContinuation(c: char) { 0x80 <= c as int <= 0xBF }

  /** The length of the sequence a byte leads; 0 when it leads none. */
  function SequenceLength(lead: char): (n: nat)
    ensures n > 0 ==> !IsContinuation(lead)
    ensures n == 1 <==> IsAscii(lead)
  {
    var b := lead as int;
    if b < 0x80 then 1
    else if 0xC2 <= b <= 0xDF then 2
    else if 0xE0 <= b <= 0xEF then 3
    else if 0xF0 <= b <= 0xF4 then 4
    else 0
  }

  /** No overlong forms, no surrogates, nothing above U+10FFFF. */
  predicate SecondByteFits(lead: char, second: char) {
    var b, c := lead as int, second as int;
    && (b == 0xE0 ==> c >= 0xA0) && (b == 0xED ==> c <= 0x9F)
    && (b == 0xF0 ==> c >= 0x90) && (b == 0xF4 ==> c <= 0x8F)
  }

  predicate StartsWell(s: string) {
    && s != "" && 0 < SequenceLength(s[0]) <= |s|
    && (forall i :: 1 <= i < SequenceLength(s[0]) ==> IsContinuation(s[i]))
    && (SequenceLength(s[0]) > 1 ==> SecondByteFits(s[0], s[1]))
  }

  predicate WellFormed(s: string) {
    s == "" || (StartsWell(s) && WellFormed(s[SequenceLength(s[0])..]))
  }

  /** A well-formed string may be cut exactly where no continuation byte follows. */
  lemma {:induction false} CutExactly(s: string, k: nat)
    requires WellFormed(s) && k <= |s|
    ensures WellFormed(s[..k]) <==> k == |s| || !IsContinuation(s[k])
  {
    if k == |s| {
      assert s[..k] == s;
    } else if k > 0 {
      var n := SequenceLength(s[0]);
      if k >= n {
        CutExactly(s[n..], k - n);
        assert s[..k][n..] == s[n..][..k - n];
      }
    }
  }

  lemma StartsWellStill(a: string, b: string)
    requires StartsWell(a)
    ensures StartsWell(a + b) && SequenceLength((a + b)[0]) == SequenceLength(a[0]) <= |a|
    ensures (a + b)[SequenceLength(a[0])..] == a[SequenceLength(a[0])..] + b
  {
    hide SecondByteFits;
  }

  lemma {:induction false} Joined(a: string, b: string)
    requires WellFormed(a) && WellFormed(b)
    ensures WellFormed(a + b)
  {
    if a == "" {
      assert a + b == b;
    } else {
      StartsWellStill(a, b);
      Joined(a[SequenceLength(a[0])..], b);
      hide StartsWell, SequenceLength;
    }
  }

  lemma {:induction false} AsciiIsWellFormed(s: string)
    requires forall i :: 0 <= i < |s| ==> IsAscii(s[i])
    ensures WellFormed(s)
  {
    if s != "" { AsciiIsWellFormed(s[1..]); }
  }

  lemma StartsWellAlready(s: string, j: nat)
    requires StartsWell(s) && SequenceLength(s[0]) <= j <= |s|
    ensures StartsWell(s[..j]) && s[..j][0] == s[0]
    ensures s[..j][SequenceLength(s[0])..] == s[SequenceLength(s[0])..][..j - SequenceLength(s[0])]
  {
    hide SecondByteFits;
  }

  /** Beyond the first byte a sequence of several holds no ASCII. */
  lemma LongSequence(s: string)
    requires StartsWell(s) && |s| == SequenceLength(s[0])
    ensures |s| == 1 ==> IsAscii(s[0])
    ensures |s| > 1 ==> forall i :: 0 <= i < |s| ==> !IsAscii(s[i])
  {
    hide SecondByteFits;
  }

  /** A nonempty well-formed string ends in one sequence: an ASCII character or bytes beyond ASCII. */
  lemma {:induction false} LastSequence(s: string) returns (j: nat)
    requires WellFormed(s) && s != ""
    ensures j < |s| && WellFormed(s[..j]) && WellFormed(s[j..])
    ensures j == |s| - 1 || forall i :: j <= i < |s| ==> !IsAscii(s[i])
    ensures j == |s| - 1 ==> IsAscii(s[j])
  {
    hide SecondByteFits, SequenceLength, IsAscii;
    var n := SequenceLength(s[0]);
    if n == |s| {
      j := 0;
      LongSequence(s);
      assert s[..0] == "" && s[0..] == s;
    } else {
      var k := LastSequence(s[n..]);
      j := n + k;
      assert s[j..] == s[n..][k..];
      StartsWellAlready(s, j);
      forall i | j <= i < |s| && j < |s| - 1 ensures !IsAscii(s[i]) { assert s[i] == s[n..][i - n]; }
    }
  }
}
