/** Notification bodies: white space collapsed, cut to a maximum length with an ellipsis. */
module MessageText {
  import opened Common
  import opened Utf8

  const ELLIPSIS := "..."

  function Blank(c: char): char { if c == '\n' || c == '\r' || c == '\t' then ' ' else c }

  predicate EndsBlank(s: string) { s == "" || s[|s| - 1] == ' ' }

  /** Leading white space dropped, every other run of it made one space. */
  function Collapse(m: string): string {
    if m == "" then ""
    else
      var before, c := Collapse(m[..|m| - 1]), Blank(m[|m| - 1]);
      if c == ' ' && EndsBlank(before) then before else before + [c]
  }

  /** What the loop has collected when it stops: the length is tested after every character, so
      with a maximum of zero one character is still looked at. */
  function Cleaned(m: string, maxLen: nat): string {
    if m == "" then "" else if maxLen == 0 then Collapse(m[..1]) else Collapse(m)[..Min(|Collapse(m)|, maxLen)]
  }

  /** max_len - 3 in size_t. */
  function Room(maxLen: SizeT): SizeT { if maxLen >= 3 then maxLen - 3 else maxLen + TWO_64 - 3 }

  function Truncated(m: string, maxLen: SizeT): string {
    var c := Cleaned(m, maxLen);
    if m == "" || (|m| <= maxLen && |c| < maxLen) then c
    else (if |c| > Room(maxLen) then c[..Room(maxLen)] else c) + ELLIPSIS
  }

  lemma {:induction false} CollapsePrefix(m: string, n: nat)
    requires n <= |m|
    ensures |Collapse(m[..n])| <= |Collapse(m)| && Collapse(m[..n]) == Collapse(m)[..|Collapse(m[..n])|]
    ensures |Collapse(m)| <= |m|
  {
    if n == |m| {
      assert m[..n] == m;
      if n > 0 { CollapsePrefix(m[..n - 1], n - 1); }
    } else {
      var k := |m| - 1;
      assert m[..k][..n] == m[..n];
      CollapsePrefix(m[..k], n);
      assert Collapse(m)[..|Collapse(m[..k])|] == Collapse(m[..k]);
    }
  }

  lemma CollapseStep(m: string, i: nat)
    requires i < |m|
    ensures var before, c := Collapse(m[..i]), Blank(m[i]);
            Collapse(m[..i + 1]) == if c == ' ' && EndsBlank(before) then before else before + [c]
  {
    assert m[..i + 1][..i] == m[..i];
  }

  lemma CollapseNothing(m: string)
    ensures Collapse(m[..0]) == ""
  {}

  /** Where the loop stops it has collected what Cleaned says. */
  lemma LoopEnd(m: string, i: nat, maxLen: SizeT)
    requires 0 < i <= |m|
    requires i < |m| ==> |Collapse(m[..i])| >= maxLen
    requires i > 1 ==> |Collapse(m[..i - 1])| < maxLen
    ensures Collapse(m[..i]) == Cleaned(m, maxLen)
  {
    CollapseStep(m, i - 1);
    CollapsePrefix(m, i);
    assert m[..|m|] == m;
  }

  /** The loop: it stops as soon as the maximum is reached. */
  method Clean(m: string, maxLen: SizeT) returns (cleaned: string)
    requires m != ""
    ensures cleaned == Cleaned(m, maxLen)
  {
    hide Collapse, Cleaned;
    CollapseNothing(m);
    cleaned := "";
    var lastWasSpace := false;
    var i := 0;
    while i < |m|
      invariant 0 <= i <= |m|
      invariant cleaned == Collapse(m[..i])
      invariant lastWasSpace <==> cleaned != "" && cleaned[|cleaned| - 1] == ' '
      invariant i > 0 ==> |cleaned| < maxLen
      invariant i > 1 ==> |Collapse(m[..i - 1])| < maxLen
    {
      var c := Blank(m[i]);
      CollapseStep(m, i);
      if c == ' ' {
        if !lastWasSpace && cleaned != "" {
          cleaned := cleaned + [' '];
          lastWasSpace := true;
        }
      } else {
        cleaned := cleaned + [c];
        lastWasSpace := false;
      }
      i := i + 1;
      if |cleaned| >= maxLen {
        break;
      }
    }
    LoopEnd(m, i, maxLen);
  }

  method TruncateMessage(m: string, maxLen: SizeT) returns (r: string)
    ensures r == Truncated(m, maxLen)
  {
    if m == "" {
      return "";
    }
    hide Cleaned;
    var cleaned := Clean(m, maxLen);
    if |m| > maxLen || |cleaned| >= maxLen {
      var room := if maxLen >= 3 then maxLen - 3 else maxLen + TWO_64 - 3;
      if |cleaned| > room {
        cleaned := cleaned[..room];
      }
      cleaned := cleaned + ELLIPSIS;
    }
    return cleaned;
  }

  // ---- what the result looks like ----------------------------------------------------------

  /** No tab or line break, no leading space, no two spaces in a row. */
  predicate Tidy(s: string) {
    && (forall i :: 0 <= i < |s| ==> Blank(s[i]) == s[i])
    && (s != "" ==> s[0] != ' ')
    && (forall i :: 0 < i < |s| && s[i] == ' ' ==> s[i - 1] != ' ')
  }

  lemma {:induction false} CollapseIsTidy(m: string)
    ensures Tidy(Collapse(m))
  {
    if m != "" { CollapseIsTidy(m[..|m| - 1]); }
  }

  lemma {:induction false} TidyCollapses(s: string)
    requires Tidy(s)
    ensures Collapse(s) == s
  {
    if s != "" { TidyCollapses(s[..|s| - 1]); }
  }

  /** Tidy text is exactly what collapsing leaves alone. */
  lemma CollapseFixesTidy(s: string)
    ensures Collapse(s) == s <==> Tidy(s)
  {
    if Tidy(s) { TidyCollapses(s); }
    CollapseIsTidy(s);
  }

  lemma TidyPrefix(s: string, n: nat)
    requires Tidy(s) && n <= |s|
    ensures Tidy(s[..n]) && Tidy(s[..n] + ELLIPSIS)
  {}

  lemma TruncatedIsTidy(m: string, maxLen: SizeT)
    requires maxLen >= 3
    ensures Tidy(Truncated(m, maxLen)) && |Truncated(m, maxLen)| <= maxLen
  {
    hide Tidy;
    var c := Collapse(m);
    CollapseIsTidy(m);
    TruncatedIsPrefix(m, maxLen);
    TidyPrefix(c, Min(|c|, maxLen - 3));
  }

  /** The result is the collapsed message, or a prefix of it and an ellipsis. */
  lemma TruncatedIsPrefix(m: string, maxLen: SizeT)
    requires maxLen >= 3
    ensures var c := Collapse(m);
            if |m| <= maxLen && |c| < maxLen then Truncated(m, maxLen) == c
            else Truncated(m, maxLen) == c[..Min(|c|, maxLen - 3)] + "..."
  {}

  predicate IsWhite(c: char) { c == ' ' || c == '\t' || c == '\r' || c == '\n' }

  /** In literal terms: the result has no tab, no line break, no leading space, no two spaces in a row,
      and at most maxLen bytes. */
  lemma TruncatedMeans(m: string, maxLen: SizeT, i: nat)
    requires maxLen >= 3 && i < |Truncated(m, maxLen)|
    ensures var r := Truncated(m, maxLen);
            && |r| <= maxLen && (IsWhite(r[i]) ==> r[i] == ' ' && i > 0 && r[i - 1] != ' ')
  {
    TruncatedIsTidy(m, maxLen);
    hide Truncated;
  }

  /** The words of a text: its longest pieces without white space. */
  function Words(m: string): seq<string> {
    if m == "" then []
    else
      var n := |m| - 1;
      var before := Words(m[..n]);
      if IsWhite(m[n]) then before
      else if n == 0 || IsWhite(m[n - 1]) then before + [[m[n]]]
      else if before == [] then []
      else before[..|before| - 1] + [before[|before| - 1] + [m[n]]]
  }

  lemma WordsOneMore(s: string, c: char)
    ensures var before := Words(s);
            Words(s + [c]) ==
            if IsWhite(c) then before
            else if s == "" || IsWhite(s[|s| - 1]) then before + [[c]]
            else if before == [] then []
            else before[..|before| - 1] + [before[|before| - 1] + [c]]
  {
    assert (s + [c])[..|s|] == s;
  }

  lemma TidyEnd(s: string)
    requires Tidy(s)
    ensures EndsBlank(s) <==> s == "" || IsWhite(s[|s| - 1])
  {}

  /** Collapsing keeps the words, one by one, and a break after the last of them. */
  lemma {:induction false} CollapseKeepsWords(m: string)
    ensures Words(Collapse(m)) == Words(m)
    ensures EndsBlank(Collapse(m)) <==> m == "" || IsWhite(m[|m| - 1])
  {
    if m != "" {
      var n := |m| - 1;
      var before, c := Collapse(m[..n]), m[n];
      CollapseKeepsWords(m[..n]);
      CollapseIsTidy(m[..n]);
      TidyEnd(before);
      WordsOneMore(m[..n], c);
      WordsOneMore(before, Blank(c));
      CollapseStep(m, n);
      assert m[..n] + [c] == m && m[..n + 1] == m;
      hide Words, Collapse, Tidy;
    }
  }

  /** Truncating twice changes nothing more. */
  lemma TruncateIsIdempotent(m: string, maxLen: SizeT)
    requires maxLen >= 3
    ensures Truncated(Truncated(m, maxLen), maxLen) == Truncated(m, maxLen)
  {
    var r, c := Truncated(m, maxLen), Collapse(m);
    TruncatedIsTidy(m, maxLen);
    TidyCollapses(r);
    TruncatedIsPrefix(m, maxLen);
    TruncatedIsPrefix(r, maxLen);
    if |r| >= maxLen {
      assert r == c[..maxLen - 3] + ELLIPSIS;
      assert r[..maxLen - 3] == c[..maxLen - 3];
    }
  }

  /** The length bound holds for every message exactly when the maximum has room for the ellipsis;
      below that the subtraction wraps around. */
  lemma BoundExactly(maxLen: SizeT)
    ensures (forall m :: |Truncated(m, maxLen)| <= maxLen) <==> maxLen >= 3
  {
    if maxLen >= 3 {
      forall m ensures |Truncated(m, maxLen)| <= maxLen { TruncatedIsTidy(m, maxLen); }
    } else {
      assert |Truncated("abcd", maxLen)| > maxLen;
    }
  }

  // ---- UTF-8 -------------------------------------------------------------------------------

  lemma {:induction false} CollapseKeepsTail(m: string, j: nat)
    requires j <= |m| && forall i :: j <= i < |m| ==> !IsAscii(m[i])
    ensures Collapse(m) == Collapse(m[..j]) + m[j..]
  {
    if j == |m| {
      assert m[..j] == m;
    } else {
      var n := |m| - 1;
      CollapseKeepsTail(m[..n], j);
      assert m[..n][..j] == m[..j];
      assert m[j..] == m[..n][j..] + [m[n]];
    }
  }

  lemma {:induction false} CollapseKeepsUtf8(m: string)
    requires WellFormed(m)
    ensures WellFormed(Collapse(m))
    decreases |m|
  {
    if m != "" {
      var j := LastSequence(m);
      CollapseKeepsUtf8(m[..j]);
      if j == |m| - 1 {
        AsciiIsWellFormed([Blank(m[j])]);
        Joined(Collapse(m[..j]), [Blank(m[j])]);
      } else {
        CollapseKeepsTail(m, j);
        Joined(Collapse(m[..j]), m[j..]);
      }
    }
  }

  lemma EllipsisKeepsUtf8(s: string)
    ensures WellFormed(s + ELLIPSIS) <==> WellFormed(s)
  {
    AsciiIsWellFormed(ELLIPSIS);
    if WellFormed(s) { Joined(s, ELLIPSIS); }
    if WellFormed(s + ELLIPSIS) {
      CutExactly(s + ELLIPSIS, |s|);
      assert (s + ELLIPSIS)[..|s|] == s;
    }
  }

  /** The cut is made by bytes: the truncated form of a well-formed message is well formed, as D-Bus
      demands of strings, exactly when nothing is cut off or the cut is not inside a character. */
  lemma TruncatedUtf8Exactly(m: string, maxLen: SizeT)
    requires WellFormed(m) && maxLen >= 3
    ensures var c := Collapse(m);
            WellFormed(Truncated(m, maxLen)) <==>
            (|m| <= maxLen && |c| < maxLen) || |c| <= maxLen - 3 || !IsContinuation(c[maxLen - 3])
  {
    var c := Collapse(m);
    var k: nat := Min(|c|, maxLen - 3);
    CollapseKeepsUtf8(m);
    TruncatedIsPrefix(m, maxLen);
    EllipsisKeepsUtf8(c[..k]);
    CutExactly(c, k);
    hide WellFormed, Truncated, Collapse;
  }

  function Repeated(c: char, n: nat): string { seq(n, i => c) }

  /** A message of 200 bytes, the maximum the bridge asks for, in which the cut
      falls between the two bytes of a character. */
  lemma CharacterIsSplit()
    ensures var m := Repeated('a', 196) + [0xC3 as char, 0xA9 as char] + "bc";
            WellFormed(m) && |m| == 200 && !WellFormed(Truncated(m, 200))
  {
    var e := [0xC3 as char, 0xA9 as char];
    var m := Repeated('a', 196) + e + "bc";
    AsciiIsWellFormed(Repeated('a', 196));
    AsciiIsWellFormed("bc");
    assert e[2..] == "" && WellFormed(e);
    Joined(Repeated('a', 196), e);
    Joined(Repeated('a', 196) + e, "bc");
    TidyCollapses(m);
    TruncatedUtf8Exactly(m, 200);
    assert m[197] == 0xA9 as char;
    hide WellFormed, Truncated, Collapse;
  }
}
