/** Mount paths as /proc/mounts writes them: special bytes as a backslash and three octal digits. */
module MountPath {
  import opened Common

  const BACKSLASH: Byte := 92

  predicate IsDigit(b: Byte) { 48 <= b <= 57 }

  /** The three digits make one byte; the cast to char keeps the low eight bits. */
  function OctalByte(a: Byte, b: Byte, c: Byte): Byte
    requires IsDigit(a) && IsDigit(b) && IsDigit(c)
  {
    ((a - 48) * 64 + (b - 48) * 8 + (c - 48)) % 256
  }

  predicate StartsEscape(s: seq<Byte>) {
    |s| > 3 && s[0] == BACKSLASH && IsDigit(s[1]) && IsDigit(s[2]) && IsDigit(s[3])
  }

  function Unescape(s: seq<Byte>): seq<Byte> {
    if s == [] then []
    else if StartsEscape(s) then [OctalByte(s[1], s[2], s[3])] + Unescape(s[4..])
    else [s[0]] + Unescape(s[1..])
  }

  method UnescapeMountPath(s: seq<Byte>) returns (result: seq<Byte>)
    ensures result == Unescape(s)
  {
    hide OctalByte;
    result := [];
    var i := 0;
    while i < |s|
      invariant 0 <= i <= |s|
      invariant result + Unescape(s[i..]) == Unescape(s)
    {
      ghost var rest := s[i..];
      ghost var before := result;
      if s[i] == BACKSLASH && i + 3 < |s| && IsDigit(s[i + 1]) && IsDigit(s[i + 2]) && IsDigit(s[i + 3]) {
        assert StartsEscape(rest) && rest[4..] == s[i + 4..];
        result := result + [OctalByte(s[i + 1], s[i + 2], s[i + 3])];
        i := i + 3;
        Regroup(before, [OctalByte(rest[1], rest[2], rest[3])], Unescape(rest[4..]));
      } else {
        assert !StartsEscape(rest) && rest[1..] == s[i + 1..];
        result := result + [s[i]];
        Regroup(before, [rest[0]], Unescape(rest[1..]));
      }
      i := i + 1;
    }
  }

  /** The escapes the kernel writes for a space, a tab, a line feed and a backslash, and in general: the
      three digits have the weights 64, 8 and 1. */
  lemma EscapesMean(a: Byte, b: Byte, c: Byte)
    requires '0' as int <= a <= '3' as int && '0' as int <= b <= '7' as int && '0' as int <= c <= '7' as int
    ensures Unescape([0x5C, a, b, c]) == [(a - '0' as int) * 64 + (b - '0' as int) * 8 + (c - '0' as int)]
    ensures Unescape([0x5C, '0' as int, '4' as int, '0' as int]) == [' ' as int]
    ensures Unescape([0x5C, '0' as int, '1' as int, '1' as int]) == ['\t' as int]
    ensures Unescape([0x5C, '0' as int, '1' as int, '2' as int]) == ['\n' as int]
    ensures Unescape([0x5C, '1' as int, '3' as int, '4' as int]) == [0x5C]
  {
    var s: seq<Byte> := [0x5C, a, b, c];
    assert s[4..] == [];
    assert [0x5C, '0' as int, '4' as int, '0' as int][4..] == [];
    assert [0x5C, '0' as int, '1' as int, '1' as int][4..] == [];
    assert [0x5C, '0' as int, '1' as int, '2' as int][4..] == [];
    assert [0x5C, '1' as int, '3' as int, '4' as int][4..] == [];
  }

  /** What the kernel writes, for a set of bytes to escape. */
  function EscapeByte(b: Byte, special: Byte -> bool): seq<Byte> {
    if special(b) then [BACKSLASH, 48 + b / 64, 48 + b / 8 % 8, 48 + b % 8] else [b]
  }

  function Escape(s: seq<Byte>, special: Byte -> bool): seq<Byte> {
    if s == [] then [] else EscapeByte(s[0], special) + Escape(s[1..], special)
  }

  /** A backslash is never mistaken: either it is always escaped, or no digit is written bare. */
  ghost predicate Unambiguous(special: Byte -> bool) {
    special(BACKSLASH) || forall d: Byte :: IsDigit(d) ==> special(d)
  }

  lemma OctalDigits(b: Byte)
    ensures 0 <= b / 64 < 4 && 0 <= b / 8 % 8 < 8 && 0 <= b % 8 < 8
    ensures OctalByte(48 + b / 64, 48 + b / 8 % 8, 48 + b % 8) == b
  {
    assert b == b / 64 * 64 + b / 8 % 8 * 8 + b % 8;
  }

  lemma EscapedByteReads(b: Byte, rest: seq<Byte>)
    ensures Unescape([BACKSLASH, 48 + b / 64, 48 + b / 8 % 8, 48 + b % 8] + rest) == [b] + Unescape(rest)
  {
    hide OctalByte;
    OctalDigits(b);
    var x: Byte, y: Byte, z: Byte := 48 + b / 64, 48 + b / 8 % 8, 48 + b % 8;
    var s: seq<Byte> := [BACKSLASH, x, y, z] + rest;
    assert s[4..] == rest;
  }

  lemma {:induction false} EscapeRoundTrip(s: seq<Byte>, special: Byte -> bool)
    requires Unambiguous(special)
    ensures Unescape(Escape(s, special)) == s
  {
    if s != [] {
      var rest := Escape(s[1..], special);
      EscapeRoundTrip(s[1..], special);
      hide OctalByte;
      if special(s[0]) {
        EscapedByteReads(s[0], rest);
      } else {
        var all := [s[0]] + rest;
        assert all[1..] == rest;
        assert !StartsEscape(all) by {
          if s[0] == BACKSLASH && rest != [] {
            assert rest[0] == EscapeByte(s[1], special)[0];
          }
        }
      }
    }
  }

  lemma {:induction false} PlainEscape(s: seq<Byte>, special: Byte -> bool)
    requires forall i :: 0 <= i < |s| ==> !special(s[i])
    ensures Escape(s, special) == s
  {
    if s != [] { PlainEscape(s[1..], special); }
  }

  /** Unescaping undoes escaping for every path exactly when the escape set contains the backslash
      or all ten digits. */
  lemma RoundTripExactly(special: Byte -> bool)
    ensures (forall s :: Unescape(Escape(s, special)) == s) <==> Unambiguous(special)
  {
    if Unambiguous(special) {
      forall s ensures Unescape(Escape(s, special)) == s { EscapeRoundTrip(s, special); }
    } else {
      var d: Byte :| IsDigit(d) && !special(d);
      var s: seq<Byte> := [BACKSLASH, d, d, d];
      PlainEscape(s, special);
      assert StartsEscape(s) && |Unescape(s)| == 1;
      assert Unescape(Escape(s, special)) != s;
    }
  }

  /** Text without a backslash is left alone. */
  lemma {:induction false} PlainUnescape(s: seq<Byte>)
    requires forall i :: 0 <= i < |s| ==> s[i] != BACKSLASH
    ensures Unescape(s) == s
  {
    if s != [] { PlainUnescape(s[1..]); }
  }
}
