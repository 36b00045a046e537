/** The parent field of /proc/<pid>/stat and the walk up the process tree. */
module ProcessAncestry {
  import opened Common
  import opened Decimal

  // ---- the stat record ---------------------------------------------------------------------

  /** std::string::rfind */
  function LastIndexOf(s: string, c: char): (r: Option<nat>)
    ensures r.Some? ==> r.value < |s| && s[r.value] == c && c !in s[r.value + 1..]
    ensures r.None? <==> c !in s
  {
    if s == "" then None
    else if s[|s| - 1] == c then Some(|s| - 1)
    else
      var r := LastIndexOf(s[..|s| - 1], c);
      assert s == s[..|s| - 1] + [s[|s| - 1]];
      assert r.Some? ==> s[r.value + 1..] == s[..|s| - 1][r.value + 1..] + [s[|s| - 1]];
      r
  }

  /** The end of the field starting at i: the next space, or the end of the text. */
  function FieldEnd(s: string, i: nat): (j: nat)
    requires i <= |s|
    ensures i <= j <= |s|
    ensures ' ' !in s[i..j]
    ensures j < |s| ==> s[j] == ' '
    decreases |s| - i
  {
    if i == |s| || s[i] == ' ' then i
    else
      var j := FieldEnd(s, i + 1);
      assert s[i..j] == [s[i]] + s[i + 1..j];
      j
  }

  /** std::from_chars over the whole field: digits only, within 32 bits. */
  function ReadUInt32(field: string): Option<UInt32> {
    if field != "" && AllDigits(field) && Read(field) < TWO_32 then Some(Read(field)) else None
  }

  function ParseParentPid(stat: string): Option<UInt32> {
    var end := LastIndexOf(stat, ')');
    if end.None? || end.value + 4 >= |stat| || stat[end.value + 1] != ' ' then None
    else ReadUInt32(stat[end.value + 4..FieldEnd(stat, end.value + 4)])
  }

  /** stat is: any front, the last ')', a space, a state, a separator, the digits of p, and a tail
      that is empty or starts with a space. */
  predicate IsStatRecord(stat: string, front: string, state: char, sep: char, digits: string, tail: string, p: UInt32) {
    && stat == front + ")" + [' ', state, sep] + digits + tail
    && ')' !in [' ', state, sep] + digits + tail
    && digits != "" && AllDigits(digits) && Read(digits) == p
    && (tail == "" || tail[0] == ' ')
  }

  lemma {:induction false} LastIndexOfSplit(front: string, c: char, rest: string)
    requires c !in rest
    ensures LastIndexOf(front + [c] + rest, c) == Some(|front|)
  {
    var s := front + [c] + rest;
    if rest == "" {
      assert s[|s| - 1] == c;
    } else {
      var n := |rest| - 1;
      assert s[|s| - 1] == rest[n] && rest[n] in rest;
      assert s[..|s| - 1] == front + [c] + rest[..n];
      LastIndexOfSplit(front, c, rest[..n]);
    }
  }

  lemma {:induction false} FieldEndAt(s: string, i: nat, j: nat)
    requires i <= j <= |s| && (forall k :: i <= k < j ==> s[k] != ' ') && (j < |s| ==> s[j] == ' ')
    ensures FieldEnd(s, i) == j
    decreases j - i
  {
    if i < j { FieldEndAt(s, i + 1, j); }
  }

  /** The field between two positions of a concatenation. */
  lemma MiddleField(head: string, digits: string, tail: string)
    requires AllDigits(digits) && (tail == "" || tail[0] == ' ')
    ensures var s := head + digits + tail;
            FieldEnd(s, |head|) == |head| + |digits| && s[|head|..|head| + |digits|] == digits
  {
    FieldEndAt(head + digits + tail, |head|, |head| + |digits|);
  }

  lemma RecordParses(stat: string, front: string, state: char, sep: char, digits: string, tail: string, p: UInt32)
    requires IsStatRecord(stat, front, state, sep, digits, tail, p)
    ensures ParseParentPid(stat) == Some(p)
  {
    hide LastIndexOf, FieldEnd, Read;
    var head := front + ")" + [' ', state, sep];
    assert |head| == |front| + 4 && head[|front| + 1] == ' ';
    assert stat == head + digits + tail;
    assert stat == front + [')'] + ([' ', state, sep] + digits + tail);
    LastIndexOfSplit(front, ')', [' ', state, sep] + digits + tail);
    MiddleField(head, digits, tail);
  }

  lemma ParsedIsRecord(stat: string, p: UInt32)
    returns (front: string, state: char, sep: char, digits: string, tail: string)
    requires ParseParentPid(stat) == Some(p)
    ensures IsStatRecord(stat, front, state, sep, digits, tail, p)
  {
    hide LastIndexOf, FieldEnd, Read, IsDigit;
    var end := LastIndexOf(stat, ')').value;
    var stop := FieldEnd(stat, end + 4);
    front, state, sep, digits, tail := stat[..end], stat[end + 2], stat[end + 3], stat[end + 4..stop], stat[stop..];
    assert stat[end + 1..] == [' ', state, sep] + digits + tail;
    assert stat == front + ")" + stat[end + 1..];
  }

  /** A record parses to p exactly when it has that form with p in the fourth field. */
  lemma ParseIsExact(stat: string, p: UInt32)
    ensures ParseParentPid(stat) == Some(p) <==>
            exists front, state, sep, digits, tail :: IsStatRecord(stat, front, state, sep, digits, tail, p)
  {
    hide IsStatRecord, ParseParentPid;
    if ParseParentPid(stat) == Some(p) {
      var front, state, sep, digits, tail := ParsedIsRecord(stat, p);
    }
    forall front, state, sep, digits, tail | IsStatRecord(stat, front, state, sep, digits, tail, p)
      ensures ParseParentPid(stat) == Some(p)
    {
      RecordParses(stat, front, state, sep, digits, tail, p);
    }
  }

  /** The record the kernel prints for a process: its name may hold spaces and parentheses. */
  function PrintStat(pid: UInt32, comm: string, state: char, parent: UInt32, tail: string): string {
    Show(pid) + " (" + comm + ")" + [' ', state, ' '] + Show(parent) + tail
  }

  lemma StatRoundTrip(pid: UInt32, comm: string, state: char, parent: UInt32, tail: string)
    requires state != ')' && ')' !in tail && (tail == "" || tail[0] == ' ')
    ensures ParseParentPid(PrintStat(pid, comm, state, parent, tail)) == Some(parent)
  {
    ReadShow(parent);
    forall i | 0 <= i < |Show(parent)| ensures Show(parent)[i] != ')' {}
    RecordParses(PrintStat(pid, comm, state, parent, tail), Show(pid) + " (" + comm, state, ' ', Show(parent), tail,
                 parent);
  }

  // ---- the walk ----------------------------------------------------------------------------

  type StatReader = UInt32 -> Option<string>

  const MAX_LINEAGE: nat := 64

  function ParentOf(reader: StatReader, pid: UInt32): Option<UInt32> {
    var stat := reader(pid);
    if stat.None? then None else ParseParentPid(stat.value)
  }

  predicate NoRepeats(l: seq<UInt32>) { forall i, j :: 0 <= i < j < |l| ==> l[i] != l[j] }

  /** Member i of the chain from pid: nonzero, readable, and the parent of the member before it,
      which is not process 1. */
  predicate IsMember(reader: StatReader, pid: UInt32, l: seq<UInt32>, i: nat)
    requires i < |l|
  {
    && l[i] > 0 && ParentOf(reader, l[i]).Some?
    && if i == 0 then l[0] == pid else l[i - 1] != 1 && ParentOf(reader, l[i - 1]) == Some(l[i])
  }

  /** A piece of the parent chain of pid that the stop rules allow. */
  predicate Allowed(reader: StatReader, pid: UInt32, l: seq<UInt32>) {
    && |l| <= MAX_LINEAGE
    && (forall i :: 0 <= i < |l| ==> IsMember(reader, pid, l, i))
    && NoRepeats(l)
  }

  /** l is the longest allowed piece, and every other is a prefix of it. */
  ghost predicate IsLineage(reader: StatReader, pid: UInt32, l: seq<UInt32>) {
    Allowed(reader, pid, l) && forall other :: Allowed(reader, pid, other) ==> other <= l
  }

  lemma AllowedMeans(reader: StatReader, pid: UInt32, l: seq<UInt32>)
    requires Allowed(reader, pid, l)
    ensures |l| <= 64 && (l != [] ==> l[0] == pid)
    ensures forall i :: 0 <= i < |l| ==> l[i] != 0 && (l[i] == 1 ==> i == |l| - 1)
    ensures forall i, j :: 0 <= i < j < |l| ==> l[i] != l[j]
    ensures forall i :: 0 <= i < |l| - 1 ==> ParentOf(reader, l[i]) == Some(l[i + 1])
  {
    hide ParentOf;
    forall i | 0 <= i < |l|
      ensures l[i] != 0 && (i == 0 ==> l[i] == pid)
      ensures i > 0 ==> l[i - 1] != 1 && ParentOf(reader, l[i - 1]) == Some(l[i])
    {
      assert IsMember(reader, pid, l, i);
    }
    forall i | 0 <= i < |l| - 1
      ensures ParentOf(reader, l[i]) == Some(l[i + 1]) && l[i] != 1
    {
      assert IsMember(reader, pid, l, i + 1);
    }
  }

  lemma {:induction false} AllowedAgree(reader: StatReader, pid: UInt32, a: seq<UInt32>, b: seq<UInt32>, i: nat)
    requires Allowed(reader, pid, a) && Allowed(reader, pid, b) && i < |a| && i < |b|
    ensures a[i] == b[i]
  {
    hide ParentOf;
    if i > 0 { AllowedAgree(reader, pid, a, b, i - 1); }
    assert IsMember(reader, pid, a, i) && IsMember(reader, pid, b, i);
  }

  lemma AllowedPrefix(reader: StatReader, pid: UInt32, l: seq<UInt32>, n: nat)
    requires Allowed(reader, pid, l) && n <= |l|
    ensures Allowed(reader, pid, l[..n])
  {
    hide ParentOf;
    forall i | 0 <= i < n ensures IsMember(reader, pid, l[..n], i) {
      assert IsMember(reader, pid, l, i);
    }
  }

  lemma StuckIsLineage(reader: StatReader, pid: UInt32, l: seq<UInt32>)
    requires Allowed(reader, pid, l)
    requires forall x :: !Allowed(reader, pid, l + [x])
    ensures IsLineage(reader, pid, l)
  {
    forall other | Allowed(reader, pid, other)
      ensures other <= l
    {
      hide Allowed;
      forall i | 0 <= i < |other| && i < |l| ensures other[i] == l[i] {
        AllowedAgree(reader, pid, other, l, i);
      }
      if |other| > |l| {
        assert other[..|l| + 1] == l + [other[|l|]];
        AllowedPrefix(reader, pid, other, |l| + 1);
      }
    }
  }

  /** Where the walk may go next: nowhere unless `next` is an unvisited, nonzero, readable parent. */
  lemma AllowedExtension(reader: StatReader, pid: UInt32, l: seq<UInt32>, next: UInt32, x: UInt32)
    requires Allowed(reader, pid, l)
    requires if l == [] then next == pid else l[|l| - 1] == 1 || ParentOf(reader, l[|l| - 1]) == Some(next)
    ensures Allowed(reader, pid, l + [x]) <==>
            && x == next && next > 0 && next !in l && |l| < MAX_LINEAGE && ParentOf(reader, next).Some?
            && (l != [] ==> l[|l| - 1] != 1)
  {
    hide ParentOf;
    var longer := l + [x];
    assert longer[|l|] == x && (l != [] ==> longer[|l| - 1] == l[|l| - 1]);
    if Allowed(reader, pid, longer) {
      assert IsMember(reader, pid, longer, |l|);
      if x in l {
        var i :| 0 <= i < |l| && l[i] == x;
        assert longer[i] == longer[|l|];
      }
    }
    forall i | 0 <= i < |l| ensures IsMember(reader, pid, longer, i) {
      assert IsMember(reader, pid, l, i);
    }
  }

  class ProcessAncestryReader {
    const reader: StatReader

    constructor (reader: StatReader)
      ensures this.reader == reader
    {
      this.reader := reader;
    }

    method Read(pid: UInt32) returns (lineage: seq<UInt32>)
      ensures IsLineage(reader, pid, lineage)
      ensures |lineage| <= 64 && (lineage != [] ==> lineage[0] == pid)
      ensures forall i :: 0 <= i < |lineage| ==> lineage[i] != 0 && (lineage[i] == 1 ==> i == |lineage| - 1)
      ensures forall i, j :: 0 <= i < j < |lineage| ==> lineage[i] != lineage[j]
      ensures forall i :: 0 <= i < |lineage| - 1 ==> ParentOf(reader, lineage[i]) == Some(lineage[i + 1])
      ensures lineage == [] ==> pid == 0 || ParentOf(reader, pid).None?
      ensures lineage != [] && |lineage| < 64 && lineage[|lineage| - 1] != 1 ==>
                var next := ParentOf(reader, lineage[|lineage| - 1]);
                next.Some? && (next.value == 0 || next.value in lineage || ParentOf(reader, next.value).None?)
    {
      hide IsMember, IsLineage, ParseParentPid;
      lineage := [];
      var visited: set<UInt32> := {};
      var current := pid;
      var count := 0;
      while current > 0 && count < MAX_LINEAGE && current !in visited
        invariant count == |lineage| && Allowed(reader, pid, lineage)
        invariant forall x :: x in visited <==> x in lineage
        invariant if lineage == [] then current == pid
                  else lineage[|lineage| - 1] != 1 && ParentOf(reader, lineage[|lineage| - 1]) == Some(current)
        decreases MAX_LINEAGE - count
      {
        var stat := reader(current);
        if stat.None? {
          break;
        }
        var parent := ParseParentPid(stat.value);
        if parent.None? {
          break;
        }
        AllowedExtension(reader, pid, lineage, current, current);
        lineage := lineage + [current];
        visited := visited + {current};
        if current == 1 {
          break;
        }
        if parent.value == 0 {
          break;
        }
        current := parent.value;
        count := count + 1;
      }
      var next: UInt32 := if lineage == [] then pid else ParentOf(reader, lineage[|lineage| - 1]).value;
      forall x ensures !Allowed(reader, pid, lineage + [x]) {
        AllowedExtension(reader, pid, lineage, next, x);
      }
      AllowedExtension(reader, pid, lineage, next, next);
      StuckIsLineage(reader, pid, lineage);
      AllowedMeans(reader, pid, lineage);
    }
  }
}
