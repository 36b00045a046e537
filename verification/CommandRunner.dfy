/** Running a shell command: the loop that reads its output, waits for it, and ends it when it is
    cancelled or out of time. The operating system's answers are a given sequence of turns. */
module CommandRunner {
  import opened Common

  const TIMED_OUT: int := 124
  const CANCELLED: int := 125
  const FAILED_TO_START: int := 127

  /** read(2): the bytes read (none at end of file), or an error, which may ask to retry. */
  datatype ReadResult = Bytes(data: seq<Byte>) | ReadError(retry: bool)

  datatype WaitResult = Reaped(status: nat) | Running | Interrupted | WaitFailed

  /** What one pass of the loop meets: the read, the wait, the stop flag and the deadline, and, in
      case it ends the command, the waits of the grace period and the blocking wait after SIGKILL
      (None when it fails for good). */
  datatype Turn = Turn(read: ReadResult, wait: WaitResult, stop: bool, late: bool,
                       grace: seq<WaitResult>, killed: Option<nat>)

  datatype Report = Report(exitCode: int, output: seq<Byte>, timedOut: bool, cancelled: bool, truncated: bool)

  /** StillRunning: the given turns ended before the command did. */
  datatype Outcome = Finished(report: Report) | StillRunning | Raised

  // ---- the state machine -------------------------------------------------------------------

  /** The variables of the loop, and the number of successful waits. */
  datatype RunState = RunState(output: seq<Byte>, truncated: bool, child: bool, pipe: bool, status: nat,
                               timedOut: bool, cancelled: bool, reaps: nat) {
    predicate Done() { child && pipe }
  }

  const START := RunState([], false, false, false, 0, false, false, 0)

  function Bounded(output: seq<Byte>, data: seq<Byte>, limit: nat): seq<Byte> {
    var remaining := if |output| < limit then limit - |output| else 0;
    output + data[..Min(|data|, remaining)]
  }

  function AfterRead(s: RunState, r: ReadResult, limit: nat): RunState {
    match r
    case Bytes(data) =>
      if data == [] then s.(pipe := true)
      else
        var output := Bounded(s.output, data, limit);
        s.(output := output, truncated := s.truncated || |output| - |s.output| < |data|)
    case ReadError(retry) => if retry then s else s.(pipe := true)
  }

  function AfterWait(s: RunState, w: WaitResult): RunState {
    if !s.child && w.Reaped? then s.(child := true, status := w.status, reaps := s.reaps + 1) else s
  }

  predicate Raises(s: RunState, w: WaitResult) { !s.child && w.WaitFailed? }

  function FirstReaped(ws: seq<WaitResult>): Option<nat> {
    if ws == [] then None else if ws[0].Reaped? then Some(ws[0].status) else FirstReaped(ws[1..])
  }

  predicate Kills(s: RunState, t: Turn) { !s.Done() && (t.stop || t.late) }

  function AfterKill(s: RunState, t: Turn): RunState {
    var flagged := s.(cancelled := t.stop, timedOut := !t.stop);
    var reaped := FirstReaped(t.grace);
    if reaped.Some? then flagged.(child := true, status := reaped.value, reaps := s.reaps + 1)
    else if s.child then flagged
    else if t.killed.Some? then flagged.(child := true, status := t.killed.value, reaps := s.reaps + 1)
    else flagged.(child := true)
  }

  /** The state when the pass decides whether to end the command. */
  function Looked(s: RunState, t: Turn, limit: nat): RunState { AfterWait(AfterRead(s, t.read, limit), t.wait) }

  /** One pass; None when it raises. */
  function AfterTurn(s: RunState, t: Turn, limit: nat): Option<RunState> {
    var looked := Looked(s, t, limit);
    if Raises(s, t.wait) then None else Some(if Kills(looked, t) then AfterKill(looked, t) else looked)
  }

  /** The state after n turns; a finished run takes no more. */
  function After(turns: seq<Turn>, n: nat, limit: nat): Option<RunState>
    requires n <= |turns|
  {
    if n == 0 then Some(START)
    else
      var s := After(turns, n - 1, limit);
      if s.None? || s.value.Done() then s else AfterTurn(s.value, turns[n - 1], limit)
  }

  /** WEXITSTATUS, 128 + WTERMSIG, or 127. */
  function NormalizedExitCode(status: nat): int {
    var low := status % 128;
    if low == 0 then status / 256 % 256
    else if low < 127 then 128 + low
    else FAILED_TO_START
  }

  function ReportOf(s: RunState): Report {
    var code := NormalizedExitCode(s.status);
    Report(if s.cancelled then CANCELLED else if s.timedOut then TIMED_OUT else code,
           s.output, s.timedOut, s.cancelled, s.truncated)
  }

  function OutcomeOf(s: Option<RunState>): Outcome {
    if s.None? then Raised else if s.value.Done() then Finished(ReportOf(s.value)) else StillRunning
  }

  // ---- the loop ----------------------------------------------------------------------------

  method AppendBounded(output: seq<Byte>, data: seq<Byte>, limit: nat, truncated: bool)
    returns (grown: seq<Byte>, cut: bool)
    ensures grown == Bounded(output, data, limit)
    ensures cut <==> truncated || |grown| - |output| < |data|
  {
    var remaining := if |output| < limit then limit - |output| else 0;
    var accepted := Min(|data|, remaining);
    grown := output + data[..accepted];
    cut := truncated || accepted < |data|;
  }

  lemma Absorbed(turns: seq<Turn>, n: nat, m: nat, limit: nat)
    requires n <= m <= |turns|
    requires After(turns, n, limit).None? || After(turns, n, limit).value.Done()
    ensures After(turns, m, limit) == After(turns, n, limit)
  {
    if n < m { Absorbed(turns, n, m - 1, limit); }
  }

  lemma StartState(turns: seq<Turn>, limit: nat)
    ensures After(turns, 0, limit) == Some(START)
  {}

  lemma OneMoreTurn(turns: seq<Turn>, i: nat, s: RunState, limit: nat)
    requires i < |turns| && After(turns, i, limit) == Some(s) && !s.Done()
    ensures After(turns, i + 1, limit) == AfterTurn(s, turns[i], limit)
  {}

  /** The locals of the loop hold the state s. */
  ghost predicate Holds(s: RunState, output: seq<Byte>, truncated: bool, child: bool, pipe: bool, status: nat,
                        timedOut: bool, cancelled: bool)
  {
    && s.output == output && s.truncated == truncated && s.child == child && s.pipe == pipe
    && s.status == status && s.timedOut == timedOut && s.cancelled == cancelled
  }

  /** What one read does to the locals it touches. */
  method ReadOnce(ghost s: RunState, r: ReadResult, output: seq<Byte>, truncated: bool, pipe: bool, limit: nat)
    returns (grown: seq<Byte>, cut: bool, finished: bool)
    requires s.output == output && s.truncated == truncated && s.pipe == pipe
    ensures AfterRead(s, r, limit) == s.(output := grown, truncated := cut, pipe := finished)
  {
    hide Bounded;
    grown, cut, finished := output, truncated, pipe;
    match r {
      case Bytes(data) =>
        if data != [] {
          grown, cut := AppendBounded(output, data, limit, truncated);
        } else {
          finished := true;
        }
      case ReadError(retry) =>
        if !retry {
          finished := true;
        }
    }
  }

  /** Ends the command: a grace period after SIGTERM, then SIGKILL and a blocking wait. */
  method EndCommand(ghost s: RunState, t: Turn, child: bool, status: nat)
    returns (finished: bool, last: nat, ghost after: RunState)
    requires s.child == child && s.status == status
    ensures finished && after == AfterKill(s, t)
    ensures after == s.(cancelled := t.stop, timedOut := !t.stop, child := true, status := last, reaps := after.reaps)
  {
    hide FirstReaped;
    finished, last := child, status;
    var reaped := GraceWait(t.grace);
    if reaped.Some? {
      finished, last := true, reaped.value;
    }
    if !finished {
      if t.killed.Some? {
        last := t.killed.value;
      }
      finished := true;
    }
    after := AfterKill(s, t);
  }

  method Run(limit: nat, turns: seq<Turn>) returns (outcome: Outcome)
    ensures outcome == OutcomeOf(After(turns, |turns|, limit))
  {
    hide After, AfterRead, AfterKill, NormalizedExitCode;
    StartState(turns, limit);
    var output: seq<Byte>, truncated := [], false;
    var status: nat := 0;
    var childFinished, pipeFinished := false, false;
    var timedOut, cancelled := false, false;
    ghost var s := START;
    var i := 0;
    while !childFinished || !pipeFinished
      invariant 0 <= i <= |turns| && After(turns, i, limit) == Some(s)
      invariant Holds(s, output, truncated, childFinished, pipeFinished, status, timedOut, cancelled)
      decreases |turns| - i
    {
      if i == |turns| {
        return StillRunning;
      }
      var t := turns[i];
      OneMoreTurn(turns, i, s, limit);
      ghost var read := AfterRead(s, t.read, limit);
      output, truncated, pipeFinished := ReadOnce(s, t.read, output, truncated, pipeFinished, limit);
      if !childFinished {
        match t.wait {
          case Reaped(st) => childFinished, status := true, st;
          case WaitFailed =>
            Absorbed(turns, i + 1, |turns|, limit);
            return Raised;
          case _ =>
        }
      }
      s := AfterWait(read, t.wait);
      if (!childFinished || !pipeFinished) && (t.stop || t.late) {
        cancelled := t.stop;
        timedOut := !t.stop;
        childFinished, status, s := EndCommand(s, t, childFinished, status);
      }
      i := i + 1;
    }
    Absorbed(turns, i, |turns|, limit);
    var exitCode := NormalizedExitCode(status);
    if timedOut {
      exitCode := TIMED_OUT;
    }
    if cancelled {
      exitCode := CANCELLED;
    }
    return Finished(Report(exitCode, output, timedOut, cancelled, truncated));
  }

  /** The waits of the grace period, up to the first that reaps the child. */
  method GraceWait(ws: seq<WaitResult>) returns (reaped: Option<nat>)
    ensures reaped == FirstReaped(ws)
  {
    var k := 0;
    while k < |ws|
      invariant 0 <= k <= |ws|
      invariant FirstReaped(ws) == FirstReaped(ws[k..])
    {
      if ws[k].Reaped? {
        return Some(ws[k].status);
      }
      assert ws[k..][1..] == ws[k + 1..];
      k := k + 1;
    }
    return None;
  }

  // ---- what a run captures -----------------------------------------------------------------

  /** Everything read in the first n turns. */
  function DataRead(turns: seq<Turn>, n: nat, limit: nat): seq<Byte>
    requires n <= |turns|
  {
    if n == 0 then []
    else
      var s := After(turns, n - 1, limit);
      DataRead(turns, n - 1, limit) +
        if s.Some? && !s.value.Done() && turns[n - 1].read.Bytes? then turns[n - 1].read.data else []
  }

  lemma BoundedExtends(all: seq<Byte>, data: seq<Byte>, limit: nat)
    ensures var output, grown := all[..Min(|all|, limit)], Bounded(all[..Min(|all|, limit)], data, limit);
            && grown == (all + data)[..Min(|all + data|, limit)]
            && (|all + data| > limit <==> |all| > limit || |grown| - |output| < |data|)
  {}

  lemma ReadOutput(s: RunState, r: ReadResult, limit: nat)
    ensures var next := AfterRead(s, r, limit);
            if r.Bytes? then
              && next.output == Bounded(s.output, r.data, limit)
              && next.truncated == (s.truncated || |next.output| - |s.output| < |r.data|)
            else next.output == s.output && next.truncated == s.truncated
  {
    if r.Bytes? && r.data == [] {
      assert Bounded(s.output, r.data, limit) == s.output;
    }
  }

  /** Only the read of a turn touches the captured output. */
  lemma TurnOutput(s: RunState, t: Turn, limit: nat)
    requires !Raises(s, t.wait)
    ensures AfterTurn(s, t, limit).value.output == AfterRead(s, t.read, limit).output
    ensures AfterTurn(s, t, limit).value.truncated == AfterRead(s, t.read, limit).truncated
  {
    hide FirstReaped, AfterRead;
  }

  /** In every state the captured output is everything read, cut at the limit, and the truncation
      flag says whether something was cut. */
  lemma {:induction false} OutputIsPrefix(turns: seq<Turn>, n: nat, limit: nat)
    requires n <= |turns| && After(turns, n, limit).Some?
    ensures var s, all := After(turns, n, limit).value, DataRead(turns, n, limit);
            && s.output == all[..Min(|all|, limit)]
            && (s.truncated <==> |all| > limit)
  {
    hide AfterTurn, AfterRead, Bounded;
    if n > 0 {
      OutputIsPrefix(turns, n - 1, limit);
      var s, all := After(turns, n - 1, limit).value, DataRead(turns, n - 1, limit);
      assert all + [] == all;
      if !s.Done() {
        NoneOnlyWhenRaising(s, turns[n - 1], limit);
        TurnOutput(s, turns[n - 1], limit);
        ReadOutput(s, turns[n - 1].read, limit);
        if turns[n - 1].read.Bytes? { BoundedExtends(all, turns[n - 1].read.data, limit); }
      }
    }
  }

  lemma NoneOnlyWhenRaising(s: RunState, t: Turn, limit: nat)
    ensures AfterTurn(s, t, limit).None? <==> Raises(s, t.wait)
  {}

  // ---- how a run ends ----------------------------------------------------------------------

  /** Turn k is taken: the run has neither finished nor raised before it, nor does it raise. */
  predicate Taken(turns: seq<Turn>, k: nat, limit: nat)
    requires k < |turns|
  {
    After(turns, k, limit).Some? && !After(turns, k, limit).value.Done() && After(turns, k + 1, limit).Some?
  }

  /** A read that ends the output: end of file, or an error other than one asking to retry. */
  predicate ClosesPipe(r: ReadResult) { r == Bytes([]) || r == ReadError(false) }

  /** The child, and the output, are finished when turn k comes to ask whether to end the command. */
  predicate ChildOver(turns: seq<Turn>, k: nat, limit: nat)
    requires k < |turns|
  {
    turns[k].wait.Reaped? || (After(turns, k, limit).Some? && After(turns, k, limit).value.child)
  }

  predicate PipeOver(turns: seq<Turn>, k: nat, limit: nat)
    requires k < |turns|
  {
    ClosesPipe(turns[k].read) || (After(turns, k, limit).Some? && After(turns, k, limit).value.pipe)
  }

  /** Turn k ends the command: something is unfinished, and the stop flag is set or the time is up. */
  predicate KillTurn(turns: seq<Turn>, k: nat, limit: nat)
    requires k < |turns|
  {
    && Taken(turns, k, limit) && (turns[k].stop || turns[k].late)
    && !(ChildOver(turns, k, limit) && PipeOver(turns, k, limit))
  }

  lemma KillTurnKills(turns: seq<Turn>, k: nat, limit: nat)
    requires k < |turns|
    ensures KillTurn(turns, k, limit) <==>
            var s := After(turns, k, limit);
            && s.Some? && !s.value.Done() && !Raises(s.value, turns[k].wait)
            && Kills(Looked(s.value, turns[k], limit), turns[k])
  {
    var s := After(turns, k, limit);
    if s.Some? && !s.value.Done() {
      OneMoreTurn(turns, k, s.value, limit);
      NoneOnlyWhenRaising(s.value, turns[k], limit);
      hide AfterTurn, Bounded, After;
    }
  }

  /** The last of the first n turns to end the command. */
  function LastKill(turns: seq<Turn>, n: nat, limit: nat): (k: Option<nat>)
    requires n <= |turns|
    ensures k.Some? ==> k.value < n && KillTurn(turns, k.value, limit)
    ensures forall j: nat :: j < n && (k.Some? ==> k.value < j) ==> !KillTurn(turns, j, limit)
  {
    if n == 0 then None
    else if KillTurn(turns, n - 1, limit) then Some(n - 1)
    else LastKill(turns, n - 1, limit)
  }

  lemma TurnFlags(s: RunState, t: Turn, limit: nat)
    requires !Raises(s, t.wait)
    ensures var next := AfterTurn(s, t, limit).value;
            if Kills(Looked(s, t, limit), t) then next.cancelled == t.stop && next.timedOut == !t.stop && next.child
            else next.cancelled == s.cancelled && next.timedOut == s.timedOut
  {
    hide FirstReaped, Bounded;
  }

  /** The flags tell the cause of the last ending: cancelled when a stop was requested, timed out
      otherwise, neither when the command was never ended. Later turns may overwrite them, but
      they are never both set. */
  lemma {:induction false} FlagsTellTheLastKill(turns: seq<Turn>, n: nat, limit: nat)
    requires n <= |turns| && After(turns, n, limit).Some?
    ensures var s := After(turns, n, limit).value;
            && !(s.timedOut && s.cancelled)
            && var k := LastKill(turns, n, limit);
            && (s.cancelled <==> k.Some? && turns[k.value].stop)
            && (s.timedOut <==> k.Some? && !turns[k.value].stop)
  {
    hide AfterTurn, Looked, Kills, KillTurn;
    if n > 0 {
      KillTurnKills(turns, n - 1, limit);
      FlagsTellTheLastKill(turns, n - 1, limit);
      var before := After(turns, n - 1, limit).value;
      NoneOnlyWhenRaising(before, turns[n - 1], limit);
      if !before.Done() { TurnFlags(before, turns[n - 1], limit); }
    }
  }

  // ---- when child and output are finished --------------------------------------------------

  lemma TurnFinishes(s: RunState, t: Turn, limit: nat)
    requires !Raises(s, t.wait)
    ensures var next, kills := AfterTurn(s, t, limit).value, Kills(Looked(s, t, limit), t);
            && (next.pipe <==> s.pipe || ClosesPipe(t.read))
            && (next.child <==> s.child || t.wait.Reaped? || kills)
  {
    hide FirstReaped, Bounded;
  }

  /** Some turn taken before n closes the output. */
  predicate PipeClosed(turns: seq<Turn>, n: nat, limit: nat)
    requires n <= |turns|
  {
    exists k :: 0 <= k < n && Taken(turns, k, limit) && ClosesPipe(turns[k].read)
  }

  /** Some turn taken before n reaps the child or ends the command. */
  predicate ChildStopped(turns: seq<Turn>, n: nat, limit: nat)
    requires n <= |turns|
  {
    exists k :: 0 <= k < n && Taken(turns, k, limit) && (turns[k].wait.Reaped? || KillTurn(turns, k, limit))
  }

  /** In every state the output counts as finished exactly when end of file or a fatal error was read,
      and the child exactly when it was reaped or the command was ended. */
  lemma {:induction false} FinishedExactly(turns: seq<Turn>, n: nat, limit: nat)
    requires n <= |turns| && After(turns, n, limit).Some?
    ensures After(turns, n, limit).value.pipe <==> PipeClosed(turns, n, limit)
    ensures After(turns, n, limit).value.child <==> ChildStopped(turns, n, limit)
  {
    hide AfterTurn, Looked, Kills, KillTurn, ClosesPipe;
    if n > 0 {
      FinishedExactly(turns, n - 1, limit);
      KillTurnKills(turns, n - 1, limit);
      var s, t := After(turns, n - 1, limit).value, turns[n - 1];
      NoneOnlyWhenRaising(s, t, limit);
      if !s.Done() { TurnFinishes(s, t, limit); }
      hide After;
      assert PipeClosed(turns, n, limit) <==>
             PipeClosed(turns, n - 1, limit) || (Taken(turns, n - 1, limit) && ClosesPipe(t.read));
      assert ChildStopped(turns, n, limit) <==>
             || ChildStopped(turns, n - 1, limit)
             || (Taken(turns, n - 1, limit) && (t.wait.Reaped? || KillTurn(turns, n - 1, limit)));
    }
  }

  /** A run that returns has read to the end, or to a fatal error, and its child was reaped or ended; it
      reports everything read, cut at the limit, and why it was ended. */
  lemma FinishedRuns(turns: seq<Turn>, limit: nat, r: Report)
    requires OutcomeOf(After(turns, |turns|, limit)) == Finished(r)
    ensures PipeClosed(turns, |turns|, limit) && ChildStopped(turns, |turns|, limit)
    ensures var all := DataRead(turns, |turns|, limit);
            r.output == all[..Min(|all|, limit)] && (r.truncated <==> |all| > limit)
    ensures var k := LastKill(turns, |turns|, limit);
            && (r.cancelled <==> k.Some? && turns[k.value].stop)
            && (r.timedOut <==> k.Some? && !turns[k.value].stop)
  {
    FinishedExactly(turns, |turns|, limit);
    OutputIsPrefix(turns, |turns|, limit);
    FlagsTellTheLastKill(turns, |turns|, limit);
    hide PipeClosed, ChildStopped, After, DataRead, LastKill, NormalizedExitCode;
  }

  /** At turn k a wait for the unfinished child fails. */
  predicate RaisesAt(turns: seq<Turn>, k: nat, limit: nat)
    requires k < |turns|
  {
    After(turns, k, limit).Some? && !After(turns, k, limit).value.child && turns[k].wait.WaitFailed?
  }

  /** A run raises exactly when a wait for the unfinished child fails while the run goes on. */
  lemma {:induction false} RaisesExactly(turns: seq<Turn>, n: nat, limit: nat)
    requires n <= |turns|
    ensures After(turns, n, limit).None? <==>
            exists k :: 0 <= k < n && RaisesAt(turns, k, limit)
  {
    if n > 0 {
      RaisesExactly(turns, n - 1, limit);
      RaisesNow(turns, n - 1, limit);
      hide After, RaisesAt;
    }
  }

  lemma RaisesNow(turns: seq<Turn>, n: nat, limit: nat)
    requires n < |turns|
    ensures After(turns, n + 1, limit).None? <==> After(turns, n, limit).None? || RaisesAt(turns, n, limit)
  {
    hide AfterTurn;
    var s := After(turns, n, limit);
    if s.Some? && !s.value.Done() { NoneOnlyWhenRaising(s.value, turns[n], limit); }
  }

  // ---- which status is reported ------------------------------------------------------------

  /** Wait i is the first of the waits to reap, with this status. */
  predicate FirstReapAt(ws: seq<WaitResult>, i: int, status: int) {
    0 <= i < |ws| && status >= 0 && ws[i] == Reaped(status) && forall j :: 0 <= j < i ==> !ws[j].Reaped?
  }

  lemma {:induction false} FirstReapedMeans(ws: seq<WaitResult>)
    ensures FirstReaped(ws).None? <==> forall j :: 0 <= j < |ws| ==> !ws[j].Reaped?
    ensures forall status: nat :: FirstReaped(ws) == Some(status) <==> exists i :: FirstReapAt(ws, i, status)
  {
    if ws != [] && !ws[0].Reaped? {
      FirstReapedMeans(ws[1..]);
      forall status: nat ensures FirstReaped(ws) == Some(status) <==> exists i :: FirstReapAt(ws, i, status) {
        if i :| FirstReapAt(ws[1..], i, status) { assert FirstReapAt(ws, i + 1, status); }
        if i :| FirstReapAt(ws, i, status) { assert FirstReapAt(ws[1..], i - 1, status); }
      }
    } else if ws != [] {
      assert FirstReapAt(ws, 0, ws[0].status);
    }
  }

  /** Turn k reaps the child with this status: while polling, in the grace period, or after SIGKILL. */
  ghost predicate ReapsWith(turns: seq<Turn>, k: nat, limit: nat, status: nat)
    requires k < |turns|
  {
    && Taken(turns, k, limit)
    && (turns[k].wait == Reaped(status)
        || (KillTurn(turns, k, limit)
            && (turns[k].killed == Some(status) || exists i :: FirstReapAt(turns[k].grace, i, status))))
  }

  lemma TurnStatus(s: RunState, t: Turn, limit: nat)
    requires !Raises(s, t.wait)
    requires s.child || t.wait.Reaped? ==> FirstReaped(t.grace).None?
    requires !s.child ==> t.killed.Some?
    ensures var next, kills := AfterTurn(s, t, limit).value, Kills(Looked(s, t, limit), t);
            if s.child then next.status == s.status
            else next.child ==>
              || t.wait == Reaped(next.status)
              || (kills && (FirstReaped(t.grace) == Some(next.status) || t.killed == Some(next.status)))
  {
    hide FirstReaped, Bounded;
  }

  /** The status of a finished child is the one it was reaped with. */
  lemma {:induction false} StatusIsReaped(turns: seq<Turn>, n: nat, limit: nat) returns (k: nat)
    requires n <= |turns| && Waitable(turns, limit)
    requires After(turns, n, limit).Some? && After(turns, n, limit).value.child
    ensures k < n && ReapsWith(turns, k, limit, After(turns, n, limit).value.status)
  {
    hide AfterTurn, Looked, Kills, KillTurn, FirstReaped, ReapsWith;
    var s, t := After(turns, n - 1, limit).value, turns[n - 1];
    NoneOnlyWhenRaising(s, t, limit);
    if !s.Done() { TurnStatus(s, t, limit); }
    if s.child {
      k := StatusIsReaped(turns, n - 1, limit);
    } else {
      k := n - 1;
      KillTurnKills(turns, k, limit);
      FirstReapedMeans(t.grace);
      ReapedNow(turns, k, limit, After(turns, n, limit).value.status);
    }
  }

  lemma ReapedNow(turns: seq<Turn>, k: nat, limit: nat, status: nat)
    requires k < |turns| && Taken(turns, k, limit)
    requires || turns[k].wait == Reaped(status)
             || (KillTurn(turns, k, limit)
                 && (FirstReaped(turns[k].grace) == Some(status) || turns[k].killed == Some(status)))
    ensures ReapsWith(turns, k, limit, status)
  {
    FirstReapedMeans(turns[k].grace);
    hide KillTurn, Taken, FirstReaped;
  }

  /** Once the command was ended the child is finished; only the pipe can keep the run going. */
  lemma KillFinishesChild(turns: seq<Turn>, k: nat, limit: nat)
    requires k < |turns| && KillTurn(turns, k, limit)
    ensures After(turns, k + 1, limit).Some? && After(turns, k + 1, limit).value.child
  {
    KillTurnKills(turns, k, limit);
    hide KillTurn;
    TurnFlags(After(turns, k, limit).value, turns[k], limit);
  }

  /** The child can be waited for until it is reaped, and not after. */
  predicate Waitable(turns: seq<Turn>, limit: nat) {
    forall k :: 0 <= k < |turns| && After(turns, k, limit).Some? ==>
      var s := After(turns, k, limit).value;
      && (s.child || turns[k].wait.Reaped? ==> FirstReaped(turns[k].grace).None?)
      && (!s.child ==> turns[k].killed.Some?)
  }

  lemma TurnReaps(s: RunState, t: Turn, limit: nat)
    requires !Raises(s, t.wait) && s.reaps == (if s.child then 1 else 0)
    requires s.child || t.wait.Reaped? ==> FirstReaped(t.grace).None?
    requires !s.child ==> t.killed.Some?
    ensures var next := AfterTurn(s, t, limit).value; next.reaps == if next.child then 1 else 0
  {
    hide FirstReaped, Bounded;
  }

  /** The child is reaped exactly once in a run that returns, and never twice in any run. */
  lemma {:induction false} ReapedOnce(turns: seq<Turn>, n: nat, limit: nat)
    requires n <= |turns| && Waitable(turns, limit) && After(turns, n, limit).Some?
    ensures After(turns, n, limit).value.reaps == if After(turns, n, limit).value.child then 1 else 0
  {
    hide AfterTurn, FirstReaped;
    if n > 0 {
      ReapedOnce(turns, n - 1, limit);
      var before := After(turns, n - 1, limit).value;
      NoneOnlyWhenRaising(before, turns[n - 1], limit);
      if !before.Done() { TurnReaps(before, turns[n - 1], limit); }
    }
  }

  /** The wait status of a process that called exit(code), or that signal `signal` ended, with or
      without a core dump; a stopped process counts as one that failed to start. */
  lemma WaitStatusDecodes(code: nat, signal: nat, core: bool)
    requires code < 256 && 0 < signal < 127
    ensures NormalizedExitCode(code * 256) == code
    ensures NormalizedExitCode(signal + if core then 128 else 0) == 128 + signal
    ensures NormalizedExitCode(code * 256 + 127) == 127
  {}

  /** The exit code: 125 for a cancelled run, 124 for one out of time, else the child's own, which
      is a byte, or 128 plus the number of the signal that ended it, or 127. */
  lemma ExitCodes(turns: seq<Turn>, limit: nat, r: Report)
    requires OutcomeOf(After(turns, |turns|, limit)) == Finished(r)
    ensures !(r.timedOut && r.cancelled)
    ensures r.cancelled ==> r.exitCode == 125
    ensures r.timedOut ==> r.exitCode == 124
    ensures !r.cancelled && !r.timedOut ==> r.exitCode == NormalizedExitCode(After(turns, |turns|, limit).value.status)
    ensures 0 <= r.exitCode <= 255
  {
    FlagsTellTheLastKill(turns, |turns|, limit);
  }
}
