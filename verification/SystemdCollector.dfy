/** Failed systemd units and the window in which repeated failures count as flapping. */
module SystemdCollector {
  import opened Common
  import opened Decimal
  import opened Observation
  import RuleEngine

  const NS_PER_SECOND: int := 1_000_000_000

  datatype Options = Options(threshold: int, windowSeconds: int, ignored: seq<string>) {
    /** Non-positive settings fall back to 3 failures in 300 seconds. */
    function Corrected(): Options {
      Options(if threshold <= 0 then 3 else threshold, if windowSeconds <= 0 then 300 else windowSeconds, ignored)
    }
  }

  /** One entry of the ListUnits reply. */
  datatype Unit = Unit(name: string, activeState: string)

  type Starts = map<string, seq<int>>

  predicate Counts(u: Unit, o: Options) { u.name !in o.ignored && u.activeState == "failed" }

  // ---- specification -----------------------------------------------------------------------

  /** The times at or after the cutoff, in order. */
  function Since(times: seq<int>, cutoff: int): seq<int> {
    if times == [] then []
    else Since(times[..|times| - 1], cutoff) + if times[|times| - 1] >= cutoff then [times[|times| - 1]] else []
  }

  /** Every observation of a failed, non-ignored unit, in order of time: (unit, time). */
  datatype Observed = Observed(name: string, at: int)

  /** The whole history of one unit. */
  function HistoryOf(log: seq<Observed>, name: string): seq<int> {
    if log == [] then []
    else HistoryOf(log[..|log| - 1], name) + if log[|log| - 1].name == name then [log[|log| - 1].at] else []
  }

  /** The observations one reply adds. */
  function ObservedIn(units: seq<Unit>, now: int, o: Options): seq<Observed> {
    if units == [] then []
    else ObservedIn(units[..|units| - 1], now, o) +
         if Counts(units[|units| - 1], o) then [Observed(units[|units| - 1].name, now)] else []
  }

  /** The failures of a unit at or after the cutoff. */
  function Window(log: seq<Observed>, name: string, cutoff: int): seq<int> { Since(HistoryOf(log, name), cutoff) }

  /** Only nonempty lists have an entry. */
  predicate Stored(starts: Starts, name: string, times: seq<int>) {
    if times == [] then name !in starts else name in starts && starts[name] == times
  }

  /** The stored starts of every unit are its history cut to the window. */
  ghost predicate IsWindow(starts: Starts, log: seq<Observed>, cutoff: int) {
    forall name :: Stored(starts, name, Window(log, name, cutoff))
  }

  predicate NoLaterThan(log: seq<Observed>, now: int) { forall i :: 0 <= i < |log| ==> log[i].at <= now }

  function UnitFailed(name: string, nowNs: int): Event {
    Event(0, nowNs, "systemd", "systemd.unit", name, "unit_failed", Text("failed"), Error, "")
  }

  function UnitFlapping(name: string, count: nat, nowNs: int): Event {
    Event(0, nowNs, "systemd", "systemd.unit", name, "unit_flapping", Text(Show(count)), Warning, "")
  }

  /** The events of one failing unit once its failure is in the log: the failure, and flapping
      when its failures in the window reach the threshold. */
  function EventsOf(u: Unit, seen: seq<Observed>, now: int, o: Options): seq<Event> {
    var count := |Window(seen, u.name, now - o.windowSeconds * NS_PER_SECOND)|;
    [UnitFailed(u.name, now)] + if count >= o.threshold then [UnitFlapping(u.name, count, now)] else []
  }

  /** The events a reply gives rise to, after the observations in `log`. */
  function EventsFor(units: seq<Unit>, log: seq<Observed>, now: int, o: Options): seq<Event> {
    if units == [] then []
    else
      var n := |units| - 1;
      EventsFor(units[..n], log, now, o) +
        if Counts(units[n], o) then EventsOf(units[n], log + ObservedIn(units, now, o), now, o) else []
  }

  // ---- proofs about windows ----------------------------------------------------------------

  lemma {:induction false} SinceTwice(times: seq<int>, early: int, late: int)
    requires early <= late
    ensures Since(Since(times, early), late) == Since(times, late)
  {
    if times != [] {
      var n := |times| - 1;
      SinceTwice(times[..n], early, late);
      var kept := Since(times[..n], early);
      if times[n] >= early {
        assert (kept + [times[n]])[..|kept|] == kept;
      } else {
        assert kept + [] == kept;
      }
    }
  }

  /** What the stored times of a unit come to at a later cutoff. */
  function Later(starts: Starts, name: string, cutoff: int): seq<int> {
    if name in starts then Since(starts[name], cutoff) else []
  }

  lemma WindowMoves(starts: Starts, log: seq<Observed>, early: int, late: int)
    requires IsWindow(starts, log, early) && early <= late
    ensures forall name :: Later(starts, name, late) == Window(log, name, late)
  {
    forall name ensures Later(starts, name, late) == Window(log, name, late) {
      assert Stored(starts, name, Window(log, name, early));
      SinceTwice(HistoryOf(log, name), early, late);
    }
  }

  lemma WindowGrows(log: seq<Observed>, name: string, now: int, cutoff: int, other: string)
    requires now >= cutoff
    ensures Window(log + [Observed(name, now)], other, cutoff) ==
            Window(log, other, cutoff) + if other == name then [now] else []
  {
    HistoryOneMore(log, Observed(name, now), other);
    SinceOneMore(HistoryOf(log, other), now, cutoff);
    assert HistoryOf(log, other) + [] == HistoryOf(log, other);
    assert Window(log, other, cutoff) + [] == Window(log, other, cutoff);
  }

  lemma NoUnits(log: seq<Observed>, now: int, o: Options)
    ensures ObservedIn([], now, o) == [] && EventsFor([], log, now, o) == []
  {}

  lemma OneMoreUnit(units: seq<Unit>, i: nat, log: seq<Observed>, now: int, o: Options)
    requires i < |units|
    ensures var u, before := units[i], units[..i];
            && ObservedIn(units[..i + 1], now, o) ==
                 ObservedIn(before, now, o) + (if Counts(u, o) then [Observed(u.name, now)] else [])
            && EventsFor(units[..i + 1], log, now, o) ==
                 EventsFor(before, log, now, o) +
                 if Counts(u, o) then EventsOf(u, log + ObservedIn(units[..i + 1], now, o), now, o) else []
  {
    assert units[..i + 1][..i] == units[..i];
  }

  lemma SinceOneMore(times: seq<int>, t: int, cutoff: int)
    requires t >= cutoff
    ensures Since(times + [t], cutoff) == Since(times, cutoff) + [t]
  {
    assert (times + [t])[..|times|] == times;
  }

  lemma HistoryOneMore(log: seq<Observed>, o: Observed, name: string)
    ensures HistoryOf(log + [o], name) == HistoryOf(log, name) + if o.name == name then [o.at] else []
  {
    assert (log + [o])[..|log|] == log;
  }

  // ---- the collector -----------------------------------------------------------------------

  class SystemdCollector {
    const options: Options
    var flapping: Starts
    /** Everything ever observed, and the time of the last collection. */
    ghost var log: seq<Observed>
    ghost var last: int

    ghost predicate Valid()
      reads this
    {
      && options.threshold > 0 && options.windowSeconds > 0
      && NoLaterThan(log, last)
      && IsWindow(flapping, log, last - options.windowSeconds * NS_PER_SECOND)
    }

    constructor (o: Options, start: int)
      ensures Valid() && options == o.Corrected() && log == [] && last == start
    {
      options := o.Corrected();
      flapping, log, last := map[], [], start;
    }

    method PruneOldTimestamps(now: int)
      requires Valid() && now >= last
      modifies this
      ensures Valid() && last == now && log == old(log)
    {
      hide Since, HistoryOf;
      var cutoff := now - options.windowSeconds * NS_PER_SECOND;
      ghost var before := flapping;
      var pending := flapping.Keys;
      while pending != {}
        invariant pending <= before.Keys && log == old(log)
        invariant forall name :: name in pending ==> name in flapping && flapping[name] == before[name]
        invariant forall name :: name !in pending ==> Stored(flapping, name, Later(before, name, cutoff))
        decreases |pending|
      {
        var name :| name in pending;
        var starts := EraseOld(flapping[name], cutoff);
        if starts == [] {
          flapping := flapping - {name};
        } else {
          flapping := flapping[name := starts];
        }
        pending := pending - {name};
      }
      last := now;
      WindowMoves(before, log, old(last) - options.windowSeconds * NS_PER_SECOND, cutoff);
    }

    /** Units is the ListUnits reply, None when the bus or the call fails. */
    method Collect(now: int, units: Option<seq<Unit>>) returns (events: seq<Event>)
      requires Valid() && now >= last
      modifies this
      ensures Valid() && last == now
      ensures log == old(log) + if units.Some? then ObservedIn(units.value, now, options) else []
      ensures events == if units.Some? then EventsFor(units.value, old(log), now, options) else []
    {
      events := [];
      PruneOldTimestamps(now);
      if units.None? {
        return;
      }
      hide EventsFor, EventsOf, ObservedIn, IsWindow, Counts;
      NoUnits(log, now, options);
      for i := 0 to |units.value|
        invariant Valid() && last == now
        invariant log == old(log) + ObservedIn(units.value[..i], now, options)
        invariant events == EventsFor(units.value[..i], old(log), now, options)
      {
        OneMoreUnit(units.value, i, old(log), now, options);
        var more := CollectUnit(units.value[i], now);
        events := events + more;
      }
      assert units.value[..|units.value|] == units.value;
    }

    /** The body of the loop over the units. */
    method CollectUnit(u: Unit, now: int) returns (events: seq<Event>)
      requires Valid() && now == last
      modifies this`flapping, this`log
      ensures Valid()
      ensures log == old(log) + if Counts(u, options) then [Observed(u.name, now)] else []
      ensures events == if Counts(u, options) then EventsOf(u, log, now, options) else []
    {
      events := [];
      if Counts(u, options) {
        var restartCount := Observe(u.name, now);
        events := [UnitFailed(u.name, now)];
        if restartCount >= options.threshold {
          events := events + [UnitFlapping(u.name, restartCount, now)];
        }
      }
    }

    /** Appends the current time to the unit's starts and returns how many there are. */
    method Observe(name: string, now: int) returns (count: nat)
      requires Valid() && now == last
      modifies this`flapping, this`log
      ensures Valid() && log == old(log) + [Observed(name, now)]
      ensures count == |Window(log, name, now - options.windowSeconds * NS_PER_SECOND)|
    {
      hide Window;
      var starts := (if name in flapping then flapping[name] else []) + [now];
      flapping := flapping[name := starts];
      ghost var cutoff := now - options.windowSeconds * NS_PER_SECOND;
      assert Stored(old(flapping), name, Window(log, name, cutoff));
      forall other ensures Stored(flapping, other, Window(log + [Observed(name, now)], other, cutoff)) {
        WindowGrows(log, name, now, cutoff, other);
        assert Stored(old(flapping), other, Window(log, other, cutoff));
      }
      log := log + [Observed(name, now)];
      count := |starts|;
    }
  }

  /** std::erase_if over one vector of times. */
  method EraseOld(times: seq<int>, cutoff: int) returns (kept: seq<int>)
    ensures kept == Since(times, cutoff)
  {
    kept := [];
    for i := 0 to |times|
      invariant kept == Since(times[..i], cutoff)
    {
      assert times[..i + 1][..i] == times[..i];
      if times[i] >= cutoff {
        kept := kept + [times[i]];
      }
    }
    assert times[..|times|] == times;
  }

  // ---- what a flapping event tells ---------------------------------------------------------

  function Cutoff(now: int, o: Options): int { now - o.windowSeconds * NS_PER_SECOND }

  ghost predicate ReportsFlapping(events: seq<Event>, name: string, now: int) {
    exists n: nat :: UnitFlapping(name, n, now) in events
  }

  predicate Counted(units: seq<Unit>, name: string, o: Options) {
    exists u :: u in units && u.name == name && Counts(u, o)
  }

  lemma EventsOfReport(u: Unit, seen: seq<Observed>, now: int, o: Options, name: string)
    ensures ReportsFlapping(EventsOf(u, seen, now, o), name, now) <==>
            u.name == name && |Window(seen, u.name, Cutoff(now, o))| >= o.threshold
  {
    hide Window, Show;
    var events, count := EventsOf(u, seen, now, o), |Window(seen, u.name, Cutoff(now, o))|;
    if u.name == name && count >= o.threshold { assert events[1] == UnitFlapping(name, count, now); }
  }

  lemma ReportsEither(a: seq<Event>, b: seq<Event>, name: string, now: int)
    ensures ReportsFlapping(a + b, name, now) <==> ReportsFlapping(a, name, now) || ReportsFlapping(b, name, now)
  {
    hide UnitFlapping;
    if n: nat :| UnitFlapping(name, n, now) in a { assert UnitFlapping(name, n, now) in a + b; }
    if n: nat :| UnitFlapping(name, n, now) in b { assert UnitFlapping(name, n, now) in a + b; }
  }

  lemma LogGrows(log: seq<Observed>, units: seq<Unit>, now: int, o: Options, name: string)
    requires units != [] && o.windowSeconds > 0
    ensures var u, n := units[|units| - 1], |units| - 1;
            Window(log + ObservedIn(units, now, o), name, Cutoff(now, o)) ==
            Window(log + ObservedIn(units[..n], now, o), name, Cutoff(now, o)) +
            if Counts(u, o) && u.name == name then [now] else []
  {
    var u, n := units[|units| - 1], |units| - 1;
    var before := log + ObservedIn(units[..n], now, o);
    if Counts(u, o) {
      assert log + ObservedIn(units, now, o) == before + [Observed(u.name, now)];
      WindowGrows(before, u.name, now, Cutoff(now, o), name);
    } else {
      assert log + ObservedIn(units, now, o) == before;
    }
  }

  /** A reply makes the collector report a unit as flapping exactly when the unit is found failed, is
      not ignored, and has been found failed at least `threshold` times in the window. */
  lemma {:induction false} FlappingExactly(units: seq<Unit>, log: seq<Observed>, now: int, o: Options, name: string)
    requires o.windowSeconds > 0
    ensures ReportsFlapping(EventsFor(units, log, now, o), name, now) <==>
            Counted(units, name, o) && |Window(log + ObservedIn(units, now, o), name, Cutoff(now, o))| >= o.threshold
  {
    hide ReportsFlapping, EventsOf, Window, ObservedIn, Counts;
    if units == [] {
      NothingReported(name, now);
    } else {
      var n := |units| - 1;
      FlappingExactly(units[..n], log, now, o, name);
      LogGrows(log, units, now, o, name);
      CountedOneMore(units, name, o);
      NothingReported(name, now);
      EventsOfReport(units[n], log + ObservedIn(units, now, o), now, o, name);
      ReportsEither(EventsFor(units[..n], log, now, o),
                    if Counts(units[n], o) then EventsOf(units[n], log + ObservedIn(units, now, o), now, o) else [],
                    name, now);
      hide EventsFor, Counted;
    }
  }

  lemma NothingReported(name: string, now: int)
    ensures !ReportsFlapping([], name, now)
  {}

  lemma CountedOneMore(units: seq<Unit>, name: string, o: Options)
    requires units != []
    ensures var u, n := units[|units| - 1], |units| - 1;
            Counted(units, name, o) <==> Counted(units[..n], name, o) || (u.name == name && Counts(u, o))
  {
    hide Counts;
    assert units == units[..|units| - 1] + [units[|units| - 1]];
  }

  /** A unit found failed and not ignored. */
  predicate FoundFailed(units: seq<Unit>, name: string, o: Options) {
    name !in o.ignored && Unit(name, "failed") in units
  }

  lemma EventsOfMean(u: Unit, seen: seq<Observed>, now: int, o: Options, e: Event)
    requires e in EventsOf(u, seen, now, o)
    ensures e.subject == u.name && e.timestampNs == now && e.source == "systemd" && e.category == "systemd.unit"
    ensures || (e.signal == "unit_failed" && e.severity == Error && e.value == Text("failed"))
            || (e.signal == "unit_flapping" && e.severity == Warning
                && e.value == Text(Show(|Since(HistoryOf(seen, u.name), now - o.windowSeconds * 1_000_000_000)|)))
  {
    hide Since, HistoryOf, Show;
  }

  /** Every event is about a unit found failed and not ignored, and says what it should; each such unit
      has a failure event. Ignored and other units give no event. */
  lemma {:induction false} EventsMean(units: seq<Unit>, log: seq<Observed>, now: int, o: Options)
    ensures forall e :: e in EventsFor(units, log, now, o) ==>
              && FoundFailed(units, e.subject, o)
              && e.timestampNs == now && e.source == "systemd" && e.category == "systemd.unit"
              && ((e.signal == "unit_failed" && e.severity == Error && e.value == Text("failed"))
                  || (e.signal == "unit_flapping" && e.severity == Warning))
    ensures forall name :: FoundFailed(units, name, o) ==>
              exists e :: e in EventsFor(units, log, now, o) && e.subject == name && e.signal == "unit_failed"
  {
    if units != [] {
      var n := |units| - 1;
      var u, seen := units[n], log + ObservedIn(units, now, o);
      EventsMean(units[..n], log, now, o);
      assert units == units[..n] + [u];
      hide ObservedIn, Window;
      if Counts(u, o) {
        forall e | e in EventsOf(u, seen, now, o)
          ensures FoundFailed(units, e.subject, o) && e.timestampNs == now && e.source == "systemd"
          ensures e.category == "systemd.unit"
          ensures (e.signal == "unit_failed" && e.severity == Error && e.value == Text("failed"))
                  || (e.signal == "unit_flapping" && e.severity == Warning)
        {
          EventsOfMean(u, seen, now, o, e);
        }
        assert UnitFailed(u.name, now) in EventsOf(u, seen, now, o);
      }
      hide EventsOf, UnitFailed;
      forall name | FoundFailed(units, name, o)
        ensures exists e :: e in EventsFor(units, log, now, o) && e.subject == name && e.signal == "unit_failed"
      {
        if FoundFailed(units[..n], name, o) {
          var e :| e in EventsFor(units[..n], log, now, o) && e.subject == name && e.signal == "unit_failed";
          assert e in EventsFor(units, log, now, o);
        }
      }
    }
  }

  /** The settings in use: 3 failures in 300 seconds where none, or none that makes sense, were given. */
  lemma CorrectedSettings(o: Options)
    ensures o.Corrected().threshold == if o.threshold > 0 then o.threshold else 3
    ensures o.Corrected().windowSeconds == if o.windowSeconds > 0 then o.windowSeconds else 300
    ensures o.Corrected().ignored == o.ignored
  {}

  // ---- polls and restarts ------------------------------------------------------------------

  /** What a unit goes through: when it was restarted, and when it is in the failed state. */
  datatype Life = Life(restarts: seq<int>, failed: int -> bool)

  function UnitAt(name: string, life: Life, now: int): Unit {
    Unit(name, if life.failed(now) then "failed" else "active")
  }

  /** What the collector has logged of the unit after polls at the given times. */
  function PollLog(name: string, life: Life, times: seq<int>): seq<Observed> {
    if times == [] then []
    else
      var t := times[|times| - 1];
      PollLog(name, life, times[..|times| - 1]) + if life.failed(t) then [Observed(name, t)] else []
  }

  /** How many of the polls at or after the cutoff found the unit failed. */
  function FailingPolls(life: Life, times: seq<int>, cutoff: int): nat {
    if times == [] then 0
    else
      var t := times[|times| - 1];
      FailingPolls(life, times[..|times| - 1], cutoff) + if life.failed(t) && t >= cutoff then 1 else 0
  }

  /** The poll at `now`, after polls at `times`, reports the unit as flapping. */
  ghost predicate Reported(name: string, life: Life, times: seq<int>, now: int, o: Options) {
    ReportsFlapping(EventsFor([UnitAt(name, life, now)], PollLog(name, life, times), now, o), name, now)
  }

  /** The design asks for a report: the unit was restarted `threshold` times within the window. */
  predicate Demanded(life: Life, now: int, o: Options) { |Since(life.restarts, Cutoff(now, o))| >= o.threshold }

  lemma {:induction false} PollLogWindow(name: string, life: Life, times: seq<int>, cutoff: int)
    ensures |Window(PollLog(name, life, times), name, cutoff)| == FailingPolls(life, times, cutoff)
  {
    if times != [] {
      var n := |times| - 1;
      var before := PollLog(name, life, times[..n]);
      PollLogWindow(name, life, times[..n], cutoff);
      if life.failed(times[n]) {
        HistoryOneMore(before, Observed(name, times[n]), name);
        var h := HistoryOf(before, name);
        assert (h + [times[n]])[..|h|] == h;
      } else {
        assert before + [] == before;
      }
    }
  }

  /** The collector reports a unit exactly when this poll and enough earlier ones in the window find
      it failed. Restarts do not enter: they matter only through the polls that fail. */
  lemma ReportedExactly(name: string, life: Life, times: seq<int>, now: int, o: Options)
    requires name !in o.ignored && o.windowSeconds > 0
    ensures Reported(name, life, times, now, o) <==>
            life.failed(now) && FailingPolls(life, times, Cutoff(now, o)) + 1 >= o.threshold
  {
    var u, log := UnitAt(name, life, now), PollLog(name, life, times);
    PollLogWindow(name, life, times, Cutoff(now, o));
    FlappingExactly([u], log, now, o, name);
    assert [u][..0] == [];
    assert u in [u];
    hide Window, FailingPolls, PollLog, ReportsFlapping, EventsFor;
    LogGrows(log, [u], now, o, name);
    assert log + [] == log;
  }

  function PollTime(start: int, interval: nat, n: nat): int { start + n * interval }

  /** The first n polls of a collector that polls at start, start + interval, ... */
  function Every(start: int, interval: nat, n: nat): seq<int> {
    if n == 0 then [] else Every(start, interval, n - 1) + [PollTime(start, interval, n - 1)]
  }

  /** How many earlier polls the window reaches back to. */
  function PollsInWindow(o: Options, interval: nat): nat
    requires interval > 0 && o.windowSeconds > 0
  {
    o.windowSeconds * NS_PER_SECOND / interval
  }

  function Max(a: int, b: int): int { if a >= b then a else b }

  lemma QuotientBound(k: nat, b: nat, w: nat)
    requires b > 0
    ensures k * b <= w <==> k <= w / b
  {
    var q := w / b;
    assert q * b <= w < (q + 1) * b;
    if k <= q { TimesNat(k, q, b); } else { TimesNat(q + 1, k, b); }
  }

  lemma TimesNat(a: nat, b: nat, c: nat)
    requires a <= b
    ensures a * c <= b * c
  {}

  lemma PollIsInWindow(start: int, interval: nat, n: nat, k: nat, o: Options)
    requires interval > 0 && o.windowSeconds > 0 && k <= n
    ensures PollTime(start, interval, k) >= Cutoff(PollTime(start, interval, n), o) <==>
            n - k <= PollsInWindow(o, interval)
  {
    var w: nat := o.windowSeconds * NS_PER_SECOND;
    QuotientBound(n - k, interval, w);
    assert (n - k) * interval == n * interval - k * interval;
  }

  /** Of the first m polls, those within the window of poll n are the most recent ones. */
  lemma {:induction false} SteadyPolls(life: Life, start: int, interval: nat, n: nat, m: nat, o: Options)
    requires interval > 0 && o.windowSeconds > 0 && m <= n && forall t: int :: life.failed(t)
    ensures FailingPolls(life, Every(start, interval, m), Cutoff(PollTime(start, interval, n), o)) ==
            Max(0, m - Max(0, n - PollsInWindow(o, interval)))
  {
    hide PollTime, Cutoff, PollsInWindow;
    if m > 0 {
      SteadyPolls(life, start, interval, n, m - 1, o);
      var times := Every(start, interval, m);
      assert times[..|times| - 1] == Every(start, interval, m - 1);
      PollIsInWindow(start, interval, n, m - 1, o);
    }
  }

  /** A unit that stays failed and is never restarted: poll n reports it as flapping exactly when the
      polls so far, or as many as the window holds, reach the threshold. */
  lemma SteadyFailureIsFlapping(name: string, life: Life, start: int, interval: nat, n: nat, o: Options)
    requires name !in o.ignored && o.windowSeconds > 0 && o.threshold > 0 && interval > 0
    requires life.restarts == [] && forall t: int :: life.failed(t)
    ensures var now := PollTime(start, interval, n);
            && !Demanded(life, now, o)
            && (Reported(name, life, Every(start, interval, n), now, o) <==>
                  Min(n, PollsInWindow(o, interval)) + 1 >= o.threshold)
  {
    hide PollTime, Cutoff, PollsInWindow, Every, FailingPolls, Reported;
    ReportedExactly(name, life, Every(start, interval, n), PollTime(start, interval, n), o);
    SteadyPolls(life, start, interval, n, n, o);
  }

  /** So such a unit is reported sooner or later exactly when the window holds enough polls. */
  lemma FalseReportExactly(name: string, life: Life, start: int, interval: nat, o: Options)
    requires name !in o.ignored && o.windowSeconds > 0 && o.threshold > 0 && interval > 0
    requires life.restarts == [] && forall t: int :: life.failed(t)
    ensures (exists n: nat :: Reported(name, life, Every(start, interval, n), PollTime(start, interval, n), o)) <==>
            PollsInWindow(o, interval) + 1 >= o.threshold
  {
    hide Every, Reported, Demanded, PollTime, PollsInWindow;
    var enough := PollsInWindow(o, interval);
    forall n: nat
      ensures Reported(name, life, Every(start, interval, n), PollTime(start, interval, n), o) <==>
              Min(n, enough) + 1 >= o.threshold
    {
      SteadyFailureIsFlapping(name, life, start, interval, n, o);
    }
    assert Reported(name, life, Every(start, interval, enough), PollTime(start, interval, enough), o) <==>
           enough + 1 >= o.threshold;
  }

  /** Failures at lo + 1, lo + 3, ..., each followed by a restart one nanosecond later. */
  function Crashes(lo: int, k: nat): Life {
    Life(seq(k, i requires 0 <= i < k => lo + 2 * i + 2), t => lo < t < lo + 2 * k && (t - lo) % 2 == 1)
  }

  lemma {:induction false} AllSince(times: seq<int>, cutoff: int)
    requires forall i :: 0 <= i < |times| ==> times[i] >= cutoff
    ensures Since(times, cutoff) == times
  {
    if times != [] { AllSince(times[..|times| - 1], cutoff); }
  }

  /** Between two polls a unit can fail and be restarted as often as the threshold asks, within the
      window, and no poll, however many there were, lets the collector report it. */
  lemma RestartsGoUnseen(name: string, times: seq<int>, now: int, o: Options, lo: int, hi: int)
    requires name !in o.ignored && o.windowSeconds > 0 && o.threshold > 0
    requires forall i :: 0 <= i < |times| ==> times[i] <= lo || times[i] >= hi
    requires Cutoff(now, o) <= lo && lo + 2 * o.threshold < hi <= now
    ensures var life := Crashes(lo, o.threshold);
            && (forall i :: 0 <= i < |life.restarts| ==> life.failed(life.restarts[i] - 1) && life.restarts[i] <= now)
            && Demanded(life, now, o) && !Reported(name, life, times, now, o)
            && (forall j :: 0 <= j < |times| ==> !Reported(name, life, times[..j], times[j], o))
  {
    var life := Crashes(lo, o.threshold);
    AllSince(life.restarts, Cutoff(now, o));
    ReportedExactly(name, life, times, now, o);
    forall j | 0 <= j < |times| ensures !Reported(name, life, times[..j], times[j], o) {
      ReportedExactly(name, life, times[..j], times[j], o);
    }
    hide Since, Reported;
  }

  // ---- the collector and the rules ---------------------------------------------------------

  lemma {:induction false} EventsAreOfSystemdUnits(units: seq<Unit>, log: seq<Observed>, now: int, o: Options)
    ensures forall e :: e in EventsFor(units, log, now, o) ==> e.category == "systemd.unit"
  {
    if units != [] { EventsAreOfSystemdUnits(units[..|units| - 1], log, now, o); }
  }

  /** The built-in rule for failed units asks for category "systemd", the collector writes
      "systemd.unit": whatever units fail, and whatever else was collected, the collector's unit
      events change no built-in finding. */
  lemma FailedUnitsRaiseNoBuiltInFinding(units: seq<Unit>, log: seq<Observed>, now: int, o: Options,
                                         a: seq<Event>, b: seq<Event>, lib: RuleEngine.Library)
    ensures RuleEngine.Findings(RuleEngine.BUILT_IN, a + EventsFor(units, log, now, o) + b, lib) ==
            RuleEngine.Findings(RuleEngine.BUILT_IN, a + b, lib)
  {
    EventsAreOfSystemdUnits(units, log, now, o);
    RuleEngine.ForeignCategoriesRaiseNothing(a, EventsFor(units, log, now, o), b, lib);
  }
}
