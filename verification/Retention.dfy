/** What retention guarantees across the store's operations: one daemon iteration, whole runs of
    iterations, and the way from insert to query. */
module Retention {
  import opened Common
  import opened Observation
  import opened EventTable
  import opened Capacity
  import EventQuery
  import opened EventStore

  /** What the environment supplies to one daemon iteration. */
  datatype World = World(events: seq<Event>, insertFails: BatchFailure, nowNs: int, ageFails: bool, env: Environment)

  datatype Config = Config(retentionDays: int, limits: Limits)

  const NS_PER_DAY: int := 86_400_000_000_000

  function CutoffUs(w: World, c: Config): int { Micros(w.nowNs - c.retentionDays * NS_PER_DAY) }

  predicate InsertSucceeds(w: World, lastId: nat) { BatchCommits(w.insertFails, |w.events|, lastId) }

  /** The table around the three store calls of an iteration. */
  datatype Snapshot = Snapshot(before: Table, lastId: nat, inserted: Table, aged: Table, after: Table)

  /** The three calls run in order; a failed call leaves its work undone and the next still runs. */
  ghost predicate IsIteration(s: Snapshot, w: World, c: Config) {
    && KeysUpTo(s.before, s.lastId)
    && s.inserted == (if InsertSucceeds(w, s.lastId) then InsertAll(s.before, s.lastId, EncodeAll(w.events))
                      else s.before)
    && s.aged == (if w.ageFails then s.inserted else Recent(s.inserted, CutoffUs(w, c)))
    && Evicted(s.aged, s.after)
    && |s.after| == PruneOutcome(|s.aged|, c.limits, w.env).count
  }

  /** Assembles an iteration from its three calls. */
  lemma ThreeCalls(s: Snapshot, w: World, c: Config)
    requires KeysUpTo(s.before, s.lastId)
    requires InsertSucceeds(w, s.lastId) ==> s.inserted == InsertAll(s.before, s.lastId, EncodeAll(w.events))
    requires !InsertSucceeds(w, s.lastId) ==> s.inserted == s.before
    requires s.aged == if w.ageFails then s.inserted else Recent(s.inserted, CutoffUs(w, c))
    requires Evicted(s.aged, s.after) && |s.after| == PruneOutcome(|s.aged|, c.limits, w.env).count
    ensures IsIteration(s, w, c)
  {}

  lemma HistoryGrows(history: Table, lastId: nat, rs: seq<Row>)
    requires KeysUpTo(history, lastId)
    ensures SubTable(history, InsertAll(history, lastId, rs))
  {
    InsertAllIsOneByOne(history, lastId, rs);
  }

  lemma RecentIsSub(t: Table, cutoffUs: int)
    ensures SubTable(Recent(t, cutoffUs), t) && |Recent(t, cutoffUs)| <= |t|
  {
    SubsetSize(Recent(t, cutoffUs).Keys, t.Keys);
  }

  /** After an iteration whose two prunes succeed: nothing older than the cutoff is left, the row
      limit (when enabled) holds, no row is altered, and a row at or after the cutoff was lost
      only if every survivor has at least its key. */
  lemma IterationGuarantees(s: Snapshot, w: World, c: Config)
    requires IsIteration(s, w, c)
    requires !w.ageFails && PruneOutcome(|s.aged|, c.limits, w.env).result.Ok?
    ensures SubTable(s.after, s.inserted)
    ensures forall id :: id in s.after ==> s.after[id].timestampUs >= CutoffUs(w, c)
    ensures c.limits.maxEvents > 0 ==> |s.after| <= c.limits.maxEvents
    ensures forall lost, kept | lost in s.inserted && lost !in s.after && kept in s.after ::
              s.inserted[lost].timestampUs >= CutoffUs(w, c) ==> KeyLe(s.inserted[lost], s.after[kept])
  {
    hide PruneOutcome, InsertAll, EncodeAll, InsertSucceeds, CutoffUs, KeyLe, KeysUpTo;
    PruneBoundsRows(|s.aged|, c.limits, w.env);
  }

  /** In hours: after an iteration no row is left that is a microsecond older than the retention days. */
  lemma StaleRowsGo(s: Snapshot, w: World, c: Config, id: RowId)
    requires IsIteration(s, w, c) && !w.ageFails && id in s.after
    ensures s.after[id].timestampUs * 1000 > w.nowNs - c.retentionDays * 24 * 3600 * 1_000_000_000 - 1000
  {
    hide PruneOutcome, InsertAll, EncodeAll, KeyLe, InsertSucceeds, Micros;
    assert id in s.aged && s.aged[id] == s.after[id];
    CutoffMeans(w, c);
    hide CutoffUs;
  }

  lemma CutoffMeans(w: World, c: Config)
    ensures CutoffUs(w, c) * 1000 > w.nowNs - c.retentionDays * 24 * 3600 * 1_000_000_000 - 1000
  {}

  lemma NothingEvicted(t: Table, s: Table)
    requires Evicted(t, s) && |s| == |t|
    ensures s == t
  {
    hide KeyLe;
    assert t.Keys == s.Keys + (t.Keys - s.Keys);
  }

  lemma FreshSurvivesAge(inserted: Table, aged: Table, w: World, c: Config, id: RowId)
    requires aged == inserted || aged == Recent(inserted, CutoffUs(w, c))
    requires id in inserted && inserted[id].timestampUs >= CutoffUs(w, c)
    ensures id in aged && aged[id] == inserted[id]
  {}

  /** The age limit in hours, and in microseconds as it is stored. */
  lemma YoungEnough(w: World, c: Config, ns: int)
    requires ns >= w.nowNs - c.retentionDays * 24 * 3600 * 1_000_000_000
    ensures Micros(ns) >= CutoffUs(w, c)
  {
    MicrosMonotone(w.nowNs - c.retentionDays * NS_PER_DAY, ns);
  }

  lemma BatchRow(t: Table, lastId: nat, es: seq<Event>, id: RowId)
    requires KeysUpTo(t, lastId)
    ensures id in t ==> id in InsertAll(t, lastId, EncodeAll(es)) && InsertAll(t, lastId, EncodeAll(es))[id] == t[id]
    ensures lastId < id.key <= lastId + |es| ==>
              id in InsertAll(t, lastId, EncodeAll(es))
              && InsertAll(t, lastId, EncodeAll(es))[id] == EncodeRow(es[id.key - lastId - 1])
  {
    hide EncodeRow, InsertAll;
    InsertAllIsOneByOne(t, lastId, EncodeAll(es));
  }

  lemma FreshSurvives(s: Snapshot, w: World, c: Config, id: RowId)
    requires IsIteration(s, w, c)
    requires c.limits.maxEvents == 0 || |s.aged| <= c.limits.maxEvents
    requires c.limits.maxBytes == 0 || w.env.bytesAt(0) <= c.limits.maxBytes
    requires id in s.inserted && s.inserted[id].timestampUs >= CutoffUs(w, c)
    ensures id in s.after && s.after[id] == s.inserted[id]
  {
    hide PruneOutcome, EncodeAll, InsertAll, Evicted, Recent, CutoffUs, InsertSucceeds, KeysUpTo;
    PruneInPlainTerms(|s.aged|, c.limits, w.env);
    NothingEvicted(s.aged, s.after);
    FreshSurvivesAge(s.inserted, s.aged, w, c, id);
  }

  /** What is kept: while neither limit is exceeded, every row that was there is left, unaltered, unless
      it is more than the retention days old, */
  lemma FreshRowsStay(s: Snapshot, w: World, c: Config, id: RowId)
    requires IsIteration(s, w, c) && id in s.before
    requires c.limits.maxEvents == 0 || |s.aged| <= c.limits.maxEvents
    requires c.limits.maxBytes == 0 || w.env.bytesAt(0) <= c.limits.maxBytes
    requires s.before[id].timestampUs * 1000 >= w.nowNs - c.retentionDays * 24 * 3600 * 1_000_000_000
    ensures id in s.after && s.after[id] == s.before[id]
  {
    hide PruneOutcome, EncodeAll, InsertAll, Evicted, Recent, CutoffUs, InsertSucceeds, KeysUpTo, Micros;
    if InsertSucceeds(w, s.lastId) { BatchRow(s.before, s.lastId, w.events, id); }
    hide IsIteration;
    YoungEnough(w, c, s.before[id].timestampUs * 1000);
    WholeMicros(s.before[id].timestampUs);
    FreshSurvives(s, w, c, id);
  }

  /** and so is event j of a batch that commits. */
  lemma FreshEventsStay(s: Snapshot, w: World, c: Config, j: nat)
    requires IsIteration(s, w, c) && InsertSucceeds(w, s.lastId) && j < |w.events|
    requires c.limits.maxEvents == 0 || |s.aged| <= c.limits.maxEvents
    requires c.limits.maxBytes == 0 || w.env.bytesAt(0) <= c.limits.maxBytes
    requires w.events[j].timestampNs >= w.nowNs - c.retentionDays * 24 * 3600 * 1_000_000_000
    ensures var id := RowId(s.lastId + 1 + j); id in s.after && s.after[id] == EncodeRow(w.events[j])
  {
    hide PruneOutcome, EncodeAll, InsertAll, Evicted, Recent, CutoffUs, InsertSucceeds, KeysUpTo, Micros, CStr;
    BatchRow(s.before, s.lastId, w.events, RowId(s.lastId + 1 + j));
    YoungEnough(w, c, w.events[j].timestampNs);
    FreshSurvives(s, w, c, RowId(s.lastId + 1 + j));
  }

  lemma WholeMicros(us: int)
    ensures Micros(us * 1000) == us
  {}

  /** An iteration that prunes keeps no row at all exactly when the size readings of the passes that
      takes stay above the byte target (or the row target is zero and its pass goes uncounted). */
  lemma KeepsNothingExactly(s: Snapshot, w: World, c: Config)
    requires IsIteration(s, w, c) && Exceeded(|s.aged|, w.env.bytesAt(0), c.limits)
    requires PruneOutcome(|s.aged|, c.limits, w.env).result.Ok?
    ensures s.after == map[] <==>
            if ChangesLost(|s.aged|, c.limits, w.env) then Ninetieth(c.limits.maxEvents) == 0
            else SizeStaysHigh(|s.aged|, c.limits, w.env)
  {
    hide Evicted, EncodeAll, Recent, InsertAll, Ninetieth, ChangesLost, SizeStaysHigh, PruneOutcome;
    ByteLimitEmptiesExactly(|s.aged|, c.limits, w.env);
  }

  /** What the byte limit costs when deleting does not shrink the file: the iteration keeps no row
      at all, of whatever severity. */
  lemma StuckSizeLosesEverything(s: Snapshot, w: World, c: Config)
    requires IsIteration(s, w, c) && |s.aged| <= INT32_MAX
    requires c.limits.maxBytes > 0 && w.env.bytesAt(0) > c.limits.maxBytes
    requires forall p :: p >= 1 ==> w.env.bytesAt(p) > Ninetieth(c.limits.maxBytes)
    requires PruneOutcome(|s.aged|, c.limits, w.env).result.Ok?
    ensures s.after == map[]
  {
    hide Evicted, EncodeAll, Recent, InsertAll, Ninetieth;
    StuckSizeEmptiesTable(|s.aged|, c.limits, w.env);
  }

  // ---- whole runs --------------------------------------------------------------------------

  /** A run: each iteration starts from the table the last one left, the first from nothing. */
  ghost predicate IsRun(log: seq<Snapshot>, ws: seq<World>, c: Config) {
    && |log| == |ws|
    && (forall i :: 0 <= i < |log| ==> IsIteration(log[i], ws[i], c))
    && (log != [] ==> log[0].before == map[])
    && (forall i :: 0 < i < |log| ==> log[i].before == log[i - 1].after)
  }

  /** Rows committed over the run. */
  function Inserted(log: seq<Snapshot>): int {
    if log == [] then 0 else Inserted(log[..|log| - 1]) + |log[|log| - 1].inserted| - |log[|log| - 1].before|
  }

  /** Iterations whose capacity prune removed rows. */
  function DeletingPrunes(log: seq<Snapshot>): nat {
    if log == [] then 0
    else DeletingPrunes(log[..|log| - 1]) + if |log[|log| - 1].after| < |log[|log| - 1].aged| then 1 else 0
  }

  function Final(log: seq<Snapshot>): Table { if log == [] then map[] else log[|log| - 1].after }

  /** Row id holds event j of the batch iteration i committed, under the key that batch gave it. */
  predicate StoredBy(id: RowId, r: Row, log: seq<Snapshot>, ws: seq<World>, i: nat, j: nat) {
    && i < |log| == |ws| && j < |ws[i].events|
    && InsertSucceeds(ws[i], log[i].lastId)
    && id == RowId(log[i].lastId + 1 + j) && r == EncodeRow(ws[i].events[j])
  }

  lemma SurvivorWasInserted(s: Snapshot, w: World, c: Config, id: RowId)
    requires IsIteration(s, w, c) && id in s.after
    ensures id in s.inserted && s.after[id] == s.inserted[id]
  {
    hide PruneOutcome, InsertAll, InsertSucceeds, KeyLe;
  }

  lemma RowOfBatch(t: Table, lastId: nat, es: seq<Event>, id: RowId)
    requires KeysUpTo(t, lastId) && id in InsertAll(t, lastId, EncodeAll(es))
    ensures if id in t then InsertAll(t, lastId, EncodeAll(es))[id] == t[id]
            else lastId < id.key <= lastId + |es|
                 && InsertAll(t, lastId, EncodeAll(es))[id] == EncodeRow(es[id.key - lastId - 1])
  {
    hide EncodeRow, InsertAll, KeysUpTo;
    InsertAllIsOneByOne(t, lastId, EncodeAll(es));
  }

  /** A row left by an iteration was there before it or is of its batch. */
  lemma RowOfIteration(s: Snapshot, w: World, c: Config, id: RowId)
    requires IsIteration(s, w, c) && id in s.after
    ensures if id in s.before then s.after[id] == s.before[id]
            else InsertSucceeds(w, s.lastId) && s.lastId < id.key <= s.lastId + |w.events|
                 && s.after[id] == EncodeRow(w.events[id.key - s.lastId - 1])
  {
    hide EncodeRow, EncodeAll, PruneOutcome, InsertAll, InsertSucceeds, Evicted, Recent, KeysUpTo;
    SurvivorWasInserted(s, w, c, id);
    if InsertSucceeds(w, s.lastId) { RowOfBatch(s.before, s.lastId, w.events, id); }
  }

  /** Every row left after a run is an event of one of its committed batches, not altered. */
  lemma {:induction false} RowsAreInserted(log: seq<Snapshot>, ws: seq<World>, c: Config, id: RowId)
    returns (i: nat, j: nat)
    requires IsRun(log, ws, c) && id in Final(log)
    ensures StoredBy(id, Final(log)[id], log, ws, i, j)
  {
    hide IsRun, IsIteration, EncodeRow;
    var n := |log| - 1;
    IsRunPrefix(log, ws, c);
    RowOfIteration(log[n], ws[n], c, id);
    if id in log[n].before {
      i, j := RowsAreInserted(log[..n], ws[..n], c, id);
    } else {
      i, j := n, id.key - log[n].lastId - 1;
    }
  }

  lemma {:induction false} RowLimitPruneDeletesAll(count: nat, limits: Limits, env: Environment)
    requires limits.maxBytes == 0
    ensures PruneOutcome(count, limits, env).count <= count
    ensures PruneOutcome(count, limits, env).count < count ==>
              count > limits.maxEvents > 0 && PruneOutcome(count, limits, env).count == Ninetieth(limits.maxEvents)
  {
    PruneBoundsRows(count, limits, env);
    if Exceeded(count, env.bytesAt(0), limits) {
      NinetiethIsExact(limits.maxEvents);
      var target: nat := Ninetieth(limits.maxEvents);
      assert PassSize(count, env.bytesAt(1), limits) == count - target;
      UnfoldPasses(count, 0, 1, limits, env);
      var total := AddChanges(0, ChangesReading(count - target, env));
      UnfoldPasses(target, total, 2, limits, env);
    }
  }

  lemma IterationCounts(s: Snapshot, w: World, c: Config)
    requires IsIteration(s, w, c) && c.limits.maxBytes == 0
    ensures |s.before| <= |s.inserted| && |s.after| <= |s.aged| <= |s.inserted|
    ensures |s.after| < |s.aged| ==> |s.aged| > c.limits.maxEvents > 0 && |s.after| == Ninetieth(c.limits.maxEvents)
  {
    if InsertSucceeds(w, s.lastId) { InsertAllIsOneByOne(s.before, s.lastId, EncodeAll(w.events)); }
    RecentIsSub(s.inserted, CutoffUs(w, c));
    RowLimitPruneDeletesAll(|s.aged|, c.limits, w.env);
  }

  lemma IsRunPrefix(log: seq<Snapshot>, ws: seq<World>, c: Config)
    requires IsRun(log, ws, c) && log != []
    ensures |log| == |ws|
    ensures IsRun(log[..|log| - 1], ws[..|ws| - 1], c) && IsIteration(log[|log| - 1], ws[|log| - 1], c)
    ensures log[|log| - 1].before == Final(log[..|log| - 1])
  {}

  lemma NoRun(c: Config)
    ensures IsRun([], [], c)
  {}

  lemma ExtendRun(log: seq<Snapshot>, ws: seq<World>, c: Config, s: Snapshot, w: World)
    requires IsRun(log, ws, c) && IsIteration(s, w, c) && s.before == Final(log)
    ensures IsRun(log + [s], ws + [w], c) && Final(log + [s]) == s.after
  {
    hide IsIteration;
  }

  /** What p deleting prunes have cost when `final` rows are left. */
  predicate CostCovered(inserted: int, p: nat, final: nat, max: nat, target: nat) {
    if p == 0 then inserted >= final
    else
      var cost := max + 1 + (p - 1) * (max + 1 - target);
      inserted >= cost && inserted >= cost + final - target
  }

  lemma CostStep(inserted: int, p: nat, before: nat, grown: nat, aged: nat, after: nat, max: nat, target: nat)
    requires CostCovered(inserted, p, before, max, target) && target <= max
    requires before <= grown && after <= aged <= grown
    requires after < aged ==> aged > max && after == target
    ensures CostCovered(inserted + grown - before, if after < aged then p + 1 else p, after, max, target)
  {
    if p > 0 {
      assert p * (max + 1 - target) == (p - 1) * (max + 1 - target) + (max + 1 - target);
    }
  }

  lemma {:induction false} RunCost(log: seq<Snapshot>, ws: seq<World>, c: Config)
    requires IsRun(log, ws, c) && c.limits.maxBytes == 0
    ensures CostCovered(Inserted(log), DeletingPrunes(log), |Final(log)|, c.limits.maxEvents,
                        Ninetieth(c.limits.maxEvents))
  {
    hide IsRun, IsIteration, Ninetieth, CostCovered;
    NinetiethIsExact(c.limits.maxEvents);
    if log == [] {
      NothingCovered(c.limits.maxEvents, Ninetieth(c.limits.maxEvents));
    } else {
      var n := |log| - 1;
      var s := log[n];
      IsRunPrefix(log, ws, c);
      RunCost(log[..n], ws[..n], c);
      IterationCounts(s, ws[n], c);
      CostStep(Inserted(log[..n]), DeletingPrunes(log[..n]), |s.before|, |s.inserted|, |s.aged|, |s.after|,
               c.limits.maxEvents, Ninetieth(c.limits.maxEvents));
    }
  }

  lemma NothingCovered(max: nat, target: nat)
    ensures CostCovered(0, 0, 0, max, target)
  {}

  /** Hysteresis: with only the row limit active, P deleting prunes cost at least
      (max + 1) + (P - 1) * (max + 1 - target) insertions, whatever age pruning does in between
      and whichever calls fail. */
  lemma HysteresisCost(log: seq<Snapshot>, ws: seq<World>, c: Config)
    requires IsRun(log, ws, c) && c.limits.maxBytes == 0 && c.limits.maxEvents * 9 < TWO_64
    requires DeletingPrunes(log) > 0
    ensures var max := c.limits.maxEvents;
            Inserted(log) >= max + 1 + (DeletingPrunes(log) - 1) * (max + 1 - max * 9 / 10)
  {
    hide IsRun, Ninetieth, Inserted, DeletingPrunes;
    RunCost(log, ws, c);
    NinetiethIsExact(c.limits.maxEvents);
  }

  /** With the row limit alone, a deleting prune keeps exactly the top nine tenths: above every
      key as many rows survive as nine tenths of the limit and the table allow. */
  lemma RowLimitKeepsTheTop(t: Table, s: Table, limits: Limits, env: Environment, rank: nat, ts: int)
    requires Evicted(t, s) && |s| == PruneOutcome(|t|, limits, env).count
    requires limits.maxBytes == 0 && |t| > limits.maxEvents > 0 && limits.maxEvents * 9 < TWO_64
    requires PruneOutcome(|t|, limits, env).result.Ok?
    ensures |AtLeast(s, rank, ts)| == Min(limits.maxEvents * 9 / 10, |AtLeast(t, rank, ts)|)
  {
    RowLimitLeavesTarget(|t|, limits, env);
    NinetiethIsExact(limits.maxEvents);
    SurvivorsAreTheTop(t, s, rank, ts);
  }

  // ---- from insert to query ----------------------------------------------------------------

  /** An event that can be stored faithfully, once committed and matching a query without limit,
      is in the query's result unchanged but for its key. */
  lemma StoredEventIsReturned(t: Table, q: EventQuery.Query, ids: seq<RowId>, e: Event, id: RowId)
    requires EventQuery.Answers(q, t, ids) && q.limit.None?
    requires id in t && t[id] == EncodeRow(e) && EventIsStorable(e)
    requires EventQuery.Matches(q, t[id])
    ensures exists i :: 0 <= i < |ids| && ids[i] == id && DecodeRow(ids[i].key, t[ids[i]]) == e.(id := id.key)
  {
    assert id in EventQuery.Matching(q, t);
    DistinctFill(ids, EventQuery.Matching(q, t), id);
    EventRoundTrip(e, id.key);
  }
}
