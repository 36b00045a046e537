/** The event store: inserts, atomic batches, age pruning, capacity pruning and queries over one table. */
module EventStore {
  import opened Common
  import opened Observation
  import opened EventTable
  import opened Capacity
  import EventQuery

  // ---- specification of the writing statements ---------------------------------------------

  /** The table after inserting the first n rows of rs one by one, the last key handed out
      being `last`. */
  function InsertFirst<R>(t: map<RowId, R>, last: nat, rs: seq<R>, n: nat): map<RowId, R>
    requires n <= |rs|
  {
    if n == 0 then t else InsertFirst(t, last, rs, n - 1)[RowId(last + n) := rs[n - 1]]
  }

  function InsertAll<R>(t: map<RowId, R>, last: nat, rs: seq<R>): map<RowId, R> {
    InsertFirst(t, last, rs, |rs|)
  }

  function EncodeAll(es: seq<Event>): (rs: seq<Row>)
    ensures |rs| == |es| && forall i :: 0 <= i < |es| ==> rs[i] == EncodeRow(es[i])
  {
    seq(|es|, i requires 0 <= i < |es| => EncodeRow(es[i]))
  }

  /** What goes wrong in a batch: the transaction cannot begin or its statement not be prepared, or
      one step fails. */
  datatype BatchFailure = NoFailure | CannotBegin | StepFails(at: nat)

  /** Keys are int64; a batch that runs out of them fails too. */
  predicate BatchCommits(failure: BatchFailure, size: nat, lastId: nat) {
    && !failure.CannotBegin?
    && (failure.StepFails? ==> failure.at >= size)
    && lastId + size <= INT64_MAX
  }

  predicate KeysUpTo<R>(t: map<RowId, R>, last: nat) {
    forall id :: id in t ==> 1 <= id.key <= last
  }

  lemma {:induction false} KeysBoundSize(keys: set<RowId>, last: nat)
    requires forall id :: id in keys ==> 1 <= id.key <= last
    ensures |keys| <= last
  {
    if last == 0 {
      assert keys == {};
    } else {
      var rest := keys - {RowId(last)};
      KeysBoundSize(rest, last - 1);
      SubsetSize(keys, rest + {RowId(last)});
    }
  }

  lemma {:induction false} InsertFirstKeys<R>(t: map<RowId, R>, last: nat, rs: seq<R>, n: nat)
    requires n <= |rs|
    ensures forall id :: id in InsertFirst(t, last, rs, n) <==> id in t || last < id.key <= last + n
  {
    if n > 0 {
      InsertFirstKeys(t, last, rs, n - 1);
    }
  }

  lemma {:induction false} InsertFirstValue<R>(t: map<RowId, R>, last: nat, rs: seq<R>, n: nat, id: RowId)
    requires n <= |rs| && KeysUpTo(t, last)
    requires id in InsertFirst(t, last, rs, n) && (id in t || last < id.key <= last + n)
    ensures InsertFirst(t, last, rs, n)[id] == if id in t then t[id] else rs[id.key - last - 1]
  {
    if n > 0 && id.key != last + n {
      InsertFirstKeys(t, last, rs, n - 1);
      InsertFirstValue(t, last, rs, n - 1, id);
    }
  }

  lemma {:induction false} InsertFirstSize<R>(t: map<RowId, R>, last: nat, rs: seq<R>, n: nat)
    requires n <= |rs| && KeysUpTo(t, last)
    ensures |InsertFirst(t, last, rs, n)| == |t| + n
  {
    if n > 0 {
      InsertFirstSize(t, last, rs, n - 1);
      InsertFirstKeys(t, last, rs, n - 1);
      PutKey(InsertFirst(t, last, rs, n - 1), RowId(last + n), rs[n - 1]);
    }
  }

  /** A batch keeps every old row, stores row i under key last + 1 + i and adds nothing else. */
  lemma InsertAllIsOneByOne<R>(t: map<RowId, R>, last: nat, rs: seq<R>)
    requires KeysUpTo(t, last)
    ensures var after := InsertAll(t, last, rs);
            && |after| == |t| + |rs|
            && (forall id :: id in after <==> id in t || last < id.key <= last + |rs|)
            && (forall id :: id in after ==> after[id] == if id in t then t[id] else rs[id.key - last - 1])
  {
    InsertFirstSize(t, last, rs, |rs|);
    InsertFirstKeys(t, last, rs, |rs|);
    forall id | id in InsertAll(t, last, rs)
      ensures InsertAll(t, last, rs)[id] == if id in t then t[id] else rs[id.key - last - 1]
    {
      InsertFirstValue(t, last, rs, |rs|, id);
    }
  }

  /** The rows at or after the cutoff. */
  function Recent(t: Table, cutoffUs: int): Table {
    map id | id in t && t[id].timestampUs >= cutoffUs :: t[id]
  }

  /** What an answer means for the caller: the events returned fit, come newest first and are no more
      than asked for; a fitting event is left out only by the limit, and then is no newer. */
  lemma AnswerFits(q: EventQuery.Query, t: Table, ids: seq<RowId>, events: seq<Event>)
    requires EventQuery.Answers(q, t, ids) && |events| <= |ids|
    requires forall i :: 0 <= i < |events| ==> events[i] == DecodeRow(ids[i].key, t[ids[i]])
    ensures forall i :: 0 <= i < |events| ==> EventQuery.Fits(q, events[i])
    ensures forall i, j :: 0 <= i < j < |events| ==> events[i].timestampNs >= events[j].timestampNs
    ensures q.limit.Some? ==> |events| <= q.limit.value
    ensures EventQuery.PlainStrings(q) ==>
              forall id :: id in t && EventQuery.Fits(q, DecodeRow(id.key, t[id])) && id !in ids ==>
                && q.limit.Some? && |ids| == q.limit.value
                && forall i :: 0 <= i < |events| ==> events[i].timestampNs >= t[id].timestampUs * 1000
  {
    hide EventQuery.Fits, EventQuery.Matches, EventQuery.PlainStrings, ParseValue, DecodedSeverity;
    forall i | 0 <= i < |events| ensures EventQuery.Fits(q, events[i]) {
      EventQuery.MatchesFits(q, t[ids[i]], ids[i].key);
    }
    if EventQuery.PlainStrings(q) {
      forall id | id in t && EventQuery.Fits(q, DecodeRow(id.key, t[id])) && id !in ids
        ensures q.limit.Some? && |ids| == q.limit.value
        ensures forall i :: 0 <= i < |events| ==> events[i].timestampNs >= t[id].timestampUs * 1000
      {
        EventQuery.MatchesFits(q, t[id], id.key);
        assert id in EventQuery.Matching(q, t);
        if |ids| == |EventQuery.Matching(q, t)| { DistinctFill(ids, EventQuery.Matching(q, t), id); }
      }
    }
  }

  /** As many distinct members as there are leave none out. */
  lemma {:induction false} DistinctFill(ids: seq<RowId>, keys: set<RowId>, id: RowId)
    requires EventQuery.Distinct(ids) && |ids| == |keys| && id in keys
    requires forall i :: 0 <= i < |ids| ==> ids[i] in keys
    ensures id in ids
  {
    var n := |ids| - 1;
    if n >= 0 && ids[n] != id {
      var rest := keys - {ids[n]};
      forall i | 0 <= i < n ensures ids[..n][i] in rest {}
      DistinctFill(ids[..n], rest, id);
      assert id in ids[..n];
    }
  }

  // ---- the store ---------------------------------------------------------------------------

  class EventStore {
    var rows: Table
    var lastId: nat
    /** Every row ever committed. Keys are never handed out twice (AUTOINCREMENT). */
    ghost var history: Table

    ghost predicate Valid()
      reads this
    {
      lastId <= INT64_MAX && SubTable(rows, history) && KeysUpTo(history, lastId)
    }

    constructor ()
      ensures Valid() && rows == map[] && history == map[] && lastId == 0
    {
      rows, lastId, history := map[], 0, map[];
    }

    /** One successful INSERT step. */
    method AddRow(r: Row)
      requires Valid() && lastId < INT64_MAX
      modifies this
      ensures Valid() && lastId == old(lastId) + 1
      ensures rows == old(rows)[RowId(lastId) := r] && history == old(history)[RowId(lastId) := r]
    {
      lastId := lastId + 1;
      assert RowId(lastId) !in history;
      rows := rows[RowId(lastId) := r];
      history := history[RowId(lastId) := r];
    }

    /** `fails` says that preparing or executing the statement fails; it also fails when the keys
        are used up. */
    method Insert(e: Event, fails: bool) returns (r: Result<int>)
      requires Valid()
      modifies this
      ensures Valid()
      ensures r == if fails || old(lastId) == INT64_MAX then Err("Failed to execute INSERT") else Ok(lastId)
      ensures r.Ok? ==> lastId == old(lastId) + 1
      ensures r.Ok? ==> rows == old(rows)[RowId(lastId) := EncodeRow(e)]
      ensures r.Ok? ==> history == old(history)[RowId(lastId) := EncodeRow(e)]
      ensures r.Err? ==> rows == old(rows) && lastId == old(lastId) && history == old(history)
    {
      if fails || lastId == INT64_MAX {
        return Err("Failed to execute INSERT");
      }
      AddRow(EncodeRow(e));
      return Ok(lastId);
    }

    /** One transaction: a batch that cannot begin does nothing, one with a failing step rolls back. */
    method InsertBatch(events: seq<Event>, failure: BatchFailure) returns (r: Result<nat>)
      requires Valid()
      modifies this
      ensures Valid()
      ensures r.Ok? <==> BatchCommits(failure, |events|, old(lastId))
      ensures failure == CannotBegin || (failure.StepFails? && failure.at < |events|) ==> r.Err?
      ensures failure == NoFailure && old(lastId) + |events| <= 0x7FFF_FFFF_FFFF_FFFF ==> r.Ok?
      ensures r.Ok? ==> r.value == |events| && lastId == old(lastId) + |events|
      ensures r.Ok? ==> rows == InsertAll(old(rows), old(lastId), EncodeAll(events))
      ensures r.Ok? ==> history == InsertAll(old(history), old(lastId), EncodeAll(events))
      ensures r.Err? ==> rows == old(rows) && lastId == old(lastId) && history == old(history)
    {
      hide EncodeRow, SubTable, KeysUpTo;
      if failure.CannotBegin? {
        return Err("Failed to begin transaction");
      }
      var savedRows, savedId := rows, lastId;
      ghost var savedHistory := history;
      ghost var encoded := EncodeAll(events);
      var inserted := 0;
      while inserted < |events|
        invariant 0 <= inserted <= |events| && Valid()
        invariant lastId == savedId + inserted
        invariant rows == InsertFirst(savedRows, savedId, encoded, inserted)
        invariant history == InsertFirst(savedHistory, savedId, encoded, inserted)
        invariant failure.StepFails? ==> inserted <= failure.at
      {
        if failure == StepFails(inserted) || lastId == INT64_MAX {
          rows, lastId, history := savedRows, savedId, savedHistory;
          return Err("Failed batch insert step");
        }
        AddRow(EncodeRow(events[inserted]));
        inserted := inserted + 1;
      }
      return Ok(inserted);
    }

    /** DELETE ... WHERE timestamp_us < cutoff. */
    method PruneEvents(olderThanNs: int, fails: bool, env: Environment) returns (r: Result<SizeT>)
      requires Valid()
      modifies this`rows
      ensures Valid()
      ensures r.Err? <==> fails
      ensures fails ==> rows == old(rows)
      ensures !fails ==> forall id ::
                id in rows <==> id in old(rows) && old(rows)[id].timestampUs >= Micros(olderThanNs)
      ensures forall id :: id in rows ==> rows[id] == old(rows)[id]
      ensures rows == if fails then old(rows) else Recent(old(rows), Micros(olderThanNs))
      ensures r.Ok? && |old(rows)| <= INT32_MAX ==> r.value == |old(rows)| - |rows|
    {
      if fails {
        return Err("Failed to prune events");
      }
      var kept := Recent(rows, Micros(olderThanNs));
      SubsetSize(kept.Keys, rows.Keys);
      var deleted := |rows| - |kept|;
      rows := kept;
      return Ok(AsSize(ChangesReading(deleted, env)));
    }

    /** One execution of the eviction statement. */
    method DeletePass(k: nat)
      requires Valid() && k <= |rows|
      modifies this`rows
      ensures Valid()
      ensures Evicted(old(rows), rows) && |rows| == |old(rows)| - k
    {
      hide Evicted;
      rows := DeleteLowest(rows, k);
      EvictedIsSub(old(rows), rows, history);
    }

    /** The loop: deletes lowest rows until every enabled target is met. */
    method DeleteToTargets(targetCount: nat, targetBytes: nat, limits: Limits, env: Environment)
      returns (r: Result<SizeT>, ghost lastPass: nat, ghost stop: Stop)
      requires Valid()
      requires limits.maxEvents > 0 ==> targetCount == Ninetieth(limits.maxEvents)
      requires limits.maxBytes > 0 ==> targetBytes == Ninetieth(limits.maxBytes)
      modifies this`rows
      ensures Valid()
      ensures Evicted(old(rows), rows)
      ensures Outcome(|rows|, r, lastPass, stop) == Passes(|old(rows)|, 0, 1, limits, env)
    {
      hide Passes, Evicted, AddChanges, ChangesReading, Ninetieth, SubTable, KeysUpTo;
      EvictedNothing(rows);
      var totalDeleted: SizeT := 0;
      var pass := 0;
      while true
        invariant Valid() && Evicted(old(rows), rows)
        invariant Passes(|old(rows)|, 0, 1, limits, env) == Passes(|rows|, totalDeleted, pass + 1, limits, env)
        decreases |rows|
      {
        pass := pass + 1;
        UnfoldPasses(|rows|, totalDeleted, pass, limits, env);
        var currentCount, currentBytes := |rows|, env.bytesAt(pass);
        if currentCount == 0 {
          stop := NoRows;
          break;
        }
        var toDelete := 0;
        if limits.maxEvents > 0 && currentCount > targetCount {
          toDelete := currentCount - targetCount;
        } else if limits.maxBytes > 0 && currentBytes > targetBytes {
          toDelete := Min(100, currentCount);
        }
        assert toDelete == PassSize(currentCount, currentBytes, limits);
        if toDelete == 0 {
          stop := OnTarget;
          break;
        }
        if env.fails(pass) {
          return Err(FAILED), pass, StatementFailed;
        }
        ghost var before := rows;
        DeletePass(toDelete);
        EvictedTransitive(old(rows), before, rows);
        var changes := ChangesReading(toDelete, env);
        if changes == 0 {
          stop := NothingChanged;
          break;
        }
        totalDeleted := AddChanges(totalDeleted, changes);
      }
      return Ok(totalDeleted), pass, stop;
    }

    /** Nothing happens within the limits; above one of them, lowest rows go until every enabled target
        is met. */
    method PruneEventsByCapacity(limits: Limits, env: Environment)
      returns (r: Result<SizeT>, ghost lastPass: nat, ghost stop: Stop)
      requires Valid()
      modifies this`rows
      ensures Valid()
      ensures Evicted(old(rows), rows)
      ensures Outcome(|rows|, r, lastPass, stop) == PruneOutcome(|old(rows)|, limits, env)
      ensures var within := (limits.maxEvents == 0 || |old(rows)| <= limits.maxEvents)
                            && (limits.maxBytes == 0 || env.bytesAt(0) <= limits.maxBytes);
              && (within ==> rows == old(rows) && r == Ok(0))
              && (!within && !env.fails(0) ==> lastPass >= 1)
    {
      PruneInPlainTerms(|rows|, limits, env);
      hide Passes, Evicted, Ninetieth, SubTable, KeysUpTo;
      EvictedNothing(rows);
      var currentCount, currentBytes := |rows|, env.bytesAt(0);
      var exceedCount := limits.maxEvents > 0 && currentCount > limits.maxEvents;
      var exceedBytes := limits.maxBytes > 0 && currentBytes > limits.maxBytes;
      if !exceedCount && !exceedBytes {
        return Ok(0), 0, WithinLimits;
      }
      var targetCount: nat := if limits.maxEvents > 0 then Ninetieth(limits.maxEvents) else currentCount;
      var targetBytes: nat := if limits.maxBytes > 0 then Ninetieth(limits.maxBytes) else currentBytes;
      if env.fails(0) {
        return Err(FAILED), 0, StatementFailed;
      }
      r, lastPass, stop := DeleteToTargets(targetCount, targetBytes, limits, env);
    }

    /** Builds the statement and the bound values in two passes, runs it and decodes the rows. A step
        that fails while rows are read ends the list there, and what was read counts as the answer. */
    method Query(q: EventQuery.Query, fails: bool, readFailsAt: Option<nat>)
      returns (r: Result<seq<Event>>, ghost ids: seq<RowId>)
      requires Valid()
      ensures r.Err? <==> fails
      ensures r.Ok? ==> EventQuery.Answers(q, rows, ids)
      ensures r.Ok? ==> |r.value| == if readFailsAt.Some? then Min(readFailsAt.value, |ids|) else |ids|
      ensures r.Ok? ==> forall i :: 0 <= i < |r.value| ==> r.value[i] == DecodeRow(ids[i].key, rows[ids[i]])
      ensures r.Ok? ==> forall i :: 0 <= i < |r.value| ==> EventQuery.Fits(q, r.value[i])
      ensures r.Ok? ==> forall i, j :: 0 <= i < j < |r.value| ==> r.value[i].timestampNs >= r.value[j].timestampNs
      ensures r.Ok? && q.limit.Some? ==> |r.value| <= q.limit.value
      ensures r.Ok? && EventQuery.PlainStrings(q) ==>
                forall id :: id in rows && EventQuery.Fits(q, DecodeRow(id.key, rows[id])) && id !in ids ==>
                  && q.limit.Some? && |ids| == q.limit.value
                  && forall i :: 0 <= i < |r.value| ==> r.value[i].timestampNs >= rows[id].timestampUs * 1000
    {
      ids := [];
      var sql := EventQuery.EmitSql(q);
      if fails {
        return Err("Failed to prepare query statement"), ids;
      }
      var binds := EventQuery.EmitBinds(q);
      var selected := EventQuery.Execute(rows, EventQuery.Attach(sql, binds));
      KeysBoundSize(rows.Keys, lastId);
      EventQuery.CompiledMeansFilter(q, rows, selected);
      var events := ReadRows(rows, selected, readFailsAt);
      AnswerFits(q, rows, selected, events);
      return Ok(events), selected;
    }
  }

  /** The read loop over the selected rows, up to a step that fails. */
  method ReadRows(t: Table, ids: seq<RowId>, failsAt: Option<nat>) returns (events: seq<Event>)
    requires forall i :: 0 <= i < |ids| ==> ids[i] in t
    ensures |events| == if failsAt.Some? then Min(failsAt.value, |ids|) else |ids|
    ensures forall i :: 0 <= i < |events| ==> events[i] == DecodeRow(ids[i].key, t[ids[i]])
  {
    events := [];
    for i := 0 to |ids|
      invariant |events| == i && (failsAt.Some? ==> i <= failsAt.value)
      invariant forall j :: 0 <= j < i ==> events[j] == DecodeRow(ids[j].key, t[ids[j]])
    {
      if failsAt == Some(i) {
        return;
      }
      events := events + [DecodeRow(ids[i].key, t[ids[i]])];
    }
  }
}
