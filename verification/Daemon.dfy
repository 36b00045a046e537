/** The health daemon's store maintenance: insert, prune by age, prune by capacity, every iteration. */
module Daemon {
  import opened Observation
  import opened EventTable
  import opened Capacity
  import opened EventStore
  import opened Retention

  class Daemon {
    const store: EventStore
    const config: Config

    constructor (store: EventStore, config: Config)
      ensures this.store == store && this.config == config
    {
      this.store, this.config := store, config;
    }

    /** One iteration. Each call is made whether or not the one before succeeded. */
    method RunIteration(w: World) returns (ghost s: Snapshot)
      requires store.Valid()
      modifies store
      ensures store.Valid() && SubTable(old(store.history), store.history)
      ensures IsIteration(s, w, config)
      ensures s.before == old(store.rows) && s.lastId == old(store.lastId) && s.after == store.rows
    {
      hide EncodeRow, EncodeAll, Evicted, PruneOutcome, InsertAll, Recent, IsIteration, BatchCommits;
      ghost var before, lastId := store.rows, store.lastId;
      assert KeysUpTo(before, lastId);
      hide SubTable, KeysUpTo, Micros;
      var inserted := store.InsertBatch(w.events, w.insertFails);
      HistoryGrows(old(store.history), lastId, EncodeAll(w.events));
      ghost var afterInsert := store.rows;
      var cutoff := w.nowNs - config.retentionDays * NS_PER_DAY;
      var aged := store.PruneEvents(cutoff, w.ageFails, w.env);
      ghost var afterAge := store.rows;
      var pruned, _, _ := store.PruneEventsByCapacity(config.limits, w.env);
      s := Snapshot(before, lastId, afterInsert, afterAge, store.rows);
      ThreeCalls(s, w, config);
    }

    /** The main loop over the iterations made before the stop request. */
    method Run(ws: seq<World>) returns (ghost log: seq<Snapshot>)
      requires store.Valid() && store.rows == map[]
      modifies store
      ensures store.Valid()
      ensures IsRun(log, ws, config) && Final(log) == store.rows
      ensures forall id :: id in store.rows ==> exists i, j :: StoredBy(id, store.rows[id], log, ws, i, j)
    {
      hide IsRun, IsIteration, StoredBy;
      NoRun(config);
      log := [];
      var i := 0;
      while i < |ws|
        invariant 0 <= i <= |ws| && store.Valid()
        invariant IsRun(log, ws[..i], config) && Final(log) == store.rows
      {
        ghost var s := RunIteration(ws[i]);
        ExtendRun(log, ws[..i], config, s, ws[i]);
        log := log + [s];
        assert ws[..i + 1] == ws[..i] + [ws[i]];
        i := i + 1;
      }
      assert ws[..i] == ws;
      forall id | id in store.rows ensures exists k, j :: StoredBy(id, store.rows[id], log, ws, k, j) {
        var k, j := RowsAreInserted(log, ws, config, id);
      }
    }
  }
}
