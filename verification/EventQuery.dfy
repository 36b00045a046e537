/** EventStore::query as a compiler: one pass emits clauses with positional placeholders, a second
    pass emits the bound values, and the meaning of the pair is the direct filter. */
module EventQuery {
  import opened Common
  import opened Observation
  import opened EventTable

  datatype Query = Query(startNs: Option<int>, endNs: Option<int>, source: Option<string>, category: Option<string>,
                         subject: Option<string>, minSeverity: Option<Severity>, limit: Option<SizeT>)

  datatype Clause = TimeAtLeast | TimeAtMost | SourceIs | CategoryIs | SubjectIs | RankAtLeast | NewestFirst | LimitTo

  /** A bound value; a placeholder nothing was bound to is Null. */
  datatype Bound = IntBound(i: int) | TextBound(s: string) | Null

  // ---- what the database does with a statement ---------------------------------------------

  /** Placeholders take the bound values in order of appearance; NewestFirst has none. */
  function Attach(sql: seq<Clause>, binds: seq<Bound>): seq<(Clause, Bound)> {
    if sql == [] then []
    else if sql[0] == NewestFirst then [(NewestFirst, Null)] + Attach(sql[1..], binds)
    else if binds == [] then [(sql[0], Null)] + Attach(sql[1..], [])
    else [(sql[0], binds[0])] + Attach(sql[1..], binds[1..])
  }

  /** A comparison with a value of another type, or with Null, selects nothing. */
  predicate ClauseHolds(clause: (Clause, Bound), r: Row) {
    match clause
    case (TimeAtLeast, IntBound(i)) => r.timestampUs >= i
    case (TimeAtMost, IntBound(i)) => r.timestampUs <= i
    case (SourceIs, TextBound(s)) => r.source == s
    case (CategoryIs, TextBound(s)) => r.category == s
    case (SubjectIs, TextBound(s)) => r.subject == s
    case (RankAtLeast, IntBound(i)) => Rank(r) >= i
    case (NewestFirst, _) => true
    case (LimitTo, _) => true
    case _ => false
  }

  predicate RowPasses(stmt: seq<(Clause, Bound)>, r: Row) {
    forall i :: 0 <= i < |stmt| ==> ClauseHolds(stmt[i], r)
  }

  function Passing(stmt: seq<(Clause, Bound)>, t: Table): set<RowId> {
    set id | id in t && RowPasses(stmt, t[id])
  }

  /** Rows LIMIT lets through out of n; a negative LIMIT is none. */
  function Limited(stmt: seq<(Clause, Bound)>, n: nat): nat {
    if stmt == [] then n
    else if stmt[0].0 == LimitTo && stmt[0].1.IntBound? && stmt[0].1.i >= 0 then Min(stmt[0].1.i, Limited(stmt[1..], n))
    else Limited(stmt[1..], n)
  }

  predicate NewestFirstIn(ids: seq<RowId>, t: Table)
    requires forall i :: 0 <= i < |ids| ==> ids[i] in t
  {
    forall i, j :: 0 <= i < j < |ids| ==> t[ids[i]].timestampUs >= t[ids[j]].timestampUs
  }

  predicate Distinct(ids: seq<RowId>) {
    forall i, j :: 0 <= i < j < |ids| ==> ids[i] != ids[j]
  }

  /** ids lists, in order, `count` rows out of `candidates`, and none left out is newer than one listed. */
  predicate LatestOf(ids: seq<RowId>, candidates: set<RowId>, count: nat, t: Table)
    requires candidates <= t.Keys
  {
    && |ids| == count && Distinct(ids)
    && (forall i :: 0 <= i < |ids| ==> ids[i] in candidates)
    && NewestFirstIn(ids, t)
    && (forall id, i :: id in candidates && id !in ids && 0 <= i < |ids| ==> t[id].timestampUs <= t[ids[i]].timestampUs)
  }

  predicate Selects(stmt: seq<(Clause, Bound)>, t: Table, ids: seq<RowId>)
  {
    LatestOf(ids, Passing(stmt, t), Limited(stmt, |Passing(stmt, t)|), t)
  }

  // ---- what the filter means ---------------------------------------------------------------

  predicate Matches(q: Query, r: Row) {
    && (q.startNs.Some? ==> r.timestampUs >= Micros(q.startNs.value))
    && (q.endNs.Some? ==> r.timestampUs <= Micros(q.endNs.value))
    && (q.source.Some? ==> r.source == CStr(q.source.value))
    && (q.category.Some? ==> r.category == CStr(q.category.value))
    && (q.subject.Some? ==> r.subject == CStr(q.subject.value))
    && (q.minSeverity.Some? ==> Ordinal(DecodedSeverity(r.severity)) >= Ordinal(q.minSeverity.value))
  }

  function Matching(q: Query, t: Table): set<RowId> {
    set id | id in t && Matches(q, t[id])
  }

  /** The direct reading: all matching rows, newest first, cut to the limit. */
  predicate Answers(q: Query, t: Table, ids: seq<RowId>) {
    var n := |Matching(q, t)|;
    LatestOf(ids, Matching(q, t), if q.limit.Some? then Min(q.limit.value, n) else n, t)
  }

  // ---- the two passes ----------------------------------------------------------------------

  /** static_cast<int64_t>(size_t) */
  function AsInt64(n: SizeT): int { if n <= INT64_MAX then n else n - TWO_64 }

  /** The six optional comparisons, in the order both passes visit them. */
  function ClauseAt(k: nat): Clause
    requires k < 6
  {
    match k
    case 0 => TimeAtLeast
    case 1 => TimeAtMost
    case 2 => SourceIs
    case 3 => CategoryIs
    case 4 => SubjectIs
    case _ => RankAtLeast
  }

  predicate Present(q: Query, k: nat)
    requires k < 6
  {
    match k
    case 0 => q.startNs.Some?
    case 1 => q.endNs.Some?
    case 2 => q.source.Some?
    case 3 => q.category.Some?
    case 4 => q.subject.Some?
    case _ => q.minSeverity.Some?
  }

  function Argument(q: Query, k: nat): Bound
    requires k < 6 && Present(q, k)
  {
    match k
    case 0 => IntBound(Micros(q.startNs.value))
    case 1 => IntBound(Micros(q.endNs.value))
    case 2 => TextBound(CStr(q.source.value))
    case 3 => TextBound(CStr(q.category.value))
    case 4 => TextBound(CStr(q.subject.value))
    case _ => IntBound(Ordinal(q.minSeverity.value))
  }

  /** What test k of the first pass emits. */
  function PartAt(q: Query, k: nat): seq<Clause>
    requires k < 6
  {
    if Present(q, k) then [ClauseAt(k)] else []
  }

  /** What test k of the second pass binds. */
  function BindAt(q: Query, k: nat): seq<Bound>
    requires k < 6
  {
    if Present(q, k) then [Argument(q, k)] else []
  }

  function SqlUpTo(q: Query, k: nat): seq<Clause>
    requires k <= 6
  {
    if k == 0 then [] else SqlUpTo(q, k - 1) + PartAt(q, k - 1)
  }

  function BindsUpTo(q: Query, k: nat): seq<Bound>
    requires k <= 6
  {
    if k == 0 then [] else BindsUpTo(q, k - 1) + BindAt(q, k - 1)
  }

  function LimitClause(q: Query): seq<Clause> { if q.limit.Some? then [LimitTo] else [] }

  function LimitBind(q: Query): seq<Bound> { if q.limit.Some? then [IntBound(AsInt64(q.limit.value))] else [] }

  function CompileSql(q: Query): seq<Clause> { SqlUpTo(q, 6) + [NewestFirst] + LimitClause(q) }

  function CompileBinds(q: Query): seq<Bound> { BindsUpTo(q, 6) + LimitBind(q) }

  function Compiled(q: Query): seq<(Clause, Bound)> { Attach(CompileSql(q), CompileBinds(q)) }

  /** The first pass: a clause for every comparison present, the order, then the limit. */
  method EmitSql(q: Query) returns (sql: seq<Clause>)
    ensures sql == CompileSql(q)
  {
    sql := [];
    if q.startNs.Some? {
      sql := sql + [TimeAtLeast];
    }
    assert sql == SqlUpTo(q, 1);
    if q.endNs.Some? {
      sql := sql + [TimeAtMost];
    }
    assert sql == SqlUpTo(q, 2);
    if q.source.Some? {
      sql := sql + [SourceIs];
    }
    assert sql == SqlUpTo(q, 3);
    if q.category.Some? {
      sql := sql + [CategoryIs];
    }
    assert sql == SqlUpTo(q, 4);
    if q.subject.Some? {
      sql := sql + [SubjectIs];
    }
    assert sql == SqlUpTo(q, 5);
    if q.minSeverity.Some? {
      sql := sql + [RankAtLeast];
    }
    assert sql == SqlUpTo(q, 6);
    sql := sql + [NewestFirst];
    assert sql + [] == sql;
    if q.limit.Some? {
      sql := sql + [LimitTo];
    }
  }

  /** The second pass: the bound values, each at the next position. */
  method EmitBinds(q: Query) returns (binds: seq<Bound>)
    ensures binds == CompileBinds(q)
  {
    binds := [];
    if q.startNs.Some? {
      binds := binds + [IntBound(Micros(q.startNs.value))];
    }
    assert binds == BindsUpTo(q, 1);
    if q.endNs.Some? {
      binds := binds + [IntBound(Micros(q.endNs.value))];
    }
    assert binds == BindsUpTo(q, 2);
    if q.source.Some? {
      binds := binds + [TextBound(CStr(q.source.value))];
    }
    assert binds == BindsUpTo(q, 3);
    if q.category.Some? {
      binds := binds + [TextBound(CStr(q.category.value))];
    }
    assert binds == BindsUpTo(q, 4);
    if q.subject.Some? {
      binds := binds + [TextBound(CStr(q.subject.value))];
    }
    assert binds == BindsUpTo(q, 5);
    if q.minSeverity.Some? {
      binds := binds + [IntBound(Ordinal(q.minSeverity.value))];
    }
    assert binds == BindsUpTo(q, 6);
    if q.limit.Some? {
      binds := binds + [IntBound(AsInt64(q.limit.value))];
    }
  }

  /** One clause with at most one placeholder, followed by the rest of both lists. */
  lemma AttachPart(part: seq<Clause>, bind: seq<Bound>, sql: seq<Clause>, binds: seq<Bound>)
    requires |part| == |bind| <= 1 && (part != [] ==> part[0] != NewestFirst)
    ensures Attach(part + sql, bind + binds) ==
            (if part == [] then [] else [(part[0], bind[0])]) + Attach(sql, binds)
  {
    if part == [] {
      assert part + sql == sql && bind + binds == binds;
    } else {
      assert (part + sql)[1..] == sql && (bind + binds)[1..] == binds;
    }
  }

  lemma PassesPart(part: seq<(Clause, Bound)>, rest: seq<(Clause, Bound)>, r: Row)
    ensures RowPasses(part + rest, r) <==> RowPasses(part, r) && RowPasses(rest, r)
  {
    if RowPasses(part + rest, r) {
      forall i | 0 <= i < |part| ensures ClauseHolds(part[i], r) { assert part[i] == (part + rest)[i]; }
      forall i | 0 <= i < |rest| ensures ClauseHolds(rest[i], r) { assert rest[i] == (part + rest)[|part| + i]; }
    }
  }

  /** Attach peels one optional clause off the compiled statement and its value off the binds. */
  lemma PeelClause(part: seq<Clause>, bind: seq<Bound>, sql: seq<Clause>, binds: seq<Bound>, r: Row, n: nat)
    requires |part| == |bind| <= 1 && (part != [] ==> part[0] != NewestFirst && part[0] != LimitTo)
    ensures RowPasses(Attach(part + sql, bind + binds), r) <==>
            (part == [] || ClauseHolds((part[0], bind[0]), r)) && RowPasses(Attach(sql, binds), r)
    ensures Limited(Attach(part + sql, bind + binds), n) == Limited(Attach(sql, binds), n)
  {
    AttachPart(part, bind, sql, binds);
    var head := if part == [] then [] else [(part[0], bind[0])];
    PassesPart(head, Attach(sql, binds), r);
    if part == [] {
      assert head + Attach(sql, binds) == Attach(sql, binds);
    } else {
      assert (head + Attach(sql, binds))[1..] == Attach(sql, binds);
    }
  }

  lemma LimitTail(q: Query, r: Row, n: nat)
    requires n <= INT64_MAX
    ensures var tail := Attach([NewestFirst] + LimitClause(q), LimitBind(q));
            RowPasses(tail, r) && Limited(tail, n) == if q.limit.Some? then Min(q.limit.value, n) else n
  {
    var stmt := Attach([NewestFirst] + LimitClause(q), LimitBind(q));
    if q.limit.Some? {
      var bound := IntBound(AsInt64(q.limit.value));
      assert ([NewestFirst] + LimitClause(q))[1..] == [LimitTo];
      assert Attach([LimitTo], [bound]) == [(LimitTo, bound)];
      assert stmt == [(NewestFirst, Null), (LimitTo, bound)];
      assert stmt[1..][1..] == [];
      assert Limited(stmt, n) == Limited(stmt[1..], n);
    } else {
      assert ([NewestFirst] + LimitClause(q))[1..] == [];
    }
  }

  predicate HoldsUpTo(q: Query, k: nat, r: Row)
    requires k <= 6
  {
    forall j :: 0 <= j < k && Present(q, j) ==> ClauseHolds((ClauseAt(j), Argument(q, j)), r)
  }

  lemma {:induction false} CompiledUpTo(q: Query, k: nat, sql: seq<Clause>, binds: seq<Bound>, r: Row, n: nat)
    requires k <= 6
    ensures RowPasses(Attach(SqlUpTo(q, k) + sql, BindsUpTo(q, k) + binds), r) <==>
            HoldsUpTo(q, k, r) && RowPasses(Attach(sql, binds), r)
    ensures Limited(Attach(SqlUpTo(q, k) + sql, BindsUpTo(q, k) + binds), n) == Limited(Attach(sql, binds), n)
  {
    hide PartAt, BindAt, HoldsUpTo, ClauseHolds, Attach, RowPasses, Limited;
    if k == 0 {
      HoldsNoneYet(q, r);
      assert SqlUpTo(q, 0) + sql == sql && BindsUpTo(q, 0) + binds == binds;
    } else {
      PartShape(q, k - 1);
      var part, bind := PartAt(q, k - 1), BindAt(q, k - 1);
      Regroup(SqlUpTo(q, k - 1), part, sql);
      Regroup(BindsUpTo(q, k - 1), bind, binds);
      CompiledUpTo(q, k - 1, part + sql, bind + binds, r, n);
      PeelClause(part, bind, sql, binds, r, n);
      HoldsOneMore(q, k, r);
    }
  }

  lemma HoldsNoneYet(q: Query, r: Row)
    ensures HoldsUpTo(q, 0, r)
  {}

  lemma PartShape(q: Query, k: nat)
    requires k < 6
    ensures |PartAt(q, k)| == |BindAt(q, k)| <= 1
    ensures PartAt(q, k) != [] ==> PartAt(q, k)[0] != NewestFirst && PartAt(q, k)[0] != LimitTo
  {}

  lemma HoldsOneMore(q: Query, k: nat, r: Row)
    requires 0 < k <= 6
    ensures HoldsUpTo(q, k, r) <==>
            HoldsUpTo(q, k - 1, r)
            && (PartAt(q, k - 1) == [] || ClauseHolds((PartAt(q, k - 1)[0], BindAt(q, k - 1)[0]), r))
  {}

  lemma HoldsAllIsMatch(q: Query, r: Row)
    ensures HoldsUpTo(q, 6, r) <==> Matches(q, r)
  {
    SqlRankIsDecodedOrdinal(r.severity);
    HoldsOneMore(q, 1, r);
    HoldsOneMore(q, 2, r);
    HoldsOneMore(q, 3, r);
    HoldsOneMore(q, 4, r);
    HoldsOneMore(q, 5, r);
    HoldsOneMore(q, 6, r);
    assert HoldsUpTo(q, 0, r);
    hide HoldsUpTo;
  }

  /** For every filter each placeholder receives its own value, so a row passes the compiled
      clauses exactly when it matches the filter, and LIMIT lets through what the filter allows. */
  lemma CompiledRowIsMatch(q: Query, r: Row, n: nat)
    requires n <= INT64_MAX
    ensures RowPasses(Compiled(q), r) <==> Matches(q, r)
    ensures Limited(Compiled(q), n) == if q.limit.Some? then Min(q.limit.value, n) else n
  {
    Regroup(SqlUpTo(q, 6), [NewestFirst], LimitClause(q));
    CompiledUpTo(q, 6, [NewestFirst] + LimitClause(q), LimitBind(q), r, n);
    LimitTail(q, r, n);
    HoldsAllIsMatch(q, r);
  }

  /** Compilation preserves meaning: the compiled statement selects a list of rows exactly when
      that list answers the filter. (A table holds at most INT64_MAX rows.) */
  lemma CompiledMeansFilter(q: Query, t: Table, ids: seq<RowId>)
    requires |t| <= INT64_MAX
    ensures Selects(Compiled(q), t, ids) <==> Answers(q, t, ids)
  {
    forall id | id in t
      ensures RowPasses(Compiled(q), t[id]) <==> Matches(q, t[id])
    {
      CompiledRowIsMatch(q, t[id], 0);
    }
    assert Passing(Compiled(q), t) == Matching(q, t);
    SubsetSize(Matching(q, t), t.Keys);
    CompiledRowIsMatch(q, Row(0, "", "", "", "", "", "", "", ""), |Matching(q, t)|);
  }

  /** What a caller asks of an event it gets back. Time bounds are whole microseconds. */
  predicate Fits(q: Query, e: Event) {
    && (q.startNs.Some? ==> e.timestampNs / 1000 >= Micros(q.startNs.value))
    && (q.endNs.Some? ==> e.timestampNs / 1000 <= Micros(q.endNs.value))
    && (q.source.Some? && NulFree(q.source.value) ==> e.source == q.source.value)
    && (q.category.Some? && NulFree(q.category.value) ==> e.category == q.category.value)
    && (q.subject.Some? && NulFree(q.subject.value) ==> e.subject == q.subject.value)
    && (q.minSeverity == Some(Info) ==> e.severity != Debug)
    && (q.minSeverity == Some(Warning) ==> e.severity in [Warning, Error, Critical])
    && (q.minSeverity == Some(Error) ==> e.severity in [Error, Critical])
    && (q.minSeverity == Some(Critical) ==> e.severity == Critical)
  }

  /** The strings asked for are those of C, without NUL. */
  predicate PlainStrings(q: Query) {
    && (q.source.Some? ==> NulFree(q.source.value)) && (q.category.Some? ==> NulFree(q.category.value))
    && (q.subject.Some? ==> NulFree(q.subject.value))
  }

  /** The rows that match are those whose events fit. */
  lemma MatchesFits(q: Query, r: Row, id: int)
    ensures Matches(q, r) ==> Fits(q, DecodeRow(id, r))
    ensures PlainStrings(q) ==> (Matches(q, r) <==> Fits(q, DecodeRow(id, r)))
  {}

  // ---- running a statement -----------------------------------------------------------------

  method FindNewest(t: Table, candidates: set<RowId>) returns (best: RowId)
    requires candidates != {} && candidates <= t.Keys
    ensures best in candidates
    ensures forall id :: id in candidates ==> t[id].timestampUs <= t[best].timestampUs
  {
    best :| best in candidates;
    var rest := candidates - {best};
    while rest != {}
      invariant rest <= candidates && best in candidates
      invariant forall id :: id in candidates && id !in rest ==> t[id].timestampUs <= t[best].timestampUs
      decreases |rest|
    {
      var id :| id in rest;
      if t[id].timestampUs > t[best].timestampUs {
        best := id;
      }
      rest := rest - {id};
    }
  }

  /** Executes a SELECT. Rows of equal timestamp may come in any order and the contract fixes none. */
  method Execute(t: Table, stmt: seq<(Clause, Bound)>) returns (ids: seq<RowId>)
    ensures Selects(stmt, t, ids)
  {
    hide RowPasses, Limited;
    var passing := Passing(stmt, t);
    var count := Limited(stmt, |passing|);
    LimitedAtMost(stmt, |passing|);
    ids := [];
    var rest := passing;
    while |ids| < count
      invariant |ids| <= count <= |passing| && |rest| == |passing| - |ids|
      invariant forall id :: id in passing <==> id in rest || id in ids
      invariant forall i :: 0 <= i < |ids| ==> ids[i] in passing && ids[i] !in rest
      invariant Distinct(ids) && NewestFirstIn(ids, t)
      invariant forall id, i :: id in rest && 0 <= i < |ids| ==> t[id].timestampUs <= t[ids[i]].timestampUs
      decreases count - |ids|
    {
      var best := FindNewest(t, rest);
      ids := ids + [best];
      rest := rest - {best};
    }
  }

  lemma {:induction false} LimitedAtMost(stmt: seq<(Clause, Bound)>, n: nat)
    ensures Limited(stmt, n) <= n
  {
    if stmt != [] { LimitedAtMost(stmt[1..], n); }
  }

  // ---- time bounds are kept to the microsecond ---------------------------------------------

  /** Every event at or after the start and at or before the end passes the stored time bounds. */
  lemma WindowKeepsEvents(e: Event, q: Query)
    requires q.startNs.Some? ==> e.timestampNs >= q.startNs.value
    requires q.endNs.Some? ==> e.timestampNs <= q.endNs.value
    ensures Matches(q.(source := None, category := None, subject := None, minSeverity := None), EncodeRow(e))
  {
    if q.startNs.Some? { MicrosMonotone(q.startNs.value, e.timestampNs); }
    if q.endNs.Some? { MicrosMonotone(e.timestampNs, q.endNs.value); }
  }

  /** Truncation makes the start bound inexact: it admits no earlier event exactly when the
      nanosecond before it falls into an earlier stored microsecond. */
  lemma StartBoundIsExact(startNs: int)
    ensures (forall ts: int :: Micros(ts) >= Micros(startNs) ==> ts >= startNs) <==>
            if startNs > 0 then startNs % 1000 == 0 else (startNs - 1) % 1000 == 0
  {
    var exact := if startNs > 0 then startNs % 1000 == 0 else (startNs - 1) % 1000 == 0;
    assert Micros(startNs - 1) < Micros(startNs) <==> exact;
    forall ts: int | exact && Micros(ts) >= Micros(startNs)
      ensures ts >= startNs
    {
      if ts < startNs { MicrosMonotone(ts, startNs - 1); }
    }
  }

  /** So does the end bound: it admits no later event exactly when the nanosecond after it falls into
      a later stored microsecond. */
  lemma EndBoundIsExact(endNs: int)
    ensures (forall ts: int :: Micros(ts) <= Micros(endNs) ==> ts <= endNs) <==>
            if endNs >= 0 then (endNs + 1) % 1000 == 0 else endNs % 1000 == 0
  {
    var exact := if endNs >= 0 then (endNs + 1) % 1000 == 0 else endNs % 1000 == 0;
    assert Micros(endNs + 1) > Micros(endNs) <==> exact;
    forall ts: int | exact && Micros(ts) <= Micros(endNs)
      ensures ts <= endNs
    {
      if ts > endNs { MicrosMonotone(endNs + 1, ts); }
    }
  }
}
