/** The table from notification ids to activation descriptors: at most 256 entries, each good for
    24 hours and for one use. */
module ActionBindings {
  import opened Common

  /** Where an agent runs; it can be activated when its process lineage is known. */
  datatype Descriptor = Descriptor(lineage: seq<UInt32>, title: string) {
    predicate Valid() { lineage != [] }
  }

  datatype NotifyId = NotifyId(id: UInt32)

  datatype Entry = Entry(descriptor: Descriptor, createdAt: int)

  type Bindings = map<NotifyId, Entry>

  const CAPACITY: nat := 256
  const LIFETIME: int := 86_400_000_000_000

  // ---- what each operation does to the table -----------------------------------------------

  /** Entries created at or after the cutoff. */
  function Since(t: Bindings, cutoff: int): Bindings {
    map k | k in t && t[k].createdAt >= cutoff :: t[k]
  }

  function Pruned(t: Bindings, now: int): Bindings { Since(t, now - LIFETIME) }

  /** An operation with the clock readings it makes; Replace reads the clock twice, and names the
      entry that makes room when one has to. */
  datatype Op =
    | Prune(now: int)
    | Replace(oldId: NotifyId, newId: NotifyId, descriptor: Descriptor, now: int, createdAt: int, victim: NotifyId)
    | Consume(id: NotifyId, now: int)
    | Close(id: NotifyId)

  /** The table when Replace comes to insert: pruned, and rid of the replaced notification. */
  function BeforeInsert(op: Op, t: Bindings): Bindings
    requires op.Replace?
  {
    if op.oldId.id != 0 then Pruned(t, op.now) - {op.oldId} else Pruned(t, op.now)
  }

  predicate Inserts(op: Op) { op.Replace? && op.newId.id != 0 && op.descriptor.Valid() }

  predicate Evicts(op: Op, t: Bindings) {
    Inserts(op) && op.newId !in BeforeInsert(op, t) && |BeforeInsert(op, t)| >= CAPACITY
  }

  predicate IsOldest(t: Bindings, k: NotifyId) {
    k in t && forall other :: other in t ==> t[k].createdAt <= t[other].createdAt
  }

  function Room(op: Op, t: Bindings): Bindings
    requires op.Replace?
  {
    if Evicts(op, t) then BeforeInsert(op, t) - {op.victim} else BeforeInsert(op, t)
  }

  function Apply(op: Op, t: Bindings): Bindings {
    match op
    case Prune(now) => Pruned(t, now)
    case Replace(_, newId, descriptor, _, createdAt, _) =>
      if Inserts(op) then Room(op, t)[newId := Entry(descriptor, createdAt)] else BeforeInsert(op, t)
    case Consume(id, now) => Pruned(t, now) - {id}
    case Close(id) => t - {id}
  }

  function ConsumeResult(t: Bindings, id: NotifyId, now: int): Option<Descriptor> {
    if id in Pruned(t, now) then Some(t[id].descriptor) else None
  }

  /** The clock does not run backwards, and min_element names an oldest entry. */
  predicate Legal(op: Op, t: Bindings, clock: int) {
    && (!op.Close? ==> clock <= op.now)
    && (op.Replace? ==> op.now <= op.createdAt)
    && (Evicts(op, t) ==> IsOldest(BeforeInsert(op, t), op.victim))
  }

  // ---- the class ---------------------------------------------------------------------------

  class NotificationActionBindings {
    var entries: Bindings

    constructor ()
      ensures entries == map[]
    {
      entries := map[];
    }

    method Prune(now: int)
      modifies this
      ensures entries == Apply(Op.Prune(now), old(entries))
    {
      entries := Pruned(entries, now);
    }

    method FindOldest() returns (oldest: NotifyId)
      requires |entries| > 0
      ensures IsOldest(entries, oldest)
    {
      assert |entries.Keys| > 0;
      oldest :| oldest in entries;
      var rest := entries.Keys - {oldest};
      while rest != {}
        invariant rest <= entries.Keys && oldest in entries
        invariant forall k :: k in entries && k !in rest ==> entries[oldest].createdAt <= entries[k].createdAt
        decreases |rest|
      {
        var k :| k in rest;
        if entries[k].createdAt < entries[oldest].createdAt {
          oldest := k;
        }
        rest := rest - {k};
      }
    }

    method Replace(oldId: NotifyId, newId: NotifyId, descriptor: Descriptor, now: int, createdAt: int)
      returns (ghost op: Op)
      requires now <= createdAt
      modifies this
      ensures op.Replace? && op == Op.Replace(oldId, newId, descriptor, now, createdAt, op.victim)
      ensures Legal(op, old(entries), now) && entries == Apply(op, old(entries))
    {
      hide Since, IsOldest;
      op := Op.Replace(oldId, newId, descriptor, now, createdAt, newId);
      Prune(now);
      if oldId.id != 0 {
        entries := entries - {oldId};
      }
      assert entries == BeforeInsert(op, old(entries));
      if newId.id == 0 || !descriptor.Valid() {
        return;
      }
      if newId !in entries && |entries| >= CAPACITY {
        var oldest := FindOldest();
        op := op.(victim := oldest);
        entries := entries - {oldest};
      }
      entries := entries[newId := Entry(descriptor, createdAt)];
    }

    method Consume(id: NotifyId, now: int) returns (r: Option<Descriptor>)
      modifies this
      ensures entries == Apply(Op.Consume(id, now), old(entries))
      ensures r == ConsumeResult(old(entries), id, now)
      ensures r.Some? <==> id in old(entries) && now - old(entries)[id].createdAt <= 24 * 3600 * 1_000_000_000
      ensures r.Some? ==> r.value == old(entries)[id].descriptor
      ensures forall k :: k in entries <==> k in old(entries) && k != id
                                            && now - old(entries)[k].createdAt <= 24 * 3600 * 1_000_000_000
    {
      Prune(now);
      if id !in entries {
        return None;
      }
      r := Some(entries[id].descriptor);
      entries := entries - {id};
    }

    method Close(id: NotifyId)
      modifies this
      ensures entries == Apply(Op.Close(id), old(entries))
      ensures forall k :: k in entries <==> k in old(entries) && k != id
    {
      entries := entries - {id};
    }
  }

  // ---- refinement of an unbounded map that never forgets -----------------------------------

  function ApplyIdeal(op: Op, u: Bindings): Bindings {
    match op
    case Prune(_) => u
    case Replace(oldId, newId, descriptor, _, createdAt, _) =>
      var rest := if oldId.id != 0 then u - {oldId} else u;
      if Inserts(op) then rest[newId := Entry(descriptor, createdAt)] else rest
    case Consume(id, _) => u - {id}
    case Close(id) => u - {id}
  }

  /** The table, the unbounded map fed the same operations, the last clock reading, the cutoff of
      the last prune, and whether an entry was ever evicted for room. */
  datatype State = State(table: Bindings, ideal: Bindings, clock: int, cutoff: int, evicted: bool)

  function Start(clock: int): State { State(map[], map[], clock, clock - LIFETIME, false) }

  function Step(op: Op, s: State): State {
    State(Apply(op, s.table), ApplyIdeal(op, s.ideal),
          if op.Close? then s.clock else if op.Replace? then op.createdAt else op.now,
          if op.Close? then s.cutoff else op.now - LIFETIME,
          s.evicted || Evicts(op, s.table))
  }

  /** The state after a run of operations. */
  function Run(ops: seq<Op>, clock: int): State {
    if ops == [] then Start(clock) else Step(ops[|ops| - 1], Run(ops[..|ops| - 1], clock))
  }

  predicate LegalRun(ops: seq<Op>, clock: int) {
    ops == [] || (LegalRun(ops[..|ops| - 1], clock) &&
                  Legal(ops[|ops| - 1], Run(ops[..|ops| - 1], clock).table, Run(ops[..|ops| - 1], clock).clock))
  }

  /** Every entry of t is an entry of u created at or after the cutoff. */
  predicate PartOf(t: Bindings, u: Bindings, cutoff: int) {
    forall k :: k in t ==> k in u && t[k] == u[k] && u[k].createdAt >= cutoff
  }

  /** Every entry of u created at or after the cutoff is in t. */
  predicate Complete(t: Bindings, u: Bindings, cutoff: int) {
    forall k :: k in u && u[k].createdAt >= cutoff ==> k in t
  }

  predicate Usable(u: Bindings, clock: int) {
    forall k :: k in u ==> k.id != 0 && u[k].descriptor.Valid() && u[k].createdAt <= clock
  }

  /** The table is a part of the unbounded map with at most 256 entries, none expired at the last
      prune, all usable; until an eviction it is exactly the unexpired part. */
  predicate Refines(s: State) {
    && |s.table| <= CAPACITY
    && s.cutoff <= s.clock - LIFETIME
    && Usable(s.ideal, s.clock)
    && PartOf(s.table, s.ideal, s.cutoff)
    && (!s.evicted ==> Complete(s.table, s.ideal, s.cutoff))
  }

  lemma PrunedSize(t: Bindings, cutoff: int)
    ensures |Since(t, cutoff)| <= |t|
  {
    SubsetSize(Since(t, cutoff).Keys, t.Keys);
  }

  lemma BeforeInsertShrinks(op: Op, t: Bindings)
    requires op.Replace?
    ensures |BeforeInsert(op, t)| <= |t|
    ensures forall k :: k in BeforeInsert(op, t) ==>
              k in t && BeforeInsert(op, t)[k] == t[k] && t[k].createdAt >= op.now - LIFETIME
  {
    PrunedSize(t, op.now - LIFETIME);
    DropKey(Pruned(t, op.now), op.oldId);
  }

  lemma RoomSize(q: Bindings, k: NotifyId, victim: NotifyId, e: Entry)
    requires |q| <= CAPACITY && (k !in q && |q| >= CAPACITY ==> victim in q)
    ensures |(if k !in q && |q| >= CAPACITY then q - {victim} else q)[k := e]| <= CAPACITY
  {
    DropKey(q, victim);
    PutKey(q - {victim}, k, e);
    PutKey(q, k, e);
  }

  lemma SizeAfter(op: Op, t: Bindings)
    requires |t| <= CAPACITY
    requires Evicts(op, t) ==> op.victim in BeforeInsert(op, t)
    ensures |Apply(op, t)| <= CAPACITY
  {
    if op.Replace? {
      BeforeInsertShrinks(op, t);
      hide BeforeInsert;
      if Inserts(op) { RoomSize(BeforeInsert(op, t), op.newId, op.victim, Entry(op.descriptor, op.createdAt)); }
    } else {
      if !op.Close? { PrunedSize(t, op.now - LIFETIME); }
      if !op.Prune? { DropKey(if op.Close? then t else Pruned(t, op.now), op.id); }
    }
  }

  lemma PrunedRefines(t: Bindings, u: Bindings, cutoff: int, later: int)
    requires PartOf(t, u, cutoff) && cutoff <= later
    ensures PartOf(Since(t, later), u, later)
    ensures Complete(t, u, cutoff) ==> Complete(Since(t, later), u, later)
  {}

  lemma DropRefines(t: Bindings, u: Bindings, cutoff: int, k: NotifyId)
    requires PartOf(t, u, cutoff)
    ensures PartOf(t - {k}, u - {k}, cutoff)
    ensures Complete(t, u, cutoff) ==> Complete(t - {k}, u - {k}, cutoff)
  {}

  lemma PutRefines(t: Bindings, u: Bindings, cutoff: int, k: NotifyId, e: Entry, victim: NotifyId)
    requires PartOf(t, u, cutoff) && e.createdAt >= cutoff
    ensures PartOf(t[k := e], u[k := e], cutoff) && PartOf((t - {victim})[k := e], u[k := e], cutoff)
    ensures Complete(t, u, cutoff) ==> Complete(t[k := e], u[k := e], cutoff)
  {}

  lemma IdealUsable(op: Op, s: State)
    requires Usable(s.ideal, s.clock) && (!op.Close? ==> s.clock <= op.now) && (op.Replace? ==> op.now <= op.createdAt)
    ensures Usable(ApplyIdeal(op, s.ideal), Step(op, s).clock)
  {
    hide Apply, Evicts;
  }

  lemma ReplaceRefines(op: Op, t: Bindings, u: Bindings, cutoff: int)
    requires op.Replace? && PartOf(t, u, cutoff) && cutoff <= op.now - LIFETIME && op.now <= op.createdAt
    ensures PartOf(Apply(op, t), ApplyIdeal(op, u), op.now - LIFETIME)
    ensures Complete(t, u, cutoff) && !Evicts(op, t) ==> Complete(Apply(op, t), ApplyIdeal(op, u), op.now - LIFETIME)
  {
    hide PartOf, Complete, Since;
    PrunedRefines(t, u, cutoff, op.now - LIFETIME);
    DropRefines(Pruned(t, op.now), u, op.now - LIFETIME, op.oldId);
    var rest := if op.oldId.id != 0 then u - {op.oldId} else u;
    var q := BeforeInsert(op, t);
    hide BeforeInsert;
    PutRefines(q, rest, op.now - LIFETIME, op.newId, Entry(op.descriptor, op.createdAt), op.victim);
  }

  lemma TimedRefines(op: Op, t: Bindings, u: Bindings, cutoff: int)
    requires (op.Prune? || op.Consume?) && PartOf(t, u, cutoff) && cutoff <= op.now - LIFETIME
    ensures PartOf(Apply(op, t), ApplyIdeal(op, u), op.now - LIFETIME)
    ensures Complete(t, u, cutoff) ==> Complete(Apply(op, t), ApplyIdeal(op, u), op.now - LIFETIME)
  {
    hide PartOf, Complete, Since;
    PrunedRefines(t, u, cutoff, op.now - LIFETIME);
    if op.Consume? { DropRefines(Pruned(t, op.now), u, op.now - LIFETIME, op.id); }
  }

  lemma CloseRefines(op: Op, t: Bindings, u: Bindings, cutoff: int)
    requires op.Close? && PartOf(t, u, cutoff)
    ensures PartOf(Apply(op, t), ApplyIdeal(op, u), cutoff)
    ensures Complete(t, u, cutoff) ==> Complete(Apply(op, t), ApplyIdeal(op, u), cutoff)
  {
    hide PartOf, Complete;
    DropRefines(t, u, cutoff, op.id);
  }

  /** The two maps stay in step, at the cutoff of the last prune. */
  lemma MapsStayInStep(op: Op, t: Bindings, u: Bindings, cutoff: int)
    requires PartOf(t, u, cutoff) && (!op.Close? ==> cutoff <= op.now - LIFETIME)
    requires op.Replace? ==> op.now <= op.createdAt
    ensures var later := if op.Close? then cutoff else op.now - LIFETIME;
            && PartOf(Apply(op, t), ApplyIdeal(op, u), later)
            && (Complete(t, u, cutoff) && !Evicts(op, t) ==> Complete(Apply(op, t), ApplyIdeal(op, u), later))
  {
    hide PartOf, Complete, Apply, ApplyIdeal, Evicts;
    if op.Replace? {
      ReplaceRefines(op, t, u, cutoff);
    } else if op.Close? {
      CloseRefines(op, t, u, cutoff);
    } else {
      TimedRefines(op, t, u, cutoff);
    }
  }

  lemma LegalOp(op: Op, t: Bindings, clock: int)
    requires Legal(op, t, clock)
    ensures (!op.Close? ==> clock <= op.now) && (op.Replace? ==> op.now <= op.createdAt)
    ensures Evicts(op, t) ==> op.victim in BeforeInsert(op, t)
  {
    hide BeforeInsert, Evicts;
  }

  lemma StepRefines(op: Op, s: State)
    requires Refines(s) && Legal(op, s.table, s.clock)
    ensures Refines(Step(op, s))
  {
    hide Legal, PartOf, Complete, Usable, Apply, ApplyIdeal, Evicts, BeforeInsert;
    LegalOp(op, s.table, s.clock);
    SizeAfter(op, s.table);
    IdealUsable(op, s);
    MapsStayInStep(op, s.table, s.ideal, s.cutoff);
  }

  /** Every state of every run refines the unbounded map. */
  lemma {:induction false} EveryRunRefines(ops: seq<Op>, clock: int)
    requires LegalRun(ops, clock)
    ensures Refines(Run(ops, clock))
  {
    if ops != [] {
      EveryRunRefines(ops[..|ops| - 1], clock);
      StepRefines(ops[|ops| - 1], Run(ops[..|ops| - 1], clock));
    }
  }

  /** Until an eviction, consuming succeeds exactly for the bindings of the last 24 hours. */
  lemma ConsumeIsExact(ops: seq<Op>, clock: int, id: NotifyId, now: int)
    requires LegalRun(ops, clock) && now >= Run(ops, clock).clock && !Run(ops, clock).evicted
    ensures var u := Run(ops, clock).ideal;
            ConsumeResult(Run(ops, clock).table, id, now) ==
            if id in u && now - u[id].createdAt <= 24 * 3600 * 1_000_000_000 then Some(u[id].descriptor) else None
  {
    EveryRunRefines(ops, clock);
  }

  /** An entry leaves to make room only from a full table, and no remaining entry is older. */
  lemma EvictionTakesOldest(op: Op, s: State, k: NotifyId)
    requires Refines(s) && Legal(op, s.table, s.clock) && Evicts(op, s.table)
    requires k in BeforeInsert(op, s.table) && k !in Apply(op, s.table)
    ensures |s.table| == CAPACITY
    ensures forall other :: other in Apply(op, s.table) ==>
              BeforeInsert(op, s.table)[k].createdAt <= Apply(op, s.table)[other].createdAt
  {
    BeforeInsertShrinks(op, s.table);
  }

  // ---- every use has its own binding -------------------------------------------------------

  /** op ends or renews whatever was bound to k. */
  predicate Touches(op: Op, k: NotifyId) {
    match op
    case Prune(_) => false
    case Replace(oldId, newId, _, _, _, _) => (oldId.id != 0 && oldId == k) || (Inserts(op) && newId == k)
    case Consume(id, _) => id == k
    case Close(id) => id == k
  }

  /** Operation i bound k to e, and no later operation touched k. */
  predicate BoundBy(ops: seq<Op>, i: nat, k: NotifyId, e: Entry) {
    && i < |ops| && Inserts(ops[i]) && ops[i].newId == k
    && e == Entry(ops[i].descriptor, ops[i].createdAt)
    && forall m :: i < m < |ops| ==> !Touches(ops[m], k)
  }

  lemma {:induction false} IdealHasOrigin(ops: seq<Op>, clock: int, k: NotifyId) returns (i: nat)
    requires k in Run(ops, clock).ideal
    ensures BoundBy(ops, i, k, Run(ops, clock).ideal[k])
  {
    hide Apply, Evicts;
    var n := |ops| - 1;
    var before := ops[..n];
    if Inserts(ops[n]) && ops[n].newId == k {
      i := n;
    } else {
      i := IdealHasOrigin(before, clock, k);
      forall m | i < m < |ops| ensures !Touches(ops[m], k) {
        if m < n { assert before[m] == ops[m]; }
      }
    }
  }

  /** A successful consume returns the descriptor of the operation that last bound that id, not
      touched since, no more than 24 hours before. */
  lemma ConsumeHasOrigin(ops: seq<Op>, clock: int, id: NotifyId, now: int) returns (i: nat)
    requires LegalRun(ops, clock)
    requires ConsumeResult(Run(ops, clock).table, id, now).Some?
    ensures var e := Run(ops, clock).table[id];
            && BoundBy(ops, i, id, e) && now - e.createdAt <= LIFETIME
            && ConsumeResult(Run(ops, clock).table, id, now) == Some(e.descriptor)
  {
    EveryRunRefines(ops, clock);
    i := IdealHasOrigin(ops, clock, id);
  }

  /** Operation n of the run is a consume that yields a descriptor. */
  predicate Succeeds(ops: seq<Op>, clock: int, n: nat) {
    n < |ops| && ops[n].Consume? && ConsumeResult(Run(ops[..n], clock).table, ops[n].id, ops[n].now).Some?
  }

  /** Operation n uses the binding that operation i made. */
  predicate Uses(ops: seq<Op>, clock: int, n: nat, i: nat) {
    && Succeeds(ops, clock, n) && i < n
    && BoundBy(ops[..n], i, ops[n].id, Run(ops[..n], clock).table[ops[n].id])
  }

  lemma {:induction false} LegalPrefix(ops: seq<Op>, clock: int, n: nat)
    requires LegalRun(ops, clock) && n <= |ops|
    ensures LegalRun(ops[..n], clock)
  {
    if n == |ops| {
      assert ops[..n] == ops;
    } else {
      LegalPrefix(ops[..|ops| - 1], clock, n);
      assert ops[..|ops| - 1][..n] == ops[..n];
    }
  }

  /** One shot: every successful consume uses the binding one operation made, no more than 24 hours
      old, and no other consume of the run uses it. */
  lemma EachBindingUsedOnce(ops: seq<Op>, clock: int, n: nat) returns (i: nat)
    requires LegalRun(ops, clock) && Succeeds(ops, clock, n)
    ensures Uses(ops, clock, n, i)
    ensures forall m, j :: Uses(ops, clock, m, j) ==> (m == n <==> j == i)
  {
    LegalPrefix(ops, clock, n);
    i := ConsumeHasOrigin(ops[..n], clock, ops[n].id, ops[n].now);
    forall m, j | Uses(ops, clock, m, j) ensures m == n <==> j == i {
      SameUse(ops, clock, n, i, m, j);
    }
  }

  lemma SameUse(ops: seq<Op>, clock: int, n: nat, i: nat, m: nat, j: nat)
    requires Uses(ops, clock, n, i) && Uses(ops, clock, m, j)
    ensures m == n <==> j == i
  {
    hide Run, Apply, ConsumeResult;
    assert ops[..n][i] == ops[i] && ops[..m][j] == ops[j];
  }

  /** How many consumes of the run yielded a descriptor. */
  function Successes(ops: seq<Op>, clock: int): nat {
    if ops == [] then 0
    else Successes(ops[..|ops| - 1], clock) + if Succeeds(ops, clock, |ops| - 1) then 1 else 0
  }

  /** How many operations of the run made a binding. */
  function Insertions(ops: seq<Op>): nat {
    if ops == [] then 0 else Insertions(ops[..|ops| - 1]) + if Inserts(ops[|ops| - 1]) then 1 else 0
  }

  lemma InsertionGrowth(q: Bindings, k: NotifyId, victim: NotifyId, e: Entry)
    ensures |(q - {victim})[k := e]| <= |q| + 1 && |q[k := e]| <= |q| + 1
  {
    DropKey(q, victim);
    PutKey(q - {victim}, k, e);
    PutKey(q, k, e);
  }

  lemma ReplaceGrowth(op: Op, t: Bindings)
    requires op.Replace?
    ensures |Apply(op, t)| <= |t| + if Inserts(op) then 1 else 0
  {
    BeforeInsertShrinks(op, t);
    var q := BeforeInsert(op, t);
    hide BeforeInsert, Evicts;
    InsertionGrowth(q, op.newId, op.victim, Entry(op.descriptor, op.createdAt));
  }

  lemma ConsumeGrowth(op: Op, t: Bindings)
    requires op.Consume?
    ensures |Apply(op, t)| <= |t| - if ConsumeResult(t, op.id, op.now).Some? then 1 else 0
  {
    PrunedSize(t, op.now - LIFETIME);
    hide Since;
    DropKey(Pruned(t, op.now), op.id);
  }

  lemma PlainGrowth(op: Op, t: Bindings)
    requires op.Prune? || op.Close?
    ensures |Apply(op, t)| <= |t|
  {
    if op.Close? { DropKey(t, op.id); } else { PrunedSize(t, op.now - LIFETIME); }
    hide Since;
  }

  lemma TableGrowth(op: Op, t: Bindings)
    ensures |Apply(op, t)| <= |t| + if Inserts(op) then 1 else 0
    ensures op.Consume? && ConsumeResult(t, op.id, op.now).Some? ==> |Apply(op, t)| <= |t| - 1
  {
    hide Apply, ConsumeResult;
    if op.Replace? {
      ReplaceGrowth(op, t);
    } else if op.Consume? {
      ConsumeGrowth(op, t);
    } else {
      PlainGrowth(op, t);
    }
  }

  /** What Replace leaves: the new binding when it is usable, not the replaced one, and of the others
      only those of the last 24 hours. */
  lemma ReplaceMeans(op: Op, t: Bindings, k: NotifyId)
    requires op.Replace?
    ensures var after, usable := Apply(op, t), op.newId.id != 0 && op.descriptor.lineage != [];
            && (usable ==> op.newId in after && after[op.newId] == Entry(op.descriptor, op.createdAt))
            && (op.oldId.id != 0 && !(usable && op.oldId == op.newId) ==> op.oldId !in after)
            && (k in after && !(usable && k == op.newId) ==>
                  k in t && after[k] == t[k] && op.now - t[k].createdAt <= 24 * 3600 * 1_000_000_000)
  {
    BeforeInsertMeans(op, t);
    hide BeforeInsert, Evicts;
  }

  /** Replace drops no other binding of the last 24 hours while the table has room. */
  lemma ReplaceKeeps(op: Op, t: Bindings, k: NotifyId)
    requires op.Replace? && k in t && op.now - t[k].createdAt <= 24 * 3600 * 1_000_000_000
    ensures k in Apply(op, t) || (op.oldId.id != 0 && k == op.oldId) || (|t| >= 256 && k == op.victim)
  {
    BeforeInsertShrinks(op, t);
    BeforeInsertMeans(op, t);
    hide BeforeInsert;
  }

  lemma BeforeInsertMeans(op: Op, t: Bindings)
    requires op.Replace?
    ensures forall k :: k in BeforeInsert(op, t) <==>
              && k in t && op.now - t[k].createdAt <= 24 * 3600 * 1_000_000_000
              && !(op.oldId.id != 0 && k == op.oldId)
    ensures forall k :: k in BeforeInsert(op, t) ==> BeforeInsert(op, t)[k] == t[k]
  {
    forall k ensures k in Pruned(t, op.now) <==> k in t && op.now - t[k].createdAt <= 24 * 3600 * 1_000_000_000 {}
  }

  /** In any run, legal or not, bindings used and bindings left are no more than bindings made. */
  lemma {:induction false} UsesAndEntriesWereBound(ops: seq<Op>, clock: int)
    ensures Successes(ops, clock) + |Run(ops, clock).table| <= Insertions(ops)
  {
    hide Apply, ConsumeResult, Inserts;
    if ops != [] {
      var n := |ops| - 1;
      UsesAndEntriesWereBound(ops[..n], clock);
      TableGrowth(ops[n], Run(ops[..n], clock).table);
    }
  }
}
