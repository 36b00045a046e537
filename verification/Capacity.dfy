/** How many rows the capacity prune keeps: its limits, its targets and its passes, for any
    sequence of size readings the database may give. */
module Capacity {
  import opened Common

  /** Zero disables a limit. */
  datatype Limits = Limits(maxBytes: SizeT, maxEvents: SizeT)

  type Int32 = x: int | -0x8000_0000 <= x <= 0x7FFF_FFFF

  /** What the database answers during one prune. `bytesAt(0)` is the size read before the loop,
      `bytesAt(p)` the one read in pass p; `fails(0)` says that the statement cannot be prepared,
      `fails(p)` that its p-th execution fails. sqlite3_changes is a C int: its answer is
      undefined (`wideChanges`) when more rows changed than an int can count. */
  datatype Environment = Environment(bytesAt: nat -> SizeT, fails: nat -> bool, wideChanges: nat -> Int32)

  /** max * 9 / 10 in size_t arithmetic. */
  function Ninetieth(limit: SizeT): SizeT { limit * 9 % TWO_64 / 10 }

  predicate Exceeded(count: nat, bytes: SizeT, limits: Limits) {
    (limits.maxEvents > 0 && count > limits.maxEvents) || (limits.maxBytes > 0 && bytes > limits.maxBytes)
  }

  predicate RowsAboveTarget(count: nat, limits: Limits) {
    limits.maxEvents > 0 && count > Ninetieth(limits.maxEvents)
  }

  predicate BytesAboveTarget(bytes: SizeT, limits: Limits) {
    limits.maxBytes > 0 && bytes > Ninetieth(limits.maxBytes)
  }

  /** The number of rows one pass asks to delete. */
  function PassSize(count: nat, bytes: SizeT, limits: Limits): (k: nat)
    ensures k <= count
    ensures k == 0 <==> !RowsAboveTarget(count, limits) && (count == 0 || !BytesAboveTarget(bytes, limits))
  {
    if RowsAboveTarget(count, limits) then count - Ninetieth(limits.maxEvents)
    else if BytesAboveTarget(bytes, limits) then Min(100, count)
    else 0
  }

  function ChangesReading(k: nat, env: Environment): Int32 {
    if k <= INT32_MAX then k else env.wideChanges(k)
  }

  /** static_cast<size_t>(int) */
  function AsSize(x: Int32): SizeT { if x < 0 then x + TWO_64 else x }

  /** total += static_cast<size_t>(changes) */
  function AddChanges(total: SizeT, changes: Int32): SizeT { (total + AsSize(changes)) % TWO_64 }

  /** Why a prune stopped. */
  datatype Stop = WithinLimits | StatementFailed | NoRows | OnTarget | NothingChanged

  /** Rows left, value returned, the last pass begun (0 when none was) and why it was the last. */
  datatype Outcome = Outcome(count: nat, result: Result<SizeT>, lastPass: nat, stop: Stop)

  const FAILED := "Failed to execute capacity prune deletion"

  /** The passes from number `pass` on. */
  function Passes(count: nat, total: SizeT, pass: nat, limits: Limits, env: Environment): Outcome
    decreases count
  {
    var k := PassSize(count, env.bytesAt(pass), limits);
    if count == 0 then Outcome(0, Ok(total), pass, NoRows)
    else if k == 0 then Outcome(count, Ok(total), pass, OnTarget)
    else if env.fails(pass) then Outcome(count, Err(FAILED), pass, StatementFailed)
    else
      var changes := ChangesReading(k, env);
      if changes == 0 then Outcome(count - k, Ok(total), pass, NothingChanged)
      else Passes(count - k, AddChanges(total, changes), pass + 1, limits, env)
  }

  /** One pass of the loop, for proofs that keep the recursion folded. */
  lemma UnfoldPasses(count: nat, total: SizeT, pass: nat, limits: Limits, env: Environment)
    ensures var k := PassSize(count, env.bytesAt(pass), limits);
            Passes(count, total, pass, limits, env) ==
            if count == 0 then Outcome(0, Ok(total), pass, NoRows)
            else if k == 0 then Outcome(count, Ok(total), pass, OnTarget)
            else if env.fails(pass) then Outcome(count, Err(FAILED), pass, StatementFailed)
            else if ChangesReading(k, env) == 0 then Outcome(count - k, Ok(total), pass, NothingChanged)
            else Passes(count - k, AddChanges(total, ChangesReading(k, env)), pass + 1, limits, env)
  {}

  function PruneOutcome(count: nat, limits: Limits, env: Environment): Outcome {
    if !Exceeded(count, env.bytesAt(0), limits) then Outcome(count, Ok(0), 0, WithinLimits)
    else if env.fails(0) then Outcome(count, Err(FAILED), 0, StatementFailed)
    else Passes(count, 0, 1, limits, env)
  }

  /** The target is nine tenths of the limit, rounded down, unless the product overflows size_t. */
  lemma NinetiethIsExact(limit: SizeT)
    ensures Ninetieth(limit) == limit * 9 / 10 <==> limit * 9 < TWO_64
    ensures Ninetieth(limit) <= limit
  {
    if limit * 9 >= TWO_64 {
      assert limit * 9 % TWO_64 <= limit * 9 - TWO_64;
    }
  }

  lemma AddSmallChanges(total: SizeT, k: Int32)
    requires 0 <= k && total + k < TWO_64
    ensures AddChanges(total, k) == total + k
  {}

  /** Every enabled measure is at its target: the rows, and the size as the given pass read it. */
  predicate OnTargets(count: nat, pass: nat, limits: Limits, env: Environment) {
    !RowsAboveTarget(count, limits) && !BytesAboveTarget(env.bytesAt(pass), limits)
  }

  lemma {:induction false} PassesMeetTargets(count: nat, total: SizeT, pass: nat, limits: Limits, env: Environment)
    ensures var after := Passes(count, total, pass, limits, env);
            && after.count <= count && after.lastPass >= pass
            && (after.result.Err? <==> after.stop.StatementFailed?)
            && (after.result.Ok? && after.count > 0 && !after.stop.NothingChanged? ==>
                  OnTargets(after.count, after.lastPass, limits, env))
    decreases count
  {
    hide Passes, AddChanges, Ninetieth;
    UnfoldPasses(count, total, pass, limits, env);
    var k := PassSize(count, env.bytesAt(pass), limits);
    if count > 0 && k > 0 && !env.fails(pass) && ChangesReading(k, env) != 0 {
      PassesMeetTargets(count - k, AddChanges(total, ChangesReading(k, env)), pass + 1, limits, env);
    }
  }

  lemma {:induction false} PassesCountDeletions(count: nat, total: SizeT, pass: nat, limits: Limits, env: Environment)
    requires count <= INT32_MAX && total + count < TWO_64
    ensures var after := Passes(count, total, pass, limits, env);
            after.result.Ok? ==> after.result.value == total + count - after.count
    decreases count
  {
    hide Passes, AddChanges, Ninetieth;
    UnfoldPasses(count, total, pass, limits, env);
    var k := PassSize(count, env.bytesAt(pass), limits);
    if count > 0 && k > 0 && !env.fails(pass) {
      AddSmallChanges(total, k);
      PassesCountDeletions(count - k, total + k, pass + 1, limits, env);
    }
  }

  /** The first pass deletes more rows than an int counts, and sqlite3_changes then answers 0. */
  predicate ChangesLost(count: nat, limits: Limits, env: Environment) {
    && RowsAboveTarget(count, limits)
    && var k: nat := count - Ninetieth(limits.maxEvents);
       k > INT32_MAX && env.wideChanges(k) == 0
  }

  lemma {:induction false} BytePassesChangeRows(count: nat, total: SizeT, pass: nat, limits: Limits, env: Environment)
    requires !RowsAboveTarget(count, limits)
    ensures !Passes(count, total, pass, limits, env).stop.NothingChanged?
    decreases count
  {
    var k := PassSize(count, env.bytesAt(pass), limits);
    if count > 0 && k > 0 && !env.fails(pass) {
      BytePassesChangeRows(count - k, AddChanges(total, ChangesReading(k, env)), pass + 1, limits, env);
    }
  }

  /** The exit on an unchanged table is taken exactly when the first pass deletes more rows than an
      int counts and the count comes back as 0; never below 2^31 rows. */
  lemma NothingChangedExactly(count: nat, limits: Limits, env: Environment)
    ensures PruneOutcome(count, limits, env).stop.NothingChanged? <==>
            && Exceeded(count, env.bytesAt(0), limits) && !env.fails(0) && !env.fails(1)
            && ChangesLost(count, limits, env)
    ensures count <= INT32_MAX ==> !PruneOutcome(count, limits, env).stop.NothingChanged?
  {
    if Exceeded(count, env.bytesAt(0), limits) && !env.fails(0) {
      if RowsAboveTarget(count, limits) {
        var k := PassSize(count, env.bytesAt(1), limits);
        UnfoldPasses(count, 0, 1, limits, env);
        BytePassesChangeRows(count - k, AddChanges(0, ChangesReading(k, env)), 2, limits, env);
      } else {
        BytePassesChangeRows(count, 0, 1, limits, env);
      }
    }
  }

  /** Once a limit was exceeded, a successful prune empties the table or ends in a pass that finds
      the rows and the size it reads at every enabled target, and returns the number of rows lost. */
  lemma PruneMeetsTargets(count: nat, limits: Limits, env: Environment)
    ensures var after := PruneOutcome(count, limits, env);
            && after.count <= count
            && (after.result.Ok? && Exceeded(count, env.bytesAt(0), limits) && !ChangesLost(count, limits, env) ==>
                  after.count == 0 || (after.lastPass >= 1 && OnTargets(after.count, after.lastPass, limits, env)))
            && (after.result.Ok? && count <= INT32_MAX ==> after.result.value == count - after.count)
            && (!Exceeded(count, env.bytesAt(0), limits) ==> after == Outcome(count, Ok(0), 0, WithinLimits))
  {
    hide Passes;
    PassesMeetTargets(count, 0, 1, limits, env);
    NothingChangedExactly(count, limits, env);
    if count <= INT32_MAX { PassesCountDeletions(count, 0, 1, limits, env); }
  }

  /** The same without names: within its limits a prune does nothing; above one of them it begins,
      and ends with the table empty or the rows, and the size its last pass reads, at nine tenths. */
  lemma PruneInPlainTerms(count: nat, limits: Limits, env: Environment)
    ensures var after := PruneOutcome(count, limits, env);
            if (limits.maxEvents == 0 || count <= limits.maxEvents)
               && (limits.maxBytes == 0 || env.bytesAt(0) <= limits.maxBytes)
            then after.count == count && after.result == Ok(0)
            else if env.fails(0) then after.count == count && after.result.Err?
            else
              && after.lastPass >= 1 && (after.result.Err? ==> env.fails(after.lastPass))
              && (after.result.Ok? && after.count > 0 && count <= 0x7FFF_FFFF ==>
                    && (limits.maxEvents > 0 ==> after.count <= limits.maxEvents * 9 % 0x1_0000_0000_0000_0000 / 10)
                    && (limits.maxBytes > 0 ==>
                          env.bytesAt(after.lastPass) <= limits.maxBytes * 9 % 0x1_0000_0000_0000_0000 / 10))
  {
    PruneMeetsTargets(count, limits, env);
    PassesMeetTargets(count, 0, 1, limits, env);
    PassesFailExactly(count, 0, 1, limits, env);
    hide Passes;
  }

  lemma {:induction false} PassesFailExactly(count: nat, total: SizeT, pass: nat, limits: Limits, env: Environment)
    ensures var after := Passes(count, total, pass, limits, env); after.result.Err? ==> env.fails(after.lastPass)
    decreases count
  {
    hide Passes, AddChanges, Ninetieth;
    UnfoldPasses(count, total, pass, limits, env);
    var k := PassSize(count, env.bytesAt(pass), limits);
    if count > 0 && k > 0 && !env.fails(pass) && ChangesReading(k, env) != 0 {
      PassesFailExactly(count - k, AddChanges(total, ChangesReading(k, env)), pass + 1, limits, env);
    }
  }

  lemma {:induction false} PassesNeverAddRows(count: nat, total: SizeT, pass: nat, limits: Limits, env: Environment)
    ensures var after := Passes(count, total, pass, limits, env);
            && after.count <= count
            && (after.result.Ok? ==> !RowsAboveTarget(after.count, limits))
    decreases count
  {
    var k := PassSize(count, env.bytesAt(pass), limits);
    if count > 0 && k > 0 && !env.fails(pass) && ChangesReading(k, env) != 0 {
      PassesNeverAddRows(count - k, AddChanges(total, ChangesReading(k, env)), pass + 1, limits, env);
    }
  }

  /** A successful prune leaves at most max_events rows, however large the table was. */
  lemma PruneBoundsRows(count: nat, limits: Limits, env: Environment)
    ensures PruneOutcome(count, limits, env).count <= count
    ensures PruneOutcome(count, limits, env).result.Ok? && limits.maxEvents > 0 ==>
              PruneOutcome(count, limits, env).count <= limits.maxEvents
  {
    PassesNeverAddRows(count, 0, 1, limits, env);
    NinetiethIsExact(limits.maxEvents);
  }

  /** With only the row limit active a deleting prune leaves exactly the target. */
  lemma RowLimitLeavesTarget(count: nat, limits: Limits, env: Environment)
    requires limits.maxBytes == 0 && count > limits.maxEvents > 0
    requires PruneOutcome(count, limits, env).result.Ok?
    ensures PruneOutcome(count, limits, env).count == Ninetieth(limits.maxEvents)
  {
    NinetiethIsExact(limits.maxEvents);
    var target: nat := Ninetieth(limits.maxEvents);
    var k := PassSize(count, env.bytesAt(1), limits);
    assert count - k == target;
    var total: SizeT := AddChanges(0, ChangesReading(k, env));
    assert Passes(target, total, 2, limits, env).count == target;
  }

  /** Rows left when `passes` full passes of one hundred rows run on a table of `count` rows. */
  function AfterHundreds(count: nat, passes: nat): nat {
    if count > 100 * passes then count - 100 * passes else 0
  }

  /** The pass from which the size alone decides, and the rows it finds: a first pass brings the
      rows to their target when they are above it. */
  function BytePass(count: nat, limits: Limits): nat { if RowsAboveTarget(count, limits) then 2 else 1 }

  function BytePassRows(count: nat, limits: Limits): nat {
    if RowsAboveTarget(count, limits) then Ninetieth(limits.maxEvents) else count
  }

  /** After the row pass, if there is one, the prune goes on as one limited by the size alone. */
  lemma RowPassThenBytePasses(count: nat, limits: Limits, env: Environment) returns (total: SizeT)
    requires Exceeded(count, env.bytesAt(0), limits) && !ChangesLost(count, limits, env)
    requires PruneOutcome(count, limits, env).result.Ok?
    ensures !RowsAboveTarget(BytePassRows(count, limits), limits)
    ensures PruneOutcome(count, limits, env) ==
            Passes(BytePassRows(count, limits), total, BytePass(count, limits), limits, env)
  {
    hide AddChanges;
    total := 0;
    if RowsAboveTarget(count, limits) {
      UnfoldPasses(count, 0, 1, limits, env);
      var k := PassSize(count, env.bytesAt(1), limits);
      assert count - k == BytePassRows(count, limits);
      total := AddChanges(0, ChangesReading(k, env));
    }
    hide Passes;
  }

  /** When the rows are within their target, the loop deletes a hundred rows per pass until the
      first reading within the byte target, and not one pass more. */
  lemma {:induction false} BytePassesStopAtFirstFit(count: nat, total: SizeT, pass: nat, fit: nat,
                                                    limits: Limits, env: Environment)
    requires pass <= fit && !RowsAboveTarget(count, limits)
    requires forall p :: pass <= p < fit ==> BytesAboveTarget(env.bytesAt(p), limits)
    requires !BytesAboveTarget(env.bytesAt(fit), limits)
    requires Passes(count, total, pass, limits, env).result.Ok?
    ensures Passes(count, total, pass, limits, env).count == AfterHundreds(count, fit - pass)
    ensures count > 100 * (fit - pass) ==> Passes(count, total, pass, limits, env).lastPass == fit
    decreases count
  {
    var k := PassSize(count, env.bytesAt(pass), limits);
    if count > 0 && pass < fit {
      assert k == Min(100, count);
      BytePassesStopAtFirstFit(count - k, AddChanges(total, ChangesReading(k, env)), pass + 1, fit, limits, env);
    }
  }

  /** With whatever limits are on, the rows left are fixed by the first pass, once the rows are at
      their target, whose reading is within the byte target; that pass is the last. */
  lemma ByteLimitLeaves(count: nat, limits: Limits, env: Environment, fit: nat)
    requires Exceeded(count, env.bytesAt(0), limits) && !ChangesLost(count, limits, env)
    requires PruneOutcome(count, limits, env).result.Ok?
    requires fit >= BytePass(count, limits) && !BytesAboveTarget(env.bytesAt(fit), limits)
    requires forall p :: BytePass(count, limits) <= p < fit ==> BytesAboveTarget(env.bytesAt(p), limits)
    ensures var after := PruneOutcome(count, limits, env);
            && after.count == AfterHundreds(BytePassRows(count, limits), fit - BytePass(count, limits))
            && (after.count > 0 ==> after.lastPass == fit)
  {
    hide Passes;
    var total := RowPassThenBytePasses(count, limits, env);
    BytePassesStopAtFirstFit(BytePassRows(count, limits), total, BytePass(count, limits), fit, limits, env);
  }

  lemma {:induction false} PassesEmptyExactly(count: nat, total: SizeT, pass: nat, limits: Limits, env: Environment)
    requires !RowsAboveTarget(count, limits) && Passes(count, total, pass, limits, env).result.Ok?
    ensures Passes(count, total, pass, limits, env).count == 0 <==>
            forall p :: p >= pass && 100 * (p - pass) < count ==> BytesAboveTarget(env.bytesAt(p), limits)
    decreases count
  {
    UnfoldPasses(count, total, pass, limits, env);
    var k := PassSize(count, env.bytesAt(pass), limits);
    if count > 0 && k > 0 {
      assert k == Min(100, count);
      PassesEmptyExactly(count - k, AddChanges(total, ChangesReading(k, env)), pass + 1, limits, env);
    }
  }

  /** The reading of every pass that emptying the table takes is above the byte target. */
  ghost predicate SizeStaysHigh(count: nat, limits: Limits, env: Environment) {
    forall p :: p >= BytePass(count, limits) && 100 * (p - BytePass(count, limits)) < BytePassRows(count, limits) ==>
      BytesAboveTarget(env.bytesAt(p), limits)
  }

  /** The header promises a cut to nine tenths. A successful prune empties the table exactly when
      every reading that takes stays above the byte target; DELETE alone need not shrink page_count. */
  lemma ByteLimitEmptiesExactly(count: nat, limits: Limits, env: Environment)
    requires Exceeded(count, env.bytesAt(0), limits) && PruneOutcome(count, limits, env).result.Ok?
    ensures PruneOutcome(count, limits, env).count == 0 <==>
            if ChangesLost(count, limits, env) then Ninetieth(limits.maxEvents) == 0
            else SizeStaysHigh(count, limits, env)
  {
    if ChangesLost(count, limits, env) {
      UnfoldPasses(count, 0, 1, limits, env);
    } else {
      hide Passes;
      var total := RowPassThenBytePasses(count, limits, env);
      PassesEmptyExactly(BytePassRows(count, limits), total, BytePass(count, limits), limits, env);
    }
  }

  lemma {:induction false} StuckPassesEmpty(count: nat, total: SizeT, pass: nat, limits: Limits, env: Environment)
    requires count <= INT32_MAX
    requires forall p :: p >= pass ==> BytesAboveTarget(env.bytesAt(p), limits)
    requires Passes(count, total, pass, limits, env).result.Ok?
    ensures Passes(count, total, pass, limits, env).count == 0
    decreases count
  {
    var k := PassSize(count, env.bytesAt(pass), limits);
    if count > 0 {
      StuckPassesEmpty(count - k, AddChanges(total, ChangesReading(k, env)), pass + 1, limits, env);
    }
  }

  /** Whatever the row limit: while the readings stay above the byte target, every successful
      prune removes every row. */
  lemma StuckSizeEmptiesTable(count: nat, limits: Limits, env: Environment)
    requires count <= INT32_MAX && Exceeded(count, env.bytesAt(0), limits)
    requires forall p :: p >= 1 ==> BytesAboveTarget(env.bytesAt(p), limits)
    requires PruneOutcome(count, limits, env).result.Ok?
    ensures PruneOutcome(count, limits, env).count == 0
  {
    StuckPassesEmpty(count, 0, 1, limits, env);
  }
}
