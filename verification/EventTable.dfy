/** The table observation_events as a map from primary key to row, and what it means to evict
    the lowest rows from it: lowest severity rank first, then oldest. */
module EventTable {
  import opened Common
  import opened Observation

  /** A primary key. SQLite hands out 1, 2, 3, ... up to the largest int64. */
  datatype RowId = RowId(key: int)

  type Table = map<RowId, Row>

  function Rank(r: Row): nat { SqlRank(r.severity) }

  /** The order of the eviction statement: severity rank, then timestamp. */
  predicate KeyLe(a: Row, b: Row) {
    Rank(a) < Rank(b) || (Rank(a) == Rank(b) && a.timestampUs <= b.timestampUs)
  }

  /** s holds some of the rows of t, none of them altered. */
  predicate SubTable(s: Table, t: Table) {
    s.Keys <= t.Keys && forall id :: id in s ==> s[id] == t[id]
  }

  /** s is t after losing rows, and every row lost has a key no greater than every row kept. */
  ghost predicate Evicted(t: Table, s: Table) {
    && SubTable(s, t)
    && forall lost, kept :: lost in t && lost !in s && kept in s ==> KeyLe(t[lost], s[kept])
  }

  lemma EvictedNothing(t: Table)
    ensures Evicted(t, t)
  {}

  lemma EvictedIsSub(t: Table, s: Table, all: Table)
    requires Evicted(t, s) && SubTable(t, all)
    ensures SubTable(s, all)
  {}

  lemma EvictedTransitive(t: Table, u: Table, s: Table)
    requires Evicted(t, u) && Evicted(u, s)
    ensures Evicted(t, s)
  {
    forall lost, kept | lost in t && lost !in s && kept in s
      ensures KeyLe(t[lost], s[kept])
    {
      if lost in u { assert KeyLe(u[lost], s[kept]); } else { assert KeyLe(t[lost], u[kept]); }
    }
  }

  predicate KeyAtLeast(r: Row, rank: nat, ts: int) {
    Rank(r) > rank || (Rank(r) == rank && r.timestampUs >= ts)
  }

  /** The rows whose key is at least (rank, ts). */
  function AtLeast(t: Table, rank: nat, ts: int): set<RowId> {
    set id | id in t && KeyAtLeast(t[id], rank, ts)
  }

  /** The rows whose key is exactly (rank, ts). */
  function AtKey(t: Table, rank: nat, ts: int): set<RowId> {
    set id | id in t && Rank(t[id]) == rank && t[id].timestampUs == ts
  }

  /** The survivors are the top of the table: above every key there are as many of them as
      their number and the table allow. */
  lemma SurvivorsAreTheTop(t: Table, s: Table, rank: nat, ts: int)
    requires Evicted(t, s)
    ensures |AtLeast(s, rank, ts)| == Min(|s|, |AtLeast(t, rank, ts)|)
  {
    var high, kept := AtLeast(t, rank, ts), AtLeast(s, rank, ts);
    assert kept <= high && kept <= s.Keys;
    SubsetSize(kept, high);
    SubsetSize(kept, s.Keys);
    if low :| low in s && low !in kept {
      forall id | id in high
        ensures id in kept
      {
        assert !KeyLe(t[id], s[low]);
      }
      assert kept == high;
    } else {
      assert kept == s.Keys;
    }
  }

  lemma KeySplit(t: Table, rank: nat, ts: int)
    ensures |AtKey(t, rank, ts)| == |AtLeast(t, rank, ts)| - |AtLeast(t, rank, ts + 1)|
  {
    assert AtLeast(t, rank, ts) == AtKey(t, rank, ts) + AtLeast(t, rank, ts + 1);
  }

  /** However SQL breaks ties, two evictions that keep equally many rows keep the same number
      of rows of every key. */
  lemma SurvivingKeysAreUnique(t: Table, s1: Table, s2: Table, rank: nat, ts: int)
    requires Evicted(t, s1) && Evicted(t, s2) && |s1| == |s2|
    ensures |AtKey(s1, rank, ts)| == |AtKey(s2, rank, ts)|
  {
    SurvivorsAreTheTop(t, s1, rank, ts);
    SurvivorsAreTheTop(t, s2, rank, ts);
    SurvivorsAreTheTop(t, s1, rank, ts + 1);
    SurvivorsAreTheTop(t, s2, rank, ts + 1);
    KeySplit(t, rank, ts);
    KeySplit(s1, rank, ts);
    KeySplit(s2, rank, ts);
  }

  /** While a row of some severity survives, every row of a higher severity survives too. */
  lemma HigherSeveritySurvives(t: Table, s: Table, mild: RowId, severe: RowId)
    requires Evicted(t, s)
    requires mild in s && severe in t && Rank(t[mild]) < Rank(t[severe])
    ensures severe in s && s[severe] == t[severe]
  {
    assert !KeyLe(t[severe], s[mild]);
  }

  /** The order of eviction in the words of the columns: debug goes first, then info and unknown
      severities, then warning, error and critical; of the same severity the older goes first. */
  lemma EvictionOrder(t: Table, s: Table, lost: RowId, kept: RowId)
    requires Evicted(t, s) && lost in t && lost !in s && kept in s
    ensures t[kept].severity == "debug" ==> t[lost].severity == "debug"
    ensures t[kept].severity !in ["warning", "error", "critical"] ==>
              t[lost].severity !in ["warning", "error", "critical"]
    ensures t[kept].severity == "warning" ==> t[lost].severity !in ["error", "critical"]
    ensures t[kept].severity == "error" ==> t[lost].severity != "critical"
    ensures t[lost].severity == t[kept].severity ==> t[lost].timestampUs <= t[kept].timestampUs
  {
    assert KeyLe(t[lost], s[kept]);
  }

  // ---- the two statements that pick rows by order ------------------------------------------

  method FindLowest(t: Table) returns (low: RowId)
    requires |t| > 0
    ensures low in t && forall id :: id in t ==> KeyLe(t[low], t[id])
  {
    assert |t.Keys| > 0;
    low :| low in t;
    var rest := t.Keys - {low};
    while rest != {}
      invariant rest <= t.Keys && low in t
      invariant forall id :: id in t && id !in rest ==> KeyLe(t[low], t[id])
      decreases |rest|
    {
      var id :| id in rest;
      if !KeyLe(t[low], t[id]) {
        low := id;
      }
      rest := rest - {id};
    }
  }

  /** DELETE ... WHERE id IN (SELECT id ... ORDER BY key LIMIT k). SQL leaves open which rows of
      equal key go, so the contract admits every choice. */
  method DeleteLowest(t: Table, k: nat) returns (s: Table)
    requires k <= |t|
    ensures Evicted(t, s) && |s| == |t| - k
  {
    s := t;
    for i := 0 to k
      invariant Evicted(t, s) && |s| == |t| - i
    {
      var low := FindLowest(s);
      DropKey(s, low);
      var next := s - {low};
      assert Evicted(s, next);
      EvictedTransitive(t, s, next);
      s := next;
    }
  }
}
