/**
 What the per-function statistics of a trace say about its records.
 */
module TraceStatistics {
  import opened DurationStats
  import opened TraceAggregate

  /** The durations recorded under `key`, in order. */
  function DurationsOf(records: seq<Record>, key: Key): seq<int> {
    if records == [] then [] else
      var front, last := DurationsOf(records[..|records| - 1], key), records[|records| - 1];
      if (last.cat, last.name) == key then front + [last.dur] else front
  }

  /** There is an entry for exactly the keys that occur, and it summarises exactly their durations. */
  lemma {:induction false} StatsByKey(records: seq<Record>, key: Key)
    ensures key in StatsOf(records) <==> DurationsOf(records, key) != []
    ensures key in StatsOf(records) ==> StatsOf(records)[key] == Fold(DurationsOf(records, key))
  {
    if records != [] {
      var front, last := records[..|records| - 1], records[|records| - 1];
      StatsByKey(front, key);
      var ds := DurationsOf(front, key);
      assert (ds + [last.dur])[..|ds|] == ds;
    }
  }

  /**
   An entry has a standard deviation exactly when it stands for one record or the spread of its
   durations makes up for what wrapping took from their squares...
   */
  lemma EntryHasDeviationIff(records: seq<Record>, key: Key)
    ensures var ds := DurationsOf(records, key);
            key in StatsOf(records) ==>
              (HasDeviation(StatsOf(records)[key]) <==>
               |ds| < 2 || |ds| * SumSquares(ds) - Sum(ds) * Sum(ds) >= |ds| * Shortfall(ds))
  {
    StatsByKey(records, key);
    HasDeviationIff(DurationsOf(records, key));
  }

  /** ... which is always so while durations stay within 46340 in magnitude. */
  lemma EveryEntryHasDeviation(records: seq<Record>, key: Key)
    requires forall i :: 0 <= i < |records| ==> -SAFE <= records[i].dur <= SAFE
    ensures key in StatsOf(records) ==> HasDeviation(StatsOf(records)[key])
  {
    StatsByKey(records, key);
    DurationsSafe(records, key);
    if key in StatsOf(records) {
      RadicandNonNegative(DurationsOf(records, key));
    }
  }

  lemma {:induction false} DurationsSafe(records: seq<Record>, key: Key)
    requires forall i :: 0 <= i < |records| ==> -SAFE <= records[i].dur <= SAFE
    ensures Safe(DurationsOf(records, key)) && AllFit(DurationsOf(records, key))
  {
    if records != [] {
      DurationsSafe(records[..|records| - 1], key);
    }
  }

  // ----- totals over all keys -----

  function Plus(s: Summary, rest: (nat, int)): (nat, int) {
    (s.count + rest.0, s.sum + rest.1)
  }

  /** The counts and the sums of all entries, added up. */
  ghost function Totals(stats: map<Key, Summary>): (nat, int) {
    if stats == map[] then (0, 0) else
      var key :| key in stats;
      Plus(stats[key], Totals(stats - {key}))
  }

  /** The entries may be added up in any order. */
  lemma {:induction false} TotalsWithout(stats: map<Key, Summary>, key: Key)
    requires key in stats
    ensures Totals(stats) == Plus(stats[key], Totals(stats - {key}))
    decreases |stats|
  {
    var k :| k in stats && Totals(stats) == Plus(stats[k], Totals(stats - {k}));
    if k != key {
      var a, b := stats - {k}, stats - {key};
      assert a - {key} == b - {k} && a[key] == stats[key] && b[k] == stats[k];
      TotalsWithout(a, key);
      TotalsWithout(b, k);
      assert Totals(stats) == Plus(stats[k], Plus(stats[key], Totals(a - {key})));
      assert Totals(b) == Plus(stats[k], Totals(a - {key}));
    }
  }

  function SumOfRecords(records: seq<Record>): int {
    if records == [] then 0 else SumOfRecords(records[..|records| - 1]) + records[|records| - 1].dur
  }

  /** Over all keys, the counts add up to the number of records and the sums to their total duration. */
  lemma {:induction false} TotalsAreConserved(records: seq<Record>)
    ensures Totals(StatsOf(records)) == (|records|, SumOfRecords(records))
  {
    if records != [] {
      var front, last := records[..|records| - 1], records[|records| - 1];
      var before, after, key := StatsOf(front), StatsOf(records), (last.cat, last.name);
      TotalsAreConserved(front);
      TotalsWithout(after, key);
      assert after - {key} == before - {key};
      if key in before {
        TotalsWithout(before, key);
      } else {
        assert before - {key} == before;
      }
    }
  }
}