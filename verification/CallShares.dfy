/**
 Exclusive time with aggregation against exclusive time without.

 An entry's callees are hung under its first call only, so the entry also counts as its own the
 time spent in the callees of the calls folded into it.
 */
module CallShares {
  import opened CallStack
  import opened CallTree
  import opened CallTime

  /** Call `c` is folded into entry `i`. */
  predicate FoldedInto(calls: seq<Call>, cut: int, c: nat, i: nat)
    requires c < |calls|
  {
    EntryFor(calls, cut, true, c) == i
  }

  /** The time in the callees of call `c`, if that is folded into `i`. */
  function CalleeTime(calls: seq<Call>, cut: int, i: nat, c: nat): int
    requires c < |calls|
  {
    if FoldedInto(calls, cut, c, i) then ChildTime(calls, cut, c, |calls|) else 0
  }

  function CalleeTimes(calls: seq<Call>, cut: int, i: nat, m: nat): (times: seq<int>)
    requires m <= |calls|
    ensures |times| == m
  {
    if m == 0 then [] else CalleeTimes(calls, cut, i, m - 1) + [CalleeTime(calls, cut, i, m - 1)]
  }

  /** What those calls' exclusive times are without aggregation, added up. */
  function FoldedExclusive(calls: seq<Call>, cut: int, i: nat, m: nat): int
    requires m <= |calls|
  {
    if m == 0 then 0 else
      FoldedExclusive(calls, cut, i, m - 1)
      + if FoldedInto(calls, cut, m - 1, i) then Exclusive(calls, cut, false, |calls|, m - 1) else 0
  }

  /** The exclusive times, without aggregation, of all calls that entry `i` stands for. */
  function PlainExclusive(calls: seq<Call>, cut: int, i: nat): int
    requires i < |calls|
  {
    Exclusive(calls, cut, false, |calls|, i) + FoldedExclusive(calls, cut, i, |calls|)
  }

  lemma ExclusiveIs(calls: seq<Call>, cut: int, i: nat)
    requires i < |calls|
    ensures Exclusive(calls, cut, false, |calls|, i) == calls[i].dur - ChildTime(calls, cut, i, |calls|)
    ensures Exclusive(calls, cut, true, |calls|, i)
         == TallyOf(calls, cut, true, |calls|, i).dur - ChildTime(calls, cut, i, |calls|)
  {
    PlainKeepsFigures(calls, cut, |calls|, i);
    KidTimeIsChildTime(calls, cut, false, |calls|, i);
    KidTimeIsChildTime(calls, cut, true, |calls|, i);
  }

  lemma SumSnoc(ds: seq<int>, d: int)
    ensures Sum(ds + [d]) == Sum(ds) + d
  {
    assert (ds + [d])[..|ds|] == ds;
  }

  /** An entry's time is that of its own call and of the calls folded into it. */
  ghost predicate TallyShared(calls: seq<Call>, cut: int, i: nat, m: nat)
    requires m <= |calls| && i < |calls|
  {
    TallyOf(calls, cut, true, m, i).dur
    == calls[i].dur + FoldedExclusive(calls, cut, i, m) + Sum(CalleeTimes(calls, cut, i, m))
  }

  lemma TallySharedStep(calls: seq<Call>, cut: int, i: nat, m: nat)
    requires m < |calls| && i < |calls| && TallyShared(calls, cut, i, m)
    ensures TallyShared(calls, cut, i, m + 1)
  {
    SumSnoc(CalleeTimes(calls, cut, i, m), CalleeTime(calls, cut, i, m));
    ExclusiveIs(calls, cut, m);
  }

  lemma {:induction false} TallyIsShared(calls: seq<Call>, cut: int, i: nat, m: nat)
    requires m <= |calls| && i < |calls|
    ensures TallyShared(calls, cut, i, m)
  {
    if m > 0 {
      TallyIsShared(calls, cut, i, m - 1);
      TallySharedStep(calls, cut, i, m - 1);
    }
  }

  /**
   For any trace: an entry's exclusive time is that of all the calls it stands for, plus the time
   in the callees of those that were folded.
   */
  lemma AggregateExclusive(calls: seq<Call>, cut: int, i: nat)
    requires i < |calls|
    ensures Exclusive(calls, cut, true, |calls|, i)
         == PlainExclusive(calls, cut, i) + Sum(CalleeTimes(calls, cut, i, |calls|))
  {
    TallyIsShared(calls, cut, i, |calls|);
    ExclusiveIs(calls, cut, i);
  }

  lemma {:induction false} ChildTimeNonNegative(calls: seq<Call>, cut: int, p: int, n: nat)
    requires n <= |calls| && NonNegative(calls)
    ensures ChildTime(calls, cut, p, n) >= 0
  {
    if n > 0 {
      ChildTimeNonNegative(calls, cut, p, n - 1);
    }
  }

  lemma {:induction false} SumIsZeroIff(ds: seq<int>)
    requires forall k :: 0 <= k < |ds| ==> ds[k] >= 0
    ensures Sum(ds) >= 0 && (Sum(ds) == 0 <==> forall k :: 0 <= k < |ds| ==> ds[k] == 0)
  {
    if ds != [] {
      SumIsZeroIff(ds[..|ds| - 1]);
    }
  }

  lemma {:induction false} CalleeTimesAt(calls: seq<Call>, cut: int, i: nat, m: nat, c: nat)
    requires c < m <= |calls|
    ensures CalleeTimes(calls, cut, i, m)[c] == CalleeTime(calls, cut, i, c)
  {
    if c < m - 1 {
      CalleeTimesAt(calls, cut, i, m - 1, c);
    }
  }

  /** Call `c` is not folded into `i`, or its callees take no time. */
  ghost predicate NoHiddenTime(calls: seq<Call>, cut: int, i: nat, c: nat)
    requires c < |calls|
  {
    FoldedInto(calls, cut, c, i) ==> ChildTime(calls, cut, c, |calls|) == 0
  }

  lemma TimeIsZeroIff(calls: seq<Call>, cut: int, i: nat, c: nat)
    requires c < |calls| && NonNegative(calls)
    ensures CalleeTimes(calls, cut, i, |calls|)[c] >= 0
    ensures CalleeTimes(calls, cut, i, |calls|)[c] == 0 <==> NoHiddenTime(calls, cut, i, c)
  {
    CalleeTimesAt(calls, cut, i, |calls|, c);
    ChildTimeNonNegative(calls, cut, c, |calls|);
  }

  /**
   Where no duration is negative, aggregation leaves exclusive time as it is exactly for the
   entries into which no call with time in its callees was folded.
   */
  lemma AggregateAgreesIff(calls: seq<Call>, cut: int, i: nat)
    requires i < |calls| && NonNegative(calls)
    ensures Exclusive(calls, cut, true, |calls|, i) == PlainExclusive(calls, cut, i) <==>
            forall c {:trigger NoHiddenTime(calls, cut, i, c)} :: 0 <= c < |calls| ==> NoHiddenTime(calls, cut, i, c)
  {
    var times := CalleeTimes(calls, cut, i, |calls|);
    AggregateExclusive(calls, cut, i);
    forall c {:trigger NoHiddenTime(calls, cut, i, c)} {:trigger times[c]} | 0 <= c < |calls|
      ensures times[c] >= 0 && (times[c] == 0 <==> NoHiddenTime(calls, cut, i, c))
    {
      TimeIsZeroIff(calls, cut, i, c);
    }
    SumIsZeroIff(times);
  }
}
