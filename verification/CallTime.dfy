/**
 Time in a call tree: the order in which calls must be processed, how callees nest inside
 their callers, and where the time of a forest goes once exclusive times are computed.
 */
module CallTime {
  import opened Forests
  import opened CallStack
  import opened CallTree
  import opened CallForest

  // ----- the sort order -----

  /** The sort comparator: earlier start first; at equal starts the longer call first. */
  function Compare(a: Call, b: Call): int {
    if a.ts < b.ts then -1 else if a.ts > b.ts then 1
    else if a.dur > b.dur then -1 else if a.dur < b.dur then 1
    else 0
  }

  ghost predicate SortedByCompare(calls: seq<Call>) {
    forall i, j :: 0 <= i < j < |calls| ==> Compare(calls[i], calls[j]) <= 0
  }

  /** Two calls never overlap without one containing the other. */
  predicate DisjointOrNested(a: Call, b: Call) {
    || a.End() <= b.ts || b.End() <= a.ts
    || (a.ts <= b.ts && b.End() <= a.End())
    || (b.ts <= a.ts && a.End() <= b.End())
  }

  ghost predicate Laminar(calls: seq<Call>) {
    forall i, j :: 0 <= i < |calls| && 0 <= j < |calls| ==> DisjointOrNested(calls[i], calls[j])
  }

  /** The comparator is a total preorder, as the library sort demands of it. */
  lemma CompareIsPreorder(a: Call, b: Call, c: Call)
    ensures Compare(a, b) == -Compare(b, a)
    ensures Compare(a, b) <= 0 && Compare(b, c) <= 0 ==> Compare(a, c) <= 0
    ensures Compare(a, b) == 0 <==> a.ts == b.ts && a.dur == b.dur
  {
  }

  /** For two calls in sorted order, disjoint-or-nested is exactly the nesting the builder relies on. */
  lemma SortedPairNests(a: Call, b: Call)
    requires a.dur >= 0 && b.dur >= 0 && Compare(a, b) <= 0
    ensures DisjointOrNested(a, b) <==> (b.ts >= a.End() || b.EndsWithin(a))
  {
  }

  /**
   Whatever arrangement of a trace the sort produces, it is well nested just when no
   duration is negative and no two calls of the trace partially overlap.
   */
  lemma SortedIsWellNested(calls: seq<Call>, sorted: seq<Call>)
    requires multiset(calls) == multiset(sorted) && SortedByCompare(sorted)
    ensures WellNested(sorted) <==> NonNegative(calls) && Laminar(calls)
  {
    SameCalls(calls, sorted);
    SameCalls(sorted, calls);
    if NonNegative(calls) && Laminar(calls) {
      LaminarSortsNested(sorted);
    }
    if WellNested(sorted) {
      NestedIsLaminar(sorted);
    }
  }

  lemma LaminarSortsNested(calls: seq<Call>)
    requires SortedByCompare(calls) && NonNegative(calls) && Laminar(calls)
    ensures WellNested(calls)
  {
    forall i, j | 0 <= i < j < |calls|
      ensures calls[i].NoLaterThan(calls[j]) && (calls[j].ts >= calls[i].End() || calls[j].EndsWithin(calls[i]))
    {
      assert Compare(calls[i], calls[j]) <= 0 && DisjointOrNested(calls[i], calls[j]);
      SortedPairNests(calls[i], calls[j]);
    }
  }

  lemma NestedIsLaminar(calls: seq<Call>)
    requires WellNested(calls)
    ensures Laminar(calls)
  {
    forall i, j | 0 <= i < |calls| && 0 <= j < |calls|
      ensures DisjointOrNested(calls[i], calls[j])
    {
      if i < j {
        assert calls[i].NoLaterThan(calls[j]);
        assert calls[j].ts >= calls[i].End() || calls[j].EndsWithin(calls[i]);
      } else if j < i {
        assert calls[j].NoLaterThan(calls[i]);
        assert calls[i].ts >= calls[j].End() || calls[i].EndsWithin(calls[j]);
      }
    }
  }

  /** A property of all pairs of calls does not depend on their arrangement. */
  lemma SameCalls(a: seq<Call>, b: seq<Call>)
    requires multiset(a) == multiset(b)
    ensures NonNegative(a) ==> NonNegative(b)
    ensures Laminar(a) ==> Laminar(b)
  {
    forall i | 0 <= i < |b|
      ensures exists k :: 0 <= k < |a| && a[k] == b[i]
    {
      assert b[i] in multiset(b);
      assert b[i] in a;
    }
  }

  // ----- callees nest inside their caller -----

  /** A call placed under `p` starts and ends inside `p`. */
  lemma {:induction false} ChildInsideParent(calls: seq<Call>, cut: int, j: nat)
    requires j < |calls| && WellNested(calls) && Parent(calls, cut, j) != NO_PARENT
    ensures var p := calls[Parent(calls, cut, j)];
            p.ts <= calls[j].ts < p.End() && calls[j].End() <= p.End()
  {
    var stack := Stack(calls, cut, j);
    var p := Parent(calls, cut, j);
    PopStops(calls, stack, |stack|, calls[j].ts);
    assert calls[p].NoLaterThan(calls[j]);
    assert calls[j].ts >= calls[p].End() || calls[j].EndsWithin(calls[p]);
  }

  /** Of two kept calls with the same parent, the later starts after the earlier has ended. */
  lemma SiblingsAreDisjoint(calls: seq<Call>, cut: int, i: nat, j: nat)
    requires i < j < |calls| && Sorted(calls)
    requires Kept(calls, cut, i) && Parent(calls, cut, i) == Parent(calls, cut, j)
    ensures calls[i].End() <= calls[j].ts
  {
    NotOpenHasEnded(calls, cut, true, j, i);
  }

  /** The total duration of the kept calls among the first `n` whose stack parent is `p`. */
  function ChildTime(calls: seq<Call>, cut: int, p: int, n: nat): int
    requires n <= |calls|
  {
    if n == 0 then 0 else
      var rest := ChildTime(calls, cut, p, n - 1);
      if Kept(calls, cut, n - 1) && Parent(calls, cut, n - 1) == p then rest + calls[n - 1].dur else rest
  }

  /** Callees, being disjoint and inside their caller, take no more time than it does. */
  lemma {:induction false} ChildrenFit(calls: seq<Call>, cut: int, p: nat, n: nat) returns (last: int)
    requires n <= |calls| && p < |calls| && WellNested(calls)
    ensures 0 <= ChildTime(calls, cut, p, n) <= calls[p].dur
    ensures NO_PARENT <= last < n
    ensures last == NO_PARENT ==> ChildTime(calls, cut, p, n) == 0
    ensures last != NO_PARENT ==>
              && Kept(calls, cut, last) && Parent(calls, cut, last) == p
              && ChildTime(calls, cut, p, n) <= calls[last].End() - calls[p].ts
  {
    last := NO_PARENT;
    if n > 0 {
      last := ChildrenFit(calls, cut, p, n - 1);
      if Kept(calls, cut, n - 1) && Parent(calls, cut, n - 1) == p {
        ChildInsideParent(calls, cut, n - 1);
        if last != NO_PARENT {
          SiblingsAreDisjoint(calls, cut, last, n - 1);
        }
        last := n - 1;
      }
    }
  }

  // ----- exclusive time -----

  /** The time of the first `m` entries hung under `p`. */
  function KidTime(calls: seq<Call>, cut: int, aggregate: bool, n: nat, p: int, m: nat): int
    requires n <= |calls| && m <= |Kids(calls, cut, aggregate, n, p)|
  {
    if m == 0 then 0 else
      KidTime(calls, cut, aggregate, n, p, m - 1)
      + TallyOf(calls, cut, aggregate, n, Kids(calls, cut, aggregate, n, p)[m - 1]).dur
  }

  function AllKidTime(calls: seq<Call>, cut: int, aggregate: bool, n: nat, p: int): int
    requires n <= |calls|
  {
    KidTime(calls, cut, aggregate, n, p, |Kids(calls, cut, aggregate, n, p)|)
  }

  /** The time of entry `i` that none of the entries hung under it accounts for. */
  function Exclusive(calls: seq<Call>, cut: int, aggregate: bool, n: nat, i: nat): int
    requires n <= |calls| && i < |calls|
  {
    TallyOf(calls, cut, aggregate, n, i).dur - AllKidTime(calls, cut, aggregate, n, i)
  }

  /** Hung entries are listed in order of arrival, so none is listed twice. */
  lemma {:induction false} KidsIncrease(calls: seq<Call>, cut: int, aggregate: bool, n: nat, p: int, a: nat, b: nat)
    requires n <= |calls| && a < b < |Kids(calls, cut, aggregate, n, p)|
    ensures Kids(calls, cut, aggregate, n, p)[a] < Kids(calls, cut, aggregate, n, p)[b]
  {
    if b < |Kids(calls, cut, aggregate, n - 1, p)| {
      KidsIncrease(calls, cut, aggregate, n - 1, p, a, b);
    }
  }

  /** Where call `j` would be folded in among the entries hung under its parent. */
  function Slot(calls: seq<Call>, cut: int, aggregate: bool, j: nat): nat
    requires j < |calls|
  {
    Target(calls, aggregate, Kids(calls, cut, aggregate, j, Parent(calls, cut, j)), calls[j].name)
  }

  /** Call `j` is folded into the `a`-th entry under `p` just when it is routed to `p` and `a` is its slot. */
  lemma {:induction false} FoldedOnlyAtSlot(calls: seq<Call>, cut: int, aggregate: bool, j: nat, p: int, a: nat)
    requires j < |calls| && a < |Kids(calls, cut, aggregate, j, p)|
    ensures EntryFor(calls, cut, aggregate, j) == Kids(calls, cut, aggregate, j, p)[a] <==>
            Kept(calls, cut, j) && Parent(calls, cut, j) == p && a == Slot(calls, cut, aggregate, j)
  {
    var parent, at := Parent(calls, cut, j), Slot(calls, cut, aggregate, j);
    HungUnderParent(calls, cut, aggregate, j, p, a);
    if at < |Kids(calls, cut, aggregate, j, parent)| {
      HungUnderParent(calls, cut, aggregate, j, parent, at);
      if parent == p && at < a {
        KidsIncrease(calls, cut, aggregate, j, p, at, a);
      } else if parent == p && a < at {
        KidsIncrease(calls, cut, aggregate, j, p, a, at);
      }
    }
  }

  /** Placing call `j` adds its duration to the entry at its slot, and to no other. */
  lemma {:induction false} KidTimeStep(calls: seq<Call>, cut: int, aggregate: bool, j: nat, p: int, m: nat)
    requires j < |calls| && m <= |Kids(calls, cut, aggregate, j, p)|
    ensures m <= |Kids(calls, cut, aggregate, j + 1, p)|
    ensures KidTime(calls, cut, aggregate, j + 1, p, m)
         == KidTime(calls, cut, aggregate, j, p, m)
            + if Kept(calls, cut, j) && Parent(calls, cut, j) == p && Slot(calls, cut, aggregate, j) < m
              then calls[j].dur else 0
    decreases m
  {
    if m > 0 {
      KidTimeStep(calls, cut, aggregate, j, p, m - 1);
      FoldedOnlyAtSlot(calls, cut, aggregate, j, p, m - 1);
    }
  }

  /** A newly hung entry brings its own duration. */
  lemma HungBringsDuration(calls: seq<Call>, cut: int, aggregate: bool, j: nat, p: int)
    requires j < |calls|
    ensures var m := |Kids(calls, cut, aggregate, j, p)|;
            && m <= |Kids(calls, cut, aggregate, j + 1, p)|
            && AllKidTime(calls, cut, aggregate, j + 1, p) == KidTime(calls, cut, aggregate, j + 1, p, m)
               + if Kept(calls, cut, j) && Parent(calls, cut, j) == p && Slot(calls, cut, aggregate, j) == m
                 then calls[j].dur else 0
    ensures Parent(calls, cut, j) == p ==> Slot(calls, cut, aggregate, j) <= |Kids(calls, cut, aggregate, j, p)|
  {
    var m, next := |Kids(calls, cut, aggregate, j, p)|, Kids(calls, cut, aggregate, j + 1, p);
    assert |next| == m || (|next| == m + 1 && next[m] == j);
    if |next| == m + 1 {
      NewTally(calls, cut, aggregate, j);
    }
  }

  /** So placing call `j` adds its duration to the time under its parent, and under no other. */
  lemma PlacedTime(calls: seq<Call>, cut: int, aggregate: bool, j: nat, p: int)
    requires j < |calls|
    ensures AllKidTime(calls, cut, aggregate, j + 1, p)
         == AllKidTime(calls, cut, aggregate, j, p)
            + if Kept(calls, cut, j) && Parent(calls, cut, j) == p then calls[j].dur else 0
  {
    KidTimeStep(calls, cut, aggregate, j, p, |Kids(calls, cut, aggregate, j, p)|);
    HungBringsDuration(calls, cut, aggregate, j, p);
  }

  ghost predicate TimeAgrees(calls: seq<Call>, cut: int, aggregate: bool, n: nat, p: int)
    requires n <= |calls|
  {
    AllKidTime(calls, cut, aggregate, n, p) == ChildTime(calls, cut, p, n)
  }

  lemma TimeStillAgrees(calls: seq<Call>, cut: int, aggregate: bool, j: nat, p: int)
    requires j < |calls| && TimeAgrees(calls, cut, aggregate, j, p)
    ensures TimeAgrees(calls, cut, aggregate, j + 1, p)
  {
    PlacedTime(calls, cut, aggregate, j, p);
  }

  /**
   In either mode, the entries hung under `p` together carry exactly the time of all kept
   calls whose stack parent is `p`: aggregation moves time between siblings but loses none.
   */
  lemma {:induction false} KidTimeIsChildTime(calls: seq<Call>, cut: int, aggregate: bool, n: nat, p: int)
    requires n <= |calls|
    ensures TimeAgrees(calls, cut, aggregate, n, p)
  {
    if n > 0 {
      KidTimeIsChildTime(calls, cut, aggregate, n - 1, p);
      TimeStillAgrees(calls, cut, aggregate, n - 1, p);
    }
  }

  /** Folding calls into an entry never makes it shorter. */
  lemma {:induction false} TallyGrows(calls: seq<Call>, cut: int, aggregate: bool, n: nat, i: nat)
    requires n <= |calls| && i < |calls| && NonNegative(calls)
    ensures TallyOf(calls, cut, aggregate, n, i).dur >= calls[i].dur
  {
    if n > 0 {
      var t, t' := TallyOf(calls, cut, aggregate, n - 1, i), TallyOf(calls, cut, aggregate, n, i);
      assert t' == t || t' == t.Absorb(calls[n - 1].dur);
      TallyGrows(calls, cut, aggregate, n - 1, i);
    }
  }

  /** On a well-nested trace, in either mode, exclusive time lies between zero and the entry's own time. */
  lemma ExclusiveInRange(calls: seq<Call>, cut: int, aggregate: bool, n: nat, i: nat)
    requires n <= |calls| && i < |calls| && WellNested(calls)
    ensures 0 <= Exclusive(calls, cut, aggregate, n, i) <= TallyOf(calls, cut, aggregate, n, i).dur
  {
    KidTimeIsChildTime(calls, cut, aggregate, n, i);
    TallyGrows(calls, cut, aggregate, n, i);
    var _ := ChildrenFit(calls, cut, i, n);
  }

  /** Exclusive times summed over a forest. */
  function ExclusiveTotal(calls: seq<Call>, cut: int, aggregate: bool, n: nat, f: Forest<nat>): int
    requires n <= |calls|
  {
    match f
    case Empty => 0
    case Grow(before, root, kids) =>
      ExclusiveTotal(calls, cut, aggregate, n, before)
      + (if root < |calls| then Exclusive(calls, cut, aggregate, n, root) else 0)
      + ExclusiveTotal(calls, cut, aggregate, n, kids)
  }

  lemma TelescopeStep(calls: seq<Call>, cut: int, aggregate: bool, n: nat, p: int, m: nat, kid: nat)
    requires n <= |calls| && m < |Kids(calls, cut, aggregate, n, p)| && kid == Kids(calls, cut, aggregate, n, p)[m]
    requires ExclusiveTotal(calls, cut, aggregate, n, Unfold(calls, cut, aggregate, n, p, m))
             == KidTime(calls, cut, aggregate, n, p, m)
    requires ExclusiveTotal(calls, cut, aggregate, n, ForestUnder(calls, cut, aggregate, n, kid))
             == AllKidTime(calls, cut, aggregate, n, kid)
    ensures ExclusiveTotal(calls, cut, aggregate, n, Unfold(calls, cut, aggregate, n, p, m + 1))
            == KidTime(calls, cut, aggregate, n, p, m + 1)
  {
    UnfoldStep(calls, cut, aggregate, n, p, m);
  }

  lemma {:induction false} ExclusiveTelescopes(calls: seq<Call>, cut: int, aggregate: bool, n: nat, p: int, m: nat)
    requires n <= |calls| && m <= |Kids(calls, cut, aggregate, n, p)|
    ensures ExclusiveTotal(calls, cut, aggregate, n, Unfold(calls, cut, aggregate, n, p, m))
         == KidTime(calls, cut, aggregate, n, p, m)
    decreases n - p, m
  {
    if m > 0 {
      var kid := Kids(calls, cut, aggregate, n, p)[m - 1];
      HungUnderParent(calls, cut, aggregate, n, p, m - 1);
      ExclusiveTelescopes(calls, cut, aggregate, n, p, m - 1);
      ExclusiveTelescopes(calls, cut, aggregate, n, kid, |Kids(calls, cut, aggregate, n, kid)|);
      TelescopeStep(calls, cut, aggregate, n, p, m - 1, kid);
    }
  }

  /**
   For any trace, any cut and either mode: the exclusive times of all entries reachable from
   the roots add up to the time of the root entries, which is the time of all root calls.
   */
  lemma ExclusiveTimeIsConserved(calls: seq<Call>, cut: int, aggregate: bool, n: nat)
    requires n <= |calls|
    ensures var total := ExclusiveTotal(calls, cut, aggregate, n, ForestUnder(calls, cut, aggregate, n, NO_PARENT));
            total == AllKidTime(calls, cut, aggregate, n, NO_PARENT) == ChildTime(calls, cut, NO_PARENT, n)
  {
    ExclusiveTelescopes(calls, cut, aggregate, n, NO_PARENT, |Kids(calls, cut, aggregate, n, NO_PARENT)|);
    KidTimeIsChildTime(calls, cut, aggregate, n, NO_PARENT);
  }
}
