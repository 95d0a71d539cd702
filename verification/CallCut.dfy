/**
 What a depth cut does to a call tree: as long as a call's stack ancestors are always open, as
 they are in nested traces, it removes what lies deeper, and nothing else.
 */
module CallCut {
  import opened Forests
  import opened CallStack
  import opened CallTree
  import opened CallForest
  import opened CallPrefix
  import opened CallReach

  // ----- links and figures under a smaller cut -----

  /** With the smaller cut `d` a call is kept if it is shallow enough under `e`, and has the same parent then. */
  lemma ParentUnderCut(calls: seq<Call>, d: int, e: int, j: nat)
    requires j < |calls| && d <= e && AncestorsOpen(calls, e, |calls|)
    ensures Kept(calls, d, j) <==> Depth(calls, e, j) <= Limit(d)
    ensures Kept(calls, d, j) ==> Kept(calls, e, j) && Parent(calls, d, j) == Parent(calls, e, j)
  {
    CutDepth(calls, d, e, j);
    CutStackIsPrefix(calls, d, e, j);
  }

  /** The level that calls hung under `p` have. */
  function LevelUnder(calls: seq<Call>, cut: int, p: int): nat
    requires NO_PARENT <= p < |calls|
  {
    if p == NO_PARENT then 0 else Depth(calls, cut, p) + 1
  }

  lemma LevelIsDepth(calls: seq<Call>, cut: int, j: nat)
    requires j < |calls|
    ensures Depth(calls, cut, j) == LevelUnder(calls, cut, Parent(calls, cut, j))
  {
    DepthOfParent(calls, cut, j);
  }

  /** A node above the cut keeps its children; a node at the cut, or below it, loses them all. */
  ghost predicate KidsAreCut(calls: seq<Call>, d: int, e: int, aggregate: bool, n: nat, p: int)
    requires n <= |calls| && NO_PARENT <= p < |calls|
  {
    Kids(calls, d, aggregate, n, p)
    == if LevelUnder(calls, e, p) <= Limit(d) then Kids(calls, e, aggregate, n, p) else []
  }

  lemma KidsUnderCutStep(calls: seq<Call>, d: int, e: int, aggregate: bool, j: nat, p: int)
    requires j < |calls| && d <= e && AncestorsOpen(calls, e, |calls|) && NO_PARENT <= p < |calls|
    requires KidsAreCut(calls, d, e, aggregate, j, p)
    ensures KidsAreCut(calls, d, e, aggregate, j + 1, p)
  {
    ParentUnderCut(calls, d, e, j);
    LevelIsDepth(calls, e, j);
  }

  lemma {:induction false} KidsUnderCut(calls: seq<Call>, d: int, e: int, aggregate: bool, n: nat, p: int)
    requires n <= |calls| && d <= e && AncestorsOpen(calls, e, |calls|) && NO_PARENT <= p < |calls|
    ensures KidsAreCut(calls, d, e, aggregate, n, p)
  {
    if n > 0 {
      KidsUnderCut(calls, d, e, aggregate, n - 1, p);
      KidsUnderCutStep(calls, d, e, aggregate, n - 1, p);
    }
  }

  /** Call `j` is folded into the same entry, unless it is cut off. */
  lemma EntryUnderCut(calls: seq<Call>, d: int, e: int, aggregate: bool, j: nat)
    requires j < |calls| && d <= e && AncestorsOpen(calls, e, |calls|)
    ensures EntryFor(calls, d, aggregate, j) == if Kept(calls, d, j) then EntryFor(calls, e, aggregate, j) else NO_ENTRY
  {
    ParentUnderCut(calls, d, e, j);
    LevelIsDepth(calls, e, j);
    if Kept(calls, d, j) {
      KidsUnderCut(calls, d, e, aggregate, j, Parent(calls, d, j));
    }
  }

  /** An entry lies as deep as the calls folded into it. */
  lemma EntryDepth(calls: seq<Call>, cut: int, aggregate: bool, j: nat)
    requires j < |calls| && EntryFor(calls, cut, aggregate, j) != NO_ENTRY
    ensures Depth(calls, cut, EntryFor(calls, cut, aggregate, j)) == Depth(calls, cut, j)
  {
    var p := Parent(calls, cut, j);
    var kids := Kids(calls, cut, aggregate, j, p);
    HungUnderParent(calls, cut, aggregate, j, p, Target(calls, aggregate, kids, calls[j].name));
    LevelIsDepth(calls, cut, j);
    LevelIsDepth(calls, cut, EntryFor(calls, cut, aggregate, j));
  }

  /** Entry `i` has the same figures under both cuts. */
  ghost predicate SameTally(calls: seq<Call>, d: int, e: int, aggregate: bool, n: nat, i: nat)
    requires n <= |calls| && i < |calls|
  {
    TallyOf(calls, d, aggregate, n, i) == TallyOf(calls, e, aggregate, n, i)
  }

  lemma SameTallyStep(calls: seq<Call>, d: int, e: int, aggregate: bool, j: nat, i: nat)
    requires j < |calls| && i < |calls| && d <= e && AncestorsOpen(calls, e, |calls|) && Depth(calls, e, i) <= Limit(d)
    requires SameTally(calls, d, e, aggregate, j, i)
    ensures SameTally(calls, d, e, aggregate, j + 1, i)
  {
    EntryUnderCut(calls, d, e, aggregate, j);
    ParentUnderCut(calls, d, e, j);
    if EntryFor(calls, e, aggregate, j) != NO_ENTRY {
      EntryDepth(calls, e, aggregate, j);
    }
  }

  /** The cut leaves the figures of the entries above it as they are. */
  lemma {:induction false} TallyUnderCut(calls: seq<Call>, d: int, e: int, aggregate: bool, n: nat, i: nat)
    requires n <= |calls| && i < |calls| && d <= e && AncestorsOpen(calls, e, |calls|) && Depth(calls, e, i) <= Limit(d)
    ensures SameTally(calls, d, e, aggregate, n, i)
  {
    if n > 0 {
      TallyUnderCut(calls, d, e, aggregate, n - 1, i);
      SameTallyStep(calls, d, e, aggregate, n - 1, i);
    }
  }

  /** The first `m` trees under `p` are truncated to `level` levels. */
  ghost predicate Truncates(calls: seq<Call>, d: int, e: int, aggregate: bool, n: nat, p: int, m: nat, level: nat)
    requires n <= |calls|
  {
    && m <= |Kids(calls, d, aggregate, n, p)| && m <= |Kids(calls, e, aggregate, n, p)|
    && Unfold(calls, d, aggregate, n, p, m) == Truncate(Unfold(calls, e, aggregate, n, p, m), level)
  }

  /** What is below `kid` is truncated to `level - 1` levels. */
  ghost predicate TruncatesBelow(calls: seq<Call>, d: int, e: int, aggregate: bool, n: nat, kid: nat, level: nat)
    requires n <= |calls|
  {
    var (below, whole) := (ForestUnder(calls, d, aggregate, n, kid), ForestUnder(calls, e, aggregate, n, kid));
    below == if level == 0 then Empty else Truncate(whole, level - 1)
  }

  /** One more tree is truncated if what is below its root is. */
  lemma TruncatesOneMore(calls: seq<Call>, d: int, e: int, aggregate: bool, n: nat, p: int, m: nat, level: nat,
                         kid: nat)
    requires n <= |calls| && Truncates(calls, d, e, aggregate, n, p, m, level)
    requires Kids(calls, d, aggregate, n, p) == Kids(calls, e, aggregate, n, p)
    requires m < |Kids(calls, e, aggregate, n, p)| && kid == Kids(calls, e, aggregate, n, p)[m]
    requires TruncatesBelow(calls, d, e, aggregate, n, kid, level)
    ensures Truncates(calls, d, e, aggregate, n, p, m + 1, level)
  {
    UnfoldStep(calls, d, aggregate, n, p, m);
    UnfoldStep(calls, e, aggregate, n, p, m);
  }

  lemma KidLevel(calls: seq<Call>, cut: int, aggregate: bool, n: nat, p: int, a: nat)
    requires n <= |calls| && NO_PARENT <= p < |calls| && a < |Kids(calls, cut, aggregate, n, p)|
    ensures var kid := Kids(calls, cut, aggregate, n, p)[a];
            p < kid < n && LevelUnder(calls, cut, kid) == LevelUnder(calls, cut, p) + 1
  {
    HungUnderParent(calls, cut, aggregate, n, p, a);
    LevelIsDepth(calls, cut, Kids(calls, cut, aggregate, n, p)[a]);
  }

  /** Nothing is left below the cut. */
  lemma NothingUnder(calls: seq<Call>, d: int, e: int, aggregate: bool, n: nat, p: int)
    requires n <= |calls| && d <= e && AncestorsOpen(calls, e, |calls|) && NO_PARENT <= p < |calls|
             && LevelUnder(calls, e, p) > Limit(d)
    ensures ForestUnder(calls, d, aggregate, n, p) == Empty
  {
    KidsUnderCut(calls, d, e, aggregate, n, p);
  }

  /** Everything under `p`, `level` levels above the cut, is truncated to those. */
  lemma {:induction false} ForestUnderCut(calls: seq<Call>, d: int, e: int, aggregate: bool, n: nat, p: int, level: nat)
    requires n <= |calls| && d <= e && AncestorsOpen(calls, e, |calls|) && NO_PARENT <= p < n
             && LevelUnder(calls, e, p) + level == Limit(d)
    ensures ForestUnder(calls, d, aggregate, n, p) == Truncate(ForestUnder(calls, e, aggregate, n, p), level)
    decreases n - p, |Kids(calls, e, aggregate, n, p)| + 1
  {
    KidsUnderCut(calls, d, e, aggregate, n, p);
    UnfoldUnderCut(calls, d, e, aggregate, n, p, |Kids(calls, e, aggregate, n, p)|, level);
  }

  lemma {:induction false} TreeUnderCut(calls: seq<Call>, d: int, e: int, aggregate: bool, n: nat, kid: nat, level: nat)
    requires n <= |calls| && d <= e && AncestorsOpen(calls, e, |calls|) && kid < n
             && LevelUnder(calls, e, kid) + level == Limit(d) + 1
    ensures TruncatesBelow(calls, d, e, aggregate, n, kid, level)
    decreases n - kid, |Kids(calls, e, aggregate, n, kid)| + 2
  {
    if level == 0 {
      NothingUnder(calls, d, e, aggregate, n, kid);
    } else {
      ForestUnderCut(calls, d, e, aggregate, n, kid, level - 1);
    }
  }

  /** `p` has the same children under both cuts, and `level` levels below these are above the cut. */
  ghost predicate IsAbove(calls: seq<Call>, d: int, e: int, aggregate: bool, n: nat, p: int, level: nat)
    requires n <= |calls|
  {
    && NO_PARENT <= p < n && LevelUnder(calls, e, p) + level == Limit(d)
    && Kids(calls, d, aggregate, n, p) == Kids(calls, e, aggregate, n, p)
  }

  lemma {:induction false} OneMoreUnderCut(calls: seq<Call>, d: int, e: int, aggregate: bool, n: nat, p: int, m: nat,
                                           level: nat)
    requires n <= |calls| && d <= e && AncestorsOpen(calls, e, |calls|)
    requires IsAbove(calls, d, e, aggregate, n, p, level) && m < |Kids(calls, e, aggregate, n, p)|
    requires Truncates(calls, d, e, aggregate, n, p, m, level)
    ensures Truncates(calls, d, e, aggregate, n, p, m + 1, level)
    decreases n - p, m
  {
    var kid := Kids(calls, e, aggregate, n, p)[m];
    KidLevel(calls, e, aggregate, n, p, m);
    TreeUnderCut(calls, d, e, aggregate, n, kid, level);
    TruncatesOneMore(calls, d, e, aggregate, n, p, m, level, kid);
  }

  lemma {:induction false} UnfoldUnderCut(calls: seq<Call>, d: int, e: int, aggregate: bool, n: nat, p: int, m: nat,
                                          level: nat)
    requires n <= |calls| && d <= e && AncestorsOpen(calls, e, |calls|)
    requires IsAbove(calls, d, e, aggregate, n, p, level) && m <= |Kids(calls, e, aggregate, n, p)|
    ensures Truncates(calls, d, e, aggregate, n, p, m, level)
    decreases n - p, m
  {
    if m == 0 {
      TruncatesNone(calls, d, e, aggregate, n, p, level);
    } else {
      UnfoldUnderCut(calls, d, e, aggregate, n, p, m - 1, level);
      OneMoreUnderCut(calls, d, e, aggregate, n, p, m - 1, level);
    }
  }

  lemma TruncatesNone(calls: seq<Call>, d: int, e: int, aggregate: bool, n: nat, p: int, level: nat)
    requires n <= |calls|
    ensures Truncates(calls, d, e, aggregate, n, p, 0, level)
  {
  }

  // ----- the time cut off -----

  /** The total duration of the calls in `ids`. */
  function DurationOf(calls: seq<Call>, ids: seq<nat>): int {
    if ids == [] then 0 else
      var i := ids[|ids| - 1];
      DurationOf(calls, ids[..|ids| - 1]) + if i < |calls| then calls[i].dur else 0
  }

  lemma ExcludedStep(calls: seq<Call>, d: int, e: int, j: nat)
    requires j < |calls| && d <= e && AncestorsOpen(calls, e, |calls|)
    requires Excluded(calls, d, j) == Excluded(calls, e, j) + DurationOf(calls, Below(Grown(calls, e, j), Limit(d)))
    ensures Excluded(calls, d, j + 1)
            == Excluded(calls, e, j + 1) + DurationOf(calls, Below(Grown(calls, e, j + 1), Limit(d)))
  {
    CutDepth(calls, d, e, j);
    StackWithinSpine(calls, e, j);
    BelowDuration(calls, Grown(calls, e, j), Depth(calls, e, j), j, Limit(d));
  }

  lemma {:induction false} ExcludedIsBelow(calls: seq<Call>, d: int, e: int, n: nat)
    requires n <= |calls| && d <= e && AncestorsOpen(calls, e, |calls|)
    ensures Excluded(calls, d, n) == Excluded(calls, e, n) + DurationOf(calls, Below(Grown(calls, e, n), Limit(d)))
  {
    if n > 0 {
      ExcludedIsBelow(calls, d, e, n - 1);
      ExcludedStep(calls, d, e, n - 1);
    }
  }

  lemma BelowDuration(calls: seq<Call>, f: Forest<nat>, k: nat, j: nat, d: nat)
    requires k <= |Spine(f)| && j < |calls|
    ensures DurationOf(calls, Below(AppendAt(f, k, j), d))
            == DurationOf(calls, Below(f, d)) + if k <= d then 0 else calls[j].dur
  {
    BelowAppendAt(f, k, j, d);
    var ids := Below(f, d);
    assert (ids + [j])[..|ids|] == ids;
  }

  /** A cut at least as deep as the trace is long cuts nothing. */
  lemma {:induction false} DeepCutKeepsAll(calls: seq<Call>, cut: int, n: nat)
    requires n <= |calls| <= cut
    ensures Excluded(calls, cut, n) == 0
  {
    if n > 0 {
      DeepCutKeepsAll(calls, cut, n - 1);
      StackIsShort(calls, cut, n - 1);
      assert Depth(calls, cut, n - 1) <= Limit(cut);
    }
  }

  // ----- truncation -----

  /** Building with the cut `d` gives the forest built with `e`, less every node deeper than `d`. */
  ghost predicate CutTruncates(calls: seq<Call>, d: int, e: int, aggregate: bool) {
    ForestUnder(calls, d, aggregate, |calls|, NO_PARENT)
    == Truncate(ForestUnder(calls, e, aggregate, |calls|, NO_PARENT), Limit(d))
  }

  /**
   Where a call's stack ancestors are always still open, and in either mode, building with a depth
   cut gives the uncut forest with every node deeper than the cut removed.  (A negative cut acts
   like zero: roots are never cut.)  The excluded time is the duration of the calls of the trace
   that lie deeper, which are the nodes removed from the forest built without aggregation.
   */
  lemma DepthCutIsTruncation(calls: seq<Call>, d: int, uncut: int, aggregate: bool)
    requires AncestorsOpen(calls, uncut, |calls|) && d <= uncut && |calls| <= uncut
    ensures CutTruncates(calls, d, uncut, aggregate)
    ensures Excluded(calls, d, |calls|)
         == DurationOf(calls, Below(ForestUnder(calls, uncut, false, |calls|, NO_PARENT), Limit(d)))
  {
    ForestUnderCut(calls, d, uncut, aggregate, |calls|, NO_PARENT, Limit(d));
    LinksAreGrown(calls, uncut, |calls|);
    ExcludedIsBelow(calls, d, uncut, |calls|);
    DeepCutKeepsAll(calls, uncut, |calls|);
  }

  /** In particular in every nested trace. */
  lemma NestedCutIsTruncation(calls: seq<Call>, d: int, uncut: int, aggregate: bool)
    requires Nested(calls) && d <= uncut && |calls| <= uncut
    ensures CutTruncates(calls, d, uncut, aggregate)
    ensures Excluded(calls, d, |calls|)
         == DurationOf(calls, Below(ForestUnder(calls, uncut, false, |calls|, NO_PARENT), Limit(d)))
  {
    NestedIsOpen(calls, uncut);
    DepthCutIsTruncation(calls, d, uncut, aggregate);
  }

  /** Call `i` is among the first `m` trees under `p`, truncated to `level` levels. */
  ghost predicate Remains(calls: seq<Call>, e: int, n: nat, p: int, m: nat, level: nat, i: nat)
    requires n <= |calls| && m <= |Kids(calls, e, false, n, p)|
  {
    Member(Truncate(Unfold(calls, e, false, n, p, m), level), i)
  }

  ghost predicate RemainsUnder(calls: seq<Call>, e: int, n: nat, p: int, level: nat, i: nat)
    requires n <= |calls|
  {
    Remains(calls, e, n, p, |Kids(calls, e, false, n, p)|, level, i)
  }

  lemma RemainsOneMore(calls: seq<Call>, e: int, n: nat, p: int, m: nat, level: nat, kid: nat, i: nat)
    requires n <= |calls| && m < |Kids(calls, e, false, n, p)| && kid == Kids(calls, e, false, n, p)[m]
    requires Remains(calls, e, n, p, m + 1, level, i)
    ensures Remains(calls, e, n, p, m, level, i) || i == kid
            || (level > 0 && RemainsUnder(calls, e, n, kid, level - 1, i))
  {
    UnfoldStep(calls, e, false, n, p, m);
  }

  /** What is left after truncation is shallow. */
  lemma {:induction false} RemainsIsShallow(calls: seq<Call>, e: int, n: nat, p: int, m: nat, level: nat, i: nat)
    requires n <= |calls| && NO_PARENT <= p < |calls| && m <= |Kids(calls, e, false, n, p)|
    requires Remains(calls, e, n, p, m, level, i)
    ensures i < n && Depth(calls, e, i) <= LevelUnder(calls, e, p) + level
    decreases n - p, m
  {
    var kid := Kids(calls, e, false, n, p)[m - 1];
    KidLevel(calls, e, false, n, p, m - 1);
    RemainsOneMore(calls, e, n, p, m - 1, level, kid, i);
    if Remains(calls, e, n, p, m - 1, level, i) {
      RemainsIsShallow(calls, e, n, p, m - 1, level, i);
    } else if i != kid {
      RemainsIsShallow(calls, e, n, kid, |Kids(calls, e, false, n, kid)|, level - 1, i);
    }
  }

  /** A call kept under the cut although it lies deeper is a node that truncation would have removed. */
  lemma DeeperIsNotTruncated(calls: seq<Call>, d: int, e: int, j: nat)
    requires j < |calls| && Kept(calls, d, j) && Depth(calls, e, j) > Limit(d)
    ensures !CutTruncates(calls, d, e, false)
  {
    var n := |calls|;
    ReachableIff(calls, d, false, n, j);
    PlainReachesKept(calls, d, j);
    if RemainsUnder(calls, e, n, NO_PARENT, Limit(d), j) {
      RemainsIsShallow(calls, e, n, NO_PARENT, |Kids(calls, e, false, n, NO_PARENT)|, Limit(d), j);
    }
  }

  /**
   Every cut truncates the uncut forest, in both modes, exactly when in the uncut run every call's
   stack ancestors are still open as it arrives.
   */
  lemma DepthCutIsTruncationIff(calls: seq<Call>, uncut: int)
    requires |calls| <= uncut
    ensures AncestorsOpen(calls, uncut, |calls|) <==>
            forall d, aggregate {:trigger CutTruncates(calls, d, uncut, aggregate)} ::
              d <= uncut ==> CutTruncates(calls, d, uncut, aggregate)
  {
    if AncestorsOpen(calls, uncut, |calls|) {
      forall d, aggregate {:trigger CutTruncates(calls, d, uncut, aggregate)} | d <= uncut
        ensures CutTruncates(calls, d, uncut, aggregate)
      {
        DepthCutIsTruncation(calls, d, uncut, aggregate);
      }
    } else {
      var d, j := DeeperIsKept(calls, uncut);
      DeeperIsNotTruncated(calls, d, uncut, j);
    }
  }

  /** A call that outlasts its parent: with cut zero a third call becomes a root that lies at depth two without. */
  lemma OverlapBreaksCut()
    ensures var calls := [Call("f", 0, 10), Call("g", 5, 10), Call("h", 12, 1)];
            Depth(calls, 20, 2) == 2 && Kept(calls, 0, 2) && !CutTruncates(calls, 0, 20, false)
  {
    var calls := [Call("f", 0, 10), Call("g", 5, 10), Call("h", 12, 1)];
    OverlapIsKept(calls);
    DeeperIsNotTruncated(calls, 0, 20, 2);
  }

  lemma OverlapIsKept(calls: seq<Call>)
    requires |calls| == 3
    requires calls[1].ts < calls[0].End() <= calls[2].ts < calls[1].End()
    ensures Depth(calls, 20, 2) == 2 && Kept(calls, 0, 2)
  {
    FirstPush(calls, 20);
    FirstPush(calls, 0);
    assert OpenCount(calls, [0], 1, calls[1].ts) == 1;
    assert Stack(calls, 20, 2) == [0, 1] && Stack(calls, 0, 2) == [0];
    assert OpenCount(calls, [0, 1], 2, calls[2].ts) == 2;
    assert OpenCount(calls, [0], 1, calls[2].ts) == 0;
  }
}
