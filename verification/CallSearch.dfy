/**
 The stack machine against the obvious search for a call's parent.

 The search knows nothing of the stack: it looks back through the trace for the latest call
 that is still open and was itself found shallow enough to be kept.  Stack and search agree
 on a whole trace exactly when the parents that the search finds do not cross.
 */
module CallSearch {
  import opened CallStack

  /** The latest call before `k` that the search keeps and that is still open at the start of `j`. */
  function LatestOpen(calls: seq<Call>, cut: int, j: nat, k: nat): (p: int)
    requires k <= j < |calls|
    ensures NO_PARENT <= p < k
    decreases j, k
  {
    if k == 0 then NO_PARENT
    else if SearchDepth(calls, cut, k - 1) <= Limit(cut) && calls[j].ts < calls[k - 1].End() then k - 1
    else LatestOpen(calls, cut, j, k - 1)
  }

  /** One more than the depth of the parent that the search finds. */
  function SearchDepth(calls: seq<Call>, cut: int, j: nat): nat
    requires j < |calls|
    decreases j, j + 1
  {
    var p := LatestOpen(calls, cut, j, j);
    if p == NO_PARENT then 0 else SearchDepth(calls, cut, p) + 1
  }

  function SearchParent(calls: seq<Call>, cut: int, j: nat): (p: int)
    requires j < |calls|
    ensures NO_PARENT <= p < j
  {
    LatestOpen(calls, cut, j, j)
  }

  predicate Agrees(calls: seq<Call>, cut: int, j: nat)
    requires j < |calls|
  {
    Parent(calls, cut, j) == SearchParent(calls, cut, j)
  }

  ghost predicate AgreesBefore(calls: seq<Call>, cut: int, n: nat)
    requires n <= |calls|
  {
    forall j :: 0 <= j < n ==> Agrees(calls, cut, j)
  }

  /** No call between a later one and that one's parent has its own parent further back than that. */
  ghost predicate Uncrossed(calls: seq<Call>, cut: int) {
    forall j, k {:trigger SearchParent(calls, cut, j), SearchParent(calls, cut, k)} ::
      0 <= k < j < |calls| && SearchParent(calls, cut, j) < k ==>
        SearchParent(calls, cut, j) <= SearchParent(calls, cut, k)
  }

  // ----- one call -----

  /** While parents agree, so do depths, and so does what is kept. */
  lemma {:induction false} DepthsAgree(calls: seq<Call>, cut: int, j: nat)
    requires j < |calls| && AgreesBefore(calls, cut, j + 1)
    ensures SearchDepth(calls, cut, j) == Depth(calls, cut, j)
  {
    DepthOfParent(calls, cut, j);
    assert Agrees(calls, cut, j);
    var p := Parent(calls, cut, j);
    if p != NO_PARENT {
      DepthsAgree(calls, cut, p);
    }
  }

  /** The search stops at `p` if that is kept and open and every kept call after it has ended. */
  lemma {:induction false} LatestOpenIs(calls: seq<Call>, cut: int, j: nat, k: nat, p: int)
    requires k <= j < |calls| && AgreesBefore(calls, cut, j) && NO_PARENT <= p < k
    requires p != NO_PARENT ==> Kept(calls, cut, p) && calls[j].ts < calls[p].End()
    requires forall i {:trigger Kept(calls, cut, i)} :: p < i < k && Kept(calls, cut, i) ==>
             calls[i].End() <= calls[j].ts
    ensures LatestOpen(calls, cut, j, k) == p
  {
    if k > 0 {
      DepthsAgree(calls, cut, k - 1);
      assert Kept(calls, cut, k - 1) <==> SearchDepth(calls, cut, k - 1) <= Limit(cut);
      if k - 1 != p {
        LatestOpenIs(calls, cut, j, k - 1, p);
      }
    }
  }

  /** The stack parent is kept and open. */
  lemma ParentIsOpen(calls: seq<Call>, cut: int, j: nat)
    requires j < |calls| && Parent(calls, cut, j) != NO_PARENT
    ensures var p := Parent(calls, cut, j); Kept(calls, cut, p) && calls[j].ts < calls[p].End()
  {
    DepthOfParent(calls, cut, j);
    PopStops(calls, Stack(calls, cut, j), |Stack(calls, cut, j)|, calls[j].ts);
  }

  /** So they agree on a call if every kept call after the stack parent has ended. */
  lemma AgreeIfEnded(calls: seq<Call>, cut: int, j: nat)
    requires j < |calls| && AgreesBefore(calls, cut, j)
    requires forall i {:trigger Kept(calls, cut, i)} :: Parent(calls, cut, j) < i < j && Kept(calls, cut, i) ==>
             calls[i].End() <= calls[j].ts
    ensures Agrees(calls, cut, j)
  {
    if Parent(calls, cut, j) != NO_PARENT {
      ParentIsOpen(calls, cut, j);
    }
    LatestOpenIs(calls, cut, j, j, Parent(calls, cut, j));
  }

  // ----- in a sorted trace, or one without negative durations, they agree -----

  /**
   The parent the stack machine picks is the one the quadratic search finds: the latest
   earlier kept call still open.  It is enough that the trace is sorted, or that no
   duration is negative; nesting is not needed.
   */
  lemma {:induction false} StackRefinesSearch(calls: seq<Call>, cut: int, j: nat)
    requires j < |calls| && (Sorted(calls) || NonNegative(calls))
    ensures Parent(calls, cut, j) == SearchParent(calls, cut, j)
    decreases j
  {
    forall i | 0 <= i < j
      ensures Agrees(calls, cut, i)
    {
      StackRefinesSearch(calls, cut, i);
    }
    forall i {:trigger Kept(calls, cut, i)} | Parent(calls, cut, j) < i < j && Kept(calls, cut, i)
      ensures calls[i].End() <= calls[j].ts
    {
      NotOpenHasEnded(calls, cut, Sorted(calls), j, i);
    }
    AgreeIfEnded(calls, cut, j);
  }

  /** Neither hypothesis can be dropped altogether: a trace that is out of order and has a negative duration. */
  lemma SearchNeedsOrderOrSign()
    ensures var calls := [Call("a", 0, 10), Call("b", 10, -10), Call("c", 5, 1)];
            Parent(calls, 20, 2) == NO_PARENT && SearchParent(calls, 20, 2) == 0
  {
    EndsMatter([Call("a", 0, 10), Call("b", 10, -10), Call("c", 5, 1)]);
  }

  lemma EndsMatter(calls: seq<Call>)
    requires |calls| == 3 && calls[1].End() <= calls[2].ts < calls[0].End() <= calls[1].ts
    ensures Parent(calls, 20, 2) == NO_PARENT && SearchParent(calls, 20, 2) == 0
  {
    FirstPush(calls, 20);
    assert OpenCount(calls, [0], 1, calls[1].ts) == 0;
    assert Stack(calls, 20, 2) == [1];
    assert OpenCount(calls, [1], 1, calls[2].ts) == 0;
    assert LatestOpen(calls, 20, 0, 0) == NO_PARENT;
    assert LatestOpen(calls, 20, 2, 1) == 0;
  }

  // ----- in general, they agree just when the search's parents do not cross -----

  /** An arriving call leaves a stack entry alone, or pops it and is hung under something earlier. */
  lemma StaysOrPopped(calls: seq<Call>, cut: int, j: nat, k: nat)
    requires j < |calls| && k < |Stack(calls, cut, j)|
    ensures k < Depth(calls, cut, j) ==>
            k < |Stack(calls, cut, j + 1)| && Stack(calls, cut, j + 1)[k] == Stack(calls, cut, j)[k]
    ensures k >= Depth(calls, cut, j) ==> Parent(calls, cut, j) < Stack(calls, cut, j)[k]
  {
    StackShape(calls, cut, j);
  }

  lemma PushedOnTop(calls: seq<Call>, cut: int, j: nat)
    requires j < |calls| && Kept(calls, cut, j)
    ensures |Stack(calls, cut, j + 1)| == Depth(calls, cut, j) + 1
    ensures Stack(calls, cut, j + 1)[Depth(calls, cut, j)] == j
  {
  }

  /** A kept call is on the stack, or some later call with an earlier parent has popped it. */
  lemma {:induction false} PoppedBy(calls: seq<Call>, cut: int, n: nat, i: nat) returns (popped: bool, k: nat)
    requires i < n <= |calls| && Kept(calls, cut, i)
    ensures popped ==> i < k < n && Parent(calls, cut, k) < i
    ensures !popped ==> k < |Stack(calls, cut, n)| && Stack(calls, cut, n)[k] == i
  {
    if i == n - 1 {
      PushedOnTop(calls, cut, i);
      popped, k := false, Depth(calls, cut, i);
    } else {
      popped, k := PoppedBy(calls, cut, n - 1, i);
      if !popped {
        StaysOrPopped(calls, cut, n - 1, k);
        if k >= Depth(calls, cut, n - 1) {
          popped, k := true, n - 1;
        }
      }
    }
  }

  /** The parents that the stack machine picks never cross. */
  lemma StackIsUncrossed(calls: seq<Call>, cut: int, j: nat, k: nat)
    requires k < j < |calls| && Parent(calls, cut, j) < k
    ensures Parent(calls, cut, j) <= Parent(calls, cut, k)
  {
    var p := Parent(calls, cut, j);
    if p > Parent(calls, cut, k) {
      NotOnStackAgain(calls, cut, j, k, p, Depth(calls, cut, j) - 1);
    }
  }

  /** Once popped, a call never comes back. */
  lemma {:induction false} NotOnStackAgain(calls: seq<Call>, cut: int, n: nat, k: nat, p: nat, at: nat)
    requires p < k < n <= |calls| && Parent(calls, cut, k) < p
    requires at < |Stack(calls, cut, n)|
    ensures Stack(calls, cut, n)[at] != p
  {
    if n > k + 1 {
      if at < Depth(calls, cut, n - 1) {
        NotOnStackAgain(calls, cut, n - 1, k, p, at);
      }
    } else {
      StackShape(calls, cut, k);
    }
  }

  lemma UncrossedKeeps(calls: seq<Call>, cut: int, j: nat, k: nat)
    requires k < j < |calls| && AgreesBefore(calls, cut, j) && Uncrossed(calls, cut) && SearchParent(calls, cut, j) < k
    ensures SearchParent(calls, cut, j) <= Parent(calls, cut, k)
  {
    assert Agrees(calls, cut, k);
  }

  /** Without crossings, whatever is kept after the stack parent has ended. */
  lemma UncrossedHasEnded(calls: seq<Call>, cut: int, j: nat, i: nat)
    requires i < j < |calls| && AgreesBefore(calls, cut, j) && Uncrossed(calls, cut)
    requires Parent(calls, cut, j) < i && Kept(calls, cut, i)
    ensures calls[i].End() <= calls[j].ts
  {
    if calls[j].ts < calls[i].End() {
      var s := LatestIsAsLate(calls, cut, j, i);
      var popped, k := PoppedBy(calls, cut, j, s);
      if popped {
        UncrossedKeeps(calls, cut, j, k);
      } else {
        StackShape(calls, cut, j);
        PopStops(calls, Stack(calls, cut, j), |Stack(calls, cut, j)|, calls[j].ts);
      }
    }
  }

  /** The search finds no earlier call than a kept one still open. */
  lemma LatestIsAsLate(calls: seq<Call>, cut: int, j: nat, i: nat) returns (s: nat)
    requires i < j < |calls| && AgreesBefore(calls, cut, j) && Kept(calls, cut, i) && calls[j].ts < calls[i].End()
    ensures s == SearchParent(calls, cut, j) && i <= s && Kept(calls, cut, s) && calls[j].ts < calls[s].End()
  {
    s := LatestFrom(calls, cut, j, j, i);
  }

  lemma {:induction false} LatestFrom(calls: seq<Call>, cut: int, j: nat, k: nat, i: nat) returns (s: nat)
    requires i < k <= j < |calls| && AgreesBefore(calls, cut, j) && Kept(calls, cut, i) && calls[j].ts < calls[i].End()
    ensures s == LatestOpen(calls, cut, j, k) && i <= s < k && Kept(calls, cut, s) && calls[j].ts < calls[s].End()
  {
    DepthsAgree(calls, cut, k - 1);
    if Kept(calls, cut, k - 1) && calls[j].ts < calls[k - 1].End() {
      s := k - 1;
    } else {
      s := LatestFrom(calls, cut, j, k - 1, i);
    }
  }

  lemma {:induction false} UncrossedAgrees(calls: seq<Call>, cut: int, j: nat)
    requires j < |calls| && Uncrossed(calls, cut)
    ensures Agrees(calls, cut, j)
    decreases j
  {
    forall i | 0 <= i < j
      ensures Agrees(calls, cut, i)
    {
      UncrossedAgrees(calls, cut, i);
    }
    forall i {:trigger Kept(calls, cut, i)} | Parent(calls, cut, j) < i < j && Kept(calls, cut, i)
      ensures calls[i].End() <= calls[j].ts
    {
      UncrossedHasEnded(calls, cut, j, i);
    }
    AgreeIfEnded(calls, cut, j);
  }

  /**
   For any trace and cut: the stack machine picks the parent that the search finds for every
   call, exactly when the parents found by the search do not cross.
   */
  lemma StackIsSearchIff(calls: seq<Call>, cut: int)
    ensures AgreesBefore(calls, cut, |calls|) <==> Uncrossed(calls, cut)
  {
    if AgreesBefore(calls, cut, |calls|) {
      forall j, k {:trigger SearchParent(calls, cut, j), SearchParent(calls, cut, k)} |
        0 <= k < j < |calls| && SearchParent(calls, cut, j) < k
        ensures SearchParent(calls, cut, j) <= SearchParent(calls, cut, k)
      {
        assert Agrees(calls, cut, j) && Agrees(calls, cut, k);
        StackIsUncrossed(calls, cut, j, k);
      }
    }
    if Uncrossed(calls, cut) {
      forall j | 0 <= j < |calls|
        ensures Agrees(calls, cut, j)
      {
        UncrossedAgrees(calls, cut, j);
      }
    }
  }
}
