/**
 The stack under a depth cut against the stack under a larger one.

 A cut hides calls from the pop loop, so the smaller stack is the bottom of the larger one only
 as long as everything left on the larger one is still open, which is so in nested traces.
 */
module CallPrefix {
  import opened Forests
  import opened CallStack

  /** Entry `k`, if it is left on the stack when call `j` arrives, is still open. */
  ghost predicate EntryOpen(calls: seq<Call>, cut: int, j: nat, k: nat)
    requires j < |calls|
  {
    k < Depth(calls, cut, j) ==> calls[j].ts < calls[Stack(calls, cut, j)[k]].End()
  }

  /** When each of the first `n` calls arrives, everything left on the stack is still open. */
  ghost predicate AncestorsOpen(calls: seq<Call>, cut: int, n: nat)
    requires n <= |calls|
  {
    forall j, k {:trigger EntryOpen(calls, cut, j, k)} :: 0 <= j < n && 0 <= k ==> EntryOpen(calls, cut, j, k)
  }

  // ----- nested traces -----

  /** Calls further up the stack end no later than those below them. */
  lemma {:induction false} StackEndsDescend(calls: seq<Call>, cut: int, n: nat, a: nat, b: nat)
    requires n <= |calls| && Nested(calls)
    requires a < b < |Stack(calls, cut, n)|
    ensures var s := Stack(calls, cut, n); calls[s[b]].End() <= calls[s[a]].End()
  {
    var stack, open := Stack(calls, cut, n - 1), Depth(calls, cut, n - 1);
    if b < open {
      StackEndsDescend(calls, cut, n - 1, a, b);
    } else {
      PopStops(calls, stack, |stack|, calls[n - 1].ts);
      assert calls[n - 1].EndsWithin(calls[stack[open - 1]]);
      if a < open - 1 {
        StackEndsDescend(calls, cut, n - 1, a, open - 1);
      }
    }
  }

  /** In a nested trace a call's stack ancestors are all still open when it arrives. */
  lemma NestedIsOpen(calls: seq<Call>, cut: int)
    requires Nested(calls)
    ensures AncestorsOpen(calls, cut, |calls|)
  {
    forall j, k {:trigger EntryOpen(calls, cut, j, k)} | 0 <= j < |calls| && 0 <= k
      ensures EntryOpen(calls, cut, j, k)
    {
      NestedEntryIsOpen(calls, cut, j, k);
    }
  }

  lemma NestedEntryIsOpen(calls: seq<Call>, cut: int, j: nat, k: nat)
    requires j < |calls| && Nested(calls)
    ensures EntryOpen(calls, cut, j, k)
  {
    var depth := Depth(calls, cut, j);
    PopStops(calls, Stack(calls, cut, j), |Stack(calls, cut, j)|, calls[j].ts);
    if k + 1 < depth {
      StackEndsDescend(calls, cut, j, k, depth - 1);
    }
  }

  // ----- the smaller stack is a prefix -----

  /** Popping from the first `c` entries only is popping from all of them, up to `c`. */
  lemma {:induction false} PopPrefix(calls: seq<Call>, cut: int, j: nat, c: nat)
    requires j < |calls| && AncestorsOpen(calls, cut, j + 1) && c <= |Stack(calls, cut, j)|
    ensures var depth := Depth(calls, cut, j);
            OpenCount(calls, Stack(calls, cut, j), c, calls[j].ts) == if depth < c then depth else c
  {
    if c > 0 {
      PopStops(calls, Stack(calls, cut, j), |Stack(calls, cut, j)|, calls[j].ts);
      assert EntryOpen(calls, cut, j, c - 1);
      if Depth(calls, cut, j) < c {
        PopPrefix(calls, cut, j, c - 1);
      }
    }
  }

  lemma {:induction false} OpenCountOfPrefix(calls: seq<Call>, stack: seq<nat>, c: nat, m: nat, ts: int)
    requires Indices(stack, |calls|) && m <= c <= |stack|
    ensures OpenCount(calls, stack[..c], m, ts) == OpenCount(calls, stack, m, ts)
  {
    if m > 0 {
      OpenCountOfPrefix(calls, stack, c, m - 1, ts);
    }
  }

  lemma PushPrefix(stack: seq<nat>, open: nat, d: nat, e: nat, j: nat)
    requires open <= |stack| && d <= e
    ensures var cutOpen := if open <= d then open else d + 1;
            Push(Prefix(stack, d + 1), cutOpen, d, j) == Prefix(Push(stack, open, e, j), d + 1)
  {
  }

  lemma CutStackStep(calls: seq<Call>, d: int, e: int, j: nat)
    requires j < |calls| && d <= e && Stack(calls, d, j) == Prefix(Stack(calls, e, j), Limit(d) + 1)
    requires Depth(calls, d, j) == if Depth(calls, e, j) <= Limit(d) then Depth(calls, e, j) else Limit(d) + 1
    ensures Stack(calls, d, j + 1) == Prefix(Stack(calls, e, j + 1), Limit(d) + 1)
  {
    PushPrefix(Stack(calls, e, j), Depth(calls, e, j), Limit(d), Limit(e), j);
  }

  /** The stack under `d` is the bottom of the one under `e`. */
  ghost predicate IsPrefix(calls: seq<Call>, d: int, e: int, n: nat)
    requires n <= |calls|
  {
    Stack(calls, d, n) == Prefix(Stack(calls, e, n), Limit(d) + 1)
  }

  /**
   While everything left on the stack is open, cutting at `d` instead of at a larger `e` keeps
   exactly the first `d + 1` entries of the stack...
   */
  lemma {:induction false} CutStackIsPrefix(calls: seq<Call>, d: int, e: int, n: nat)
    requires n <= |calls| && d <= e && AncestorsOpen(calls, e, n)
    ensures IsPrefix(calls, d, e, n)
    decreases n, 0
  {
    if n > 0 {
      CutStackIsPrefix(calls, d, e, n - 1);
      CutDepth(calls, d, e, n - 1);
      CutStackStep(calls, d, e, n - 1);
    }
  }

  /** ... and keeps a call just when its depth is at most `d`, at the same depth. */
  lemma {:induction false} CutDepth(calls: seq<Call>, d: int, e: int, j: nat)
    requires j < |calls| && d <= e && AncestorsOpen(calls, e, j + 1)
    ensures Depth(calls, d, j) == if Depth(calls, e, j) <= Limit(d) then Depth(calls, e, j) else Limit(d) + 1
    decreases j, 1
  {
    var s, c := Stack(calls, e, j), Limit(d) + 1;
    CutStackIsPrefix(calls, d, e, j);
    if c < |s| {
      OpenCountOfPrefix(calls, s, c, c, calls[j].ts);
      PopPrefix(calls, e, j, c);
    }
  }

  // ----- and only then -----

  /** The first call that arrives with a closed entry left on the stack. */
  lemma {:induction false} FirstClosed(calls: seq<Call>, cut: int, n: nat) returns (j: nat, k: nat)
    requires n <= |calls| && !AncestorsOpen(calls, cut, n)
    ensures j < n && AncestorsOpen(calls, cut, j) && !EntryOpen(calls, cut, j, k)
  {
    if AncestorsOpen(calls, cut, n - 1) {
      j := n - 1;
      k :| 0 <= k && !EntryOpen(calls, cut, j, k);
    } else {
      j, k := FirstClosed(calls, cut, n - 1);
    }
  }

  /** Cut just above a closed entry, that entry is popped, and the call is kept although it lies deeper. */
  lemma ClosedIsPopped(calls: seq<Call>, e: int, j: nat, k: nat)
    requires j < |calls| && AncestorsOpen(calls, e, j) && !EntryOpen(calls, e, j, k)
    ensures k <= e && Kept(calls, k, j) && Depth(calls, e, j) > Limit(k)
  {
    var s := Stack(calls, e, j);
    StackShape(calls, e, j);
    PopStops(calls, s, |s|, calls[j].ts);
    CutStackIsPrefix(calls, k, e, j);
    OpenCountOfPrefix(calls, s, k + 1, k + 1, calls[j].ts);
  }

  /** So a cut that is no prefix keeps some call that lies too deep. */
  lemma DeeperIsKept(calls: seq<Call>, e: int) returns (d: int, j: nat)
    requires !AncestorsOpen(calls, e, |calls|)
    ensures d <= e && j < |calls| && Kept(calls, d, j) && Depth(calls, e, j) > Limit(d)
  {
    var k;
    j, k := FirstClosed(calls, e, |calls|);
    ClosedIsPopped(calls, e, j, k);
    d := k;
  }

  /** After such a call the smaller stack is no prefix. */
  lemma DeeperIsNoPrefix(calls: seq<Call>, d: int, e: int, j: nat)
    requires j < |calls| && d <= e && Kept(calls, d, j) && Depth(calls, e, j) > Limit(d)
    ensures !IsPrefix(calls, d, e, j + 1)
  {
    var small, large := Stack(calls, d, j + 1), Stack(calls, e, j + 1);
    assert small[|small| - 1] == j && |small| <= Limit(d) + 1 <= Depth(calls, e, j);
    assert large[|small| - 1] == Stack(calls, e, j)[|small| - 1];
  }

  /** The smaller stacks are all prefixes, at all times, exactly when everything left on the largest is always open. */
  lemma CutStackIsPrefixIff(calls: seq<Call>, e: int)
    ensures AncestorsOpen(calls, e, |calls|) <==>
            forall d, n {:trigger IsPrefix(calls, d, e, n)} :: d <= e && 0 <= n <= |calls| ==> IsPrefix(calls, d, e, n)
  {
    if AncestorsOpen(calls, e, |calls|) {
      forall d, n {:trigger IsPrefix(calls, d, e, n)} | d <= e && 0 <= n <= |calls|
        ensures IsPrefix(calls, d, e, n)
      {
        CutStackIsPrefix(calls, d, e, n);
      }
    } else {
      var d, j := DeeperIsKept(calls, e);
      DeeperIsNoPrefix(calls, d, e, j);
    }
  }
}
