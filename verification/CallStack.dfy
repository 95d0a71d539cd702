/**
 The stack of open calls that drives call-tree reconstruction.

 A trace is a sequence of completed calls.  When call `j` arrives, the builder pops
 every call on top of its stack that has already ended; what remains are the calls
 still open, and the innermost of them becomes the parent of `j`.  A call that would
 land below the depth cut is dropped and never pushed.
 */
module CallStack {

  datatype Call = Call(name: string, ts: int, dur: int) {
    function End(): int { ts + dur }

    predicate NoLaterThan(that: Call) { ts <= that.ts }

    predicate EndsWithin(that: Call) { End() <= that.End() }
  }

  // The two predicates below quantify over pairs of calls; they are instantiated only at
  // pairs that a proof mentions with NoLaterThan or EndsWithin.

  ghost predicate Sorted(calls: seq<Call>) {
    forall i, j {:trigger calls[i].NoLaterThan(calls[j])} ::
      0 <= i < j < |calls| ==> calls[i].NoLaterThan(calls[j])
  }

  ghost predicate NonNegative(calls: seq<Call>) {
    forall i :: 0 <= i < |calls| ==> calls[i].dur >= 0
  }

  /** A later call either starts after an earlier one has ended or ends within it. */
  ghost predicate Nested(calls: seq<Call>) {
    forall i, j {:trigger calls[j].EndsWithin(calls[i])} ::
      0 <= i < j < |calls| ==> calls[j].ts >= calls[i].End() || calls[j].EndsWithin(calls[i])
  }

  ghost predicate WellNested(calls: seq<Call>) {
    Sorted(calls) && NonNegative(calls) && Nested(calls)
  }

  predicate Indices(stack: seq<nat>, n: nat) {
    forall k :: 0 <= k < |stack| ==> stack[k] < n
  }

  predicate Increasing(s: seq<nat>) {
    forall a, b :: 0 <= a < b < |s| ==> s[a] < s[b]
  }

  /**
   Lowers the stack pointer from `m` past the calls that have ended by time `ts`: the
   first `OpenCount` entries of the stack are left.
   */
  function OpenCount(calls: seq<Call>, stack: seq<nat>, m: nat, ts: int): (k: nat)
    requires Indices(stack, |calls|) && m <= |stack|
    ensures k <= m
  {
    if m > 0 && ts >= calls[stack[m - 1]].End() then OpenCount(calls, stack, m - 1, ts) else m
  }

  /** What is popped has ended; what is left on top has not. */
  lemma {:induction false} PopStops(calls: seq<Call>, stack: seq<nat>, m: nat, ts: int)
    requires Indices(stack, |calls|) && m <= |stack|
    ensures var k := OpenCount(calls, stack, m, ts);
            && (k > 0 ==> ts < calls[stack[k - 1]].End())
            && forall i :: k <= i < m ==> calls[stack[i]].End() <= ts
  {
    if m > 0 && ts >= calls[stack[m - 1]].End() {
      PopStops(calls, stack, m - 1, ts);
    }
  }

  /** The deepest level a call may have: roots are never cut. */
  function Limit(cut: int): nat { if cut < 0 then 0 else cut }

  /** Call `j` lands on the first `open` entries, unless that is deeper than the limit. */
  function Push(stack: seq<nat>, open: nat, limit: nat, j: nat): seq<nat>
    requires open <= |stack|
  {
    if open <= limit then stack[..open] + [j] else stack[..open]
  }

  /** The stack after the first `n` calls. */
  function Stack(calls: seq<Call>, cut: int, n: nat): (stack: seq<nat>)
    requires n <= |calls|
    ensures Indices(stack, n)
  {
    if n == 0 then [] else
      var stack := Stack(calls, cut, n - 1);
      Push(stack, OpenCount(calls, stack, |stack|, calls[n - 1].ts), Limit(cut), n - 1)
  }

  /** How many calls are still open when call `j` arrives: its depth, if it is kept. */
  function Depth(calls: seq<Call>, cut: int, j: nat): (k: nat)
    requires j < |calls|
    ensures k <= |Stack(calls, cut, j)|
  {
    var stack := Stack(calls, cut, j);
    OpenCount(calls, stack, |stack|, calls[j].ts)
  }

  predicate Kept(calls: seq<Call>, cut: int, j: nat)
    requires j < |calls|
  {
    Depth(calls, cut, j) <= Limit(cut)
  }

  const NO_PARENT: int := -1

  /** The call that `j` is hung under, or NO_PARENT for a root. */
  function Parent(calls: seq<Call>, cut: int, j: nat): (p: int)
    requires j < |calls|
    ensures NO_PARENT <= p < j
  {
    var depth := Depth(calls, cut, j);
    if depth == 0 then NO_PARENT else Stack(calls, cut, j)[depth - 1]
  }

  // ----- what is on the stack -----

  /** The stack is increasing and never overfull. */
  lemma {:induction false} StackShape(calls: seq<Call>, cut: int, n: nat)
    requires n <= |calls|
    ensures var s := Stack(calls, cut, n);
            Increasing(s) && |s| <= Limit(cut) + 1
  {
    if n > 0 {
      StackShape(calls, cut, n - 1);
    }
  }

  /** It never holds more entries than there were calls. */
  lemma {:induction false} StackIsShort(calls: seq<Call>, cut: int, n: nat)
    requires n <= |calls|
    ensures |Stack(calls, cut, n)| <= n
  {
    if n > 0 {
      StackIsShort(calls, cut, n - 1);
    }
  }

  /** A call on the stack sits there at its depth. */
  lemma {:induction false} StackDepth(calls: seq<Call>, cut: int, n: nat, k: nat)
    requires n <= |calls| && k < |Stack(calls, cut, n)|
    ensures Depth(calls, cut, Stack(calls, cut, n)[k]) == k
  {
    if k < Depth(calls, cut, n - 1) {
      StackDepth(calls, cut, n - 1, k);
    }
  }

  /** Only kept calls are ever on the stack. */
  lemma {:induction false} StackKept(calls: seq<Call>, cut: int, n: nat, k: nat)
    requires n <= |calls| && k < |Stack(calls, cut, n)|
    ensures Kept(calls, cut, Stack(calls, cut, n)[k])
  {
    if k < Depth(calls, cut, n - 1) {
      StackKept(calls, cut, n - 1, k);
    }
  }

  /** A call lies one level below its parent, which is kept. */
  lemma DepthOfParent(calls: seq<Call>, cut: int, j: nat)
    requires j < |calls|
    ensures var p := Parent(calls, cut, j);
            Depth(calls, cut, j) == if p == NO_PARENT then 0 else Depth(calls, cut, p) + 1
    ensures Parent(calls, cut, j) != NO_PARENT ==> Kept(calls, cut, Parent(calls, cut, j))
  {
    var depth := Depth(calls, cut, j);
    if depth > 0 {
      StackDepth(calls, cut, j, depth - 1);
      StackKept(calls, cut, j, depth - 1);
    }
  }

  /**
   The stack entry `stack[k]` answers for call `i`: it is `i` itself or, in a trace that
   may be out of order, a later call that started after `i` ended.  With `k == |stack|`,
   no entry needs to: the trace is in order and `i` ended before the latest arrival.
   */
  ghost predicate AnswersFor(calls: seq<Call>, inOrder: bool, stack: seq<nat>, k: nat, n: nat, i: nat)
    requires i < n <= |calls| && Indices(stack, |calls|)
  {
    if k < |stack| then stack[k] == i || (!inOrder && i < stack[k] && calls[i].End() <= calls[stack[k]].ts)
    else k == |stack| && inOrder && calls[i].End() <= calls[n - 1].ts
  }

  /** Some entry answers for every kept call: whoever pops an entry takes over from it. */
  lemma {:induction false} KeptIsAnsweredFor(calls: seq<Call>, cut: int, inOrder: bool, n: nat, i: nat) returns (k: nat)
    requires i < n <= |calls| && if inOrder then Sorted(calls) else NonNegative(calls)
    requires Kept(calls, cut, i)
    ensures AnswersFor(calls, inOrder, Stack(calls, cut, n), k, n, i)
  {
    var stack, open := Stack(calls, cut, n - 1), Depth(calls, cut, n - 1);
    if i == n - 1 {
      k := open;
    } else {
      k := KeptIsAnsweredFor(calls, cut, inOrder, n - 1, i);
      PopStops(calls, stack, |stack|, calls[n - 1].ts);
      assert inOrder && n > 1 ==> calls[n - 2].NoLaterThan(calls[n - 1]);
      // Whoever shrinks the stack is shallow enough to be pushed itself.
      StackShape(calls, cut, n - 1);
      if k >= open {
        k := if inOrder then |Stack(calls, cut, n)| else open;
      }
    }
  }

  /** A kept call later than the innermost open one has ended. */
  lemma {:induction false} NotOpenHasEnded(calls: seq<Call>, cut: int, inOrder: bool, j: nat, i: nat)
    requires i < j < |calls| && if inOrder then Sorted(calls) else NonNegative(calls)
    requires Kept(calls, cut, i) && Parent(calls, cut, j) < i
    ensures calls[i].End() <= calls[j].ts
  {
    var k := KeptIsAnsweredFor(calls, cut, inOrder, j, i);
    if k < |Stack(calls, cut, j)| {
      AboveParentHasEnded(calls, cut, j, k);
    } else {
      assert calls[j - 1].NoLaterThan(calls[j]);
    }
  }

  /** Stack entries above the innermost open one have ended, and they are the ones later than it. */
  lemma AboveParentHasEnded(calls: seq<Call>, cut: int, j: nat, k: nat)
    requires j < |calls| && k < |Stack(calls, cut, j)|
    ensures Parent(calls, cut, j) < Stack(calls, cut, j)[k] ==> calls[Stack(calls, cut, j)[k]].End() <= calls[j].ts
  {
    StackShape(calls, cut, j);
    PopStops(calls, Stack(calls, cut, j), |Stack(calls, cut, j)|, calls[j].ts);
  }

  lemma FirstPush(calls: seq<Call>, cut: int)
    requires |calls| > 0
    ensures Stack(calls, cut, 1) == [0] && Kept(calls, cut, 0)
  {
    assert Stack(calls, cut, 0) == [];
  }
}
