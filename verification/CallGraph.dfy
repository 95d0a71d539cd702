/**
 The call-tree builder itself: linked nodes whose figures and child lists are updated in
 place, proved against the functions of module CallTree.
 */
module CallGraph {
  import opened CallStack
  import opened CallTree

  class Node {
    ghost const id: nat  // the position of the call in the trace
    const name: string
    const ts: int
    const tsEnd: int
    var dur: int
    var exclusiveDur: int
    var children: seq<Node>
    var count: nat
    var max: int
    var min: int
    var depth: int

    constructor (call: Call, ghost id: nat)
      ensures this.id == id && name == call.name && ts == call.ts && tsEnd == call.End()
      ensures Figures() == Single(call.dur) && children == [] && depth == exclusiveDur == 0
    {
      this.id := id;
      name, ts, tsEnd := call.name, call.ts, call.ts + call.dur;
      dur, exclusiveDur, children, count := call.dur, 0, [], 1;
      max, min, depth := call.dur, call.dur, 0;
    }

    function Figures(): Tally
      reads this
    {
      Tally(count, dur, min, max)
    }
  }

  /** The nodes of the trace, in processing order. */
  ghost predicate Describes(all: seq<Node>, calls: seq<Call>) {
    && |all| == |calls|
    && forall i :: 0 <= i < |all| ==>
         all[i].id == i && all[i].name == calls[i].name && all[i].ts == calls[i].ts && all[i].tsEnd == calls[i].End()
  }

  /** No node has been placed yet. */
  ghost predicate Untouched(all: seq<Node>, calls: seq<Call>)
    requires Describes(all, calls)
    reads all
  {
    forall i :: 0 <= i < |all| ==>
      && all[i].Figures() == Single(calls[i].dur) && all[i].children == []
      && all[i].depth == all[i].exclusiveDur == 0
  }

  ghost predicate Linked(all: seq<Node>, nodes: seq<Node>, ids: seq<nat>) {
    && |nodes| == |ids|
    && forall k :: 0 <= k < |ids| ==> ids[k] < |all| && nodes[k] == all[ids[k]]
  }

  /** What a node says about its call, with child nodes named by their positions. */
  datatype Image = Image(kids: seq<nat>, tally: Tally, depth: int, exclusive: int) {
    function Absorb(d: int): Image { this.(tally := tally.Absorb(d)) }
  }

  ghost predicate Holds(all: seq<Node>, image: seq<Image>)
    reads all
  {
    && |image| == |all|
    && forall i {:trigger Shows(all, image, i)} :: 0 <= i < |all| ==> Shows(all, image, i)
  }

  ghost predicate Shows(all: seq<Node>, image: seq<Image>, i: int)
    requires 0 <= i < |all| == |image|
    reads all
  {
    && all[i].Figures() == image[i].tally
    && all[i].depth == image[i].depth
    && all[i].exclusiveDur == image[i].exclusive
    && Linked(all, all[i].children, image[i].kids)
  }

  /** `image` is what the trace specifies after its first `n` calls. */
  ghost predicate Specified(calls: seq<Call>, cut: int, aggregate: bool, n: nat, image: seq<Image>) {
    && n <= |calls| == |image|
    && forall i {:trigger SpecifiedAt(calls, cut, aggregate, n, image, i)} ::
         0 <= i < |calls| ==> SpecifiedAt(calls, cut, aggregate, n, image, i)
  }

  ghost predicate SpecifiedAt(calls: seq<Call>, cut: int, aggregate: bool, n: nat, image: seq<Image>, i: int)
    requires n <= |calls| == |image| && 0 <= i < |calls|
  {
    && image[i].kids == Kids(calls, cut, aggregate, n, i)
    && image[i].tally == TallyOf(calls, cut, aggregate, n, i)
    && (i < n ==> image[i].depth == Depth(calls, cut, i))
  }

  // ----- one step, on images -----

  /** The image after call `j` is placed. */
  ghost function Placed(calls: seq<Call>, cut: int, aggregate: bool, j: nat, image: seq<Image>): seq<Image>
    requires j < |calls| == |image|
  {
    var e, p := EntryFor(calls, cut, aggregate, j), Parent(calls, cut, j);
    if !Kept(calls, cut, j) then image
    else if e != NO_ENTRY then image[e := image[e].Absorb(calls[j].dur)]
    else if p != NO_PARENT then image[p := image[p].(kids := image[p].kids + [j])]
    else image
  }

  lemma PlacedAt(calls: seq<Call>, cut: int, aggregate: bool, j: nat, image: seq<Image>, i: nat)
    requires j < |calls| == |image| && i < |calls| && image[j].depth == Depth(calls, cut, j)
    requires SpecifiedAt(calls, cut, aggregate, j, image, i)
    ensures SpecifiedAt(calls, cut, aggregate, j + 1, Placed(calls, cut, aggregate, j, image), i)
  {
  }

  lemma PlacedSpecified(calls: seq<Call>, cut: int, aggregate: bool, j: nat, image: seq<Image>)
    requires j < |calls| && Specified(calls, cut, aggregate, j, image) && image[j].depth == Depth(calls, cut, j)
    ensures Specified(calls, cut, aggregate, j + 1, Placed(calls, cut, aggregate, j, image))
  {
    var placed := Placed(calls, cut, aggregate, j, image);
    forall i {:trigger SpecifiedAt(calls, cut, aggregate, j + 1, placed, i)} | 0 <= i < |calls|
      ensures SpecifiedAt(calls, cut, aggregate, j + 1, placed, i)
    {
      assert SpecifiedAt(calls, cut, aggregate, j, image, i);
      PlacedAt(calls, cut, aggregate, j, image, i);
    }
  }

  lemma RootsStep(calls: seq<Call>, cut: int, aggregate: bool, j: nat)
    requires j < |calls|
    ensures var roots := Kids(calls, cut, aggregate, j, NO_PARENT);
            Kids(calls, cut, aggregate, j + 1, NO_PARENT) ==
            if Kept(calls, cut, j) && Parent(calls, cut, j) == NO_PARENT
               && EntryFor(calls, cut, aggregate, j) == NO_ENTRY
            then roots + [j] else roots
  {
  }

  // ----- the builder -----

  /** Adds a call of duration `d` to the figures of `node`. */
  method AddTo(all: seq<Node>, node: Node, d: int, ghost calls: seq<Call>, ghost image: seq<Image>)
    requires Describes(all, calls) && Holds(all, image)
    requires node.id < |all| && all[node.id] == node
    modifies node`max, node`min, node`dur, node`count
    ensures Holds(all, image[node.id := image[node.id].Absorb(d)])
  {
    ghost var more := image[node.id := image[node.id].Absorb(d)];
    assert Shows(all, image, node.id);
    if node.max < d { node.max := d; }
    if node.min > d { node.min := d; }
    node.dur := node.dur + d;
    node.count := node.count + 1;
    forall i {:trigger Shows(all, more, i)} | 0 <= i < |all|
      ensures Shows(all, more, i)
    {
      assert old(Shows(all, image, i));
    }
  }

  /** Makes `call` the last child of `node`. */
  method AddChild(all: seq<Node>, node: Node, call: Node, ghost calls: seq<Call>, ghost image: seq<Image>)
    requires Describes(all, calls) && Holds(all, image)
    requires node.id < |all| && all[node.id] == node && call.id < |all| && all[call.id] == call
    modifies node`children
    ensures Holds(all, image[node.id := image[node.id].(kids := image[node.id].kids + [call.id])])
  {
    ghost var more := image[node.id := image[node.id].(kids := image[node.id].kids + [call.id])];
    assert Shows(all, image, node.id);
    node.children := node.children + [call];
    forall i {:trigger Shows(all, more, i)} | 0 <= i < |all|
      ensures Shows(all, more, i)
    {
      assert old(Shows(all, image, i));
    }
  }

  /** Folds `call` into the first of `siblings` that has its name, if there is one. */
  method Fold(all: seq<Node>, siblings: seq<Node>, call: Node,
              ghost calls: seq<Call>, ghost ids: seq<nat>, ghost image: seq<Image>)
    returns (found: bool)
    requires Describes(all, calls) && Holds(all, image)
    requires Linked(all, siblings, ids) && Indices(ids, |calls|)
    requires forall k :: 0 <= k < |siblings| ==> siblings[k] != call
    modifies all
    ensures var at := Lookup(calls, ids, call.name, 0);
            && (found <==> at < |ids|)
            && Holds(all, if found then image[ids[at] := image[ids[at]].Absorb(old(call.dur))] else image)
  {
    found := false;
    var k := 0;
    while k < |siblings|
      invariant k <= |siblings|
      invariant Lookup(calls, ids, call.name, 0) == Lookup(calls, ids, call.name, k)
    {
      if siblings[k].name == call.name {
        AddTo(all, siblings[k], call.dur, calls, image);
        return true;
      }
      k := k + 1;
    }
  }

  /** Folds `call` into a child of `parent` with its name, or makes it a new child. */
  method PlaceUnder(all: seq<Node>, parent: Node, call: Node, aggregate: bool,
                    ghost calls: seq<Call>, ghost p: nat, ghost j: nat, ghost image: seq<Image>)
    requires Describes(all, calls) && Holds(all, image)
    requires p < j < |all| && all[p] == parent && all[j] == call && Indices(image[p].kids, j)
    modifies all
    ensures var ids := image[p].kids;
            var at := Target(calls, aggregate, ids, calls[j].name);
            Holds(all, if at < |ids| then image[ids[at] := image[ids[at]].Absorb(old(call.dur))]
                       else image[p := image[p].(kids := ids + [j])])
  {
    var found := false;
    assert Shows(all, image, p);
    if aggregate {
      found := Fold(all, parent.children, call, calls, image[p].kids, image);
    }
    if !found {
      AddChild(all, parent, call, calls, image);
    }
  }

  /** Folds `call` into a root with its name, or makes it a new root. */
  method PlaceAsRoot(all: seq<Node>, roots: seq<Node>, call: Node, aggregate: bool,
                     ghost calls: seq<Call>, ghost ids: seq<nat>, ghost j: nat, ghost image: seq<Image>)
    returns (newRoots: seq<Node>)
    requires Describes(all, calls) && Holds(all, image)
    requires j < |all| && all[j] == call && Indices(ids, j) && Linked(all, roots, ids)
    modifies all
    ensures var at := Target(calls, aggregate, ids, calls[j].name);
            && Linked(all, newRoots, if at < |ids| then ids else ids + [j])
            && Holds(all, if at < |ids| then image[ids[at] := image[ids[at]].Absorb(old(call.dur))] else image)
  {
    newRoots := roots;
    var found := false;
    if aggregate {
      found := Fold(all, roots, call, calls, ids, image);
    }
    if !found {
      newRoots := roots + [call];
    }
  }

  /** The first `top + 1` entries of the array are those of the stack `ids`. */
  ghost predicate OnStack(all: seq<Node>, stack: array<Node?>, top: int, ids: seq<nat>)
    reads stack
  {
    && -1 <= top < |ids| && top < stack.Length
    && forall k :: 0 <= k <= top ==> ids[k] < |all| && stack[k] == all[ids[k]]
  }

  /** Lowers the stack pointer past the calls that have ended by the start of `call`. */
  method PopEnded(all: seq<Node>, stack: array<Node?>, top: int, call: Node, ghost calls: seq<Call>,
                  ghost ids: seq<nat>)
    returns (newTop: int)
    requires Describes(all, calls) && Indices(ids, |calls|) && OnStack(all, stack, top, ids)
    ensures -1 <= newTop && newTop + 1 == OpenCount(calls, ids, top + 1, call.ts)
  {
    newTop := top;
    while newTop > -1 && call.ts >= stack[newTop].tsEnd
      invariant -1 <= newTop <= top
      invariant OpenCount(calls, ids, newTop + 1, call.ts) == OpenCount(calls, ids, top + 1, call.ts)
    {
      newTop := newTop - 1;
    }
  }

  /** After `n` calls, nodes and roots are as the trace specifies. */
  ghost predicate Progress(all: seq<Node>, roots: seq<Node>, calls: seq<Call>, cut: int, aggregate: bool, n: nat,
                           image: seq<Image>)
    requires n <= |calls|
    reads all
  {
    && Describes(all, calls) && Holds(all, image)
    && Specified(calls, cut, aggregate, n, image)
    && Linked(all, roots, Kids(calls, cut, aggregate, n, NO_PARENT))
  }

  /** Nodes and roots are the call tree of the whole trace. */
  ghost predicate Built(all: seq<Node>, roots: seq<Node>, calls: seq<Call>, cut: int, aggregate: bool)
    reads all
  {
    exists image :: Progress(all, roots, calls, cut, aggregate, |calls|, image)
  }

  /** Places call `j`, whose own depth is already set. */
  method PlaceKept(all: seq<Node>, roots: seq<Node>, parent: Node?, call: Node, aggregate: bool,
                   ghost calls: seq<Call>, ghost cut: int, ghost j: nat, ghost image: seq<Image>)
    returns (newRoots: seq<Node>)
    requires j < |calls| && Progress(all, roots, calls, cut, aggregate, j, image)
    requires Kept(calls, cut, j) && call == all[j] && image[j].depth == Depth(calls, cut, j)
    requires var p := Parent(calls, cut, j); if p == NO_PARENT then parent == null else parent == all[p]
    modifies all
    ensures Progress(all, newRoots, calls, cut, aggregate, j + 1, Placed(calls, cut, aggregate, j, image))
  {
    ghost var p := Parent(calls, cut, j);
    PlacedSpecified(calls, cut, aggregate, j, image);
    RootsStep(calls, cut, aggregate, j);
    assert SpecifiedAt(calls, cut, aggregate, j, image, j);
    FreshTally(calls, cut, aggregate, j, j);
    assert Shows(all, image, j);
    assert call.dur == calls[j].dur;
    newRoots := roots;
    if parent != null {
      assert SpecifiedAt(calls, cut, aggregate, j, image, p);
      PlaceUnder(all, parent, call, aggregate, calls, p, j, image);
    } else {
      newRoots := PlaceAsRoot(all, roots, call, aggregate, calls, Kids(calls, cut, aggregate, j, NO_PARENT), j, image);
    }
  }

  ghost function StartImage(calls: seq<Call>): seq<Image> {
    seq(|calls|, i requires 0 <= i < |calls| => Image([], Single(calls[i].dur), 0, 0))
  }

  lemma StartSpecified(calls: seq<Call>, cut: int, aggregate: bool)
    ensures Specified(calls, cut, aggregate, 0, StartImage(calls))
  {
  }

  /** Recording the depth of call `j` before it is placed does not disturb the calls before it. */
  lemma DepthSpecified(calls: seq<Call>, cut: int, aggregate: bool, j: nat, image: seq<Image>, depth: int)
    requires j < |calls| && Specified(calls, cut, aggregate, j, image)
    ensures Specified(calls, cut, aggregate, j, image[j := image[j].(depth := depth)])
  {
    var deeper := image[j := image[j].(depth := depth)];
    forall i {:trigger SpecifiedAt(calls, cut, aggregate, j, deeper, i)} | 0 <= i < |calls|
      ensures SpecifiedAt(calls, cut, aggregate, j, deeper, i)
    {
      assert SpecifiedAt(calls, cut, aggregate, j, image, i);
    }
  }

  method SetDepth(all: seq<Node>, ghost roots: seq<Node>, call: Node, depth: int,
                  ghost calls: seq<Call>, ghost cut: int, ghost aggregate: bool, ghost j: nat, ghost image: seq<Image>)
    requires j < |calls| && Progress(all, roots, calls, cut, aggregate, j, image) && call == all[j]
    modifies call`depth
    ensures Progress(all, roots, calls, cut, aggregate, j, image[j := image[j].(depth := depth)])
    ensures call.depth == depth
  {
    DepthSpecified(calls, cut, aggregate, j, image, depth);
    call.depth := depth;
    ghost var deeper := image[j := image[j].(depth := depth)];
    forall i {:trigger Shows(all, deeper, i)} | 0 <= i < |all|
      ensures Shows(all, deeper, i)
    {
      assert old(Shows(all, image, i));
    }
  }

  /** A call that is cut off changes nothing but its own depth. */
  lemma CutProgress(all: seq<Node>, roots: seq<Node>, calls: seq<Call>, cut: int, aggregate: bool, j: nat,
                    image: seq<Image>)
    requires j < |calls| && Progress(all, roots, calls, cut, aggregate, j, image)
    requires !Kept(calls, cut, j) && image[j].depth == Depth(calls, cut, j)
    ensures Progress(all, roots, calls, cut, aggregate, j + 1, image)
    ensures all[j].dur == calls[j].dur
  {
    PlacedSpecified(calls, cut, aggregate, j, image);
    RootsStep(calls, cut, aggregate, j);
    assert SpecifiedAt(calls, cut, aggregate, j, image, j);
    FreshTally(calls, cut, aggregate, j, j);
    assert Shows(all, image, j);
  }

  /** The recorded depth of a call on the stack is its position there. */
  lemma ParentDepth(all: seq<Node>, roots: seq<Node>, calls: seq<Call>, cut: int, aggregate: bool, n: nat,
                    image: seq<Image>, k: nat)
    requires n <= |calls| && Progress(all, roots, calls, cut, aggregate, n, image) && k < |Stack(calls, cut, n)|
    ensures Stack(calls, cut, n)[k] < |all| && all[Stack(calls, cut, n)[k]].depth == k
  {
    StackDepth(calls, cut, n, k);
    assert Shows(all, image, Stack(calls, cut, n)[k]);
    assert SpecifiedAt(calls, cut, aggregate, n, image, Stack(calls, cut, n)[k]);
  }

  /** Pops the calls that have ended and finds the parent and depth of `call`, which is number `j`. */
  method FindParent(all: seq<Node>, stack: array<Node?>, top: int, call: Node, ghost roots: seq<Node>,
                    ghost calls: seq<Call>, ghost cut: int, ghost aggregate: bool, ghost j: nat,
                    ghost image: seq<Image>)
    returns (newTop: int, parent: Node?, depth: int)
    requires j < |calls| && Progress(all, roots, calls, cut, aggregate, j, image) && call == all[j]
    requires OnStack(all, stack, top, Stack(calls, cut, j)) && top == |Stack(calls, cut, j)| - 1
    ensures newTop + 1 == depth == Depth(calls, cut, j) && OnStack(all, stack, newTop, Stack(calls, cut, j))
    ensures var p := Parent(calls, cut, j); if p == NO_PARENT then parent == null else parent == all[p]
  {
    newTop := PopEnded(all, stack, top, call, calls, Stack(calls, cut, j));
    parent, depth := null, 0;
    if newTop > -1 {
      ParentDepth(all, roots, calls, cut, aggregate, j, image, newTop);
      parent := stack[newTop];
      depth := parent.depth + 1;
    }
  }

  /** Pushes call `j` on top of those still open. */
  method PushCall(all: seq<Node>, stack: array<Node?>, top: int, call: Node, ghost calls: seq<Call>, ghost cut: int,
                  ghost j: nat)
    returns (newTop: int)
    requires j < |calls| == |all| == stack.Length && call == all[j] && Kept(calls, cut, j)
    requires top + 1 == Depth(calls, cut, j)
    requires OnStack(all, stack, top, Stack(calls, cut, j))
    modifies stack
    ensures newTop == |Stack(calls, cut, j + 1)| - 1 && OnStack(all, stack, newTop, Stack(calls, cut, j + 1))
  {
    StackIsShort(calls, cut, j);
    newTop := top + 1;
    stack[newTop] := call;
  }

  /** Places call `j` under `parent` at `depth`, or adds it to the excluded time. */
  method PlaceCall(all: seq<Node>, roots: seq<Node>, parent: Node?, depth: int, call: Node, depthCut: int,
                   aggregate: bool, excludedTime: int, ghost calls: seq<Call>, ghost j: nat, ghost image: seq<Image>)
    returns (newRoots: seq<Node>, newExcluded: int, pushed: bool, ghost newImage: seq<Image>)
    requires j < |calls| && Progress(all, roots, calls, depthCut, aggregate, j, image) && call == all[j]
    requires depth == Depth(calls, depthCut, j) && excludedTime == Excluded(calls, depthCut, j)
    requires var p := Parent(calls, depthCut, j); if p == NO_PARENT then parent == null else parent == all[p]
    modifies all
    ensures Progress(all, newRoots, calls, depthCut, aggregate, j + 1, newImage)
    ensures newExcluded == Excluded(calls, depthCut, j + 1) && (pushed <==> Kept(calls, depthCut, j))
  {
    SetDepth(all, roots, call, depth, calls, depthCut, aggregate, j, image);
    newImage := image[j := image[j].(depth := depth)];
    newRoots, newExcluded := roots, excludedTime;
    if parent != null && call.depth > depthCut {
      CutProgress(all, roots, calls, depthCut, aggregate, j, newImage);
      newExcluded := excludedTime + call.dur;
      pushed := false;
    } else {
      newRoots := PlaceKept(all, roots, parent, call, aggregate, calls, depthCut, j, newImage);
      newImage := Placed(calls, depthCut, aggregate, j, newImage);
      pushed := true;
    }
  }

  /** After `j` calls: nodes, roots, stack and excluded time are all as the trace specifies. */
  ghost predicate Underway(all: seq<Node>, stack: array<Node?>, top: int, roots: seq<Node>, excludedTime: int,
                           calls: seq<Call>, cut: int, aggregate: bool, j: nat, image: seq<Image>)
    requires j <= |calls|
    reads all, stack
  {
    && Progress(all, roots, calls, cut, aggregate, j, image)
    && top == |Stack(calls, cut, j)| - 1 && OnStack(all, stack, top, Stack(calls, cut, j))
    && stack.Length == |calls|
    && excludedTime == Excluded(calls, cut, j)
  }

  /** Processes call `j`: pop, find the parent, place or cut, push. */
  method ProcessCall(all: seq<Node>, stack: array<Node?>, top: int, roots: seq<Node>, excludedTime: int,
                     depthCut: int, aggregate: bool, ghost calls: seq<Call>, j: nat, ghost image: seq<Image>)
    returns (newTop: int, newRoots: seq<Node>, newExcluded: int, ghost newImage: seq<Image>)
    requires j < |all| == |calls|
    requires Underway(all, stack, top, roots, excludedTime, calls, depthCut, aggregate, j, image)
    modifies all, stack
    ensures Underway(all, stack, newTop, newRoots, newExcluded, calls, depthCut, aggregate, j + 1, newImage)
  {
    var call := all[j];
    var parent, depth, pushed;
    newTop, parent, depth := FindParent(all, stack, top, call, roots, calls, depthCut, aggregate, j, image);
    newRoots, newExcluded, pushed, newImage :=
      PlaceCall(all, roots, parent, depth, call, depthCut, aggregate, excludedTime, calls, j, image);
    if pushed {
      newTop := PushCall(all, stack, newTop, call, calls, depthCut, j);
    }
  }

  lemma StartUnderway(all: seq<Node>, stack: array<Node?>, calls: seq<Call>, cut: int, aggregate: bool)
    requires Describes(all, calls) && Untouched(all, calls) && stack.Length == |calls|
    ensures Underway(all, stack, -1, [], 0, calls, cut, aggregate, 0, StartImage(calls))
  {
    StartSpecified(calls, cut, aggregate);
    assert Progress(all, [], calls, cut, aggregate, 0, StartImage(calls));
  }

  /** Processes all calls in turn, on an empty stack. */
  method ProcessAllCalls(all: seq<Node>, stack: array<Node?>, depthCut: int, aggregate: bool, ghost calls: seq<Call>)
    returns (top: int, roots: seq<Node>, excludedTime: int, ghost image: seq<Image>)
    requires |all| == |calls| && Underway(all, stack, -1, [], 0, calls, depthCut, aggregate, 0, StartImage(calls))
    modifies all, stack
    ensures Underway(all, stack, top, roots, excludedTime, calls, depthCut, aggregate, |calls|, image)
  {
    top, roots, excludedTime, image := -1, [], 0, StartImage(calls);
    var j := 0;
    while j < |all|
      invariant j <= |all| && Underway(all, stack, top, roots, excludedTime, calls, depthCut, aggregate, j, image)
    {
      top, roots, excludedTime, image :=
        ProcessCall(all, stack, top, roots, excludedTime, depthCut, aggregate, calls, j, image);
      j := j + 1;
    }
  }

  /** Builds the call tree of a trace in one pass. */
  method BuildCallTree(all: seq<Node>, depthCut: int, aggregate: bool, ghost calls: seq<Call>)
    returns (roots: seq<Node>, excludedTime: int)
    requires Describes(all, calls) && Untouched(all, calls)
    modifies all
    ensures Built(all, roots, calls, depthCut, aggregate)
    ensures excludedTime == Excluded(calls, depthCut, |calls|)
  {
    var stack := new Node?[|all|];
    StartUnderway(all, stack, calls, depthCut, aggregate);
    var top;
    ghost var image;
    top, roots, excludedTime, image := ProcessAllCalls(all, stack, depthCut, aggregate, calls);
  }
}
