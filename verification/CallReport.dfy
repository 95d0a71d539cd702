/**
 What is computed over a finished call tree: exclusive times, written back into the nodes,
 and the nodes with a given name.
 */
module CallReport {
  import opened Common
  import opened Forests
  import opened CallStack
  import opened CallTree
  import opened CallForest
  import opened CallTime
  import opened CallGraph

  /** `image` with the exclusive times of the calls in `f` filled in. */
  ghost function Filled(calls: seq<Call>, cut: int, aggregate: bool, image: seq<Image>, f: Forest<nat>): (r: seq<Image>)
    requires |image| == |calls|
    ensures |r| == |calls|
    decreases f
  {
    match f
    case Empty => image
    case Grow(before, root, kids) =>
      var image1 := Filled(calls, cut, aggregate, image, before);
      Filled(calls, cut, aggregate, FilledAt(calls, cut, aggregate, image1, root), kids)
  }

  ghost function FilledAt(calls: seq<Call>, cut: int, aggregate: bool, image: seq<Image>, i: nat): (r: seq<Image>)
    requires |image| == |calls|
    ensures |r| == |calls|
  {
    if i < |calls| then image[i := image[i].(exclusive := Exclusive(calls, cut, aggregate, |calls|, i))] else image
  }

  /** Filling in writes exactly the calls of the forest, and nothing but their exclusive times. */
  lemma {:induction false} FilledIs(calls: seq<Call>, cut: int, aggregate: bool, image: seq<Image>, f: Forest<nat>,
                                    i: nat)
    requires |image| == |calls| && i < |calls|
    ensures var x := if Member(f, i) then Exclusive(calls, cut, aggregate, |calls|, i) else image[i].exclusive;
            Filled(calls, cut, aggregate, image, f)[i] == image[i].(exclusive := x)
    decreases f
  {
    if f.Grow? {
      var image1 := Filled(calls, cut, aggregate, image, f.before);
      FilledIs(calls, cut, aggregate, image, f.before, i);
      FilledIs(calls, cut, aggregate, FilledAt(calls, cut, aggregate, image1, f.root), f.kids, i);
    }
  }

  lemma FilledSpecified(calls: seq<Call>, cut: int, aggregate: bool, image: seq<Image>, f: Forest<nat>)
    requires Specified(calls, cut, aggregate, |calls|, image)
    ensures Specified(calls, cut, aggregate, |calls|, Filled(calls, cut, aggregate, image, f))
  {
    var filled := Filled(calls, cut, aggregate, image, f);
    forall i {:trigger SpecifiedAt(calls, cut, aggregate, |calls|, filled, i)} | 0 <= i < |calls|
      ensures SpecifiedAt(calls, cut, aggregate, |calls|, filled, i)
    {
      assert SpecifiedAt(calls, cut, aggregate, |calls|, image, i);
      FilledIs(calls, cut, aggregate, image, f, i);
    }
  }

  lemma FilledAtSpecified(calls: seq<Call>, cut: int, aggregate: bool, image: seq<Image>, k: nat)
    requires Specified(calls, cut, aggregate, |calls|, image)
    ensures Specified(calls, cut, aggregate, |calls|, FilledAt(calls, cut, aggregate, image, k))
  {
    var filled := FilledAt(calls, cut, aggregate, image, k);
    forall i {:trigger SpecifiedAt(calls, cut, aggregate, |calls|, filled, i)} | 0 <= i < |calls|
      ensures SpecifiedAt(calls, cut, aggregate, |calls|, filled, i)
    {
      assert SpecifiedAt(calls, cut, aggregate, |calls|, image, i);
    }
  }

  /** Sums the durations of the first-level entries under `p`. */
  method SumDurations(all: seq<Node>, nodes: seq<Node>, ghost calls: seq<Call>, ghost cut: int, ghost aggregate: bool,
                      ghost p: nat, ghost image: seq<Image>)
    returns (total: int)
    requires Describes(all, calls) && Holds(all, image) && Specified(calls, cut, aggregate, |calls|, image)
    requires Linked(all, nodes, Kids(calls, cut, aggregate, |calls|, p))
    ensures total == AllKidTime(calls, cut, aggregate, |calls|, p)
  {
    total := 0;
    for j := 0 to |nodes|
      invariant total == KidTime(calls, cut, aggregate, |calls|, p, j)
    {
      ghost var kid := Kids(calls, cut, aggregate, |calls|, p)[j];
      assert Shows(all, image, kid) && SpecifiedAt(calls, cut, aggregate, |calls|, image, kid);
      total := total + nodes[j].dur;
    }
  }

  /** Writes the exclusive time of call `id` alone. */
  method WriteOne(all: seq<Node>, node: Node, ghost calls: seq<Call>, ghost cut: int, ghost aggregate: bool,
                  ghost id: nat, ghost image: seq<Image>)
    requires Describes(all, calls) && Holds(all, image) && Specified(calls, cut, aggregate, |calls|, image)
    requires id < |calls| && node == all[id]
    modifies node`exclusiveDur
    ensures var written := FilledAt(calls, cut, aggregate, image, id);
            Holds(all, written) && Specified(calls, cut, aggregate, |calls|, written)
  {
    assert Shows(all, image, id) && SpecifiedAt(calls, cut, aggregate, |calls|, image, id);
    var childrenTotal := SumDurations(all, node.children, calls, cut, aggregate, id, image);
    node.exclusiveDur := node.dur - childrenTotal;
    ghost var written := FilledAt(calls, cut, aggregate, image, id);
    forall i {:trigger Shows(all, written, i)} | 0 <= i < |all|
      ensures Shows(all, written, i)
    {
      assert old(Shows(all, image, i));
    }
    FilledAtSpecified(calls, cut, aggregate, image, id);
  }

  /** Writes the exclusive time of call `id` and of every call below it. */
  method WriteSubtree(all: seq<Node>, node: Node, ghost calls: seq<Call>, ghost cut: int, ghost aggregate: bool,
                      ghost id: nat, ghost image: seq<Image>)
    requires Describes(all, calls) && Holds(all, image) && Specified(calls, cut, aggregate, |calls|, image)
    requires id < |calls| && node == all[id]
    modifies (set x | x in all)`exclusiveDur
    ensures Holds(all, Filled(calls, cut, aggregate, FilledAt(calls, cut, aggregate, image, id),
                              ForestUnder(calls, cut, aggregate, |calls|, id)))
    decreases |calls| - id, 1
  {
    WriteOne(all, node, calls, cut, aggregate, id, image);
    ghost var written := FilledAt(calls, cut, aggregate, image, id);
    assert Shows(all, written, id) && SpecifiedAt(calls, cut, aggregate, |calls|, written, id);
    CalculateExclusiveTimes(all, node.children, calls, cut, aggregate, id, written);
  }

  /** Writes the exclusive time of every node of the forest under `p`. */
  method CalculateExclusiveTimes(all: seq<Node>, nodes: seq<Node>, ghost calls: seq<Call>, ghost cut: int,
                                 ghost aggregate: bool, ghost p: int, ghost image: seq<Image>)
    requires Describes(all, calls) && Holds(all, image) && Specified(calls, cut, aggregate, |calls|, image)
    requires p >= NO_PARENT && Linked(all, nodes, Kids(calls, cut, aggregate, |calls|, p))
    modifies (set node | node in all)`exclusiveDur
    ensures Holds(all, Filled(calls, cut, aggregate, image, ForestUnder(calls, cut, aggregate, |calls|, p)))
    decreases |calls| - p, 0
  {
    ghost var n, ids := |calls|, Kids(calls, cut, aggregate, |calls|, p);
    for i := 0 to |nodes|
      invariant Holds(all, Filled(calls, cut, aggregate, image, Unfold(calls, cut, aggregate, n, p, i)))
    {
      ghost var done := Unfold(calls, cut, aggregate, n, p, i);
      HungUnderParent(calls, cut, aggregate, n, p, i);
      FilledSpecified(calls, cut, aggregate, image, done);
      WriteSubtree(all, nodes[i], calls, cut, aggregate, ids[i], Filled(calls, cut, aggregate, image, done));
    }
  }

  // ----- search by name -----

  /** The nodes of the calls in `ids` that are called `name`, in order. */
  ghost function Named(all: seq<Node>, calls: seq<Call>, name: string, ids: seq<nat>): seq<Node>
    requires |all| == |calls|
  {
    if ids == [] then [] else
      var rest, i := Named(all, calls, name, ids[..|ids| - 1]), ids[|ids| - 1];
      if i < |calls| && calls[i].name == name then rest + [all[i]] else rest
  }

  lemma {:induction false} NamedConcat(all: seq<Node>, calls: seq<Call>, name: string, a: seq<nat>, b: seq<nat>)
    requires |all| == |calls|
    ensures Named(all, calls, name, a + b) == Named(all, calls, name, a) + Named(all, calls, name, b)
  {
    if b == [] {
      assert a + b == a;
    } else {
      assert (a + b)[..|a + b| - 1] == a + b[..|b| - 1];
      NamedConcat(all, calls, name, a, b[..|b| - 1]);
    }
  }

  /** `found`, then the nodes of forest `f` that are called `name`, in preorder. */
  ghost function NamedOnto(all: seq<Node>, calls: seq<Call>, name: string, found: seq<Node>, f: Forest<nat>): seq<Node>
    requires |all| == |calls|
    decreases f
  {
    match f
    case Empty => found
    case Grow(before, root, kids) =>
      var hits := NamedOnto(all, calls, name, found, before) + Named(all, calls, name, [root]);
      NamedOnto(all, calls, name, hits, kids)
  }

  lemma {:induction false} NamedOntoIsPreorder(all: seq<Node>, calls: seq<Call>, name: string, found: seq<Node>,
                                               f: Forest<nat>)
    requires |all| == |calls|
    ensures NamedOnto(all, calls, name, found, f) == found + Named(all, calls, name, Preorder(f))
    decreases f
  {
    match f
    case Empty =>
    case Grow(before, root, kids) =>
      var a, b, c := Preorder(before), [root], Preorder(kids);
      NamedOntoIsPreorder(all, calls, name, found, before);
      NamedOntoIsPreorder(all, calls, name, found + Named(all, calls, name, a) + Named(all, calls, name, b), kids);
      NamedConcat(all, calls, name, a, b);
      NamedConcat(all, calls, name, a + b, c);
      Regroup(found, Named(all, calls, name, a), Named(all, calls, name, b));
      Regroup(found, Named(all, calls, name, a) + Named(all, calls, name, b), Named(all, calls, name, c));
  }

  /** Appends the node of call `id`, if it is called `name`, and those below it. */
  method FindInSubtree(all: seq<Node>, node: Node, name: string, found: seq<Node>,
                       ghost calls: seq<Call>, ghost cut: int, ghost aggregate: bool, ghost id: nat,
                       ghost image: seq<Image>)
    returns (result: seq<Node>)
    requires Describes(all, calls) && Holds(all, image) && Specified(calls, cut, aggregate, |calls|, image)
    requires id < |calls| && node == all[id]
    ensures result == NamedOnto(all, calls, name, found + Named(all, calls, name, [id]),
                                ForestUnder(calls, cut, aggregate, |calls|, id))
    decreases |calls| - id, 1
  {
    assert Shows(all, image, id) && SpecifiedAt(calls, cut, aggregate, |calls|, image, id);
    assert [id][..0] == [];
    result := found;
    if node.name == name {
      result := result + [node];
    }
    assert result == found + Named(all, calls, name, [id]);
    result := FindNodesByName(all, node.children, name, result, calls, cut, aggregate, id, image);
  }

  /** Appends the nodes called `name` in the forest under `p`, in preorder. */
  method FindNodesByName(all: seq<Node>, nodes: seq<Node>, name: string, found: seq<Node>,
                         ghost calls: seq<Call>, ghost cut: int, ghost aggregate: bool, ghost p: int,
                         ghost image: seq<Image>)
    returns (result: seq<Node>)
    requires Describes(all, calls) && Holds(all, image) && Specified(calls, cut, aggregate, |calls|, image)
    requires p >= NO_PARENT && Linked(all, nodes, Kids(calls, cut, aggregate, |calls|, p))
    ensures result == NamedOnto(all, calls, name, found, ForestUnder(calls, cut, aggregate, |calls|, p))
    decreases |calls| - p, 0
  {
    result := found;
    ghost var n, ids := |calls|, Kids(calls, cut, aggregate, |calls|, p);
    for i := 0 to |nodes|
      invariant result == NamedOnto(all, calls, name, found, Unfold(calls, cut, aggregate, n, p, i))
    {
      HungUnderParent(calls, cut, aggregate, n, p, i);
      result := FindInSubtree(all, nodes[i], name, result, calls, cut, aggregate, ids[i], image);
      assert Unfold(calls, cut, aggregate, n, p, i + 1)
          == Grow(Unfold(calls, cut, aggregate, n, p, i), ids[i], ForestUnder(calls, cut, aggregate, n, ids[i]));
    }
  }

  /**
   What the search finds among the roots: the calls of that name in preorder; in a plain tree,
   the uncut calls of that name in the order they were processed.
   */
  lemma SearchFindsKeptCalls(all: seq<Node>, calls: seq<Call>, cut: int, name: string, found: seq<Node>)
    requires |all| == |calls|
    ensures NamedOnto(all, calls, name, found, ForestUnder(calls, cut, false, |calls|, NO_PARENT))
         == found + Named(all, calls, name, KeptBefore(calls, cut, |calls|))
  {
    NamedOntoIsPreorder(all, calls, name, found, ForestUnder(calls, cut, false, |calls|, NO_PARENT));
    PreorderIsKeptTrace(calls, cut, |calls|);
  }

  /** Every entry in `f` has its exclusive time. */
  ghost predicate Timed(all: seq<Node>, calls: seq<Call>, cut: int, aggregate: bool, f: Forest<nat>)
    requires |all| == |calls|
    reads all
  {
    forall i {:trigger Member(f, i)} :: 0 <= i < |calls| && Member(f, i) ==>
      all[i].exclusiveDur == Exclusive(calls, cut, aggregate, |calls|, i)
  }

  lemma FilledIsTimed(all: seq<Node>, calls: seq<Call>, cut: int, aggregate: bool, image: seq<Image>, f: Forest<nat>)
    requires |all| == |calls| == |image| && Holds(all, Filled(calls, cut, aggregate, image, f))
    ensures Timed(all, calls, cut, aggregate, f)
  {
    forall i {:trigger Member(f, i)} | 0 <= i < |calls| && Member(f, i)
      ensures all[i].exclusiveDur == Exclusive(calls, cut, aggregate, |calls|, i)
    {
      assert Shows(all, Filled(calls, cut, aggregate, image, f), i);
      FilledIs(calls, cut, aggregate, image, f, i);
    }
  }

  /**
   The whole analysis: builds the tree, writes the exclusive time of every entry reachable
   from the roots, and lists the entries called `name`.
   */
  method AnalyzeTrace(all: seq<Node>, depthCut: int, aggregate: bool, name: string, ghost calls: seq<Call>)
    returns (roots: seq<Node>, excludedTime: int, found: seq<Node>)
    requires Describes(all, calls) && Untouched(all, calls)
    modifies all
    ensures Built(all, roots, calls, depthCut, aggregate) && excludedTime == Excluded(calls, depthCut, |calls|)
    ensures Timed(all, calls, depthCut, aggregate, ForestUnder(calls, depthCut, aggregate, |calls|, NO_PARENT))
    ensures found == NamedOnto(all, calls, name, [], ForestUnder(calls, depthCut, aggregate, |calls|, NO_PARENT))
  {
    roots, excludedTime := BuildCallTree(all, depthCut, aggregate, calls);
    ghost var image :| Progress(all, roots, calls, depthCut, aggregate, |calls|, image);
    ghost var f := ForestUnder(calls, depthCut, aggregate, |calls|, NO_PARENT);
    ghost var filled := Filled(calls, depthCut, aggregate, image, f);
    CalculateExclusiveTimes(all, roots, calls, depthCut, aggregate, NO_PARENT, image);
    FilledSpecified(calls, depthCut, aggregate, image, f);
    FilledIsTimed(all, calls, depthCut, aggregate, image, f);
    assert Progress(all, roots, calls, depthCut, aggregate, |calls|, filled);
    found := FindNodesByName(all, roots, name, [], calls, depthCut, aggregate, NO_PARENT, filled);
  }
}
