/**
 Which nodes the search by name finds: those of the reachable calls of that name, each once.
 */
module CallFound {
  import opened Forests
  import opened CallStack
  import opened CallTree
  import opened CallForest
  import opened CallReach
  import opened CallGraph
  import opened CallReport

  /** Where in `ids` the `k`-th node found comes from. */
  ghost function FoundAt(all: seq<Node>, calls: seq<Call>, name: string, ids: seq<nat>, k: nat): (j: nat)
    requires |all| == |calls| && k < |Named(all, calls, name, ids)|
    ensures j < |ids| && ids[j] < |calls| && calls[ids[j]].name == name
    ensures Named(all, calls, name, ids)[k] == all[ids[j]]
  {
    var front := ids[..|ids| - 1];
    if k < |Named(all, calls, name, front)| then FoundAt(all, calls, name, front, k) else |ids| - 1
  }

  /** Nodes are found in the order of `ids`... */
  lemma {:induction false} FoundInOrder(all: seq<Node>, calls: seq<Call>, name: string, ids: seq<nat>, k: nat, l: nat)
    requires |all| == |calls| && k < l < |Named(all, calls, name, ids)|
    ensures FoundAt(all, calls, name, ids, k) < FoundAt(all, calls, name, ids, l)
  {
    var front := ids[..|ids| - 1];
    if l < |Named(all, calls, name, front)| {
      FoundInOrder(all, calls, name, front, k, l);
    }
  }

  /** ... and every call of the name is found. */
  lemma {:induction false} IsFound(all: seq<Node>, calls: seq<Call>, name: string, ids: seq<nat>, j: nat)
    returns (k: nat)
    requires |all| == |calls| && j < |ids| && ids[j] < |calls| && calls[ids[j]].name == name
    ensures k < |Named(all, calls, name, ids)| && FoundAt(all, calls, name, ids, k) == j
  {
    if j == |ids| - 1 {
      k := |Named(all, calls, name, ids[..j])|;
    } else {
      k := IsFound(all, calls, name, ids[..|ids| - 1], j);
    }
  }

  lemma {:induction false} MemberIffPreorder<T>(f: Forest<T>, x: T)
    ensures Member(f, x) <==> x in Preorder(f)
  {
    match f
    case Empty =>
    case Grow(before, root, kids) =>
      MemberIffPreorder(before, x);
      MemberIffPreorder(kids, x);
  }

  /** What the search of the roots returns. */
  ghost function Found(all: seq<Node>, calls: seq<Call>, cut: int, aggregate: bool, name: string): seq<Node>
    requires |all| == |calls|
  {
    NamedOnto(all, calls, name, [], ForestUnder(calls, cut, aggregate, |calls|, NO_PARENT))
  }

  lemma FoundIsNamed(all: seq<Node>, calls: seq<Call>, cut: int, aggregate: bool, name: string)
    requires |all| == |calls|
    ensures Found(all, calls, cut, aggregate, name)
         == Named(all, calls, name, Preorder(ForestUnder(calls, cut, aggregate, |calls|, NO_PARENT)))
  {
    var f := ForestUnder(calls, cut, aggregate, |calls|, NO_PARENT);
    NamedOntoIsPreorder(all, calls, name, [], f);
    assert [] + Named(all, calls, name, Preorder(f)) == Named(all, calls, name, Preorder(f));
  }

  /**
   For any trace, cut and mode: the node of a call is found exactly if the call has that name and
   the report reaches it.
   */
  lemma FoundIff(all: seq<Node>, calls: seq<Call>, cut: int, aggregate: bool, name: string, i: nat)
    requires Describes(all, calls) && i < |calls|
    ensures all[i] in Found(all, calls, cut, aggregate, name) <==>
            calls[i].name == name && AllFirst(calls, cut, aggregate, i)
  {
    var f := ForestUnder(calls, cut, aggregate, |calls|, NO_PARENT);
    var ids, found := Preorder(f), Found(all, calls, cut, aggregate, name);
    FoundIsNamed(all, calls, cut, aggregate, name);
    ReachableIff(calls, cut, aggregate, |calls|, i);
    MemberIffPreorder(f, i);
    if all[i] in found {
      var k :| 0 <= k < |found| && found[k] == all[i];
      var j := FoundAt(all, calls, name, ids, k);
      assert all[ids[j]].id == all[i].id;
    }
    if calls[i].name == name && i in ids {
      var j :| 0 <= j < |ids| && ids[j] == i;
      var k := IsFound(all, calls, name, ids, j);
      assert found[k] == all[i];
    }
  }

  lemma {:induction false} KeptIncreases(calls: seq<Call>, cut: int, n: nat, a: nat, b: nat)
    requires n <= |calls| && a < b < |KeptBefore(calls, cut, n)|
    ensures KeptBefore(calls, cut, n)[a] < KeptBefore(calls, cut, n)[b] < n
  {
    if b < |KeptBefore(calls, cut, n - 1)| {
      KeptIncreases(calls, cut, n - 1, a, b);
    } else {
      KeptIsBefore(calls, cut, n - 1, a);
    }
  }

  lemma {:induction false} KeptIsBefore(calls: seq<Call>, cut: int, n: nat, a: nat)
    requires n <= |calls| && a < |KeptBefore(calls, cut, n)|
    ensures KeptBefore(calls, cut, n)[a] < n
  {
    if a < |KeptBefore(calls, cut, n - 1)| {
      KeptIsBefore(calls, cut, n - 1, a);
    }
  }

  /** Without aggregation nodes are found in processing order, so none is found twice. */
  lemma FoundInTraceOrder(all: seq<Node>, calls: seq<Call>, cut: int, name: string, k: nat, l: nat)
    requires Describes(all, calls) && k < l < |Found(all, calls, cut, false, name)|
    ensures Found(all, calls, cut, false, name)[k].id < Found(all, calls, cut, false, name)[l].id
  {
    var ids := KeptBefore(calls, cut, |calls|);
    FoundIsNamed(all, calls, cut, false, name);
    PreorderIsKeptTrace(calls, cut, |calls|);
    FoundInOrder(all, calls, name, ids, k, l);
    KeptIncreases(calls, cut, |calls|, FoundAt(all, calls, name, ids, k), FoundAt(all, calls, name, ids, l));
  }
}
