/**
 The forest that the parent/child links of a built call tree spell out.

 `Unfold` reads the links.  Without aggregation the result can also be grown directly:
 `Grown` hangs each kept call at its depth on the rightmost path.  The two agree, and from
 the second form it is easy to see that the preorder walk is the kept part of the trace and
 that a smaller depth cut gives the same forest with its deeper levels removed.
 */
module CallForest {
  import opened Forests
  import opened CallStack
  import opened CallTree

  /** The forest of the first `m` calls hung under `p`, read off the links. */
  function Unfold(calls: seq<Call>, cut: int, aggregate: bool, n: nat, p: int, m: nat): Forest<nat>
    requires n <= |calls| && m <= |Kids(calls, cut, aggregate, n, p)|
    decreases n - p, m
  {
    if m == 0 then Empty else
      HungUnderParent(calls, cut, aggregate, n, p, m - 1);
      var kid := Kids(calls, cut, aggregate, n, p)[m - 1];
      Grow(Unfold(calls, cut, aggregate, n, p, m - 1), kid,
           Unfold(calls, cut, aggregate, n, kid, |Kids(calls, cut, aggregate, n, kid)|))
  }

  /** The whole forest under `p`. */
  function ForestUnder(calls: seq<Call>, cut: int, aggregate: bool, n: nat, p: int): Forest<nat>
    requires n <= |calls|
  {
    Unfold(calls, cut, aggregate, n, p, |Kids(calls, cut, aggregate, n, p)|)
  }

  /** One more call under `p` adds one more tree. */
  lemma UnfoldStep(calls: seq<Call>, cut: int, aggregate: bool, n: nat, p: int, m: nat)
    requires n <= |calls| && m < |Kids(calls, cut, aggregate, n, p)|
    ensures var kid := Kids(calls, cut, aggregate, n, p)[m];
            Unfold(calls, cut, aggregate, n, p, m + 1)
            == Grow(Unfold(calls, cut, aggregate, n, p, m), kid, ForestUnder(calls, cut, aggregate, n, kid))
  {
  }

  /** The forest grown call by call along its rightmost path. */
  function Grown(calls: seq<Call>, cut: int, n: nat): (f: Forest<nat>)
    requires n <= |calls|
  {
    if n == 0 then Empty else
      var f := Grown(calls, cut, n - 1);
      if Kept(calls, cut, n - 1) then AppendAt(f, Depth(calls, cut, n - 1), n - 1) else f
  }

  lemma SpineStep(calls: seq<Call>, cut: int, j: nat)
    requires j < |calls| && |Stack(calls, cut, j)| <= |Spine(Grown(calls, cut, j))|
    ensures |Stack(calls, cut, j + 1)| <= |Spine(Grown(calls, cut, j + 1))|
  {
    if Kept(calls, cut, j) {
      AppendAtEnds(Grown(calls, cut, j), Depth(calls, cut, j), j);
    }
  }

  /** The stack is never longer than the rightmost path... */
  lemma {:induction false} StackWithinSpine(calls: seq<Call>, cut: int, n: nat)
    requires n <= |calls|
    ensures |Stack(calls, cut, n)| <= |Spine(Grown(calls, cut, n))|
  {
    if n > 0 {
      StackWithinSpine(calls, cut, n - 1);
      SpineStep(calls, cut, n - 1);
    }
  }

  /** ... and agrees with it entry by entry. */
  lemma {:induction false} StackOnSpine(calls: seq<Call>, cut: int, n: nat, k: nat)
    requires n <= |calls| && k < |Stack(calls, cut, n)|
    ensures k < |Spine(Grown(calls, cut, n))| && Spine(Grown(calls, cut, n))[k] == Stack(calls, cut, n)[k]
  {
    var f, depth := Grown(calls, cut, n - 1), Depth(calls, cut, n - 1);
    StackWithinSpine(calls, cut, n - 1);
    if k < depth {
      StackOnSpine(calls, cut, n - 1, k);
    }
    if Kept(calls, cut, n - 1) {
      AppendAtEnds(f, depth, n - 1);
    }
  }

  lemma ParentOnSpine(calls: seq<Call>, cut: int, j: nat)
    requires j < |calls|
    ensures var spine, k := Spine(Grown(calls, cut, j)), Depth(calls, cut, j);
            k <= |spine| && Parent(calls, cut, j) == if k == 0 then NO_PARENT else spine[k - 1]
  {
    StackWithinSpine(calls, cut, j);
    if Depth(calls, cut, j) > 0 {
      StackOnSpine(calls, cut, j, Depth(calls, cut, j) - 1);
    }
  }

  /** The calls among the first `n` that are not cut off. */
  function KeptBefore(calls: seq<Call>, cut: int, n: nat): seq<nat>
    requires n <= |calls|
  {
    if n == 0 then []
    else if Kept(calls, cut, n - 1) then KeptBefore(calls, cut, n - 1) + [n - 1]
    else KeptBefore(calls, cut, n - 1)
  }

  lemma PreorderStep(calls: seq<Call>, cut: int, j: nat)
    requires j < |calls| && Preorder(Grown(calls, cut, j)) == KeptBefore(calls, cut, j)
    ensures Preorder(Grown(calls, cut, j + 1)) == KeptBefore(calls, cut, j + 1)
  {
    StackWithinSpine(calls, cut, j);
    AppendAtEnds(Grown(calls, cut, j), Depth(calls, cut, j), j);
  }

  lemma {:induction false} GrownPreorder(calls: seq<Call>, cut: int, n: nat)
    requires n <= |calls|
    ensures Preorder(Grown(calls, cut, n)) == KeptBefore(calls, cut, n)
  {
    if n > 0 {
      GrownPreorder(calls, cut, n - 1);
      PreorderStep(calls, cut, n - 1);
    }
  }

  // ----- the links spell out the grown forest -----

  /** In preorder, `f` lists increasing numbers between `lo` and `hi`. */
  ghost predicate Ordered(f: Forest<nat>, lo: int, hi: int) {
    match f
    case Empty => lo <= hi
    case Grow(before, root, kids) => Ordered(before, lo, root) && root < hi && Ordered(kids, root + 1, hi)
  }

  lemma {:induction false} OrderedAppendAt(f: Forest<nat>, k: nat, lo: int, j: nat)
    requires k <= |Spine(f)| && Ordered(f, lo, j)
    ensures Ordered(AppendAt(f, k, j), lo, j + 1)
  {
    if k > 0 {
      OrderedAppendAt(f.kids, k - 1, f.root + 1, j);
    }
  }

  lemma {:induction false} GrownOrdered(calls: seq<Call>, cut: int, n: nat)
    requires n <= |calls|
    ensures Ordered(Grown(calls, cut, n), 0, n)
  {
    if n > 0 {
      GrownOrdered(calls, cut, n - 1);
      StackWithinSpine(calls, cut, n - 1);
      var f := Grown(calls, cut, n - 1);
      if Kept(calls, cut, n - 1) {
        OrderedAppendAt(f, Depth(calls, cut, n - 1), 0, n - 1);
      } else {
        OrderedWeaken(f, 0, n - 1);
      }
    }
  }

  lemma {:induction false} OrderedWeaken(f: Forest<nat>, lo: int, hi: int)
    requires Ordered(f, lo, hi)
    ensures Ordered(f, lo, hi + 1)
  {
    if f.Grow? {
      OrderedWeaken(f.kids, f.root + 1, hi);
    }
  }

  lemma {:induction false} SpineWithin(f: Forest<nat>, lo: int, hi: int, k: nat)
    requires Ordered(f, lo, hi) && k < |Spine(f)|
    ensures lo <= Spine(f)[k] < hi
  {
    OrderedBounds(f.before, lo, f.root);
    if k > 0 {
      SpineWithin(f.kids, f.root + 1, hi, k - 1);
    }
  }

  lemma {:induction false} OrderedBounds(f: Forest<nat>, lo: int, hi: int)
    requires Ordered(f, lo, hi)
    ensures lo <= hi
  {
    if f.Grow? {
      OrderedBounds(f.before, lo, f.root);
    }
  }

  /** The first `m` calls hung under `p` spell out `f` when read off the links of the first `n` calls. */
  ghost predicate Spells(calls: seq<Call>, cut: int, n: nat, p: int, m: nat, f: Forest<nat>)
    requires n <= |calls|
    decreases f
  {
    var kids := Kids(calls, cut, false, n, p);
    match f
    case Empty => m == 0
    case Grow(before, root, below) =>
      && 0 < m <= |kids| && kids[m - 1] == root
      && Spells(calls, cut, n, p, m - 1, before)
      && Spells(calls, cut, n, root, |Kids(calls, cut, false, n, root)|, below)
  }

  lemma {:induction false} SpellsIsUnfold(calls: seq<Call>, cut: int, n: nat, p: int, m: nat, f: Forest<nat>)
    requires n <= |calls| && m <= |Kids(calls, cut, false, n, p)| && Spells(calls, cut, n, p, m, f)
    ensures Unfold(calls, cut, false, n, p, m) == f
    decreases f
  {
    if f.Grow? {
      SpellsIsUnfold(calls, cut, n, p, m - 1, f.before);
      SpellsIsUnfold(calls, cut, n, f.root, |Kids(calls, cut, false, n, f.root)|, f.kids);
    }
  }

  lemma SpellsTree(calls: seq<Call>, cut: int, n: nat, p: int, m: nat, f: Forest<nat>)
    requires n < |calls| && f.Grow? && Spells(calls, cut, n, p, m, f) && Parent(calls, cut, n) != f.root
    requires Spells(calls, cut, n + 1, p, m - 1, f.before)
    requires Spells(calls, cut, n + 1, f.root, |Kids(calls, cut, false, n, f.root)|, f.kids)
    ensures Spells(calls, cut, n + 1, p, m, f)
  {
  }

  /** Placing call `n` leaves alone any part of the forest that does not contain its parent. */
  lemma {:induction false} SpellsFrame(calls: seq<Call>, cut: int, n: nat, p: int, m: nat, f: Forest<nat>, lo: int,
                                       hi: int)
    requires n < |calls| && Spells(calls, cut, n, p, m, f) && Ordered(f, lo, hi)
    requires !(lo <= Parent(calls, cut, n) < hi)
    ensures Spells(calls, cut, n + 1, p, m, f)
    decreases f
  {
    if f.Grow? {
      OrderedBounds(f.before, lo, f.root);
      OrderedBounds(f.kids, f.root + 1, hi);
      SpellsFrame(calls, cut, n, p, m - 1, f.before, lo, f.root);
      SpellsFrame(calls, cut, n, f.root, |Kids(calls, cut, false, n, f.root)|, f.kids, f.root + 1, hi);
      SpellsTree(calls, cut, n, p, m, f);
    }
  }

  /** Hanging call `n` under the `k`-th node of the rightmost path appends it there. */
  lemma {:induction false} SpellsAppendAt(calls: seq<Call>, cut: int, n: nat, p: int, f: Forest<nat>, k: nat)
    requires n < |calls| && Kept(calls, cut, n) && k <= |Spine(f)|
    requires Spells(calls, cut, n, p, |Kids(calls, cut, false, n, p)|, f) && Ordered(f, p + 1, n)
    requires Parent(calls, cut, n) == if k == 0 then p else Spine(f)[k - 1]
    ensures Spells(calls, cut, n + 1, p, |Kids(calls, cut, false, n + 1, p)|, AppendAt(f, k, n))
    decreases f
  {
    if k == 0 {
      SpellsFrame(calls, cut, n, p, |Kids(calls, cut, false, n, p)|, f, p + 1, n);
      if Kids(calls, cut, false, n + 1, n) != [] {
        HungUnderParent(calls, cut, false, n + 1, n, 0);
      }
    } else {
      SpineWithin(f, p + 1, n, 0);
      if k > 1 {
        SpineWithin(f.kids, f.root + 1, n, k - 2);
      }
      SpellsFrame(calls, cut, n, p, |Kids(calls, cut, false, n, p)| - 1, f.before, p + 1, f.root);
      SpellsAppendAt(calls, cut, n, f.root, f.kids, k - 1);
    }
  }

  /** All that is hung under the roots spells out `f`. */
  ghost predicate RootsSpell(calls: seq<Call>, cut: int, n: nat, f: Forest<nat>)
    requires n <= |calls|
  {
    Spells(calls, cut, n, NO_PARENT, |Kids(calls, cut, false, n, NO_PARENT)|, f)
  }

  lemma RootsSpellStep(calls: seq<Call>, cut: int, j: nat, f: Forest<nat>)
    requires j < |calls| && RootsSpell(calls, cut, j, f) && f == Grown(calls, cut, j)
    ensures RootsSpell(calls, cut, j + 1, if Kept(calls, cut, j) then AppendAt(f, Depth(calls, cut, j), j) else f)
  {
    GrownOrdered(calls, cut, j);
    if Kept(calls, cut, j) {
      ParentOnSpine(calls, cut, j);
      SpellsAppendAt(calls, cut, j, NO_PARENT, f, Depth(calls, cut, j));
    } else {
      SpellsUntouched(calls, cut, j, NO_PARENT, |Kids(calls, cut, false, j, NO_PARENT)|, f);
    }
  }

  lemma {:induction false} LinksSpellGrown(calls: seq<Call>, cut: int, n: nat)
    requires n <= |calls|
    ensures RootsSpell(calls, cut, n, Grown(calls, cut, n))
  {
    if n > 0 {
      LinksSpellGrown(calls, cut, n - 1);
      RootsSpellStep(calls, cut, n - 1, Grown(calls, cut, n - 1));
    }
  }

  lemma {:induction false} SpellsUntouched(calls: seq<Call>, cut: int, n: nat, p: int, m: nat, f: Forest<nat>)
    requires n < |calls| && !Kept(calls, cut, n) && Spells(calls, cut, n, p, m, f)
    ensures Spells(calls, cut, n + 1, p, m, f)
    decreases f
  {
    if f.Grow? {
      SpellsUntouched(calls, cut, n, p, m - 1, f.before);
      SpellsUntouched(calls, cut, n, f.root, |Kids(calls, cut, false, n, f.root)|, f.kids);
    }
  }

  /** Without aggregation the links under the roots spell out the grown forest. */
  lemma LinksAreGrown(calls: seq<Call>, cut: int, n: nat)
    requires n <= |calls|
    ensures ForestUnder(calls, cut, false, n, NO_PARENT) == Grown(calls, cut, n)
  {
    LinksSpellGrown(calls, cut, n);
    SpellsIsUnfold(calls, cut, n, NO_PARENT, |Kids(calls, cut, false, n, NO_PARENT)|, Grown(calls, cut, n));
  }

  /**
   For any trace, sorted or not, and any cut: without aggregation the preorder walk of the
   roots lists exactly the calls that were not cut off, in the order they were processed.
   */
  lemma PreorderIsKeptTrace(calls: seq<Call>, cut: int, n: nat)
    requires n <= |calls|
    ensures Preorder(ForestUnder(calls, cut, false, n, NO_PARENT)) == KeptBefore(calls, cut, n)
  {
    LinksAreGrown(calls, cut, n);
    GrownPreorder(calls, cut, n);
  }
}
