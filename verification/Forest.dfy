/**
 Ordered forests, grown only at the right-hand end.

 A forest is either empty or a forest followed by one more tree.  This makes the
 "rightmost path" (the chain of last trees, last children, and so on) directly
 accessible, which is where a one-pass call-tree builder does all of its work.
 */
module Forests {

  datatype Forest<T> = Empty | Grow(before: Forest<T>, root: T, kids: Forest<T>)

  function Preorder<T>(f: Forest<T>): seq<T> {
    match f
    case Empty => []
    case Grow(before, root, kids) => Preorder(before) + [root] + Preorder(kids)
  }

  predicate Member<T(==)>(f: Forest<T>, x: T) {
    match f
    case Empty => false
    case Grow(before, root, kids) => Member(before, x) || root == x || Member(kids, x)
  }

  /** The rightmost path, outermost node first. */
  function Spine<T>(f: Forest<T>): seq<T> {
    match f
    case Empty => []
    case Grow(_, root, kids) => [root] + Spine(kids)
  }

  /** The forest with a leaf added as the last tree at depth `k` of the rightmost path. */
  function AppendAt<T>(f: Forest<T>, k: nat, x: T): Forest<T> {
    if k == 0 || f.Empty? then Grow(f, x, Empty)
    else Grow(f.before, f.root, AppendAt(f.kids, k - 1, x))
  }

  /** The forest without its nodes at depth greater than `d`. */
  function Truncate<T>(f: Forest<T>, d: nat): Forest<T> {
    match f
    case Empty => Empty
    case Grow(before, root, kids) =>
      Grow(Truncate(before, d), root, if d == 0 then Empty else Truncate(kids, d - 1))
  }

  /** The nodes that `Truncate(f, d)` drops, in preorder. */
  function Below<T>(f: Forest<T>, d: nat): seq<T> {
    match f
    case Empty => []
    case Grow(before, root, kids) =>
      Below(before, d) + (if d == 0 then Preorder(kids) else Below(kids, d - 1))
  }

  function Prefix<T>(s: seq<T>, n: nat): seq<T> {
    if n < |s| then s[..n] else s
  }

  lemma {:induction false} AppendAtEnds<T>(f: Forest<T>, k: nat, x: T)
    requires k <= |Spine(f)|
    ensures Preorder(AppendAt(f, k, x)) == Preorder(f) + [x]
    ensures Spine(AppendAt(f, k, x)) == Spine(f)[..k] + [x]
  {
    if k > 0 {
      AppendAtEnds(f.kids, k - 1, x);
    }
  }

  lemma {:induction false} BelowAppendAt<T>(f: Forest<T>, k: nat, x: T, d: nat)
    requires k <= |Spine(f)|
    ensures Below(AppendAt(f, k, x), d) == if k <= d then Below(f, d) else Below(f, d) + [x]
    decreases f
  {
    if k > 0 && d > 0 {
      BelowAppendAt(f.kids, k - 1, x, d - 1);
    } else if k > 0 {
      AppendAtEnds(f.kids, k - 1, x);
    }
  }
}
