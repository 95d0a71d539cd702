/**
 Which calls the report can reach from the roots.

 A call that aggregation folds into a sibling stays on the stack, so its own callees are hung
 under a node that no list of children or roots mentions.
 */
module CallReach {
  import opened Forests
  import opened CallStack
  import opened CallTree
  import opened CallForest

  /** Call `i` becomes an entry of its own under its stack parent. */
  predicate Hung(calls: seq<Call>, cut: int, aggregate: bool, i: nat)
    requires i < |calls|
  {
    Kept(calls, cut, i) && EntryFor(calls, cut, aggregate, i) == NO_ENTRY
  }

  /** Call `i` and all its stack ancestors below `p` are entries of their own. */
  predicate HungBelow(calls: seq<Call>, cut: int, aggregate: bool, p: int, i: nat)
    requires i < |calls|
  {
    var parent := Parent(calls, cut, i);
    && Hung(calls, cut, aggregate, i)
    && (parent == p || (parent > p && parent >= 0 && HungBelow(calls, cut, aggregate, p, parent)))
  }

  lemma NewKidIsHung(calls: seq<Call>, cut: int, aggregate: bool, j: nat, p: int)
    requires j < |calls| && |Kids(calls, cut, aggregate, j, p)| < |Kids(calls, cut, aggregate, j + 1, p)|
    ensures Kids(calls, cut, aggregate, j + 1, p) == Kids(calls, cut, aggregate, j, p) + [j]
    ensures Hung(calls, cut, aggregate, j)
  {
  }

  lemma {:induction false} KidIsHung(calls: seq<Call>, cut: int, aggregate: bool, n: nat, p: int, a: nat)
    requires n <= |calls| && a < |Kids(calls, cut, aggregate, n, p)|
    ensures var kid := Kids(calls, cut, aggregate, n, p)[a];
            p < kid < n && Parent(calls, cut, kid) == p && Hung(calls, cut, aggregate, kid)
  {
    HungUnderParent(calls, cut, aggregate, n, p, a);
    if a < |Kids(calls, cut, aggregate, n - 1, p)| {
      KidIsHung(calls, cut, aggregate, n - 1, p, a);
    } else {
      NewKidIsHung(calls, cut, aggregate, n - 1, p);
    }
  }

  lemma HungIsNewKid(calls: seq<Call>, cut: int, aggregate: bool, j: nat)
    requires j < |calls| && Hung(calls, cut, aggregate, j)
    ensures var p := Parent(calls, cut, j);
            Kids(calls, cut, aggregate, j + 1, p) == Kids(calls, cut, aggregate, j, p) + [j]
  {
  }

  lemma {:induction false} HungIsKid(calls: seq<Call>, cut: int, aggregate: bool, n: nat, i: nat) returns (a: nat)
    requires i < n <= |calls| && Hung(calls, cut, aggregate, i)
    ensures var kids := Kids(calls, cut, aggregate, n, Parent(calls, cut, i));
            a < |kids| && kids[a] == i
  {
    if i == n - 1 {
      HungIsNewKid(calls, cut, aggregate, i);
      a := |Kids(calls, cut, aggregate, i, Parent(calls, cut, i))|;
    } else {
      a := HungIsKid(calls, cut, aggregate, n - 1, i);
    }
  }

  /** What lies below something below `p` lies below `p`. */
  lemma {:induction false} HungBelowThrough(calls: seq<Call>, cut: int, aggregate: bool, p: int, kid: nat, i: nat)
    requires p < kid < |calls| && i < |calls|
    requires HungBelow(calls, cut, aggregate, p, kid) && HungBelow(calls, cut, aggregate, kid, i)
    ensures HungBelow(calls, cut, aggregate, p, i)
  {
    if Parent(calls, cut, i) != kid {
      HungBelowThrough(calls, cut, aggregate, p, kid, Parent(calls, cut, i));
    }
  }

  lemma UnfoldMembers(calls: seq<Call>, cut: int, aggregate: bool, n: nat, p: int, m: nat, kid: nat, i: nat)
    requires n <= |calls| && m < |Kids(calls, cut, aggregate, n, p)| && kid == Kids(calls, cut, aggregate, n, p)[m]
    ensures Member(Unfold(calls, cut, aggregate, n, p, m + 1), i) <==>
            Member(Unfold(calls, cut, aggregate, n, p, m), i) || i == kid
            || Member(ForestUnder(calls, cut, aggregate, n, kid), i)
  {
    UnfoldStep(calls, cut, aggregate, n, p, m);
  }

  /** Everything in the forest is hung below `p`. */
  lemma {:induction false} MemberIsHung(calls: seq<Call>, cut: int, aggregate: bool, n: nat, p: int, m: nat, i: nat)
    requires n <= |calls| && m <= |Kids(calls, cut, aggregate, n, p)|
    requires Member(Unfold(calls, cut, aggregate, n, p, m), i)
    ensures i < n && HungBelow(calls, cut, aggregate, p, i)
    decreases n - p, m
  {
    KidIsHung(calls, cut, aggregate, n, p, m - 1);
    var kid := Kids(calls, cut, aggregate, n, p)[m - 1];
    UnfoldMembers(calls, cut, aggregate, n, p, m - 1, kid, i);
    if Member(Unfold(calls, cut, aggregate, n, p, m - 1), i) {
      MemberIsHung(calls, cut, aggregate, n, p, m - 1, i);
    } else if i != kid {
      MemberIsHung(calls, cut, aggregate, n, kid, |Kids(calls, cut, aggregate, n, kid)|, i);
      HungBelowThrough(calls, cut, aggregate, p, kid, i);
    }
  }

  /** The `a`-th entry under `p`, and whatever is below it, are in the forest. */
  lemma {:induction false} KidIsMember(calls: seq<Call>, cut: int, aggregate: bool, n: nat, p: int, m: nat, a: nat,
                                       i: nat)
    requires n <= |calls| && a < m <= |Kids(calls, cut, aggregate, n, p)|
    requires var kid := Kids(calls, cut, aggregate, n, p)[a];
             i == kid || Member(ForestUnder(calls, cut, aggregate, n, kid), i)
    ensures Member(Unfold(calls, cut, aggregate, n, p, m), i)
  {
    if a < m - 1 {
      KidIsMember(calls, cut, aggregate, n, p, m - 1, a, i);
    }
  }

  lemma {:induction false} HungIsMember(calls: seq<Call>, cut: int, aggregate: bool, n: nat, p: int, mid: nat, i: nat)
    requires n <= |calls| && mid < n && i < n && HungBelow(calls, cut, aggregate, p, mid)
    requires i == mid || Member(ForestUnder(calls, cut, aggregate, n, mid), i)
    ensures Member(ForestUnder(calls, cut, aggregate, n, p), i)
    decreases mid
  {
    var parent := Parent(calls, cut, mid);
    var a := HungIsKid(calls, cut, aggregate, n, mid);
    KidIsMember(calls, cut, aggregate, n, parent, |Kids(calls, cut, aggregate, n, parent)|, a, i);
    if parent != p {
      HungIsMember(calls, cut, aggregate, n, p, parent, i);
    }
  }

  // ----- on the trace alone -----

  /** Call `k` is kept, under the same stack parent and with the same name as `i`. */
  predicate Namesake(calls: seq<Call>, cut: int, k: nat, i: nat)
    requires k < |calls| && i < |calls|
  {
    Kept(calls, cut, k) && Parent(calls, cut, k) == Parent(calls, cut, i) && calls[k].name == calls[i].name
  }

  /** Call `i` is kept and, with aggregation, is the first of its name under its stack parent. */
  ghost predicate IsFirst(calls: seq<Call>, cut: int, aggregate: bool, i: nat)
    requires i < |calls|
  {
    && Kept(calls, cut, i)
    && (aggregate ==> forall k {:trigger Namesake(calls, cut, k, i)} :: 0 <= k < i ==> !Namesake(calls, cut, k, i))
  }

  /** Call `i` and all its stack ancestors are such calls. */
  ghost predicate AllFirst(calls: seq<Call>, cut: int, aggregate: bool, i: nat)
    requires i < |calls|
  {
    IsFirst(calls, cut, aggregate, i)
    && (Parent(calls, cut, i) != NO_PARENT ==> AllFirst(calls, cut, aggregate, Parent(calls, cut, i)))
  }

  /** The entry a call is folded into is an earlier namesake... */
  lemma EntryIsNamesake(calls: seq<Call>, cut: int, j: nat)
    requires j < |calls| && EntryFor(calls, cut, true, j) != NO_ENTRY
    ensures Namesake(calls, cut, EntryFor(calls, cut, true, j), j)
  {
    var p := Parent(calls, cut, j);
    HungUnderParent(calls, cut, true, j, p, Lookup(calls, Kids(calls, cut, true, j, p), calls[j].name, 0));
  }

  /** ... and a call with an earlier namesake is folded. */
  lemma NamesakeIsFolded(calls: seq<Call>, cut: int, j: nat, k: nat)
    requires k < j < |calls| && Kept(calls, cut, j) && Namesake(calls, cut, k, j)
    ensures EntryFor(calls, cut, true, j) != NO_ENTRY
  {
    var kids := Kids(calls, cut, true, j, Parent(calls, cut, j));
    var a := EveryKeptCallIsRepresented(calls, cut, j, k);
    if Lookup(calls, kids, calls[j].name, 0) > a {
      LookupIsFirst(calls, kids, calls[j].name, 0, a);
    }
  }

  /** So a kept call becomes an entry of its own exactly when it is the first of its name. */
  lemma HungIff(calls: seq<Call>, cut: int, aggregate: bool, i: nat)
    requires i < |calls|
    ensures Hung(calls, cut, aggregate, i) <==> IsFirst(calls, cut, aggregate, i)
  {
    if aggregate && EntryFor(calls, cut, true, i) != NO_ENTRY {
      EntryIsNamesake(calls, cut, i);
    }
    if aggregate && Kept(calls, cut, i) && !IsFirst(calls, cut, true, i) {
      var k :| 0 <= k < i && Namesake(calls, cut, k, i);
      NamesakeIsFolded(calls, cut, i, k);
    }
  }

  lemma {:induction false} HungBelowIff(calls: seq<Call>, cut: int, aggregate: bool, i: nat)
    requires i < |calls|
    ensures HungBelow(calls, cut, aggregate, NO_PARENT, i) <==> AllFirst(calls, cut, aggregate, i)
  {
    HungIff(calls, cut, aggregate, i);
    if Parent(calls, cut, i) != NO_PARENT {
      HungBelowIff(calls, cut, aggregate, Parent(calls, cut, i));
    }
  }

  /**
   The report reaches a call just when it and all its stack ancestors are kept and, with
   aggregation, the first of their names under their stack parents.
   */
  lemma ReachableIff(calls: seq<Call>, cut: int, aggregate: bool, n: nat, i: nat)
    requires n <= |calls|
    ensures Member(ForestUnder(calls, cut, aggregate, n, NO_PARENT), i) <==> i < n && AllFirst(calls, cut, aggregate, i)
  {
    if Member(ForestUnder(calls, cut, aggregate, n, NO_PARENT), i) {
      MemberIsHung(calls, cut, aggregate, n, NO_PARENT, |Kids(calls, cut, aggregate, n, NO_PARENT)|, i);
    }
    if i < n {
      HungBelowIff(calls, cut, aggregate, i);
      if HungBelow(calls, cut, aggregate, NO_PARENT, i) {
        HungIsMember(calls, cut, aggregate, n, NO_PARENT, i, i);
      }
    }
  }

  /** Without aggregation that is every kept call. */
  lemma {:induction false} PlainReachesKept(calls: seq<Call>, cut: int, i: nat)
    requires i < |calls|
    ensures AllFirst(calls, cut, false, i) <==> Kept(calls, cut, i)
  {
    DepthOfParent(calls, cut, i);
    if Parent(calls, cut, i) != NO_PARENT {
      PlainReachesKept(calls, cut, Parent(calls, cut, i));
    }
  }

  /** With aggregation, the callees of a call that was folded into a sibling are out of reach... */
  lemma FoldedCallHidesCallees(calls: seq<Call>, cut: int, i: nat, k: nat)
    requires i < |calls|
    ensures var j := Parent(calls, cut, i);
            k < j && Namesake(calls, cut, k, j) ==> !Member(ForestUnder(calls, cut, true, |calls|, NO_PARENT), i)
  {
    ReachableIff(calls, cut, true, |calls|, i);
  }

  /** ... as is `g` here, called by the second of two calls to `f`. */
  lemma ACalleeIsHidden()
    ensures var calls := [Call("f", 0, 10), Call("f", 10, 10), Call("g", 12, 5)];
            Kept(calls, 20, 2) && !Member(ForestUnder(calls, 20, true, 3, NO_PARENT), 2)
  {
    SecondCallHides([Call("f", 0, 10), Call("f", 10, 10), Call("g", 12, 5)]);
  }

  lemma SecondCallHides(calls: seq<Call>)
    requires |calls| == 3 && calls[0].name == calls[1].name
    requires calls[0].End() <= calls[1].ts && calls[2].ts < calls[1].End()
    ensures Kept(calls, 20, 2) && !Member(ForestUnder(calls, 20, true, 3, NO_PARENT), 2)
  {
    FirstPush(calls, 20);
    assert OpenCount(calls, [0], 1, calls[1].ts) == 0;
    assert Stack(calls, 20, 2) == [1];
    assert OpenCount(calls, [1], 1, calls[2].ts) == 1;
    assert Parent(calls, 20, 2) == 1;
    assert Parent(calls, 20, 0) == Parent(calls, 20, 1) == NO_PARENT;
    FoldedCallHidesCallees(calls, 20, 2, 0);
  }
}
