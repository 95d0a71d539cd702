/**
 What call-tree reconstruction builds, as functions of the trace.

 Calls are named by their position.  `Kids(.., n, p)` is the list of calls hung under `p`
 once the first `n` calls have been placed, and `TallyOf(.., n, i)` the figures of entry `i`.
 In aggregate mode a call whose name already occurs among its would-be siblings is folded
 into that sibling instead of being hung; it still goes on the stack, so that its own
 callees hang under it.
 */
module CallTree {
  import opened CallStack

  datatype Tally = Tally(count: nat, dur: int, min: int, max: int) {
    function Absorb(d: int): Tally {
      Tally(count + 1, dur + d, if min > d then d else min, if max < d then d else max)
    }
  }

  function Single(d: int): Tally { Tally(1, d, d, d) }

  /** The position, from `from` on, of the first of `kids` called `name`, or `|kids|`. */
  function Lookup(calls: seq<Call>, kids: seq<nat>, name: string, from: nat): (at: nat)
    requires Indices(kids, |calls|) && from <= |kids|
    ensures from <= at <= |kids|
    ensures at < |kids| ==> calls[kids[at]].name == name
    decreases |kids| - from
  {
    if from < |kids| && calls[kids[from]].name != name then Lookup(calls, kids, name, from + 1) else from
  }

  lemma {:induction false} LookupIsFirst(calls: seq<Call>, kids: seq<nat>, name: string, from: nat, i: nat)
    requires Indices(kids, |calls|) && from <= |kids| && from <= i < Lookup(calls, kids, name, from)
    ensures calls[kids[i]].name != name
    decreases i - from
  {
    if from < i {
      LookupIsFirst(calls, kids, name, from + 1, i);
    }
  }

  /** Where among its siblings a call is folded in; `|kids|` if it becomes a new sibling. */
  function Target(calls: seq<Call>, aggregate: bool, kids: seq<nat>, name: string): (at: nat)
    requires Indices(kids, |calls|)
    ensures at <= |kids|
  {
    if aggregate then Lookup(calls, kids, name, 0) else |kids|
  }

  /** The calls hung under `p`, in order; those hung under NO_PARENT are the roots. */
  function Kids(calls: seq<Call>, cut: int, aggregate: bool, n: nat, p: int): (kids: seq<nat>)
    requires n <= |calls|
    ensures Indices(kids, n)
  {
    if n == 0 then [] else
      var kids := Kids(calls, cut, aggregate, n - 1, p);
      if Kept(calls, cut, n - 1) && Parent(calls, cut, n - 1) == p
         && Target(calls, aggregate, kids, calls[n - 1].name) == |kids|
      then kids + [n - 1] else kids
  }

  const NO_ENTRY: int := -1

  /** The entry that call `j` is folded into, or NO_ENTRY. */
  function EntryFor(calls: seq<Call>, cut: int, aggregate: bool, j: nat): (e: int)
    requires j < |calls|
    ensures NO_ENTRY <= e < j
  {
    var kids := Kids(calls, cut, aggregate, j, Parent(calls, cut, j));
    var at := Target(calls, aggregate, kids, calls[j].name);
    if Kept(calls, cut, j) && at < |kids| then kids[at] else NO_ENTRY
  }

  /** The figures of entry `i`. */
  function TallyOf(calls: seq<Call>, cut: int, aggregate: bool, n: nat, i: nat): Tally
    requires n <= |calls| && i < |calls|
  {
    if n == 0 then Single(calls[i].dur) else
      var t := TallyOf(calls, cut, aggregate, n - 1, i);
      if EntryFor(calls, cut, aggregate, n - 1) == i then t.Absorb(calls[n - 1].dur) else t
  }

  function Sum(ds: seq<int>): int {
    if ds == [] then 0 else Sum(ds[..|ds| - 1]) + ds[|ds| - 1]
  }

  /** The total duration of the calls among the first `n` that are cut off. */
  function Excluded(calls: seq<Call>, cut: int, n: nat): int
    requires n <= |calls|
  {
    if n == 0 then 0
    else Excluded(calls, cut, n - 1) + if Kept(calls, cut, n - 1) then 0 else calls[n - 1].dur
  }

  /** A call is only ever hung under its stack parent. */
  lemma {:induction false} HungUnderParent(calls: seq<Call>, cut: int, aggregate: bool, n: nat, p: int, a: nat)
    requires n <= |calls| && a < |Kids(calls, cut, aggregate, n, p)|
    ensures var kid := Kids(calls, cut, aggregate, n, p)[a];
            p < kid < n && Kept(calls, cut, kid) && Parent(calls, cut, kid) == p
  {
    if a < |Kids(calls, cut, aggregate, n - 1, p)| {
      HungUnderParent(calls, cut, aggregate, n - 1, p, a);
    }
  }

  // ----- without aggregation -----

  /** Without aggregation every call keeps its own figures. */
  lemma {:induction false} PlainKeepsFigures(calls: seq<Call>, cut: int, n: nat, i: nat)
    requires n <= |calls| && i < |calls|
    ensures TallyOf(calls, cut, false, n, i) == Single(calls[i].dur)
  {
    if n > 0 {
      PlainKeepsFigures(calls, cut, n - 1, i);
    }
  }

  // ----- aggregation -----

  /** The durations of the kept calls among the first `n` that are called `name` and whose stack parent is `p`. */
  function Routed(calls: seq<Call>, cut: int, p: int, name: string, n: nat): seq<int>
    requires n <= |calls|
  {
    if n == 0 then [] else
      var rest := Routed(calls, cut, p, name, n - 1);
      if Kept(calls, cut, n - 1) && Parent(calls, cut, n - 1) == p && calls[n - 1].name == name
      then rest + [calls[n - 1].dur] else rest
  }

  /** `t` is the count, the sum and the exact extremes of `ds`. */
  ghost predicate Summarises(t: Tally, ds: seq<int>) {
    && t.count == |ds| && t.dur == Sum(ds)
    && (exists i :: 0 <= i < |ds| && ds[i] == t.min)
    && (exists i :: 0 <= i < |ds| && ds[i] == t.max)
    && forall i :: 0 <= i < |ds| ==> t.min <= ds[i] <= t.max
  }

  lemma AbsorbSummarises(t: Tally, ds: seq<int>, d: int)
    requires Summarises(t, ds)
    ensures Summarises(t.Absorb(d), ds + [d])
  {
    var r, es := t.Absorb(d), ds + [d];
    assert es[..|es| - 1] == ds;
    assert es[|ds|] == d;
    var i :| 0 <= i < |ds| && ds[i] == t.min;
    assert es[i] == t.min;
    var k :| 0 <= k < |ds| && ds[k] == t.max;
    assert es[k] == t.max;
  }

  lemma {:induction false} SumBounds(t: Tally, ds: seq<int>)
    requires forall i :: 0 <= i < |ds| ==> t.min <= ds[i] <= t.max
    ensures |ds| * t.min <= Sum(ds) <= |ds| * t.max
  {
    if ds != [] {
      SumBounds(t, ds[..|ds| - 1]);
    }
  }

  /** A call not yet placed stands for itself alone. */
  lemma {:induction false} FreshTally(calls: seq<Call>, cut: int, aggregate: bool, n: nat, i: nat)
    requires n <= i < |calls|
    ensures TallyOf(calls, cut, aggregate, n, i) == Single(calls[i].dur)
  {
    if n > 0 {
      FreshTally(calls, cut, aggregate, n - 1, i);
    }
  }

  lemma NewTally(calls: seq<Call>, cut: int, aggregate: bool, j: nat)
    requires j < |calls|
    ensures TallyOf(calls, cut, aggregate, j + 1, j) == Single(calls[j].dur)
  {
    FreshTally(calls, cut, aggregate, j, j);
  }

  lemma OldOrNewKid(calls: seq<Call>, cut: int, j: nat, p: int, a: nat)
    requires j < |calls| && a < |Kids(calls, cut, true, j + 1, p)|
    ensures var kids, kid := Kids(calls, cut, true, j, p), Kids(calls, cut, true, j + 1, p)[a];
            if a < |kids| then kid == kids[a]
            else kid == j && Kept(calls, cut, j) && Parent(calls, cut, j) == p
                 && Lookup(calls, kids, calls[j].name, 0) == |kids|
  {
  }

  lemma NewSiblingDiffers(calls: seq<Call>, cut: int, j: nat, p: int, a: nat)
    requires j < |calls| && a < |Kids(calls, cut, true, j, p)| < |Kids(calls, cut, true, j + 1, p)|
    ensures calls[Kids(calls, cut, true, j, p)[a]].name != calls[j].name
  {
    LookupIsFirst(calls, Kids(calls, cut, true, j, p), calls[j].name, 0, a);
  }

  /** Calls hung under the same parent have different names. */
  lemma {:induction false} SiblingNamesDiffer(calls: seq<Call>, cut: int, n: nat, p: int, a: nat, b: nat)
    requires n <= |calls| && a < b < |Kids(calls, cut, true, n, p)|
    ensures var kids := Kids(calls, cut, true, n, p);
            calls[kids[a]].name != calls[kids[b]].name
  {
    var before := Kids(calls, cut, true, n - 1, p);
    OldOrNewKid(calls, cut, n - 1, p, a);
    OldOrNewKid(calls, cut, n - 1, p, b);
    if b < |before| {
      SiblingNamesDiffer(calls, cut, n - 1, p, a, b);
    } else {
      NewSiblingDiffers(calls, cut, n - 1, p, a);
    }
  }

  /** Every kept call is represented, under its stack parent, by a call of the same name. */
  lemma {:induction false} EveryKeptCallIsRepresented(calls: seq<Call>, cut: int, n: nat, i: nat) returns (a: nat)
    requires i < n <= |calls| && Kept(calls, cut, i)
    ensures var kids := Kids(calls, cut, true, n, Parent(calls, cut, i));
            a < |kids| && calls[kids[a]].name == calls[i].name
  {
    if i == n - 1 {
      a := Lookup(calls, Kids(calls, cut, true, i, Parent(calls, cut, i)), calls[i].name, 0);
    } else {
      a := EveryKeptCallIsRepresented(calls, cut, n - 1, i);
    }
  }

  /** Adding a sibling at the end does not change where an earlier name is found. */
  lemma {:induction false} LookupGrows(calls: seq<Call>, kids: seq<nat>, j: nat, name: string, from: nat)
    requires Indices(kids, |calls|) && j < |calls| && from <= |kids|
    ensures Lookup(calls, kids, name, from) < |kids| ==>
            Lookup(calls, kids + [j], name, from) == Lookup(calls, kids, name, from)
    ensures Lookup(calls, kids + [j], name, from) == |kids| + 1 ==>
              Lookup(calls, kids, name, from) == |kids| && calls[j].name != name
    decreases |kids| - from
  {
    if from < |kids| && calls[kids[from]].name != name {
      LookupGrows(calls, kids, j, name, from + 1);
    }
  }

  /** No call is routed under a name before some call of that name is hung. */
  lemma {:induction false} UnrepresentedIsEmpty(calls: seq<Call>, cut: int, n: nat, p: int, name: string)
    requires n <= |calls|
    requires Lookup(calls, Kids(calls, cut, true, n, p), name, 0) == |Kids(calls, cut, true, n, p)|
    ensures Routed(calls, cut, p, name, n) == []
  {
    if n > 0 {
      var before := Kids(calls, cut, true, n - 1, p);
      LookupGrows(calls, before, n - 1, name, 0);
      assert Lookup(calls, before, name, 0) == |before|;
      UnrepresentedIsEmpty(calls, cut, n - 1, p, name);
    }
  }

  /** Call `j` is folded into the `a`-th call under `p` just when it is routed there and shares its name. */
  lemma {:induction false} FoldedOnlyIntoNamesake(calls: seq<Call>, cut: int, j: nat, p: int, a: nat)
    requires j < |calls| && a < |Kids(calls, cut, true, j, p)|
    ensures var kid := Kids(calls, cut, true, j, p)[a];
            EntryFor(calls, cut, true, j) == kid <==>
            Kept(calls, cut, j) && Parent(calls, cut, j) == p && calls[j].name == calls[kid].name
  {
    var parent, kid := Parent(calls, cut, j), Kids(calls, cut, true, j, p)[a];
    var siblings := Kids(calls, cut, true, j, parent);
    var at := Lookup(calls, siblings, calls[j].name, 0);
    HungUnderParent(calls, cut, true, j, p, a);
    if at < |siblings| {
      HungUnderParent(calls, cut, true, j, parent, at);
    }
    if parent == p && at < a {
      SiblingNamesDiffer(calls, cut, j, p, at, a);
    } else if parent == p && a < at {
      LookupIsFirst(calls, siblings, calls[j].name, 0, a);
    }
  }

  /** An entry's figures stay exact when call `j` is placed... */
  lemma StaysSummary(calls: seq<Call>, cut: int, j: nat, p: int, a: nat, kid: nat)
    requires j < |calls| && a < |Kids(calls, cut, true, j, p)| && kid == Kids(calls, cut, true, j, p)[a]
    requires Summarises(TallyOf(calls, cut, true, j, kid), Routed(calls, cut, p, calls[kid].name, j))
    ensures Summarises(TallyOf(calls, cut, true, j + 1, kid), Routed(calls, cut, p, calls[kid].name, j + 1))
  {
    FoldedOnlyIntoNamesake(calls, cut, j, p, a);
    AbsorbSummarises(TallyOf(calls, cut, true, j, kid), Routed(calls, cut, p, calls[kid].name, j), calls[j].dur);
  }

  /** ... and are exact when call `j` becomes an entry. */
  lemma StartsSummary(calls: seq<Call>, cut: int, j: nat)
    requires j < |calls| && Kept(calls, cut, j)
    requires var kids := Kids(calls, cut, true, j, Parent(calls, cut, j));
             Lookup(calls, kids, calls[j].name, 0) == |kids|
    ensures Summarises(TallyOf(calls, cut, true, j + 1, j),
                       Routed(calls, cut, Parent(calls, cut, j), calls[j].name, j + 1))
  {
    NewTally(calls, cut, true, j);
    UnrepresentedIsEmpty(calls, cut, j, Parent(calls, cut, j), calls[j].name);
    SingleSummarises(calls[j].dur);
  }

  /**
   In aggregate mode the figures of an entry are exactly the count, sum and extremes of the
   durations of all calls of its name routed to its stack parent.
   */
  lemma {:induction false} EntrySummarisesRouted(calls: seq<Call>, cut: int, n: nat, p: int, a: nat)
    requires n <= |calls| && a < |Kids(calls, cut, true, n, p)|
    ensures var kid := Kids(calls, cut, true, n, p)[a];
            Summarises(TallyOf(calls, cut, true, n, kid), Routed(calls, cut, p, calls[kid].name, n))
  {
    var before := Kids(calls, cut, true, n - 1, p);
    OldOrNewKid(calls, cut, n - 1, p, a);
    if a < |before| {
      EntrySummarisesRouted(calls, cut, n - 1, p, a);
      StaysSummary(calls, cut, n - 1, p, a, before[a]);
    } else {
      StartsSummary(calls, cut, n - 1);
    }
  }

  lemma SingleSummarises(d: int)
    ensures Summarises(Single(d), [d])
  {
    assert [d][..0] == [];
    assert [d][0] == d;
  }

  /** The report's average lies between its minimum and its maximum. */
  lemma EntryAverageInRange(calls: seq<Call>, cut: int, n: nat, p: int, a: nat)
    requires n <= |calls| && a < |Kids(calls, cut, true, n, p)|
    ensures var t := TallyOf(calls, cut, true, n, Kids(calls, cut, true, n, p)[a]);
            t.count >= 1 && t.count * t.min <= t.dur <= t.count * t.max
  {
    var kid := Kids(calls, cut, true, n, p)[a];
    EntrySummarisesRouted(calls, cut, n, p, a);
    SumBounds(TallyOf(calls, cut, true, n, kid), Routed(calls, cut, p, calls[kid].name, n));
  }
}
