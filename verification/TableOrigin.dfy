/**
 Where the tables that callers get come from: for each path from the one dump of that path that
 succeeded.
 */
module TableOrigin {
  import opened Common
  import opened SingleFlight

  /** Step `(t, a)` from `s` dumps a table for `p`. */
  predicate Dumps(s: State, t: nat, a: Action, p: string) {
    t < |s.threads| && s.threads[t] == Loading(p) && a.Dump? && a.output.Some?
  }

  /** Step `k` of the run dumps a table for `p`. */
  predicate DumpsAt(n: nat, steps: seq<(nat, Action)>, k: nat, p: string) {
    && k < |steps| && Exec(Start(n), steps[..k]).Some?
    && Dumps(Exec(Start(n), steps[..k]).value, steps[k].0, steps[k].1, p)
  }

  /** The tables dumped for `p` in a run, in order. */
  function Dumped(n: nat, steps: seq<(nat, Action)>, p: string): seq<Table> {
    if steps == [] then [] else
      var front := steps[..|steps| - 1];
      Dumped(n, front, p) + DumpedBy(n, front, steps[|steps| - 1], p)
  }

  function DumpedBy(n: nat, before: seq<(nat, Action)>, step: (nat, Action), p: string): seq<Table> {
    if Exec(Start(n), before).Some? && Dumps(Exec(Start(n), before).value, step.0, step.1, p)
    then [step.1.output.value] else []
  }

  /** `dumped` is what was dumped for `p` so far: nothing until a load succeeds, then the table that everybody holds. */
  ghost predicate Holds(s: State, p: string, dumped: seq<Table>) {
    && (p in s.cache ==> dumped == [s.cache[p]])
    && (p !in s.cache && p !in s.inProgress ==> dumped == [])
    && forall t {:trigger s.threads[t]} :: 0 <= t < |s.threads| ==> HoldsFor(s.threads[t], p, dumped)
  }

  ghost predicate HoldsFor(pc: Pc, p: string, dumped: seq<Table>) {
    match pc
    case Loading(path) => path == p ==> dumped == []
    case Loaded(path, table) => path == p ==> dumped == [table]
    case Publishing(path, table) => path == p ==> dumped == [table]
    case Notifying(path, table) => path == p ==> dumped == [table]
    case _ => true
  }

  lemma HoldsStart(n: nat, p: string)
    ensures Holds(Start(n), p, [])
  {
  }

  /** Only a dump changes what has been dumped; every other step passes tables on as they are. */
  lemma HoldsNext(s: State, t: nat, a: Action, p: string, dumped: seq<Table>)
    requires Enabled(s, t, a) && Inv(s) && Holds(s, p, dumped)
    ensures Holds(Next(s, t, a), p, dumped + if Dumps(s, t, a, p) then [a.output.value] else [])
  {
    assert dumped + [] == dumped;
    assert HoldsFor(s.threads[t], p, dumped);
    if Dumps(s, t, a, p) {
      assert [] + [a.output.value] == [a.output.value];
      LoaderIsAlone(s, t, p);
    }
  }

  /** While one thread loads a path, no other holds a table for it. */
  lemma LoaderIsAlone(s: State, t: nat, p: string)
    requires Inv(s) && t < |s.threads| && s.threads[t] == Loading(p)
    ensures p !in s.cache && p in s.inProgress
    ensures forall u {:trigger s.threads[u]} :: 0 <= u < |s.threads| && u != t ==>
              !s.threads[u].Owns(p) && !s.threads[u].Announces(p)
  {
  }

  lemma {:induction false} HoldsAfter(n: nat, steps: seq<(nat, Action)>, p: string)
    requires Exec(Start(n), steps).Some?
    ensures Holds(Exec(Start(n), steps).value, p, Dumped(n, steps, p))
  {
    if steps == [] {
      HoldsStart(n, p);
    } else {
      var front, step := steps[..|steps| - 1], steps[|steps| - 1];
      InvHolds(n, front);
      HoldsAfter(n, front, p);
      HoldsNext(Exec(Start(n), front).value, step.0, step.1, p, Dumped(n, front, p));
    }
  }

  lemma DumpsAtEarlier(n: nat, steps: seq<(nat, Action)>, k: nat, p: string)
    requires k < |steps| - 1
    ensures DumpsAt(n, steps[..|steps| - 1], k, p) <==> DumpsAt(n, steps, k, p)
  {
    assert steps[..|steps| - 1][..k] == steps[..k];
  }

  lemma DumpedLast(n: nat, steps: seq<(nat, Action)>, p: string)
    requires steps != []
    ensures var last := |steps| - 1;
            Dumped(n, steps, p) == Dumped(n, steps[..last], p)
                                   + if DumpsAt(n, steps, last, p) then [steps[last].1.output.value] else []
  {
  }

  lemma OnlyOne(a: seq<Table>, x: Table, y: Table)
    requires a + [x] == [y]
    ensures a == [] && x == y
  {
    assert |a| == 0;
    assert (a + [x])[0] == x;
  }

  /** If one table was dumped, one step did it. */
  lemma {:induction false} OneDumped(n: nat, steps: seq<(nat, Action)>, p: string, table: Table) returns (k: nat)
    requires Exec(Start(n), steps).Some? && Dumped(n, steps, p) == [table]
    ensures DumpsAt(n, steps, k, p) && steps[k].1.output.value == table
  {
    var last := |steps| - 1;
    DumpedLast(n, steps, p);
    if DumpsAt(n, steps, last, p) {
      OnlyOne(Dumped(n, steps[..last], p), steps[last].1.output.value, table);
      k := last;
    } else {
      k := OneDumped(n, steps[..last], p, table);
      DumpsAtEarlier(n, steps, k, p);
    }
  }

  lemma {:induction false} DumpedGrows(n: nat, steps: seq<(nat, Action)>, p: string, m: nat)
    requires m <= |steps|
    ensures |Dumped(n, steps[..m], p)| <= |Dumped(n, steps, p)|
  {
    if m == |steps| {
      assert steps[..m] == steps;
    } else {
      var front := steps[..|steps| - 1];
      DumpedGrows(n, front, p, m);
      assert front[..m] == steps[..m];
    }
  }

  lemma DumpedAt(n: nat, steps: seq<(nat, Action)>, p: string, k: nat)
    requires DumpsAt(n, steps, k, p)
    ensures |Dumped(n, steps[..k + 1], p)| == |Dumped(n, steps[..k], p)| + 1
  {
    var until := steps[..k + 1];
    assert until[..k] == steps[..k] && until[k] == steps[k];
    DumpedLast(n, until, p);
  }

  lemma Prefixes<T>(s: seq<T>, i: nat, j: nat)
    requires i <= j <= |s|
    ensures s[..j][..i] == s[..i]
  {
  }

  lemma DumpedByThen(n: nat, steps: seq<(nat, Action)>, p: string, j: nat, m: nat)
    requires DumpsAt(n, steps, j, p) && j < m <= |steps|
    ensures |Dumped(n, steps[..m], p)| >= |Dumped(n, steps[..j], p)| + 1
  {
    Prefixes(steps, j + 1, m);
    DumpedAt(n, steps, p, j);
    DumpedGrows(n, steps[..m], p, j + 1);
  }

  lemma DumpedTwice(n: nat, steps: seq<(nat, Action)>, p: string, j: nat, k: nat)
    requires DumpsAt(n, steps, j, p) && DumpsAt(n, steps, k, p) && j < k
    ensures |Dumped(n, steps, p)| >= 2
  {
    assert steps[..|steps|] == steps;
    DumpedByThen(n, steps, p, j, k);
    DumpedByThen(n, steps, p, k, |steps|);
  }

  /** Step `k` dumped `table` for `p`, while its thread was loading that, and no other step dumped any for it. */
  ghost predicate IsTheDump(n: nat, steps: seq<(nat, Action)>, p: string, table: Table, k: nat) {
    && DumpsAt(n, steps, k, p) && steps[k].1 == Dump(Some(table))
    && forall j: nat :: DumpsAt(n, steps, j, p) ==> j == k
  }

  /** The cache holds what was dumped. */
  lemma CacheIsTheDump(n: nat, steps: seq<(nat, Action)>, p: string) returns (k: nat)
    requires Exec(Start(n), steps).Some? && p in Exec(Start(n), steps).value.cache
    ensures IsTheDump(n, steps, p, Exec(Start(n), steps).value.cache[p], k)
  {
    var table := Exec(Start(n), steps).value.cache[p];
    HoldsAfter(n, steps, p);
    k := OneDumped(n, steps, p, table);
    forall j: nat | DumpsAt(n, steps, j, p)
      ensures j == k
    {
      AtMostOnce(n, steps, p, j, k);
    }
  }

  lemma AtMostOnce(n: nat, steps: seq<(nat, Action)>, p: string, j: nat, k: nat)
    requires DumpsAt(n, steps, j, p) && DumpsAt(n, steps, k, p) && |Dumped(n, steps, p)| == 1
    ensures j == k
  {
    if j < k {
      DumpedTwice(n, steps, p, j, k);
    } else if k < j {
      DumpedTwice(n, steps, p, k, j);
    }
  }

  /** So is what every caller gets, except for the one whose dump was empty. */
  lemma ReplyIsTheDump(n: nat, steps: seq<(nat, Action)>, i: nat) returns (k: nat)
    requires Exec(Start(n), steps).Some?
    requires i < |Exec(Start(n), steps).value.replies| && Exec(Start(n), steps).value.replies[i].dumped
    ensures var r := Exec(Start(n), steps).value.replies[i];
            IsTheDump(n, steps, r.path, r.table, k)
  {
    InvHolds(n, steps);
    k := CacheIsTheDump(n, steps, Exec(Start(n), steps).value.replies[i].path);
  }
}
