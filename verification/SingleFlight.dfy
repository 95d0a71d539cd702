/**
 The single-flight cache of type-signature tables.

 Many threads ask for the table of a path.  The first to ask loads it; the others wait on a
 condition variable until it is published.  One step of the machine is what a thread does
 while it holds the mutex once, or one action outside it, so every interleaving of any
 number of threads over any number of paths is a sequence of steps.
 */
module SingleFlight {
  import opened Common

  /** A table maps function names to argument descriptions; its contents play no role here. */
  type Table = map<string, seq<string>>

  datatype Pc =
    | Idle
    | Entering(path: string)                   // about to take the mutex
    | Locked(path: string)                     // holds the mutex, at the head of the lookup loop
    | Waiting(path: string)                    // asleep on the condition variable
    | Loading(path: string)                    // running the external dump
    | Loaded(path: string, table: Table)       // table parsed, about to take the mutex again
    | Publishing(path: string, table: Table)   // holds the mutex to publish
    | Notifying(path: string, table: Table)    // published, about to wake the waiters
  {
    predicate HoldsMutex() { Locked? || Publishing? }
    predicate Owns(p: string) { (Loading? || Loaded? || Publishing?) && path == p }
    predicate Announces(p: string) { Notifying? && path == p }
  }

  /** What a call returned; `dumped` is false when the dump was empty.  A call left by an exception has no reply. */
  datatype Reply = Reply(path: string, table: Table, dumped: bool)

  /**
   `threads`, `holder`, `cache` and `inProgress` are the program's state.  The rest records
   the past: how often each path was claimed, which paths a loader abandoned, who is loading
   or announcing which path, and every reply given.
   */
  datatype State = State(
    threads: seq<Pc>, holder: Option<nat>, cache: map<string, Table>, inProgress: set<string>,
    claims: multiset<string>, abandoned: set<string>, loader: map<string, nat>, announcer: map<string, nat>,
    replies: seq<Reply>)

  datatype Action =
    | Call(path: string)
    | Acquire
    | Hit
    | Claim
    | Wait
    | Dump(output: Option<Table>)   // None: the dump command printed nothing
    | Throw                         // an exception while the dump is parsed
    | Relock
    | Publish
    | NotifyAll
    | Wake                          // a spurious wakeup

  function Start(n: nat): State {
    State(seq(n, _ => Idle), None, map[], {}, multiset{}, {}, map[], map[], [])
  }

  predicate Enabled(s: State, t: nat, a: Action) {
    && t < |s.threads|
    && var pc := s.threads[t];
       match a
       case Call(_) => pc.Idle?
       case Acquire => pc.Entering? && s.holder.None?
       case Hit => pc.Locked? && pc.path in s.cache
       case Claim => pc.Locked? && pc.path !in s.cache && pc.path !in s.inProgress
       case Wait => pc.Locked? && pc.path !in s.cache && pc.path in s.inProgress
       case Dump(_) => pc.Loading?
       case Throw => pc.Loading?
       case Relock => pc.Loaded? && s.holder.None?
       case Publish => pc.Publishing?
       case NotifyAll => pc.Notifying?
       case Wake => pc.Waiting?
  }

  function Awoken(threads: seq<Pc>): (r: seq<Pc>)
    ensures |r| == |threads|
  {
    seq(|threads|, i requires 0 <= i < |threads| =>
      if threads[i].Waiting? then Entering(threads[i].path) else threads[i])
  }

  function Next(s: State, t: nat, a: Action): State
    requires Enabled(s, t, a)
  {
    var pc := s.threads[t];
    match a
    case Call(p) => s.(threads := s.threads[t := Entering(p)])
    case Acquire => s.(threads := s.threads[t := Locked(pc.path)], holder := Some(t))
    case Hit => s.(threads := s.threads[t := Idle], holder := None,
                   replies := s.replies + [Reply(pc.path, s.cache[pc.path], true)])
    case Claim => s.(threads := s.threads[t := Loading(pc.path)], holder := None,
                     inProgress := s.inProgress + {pc.path},
                     claims := s.claims + multiset{pc.path}, loader := s.loader[pc.path := t])
    case Wait => s.(threads := s.threads[t := Waiting(pc.path)], holder := None)
    case Dump(Some(table)) => s.(threads := s.threads[t := Loaded(pc.path, table)])
    case Dump(None) => // the early return: the path stays in progress and nobody is woken
      s.(threads := s.threads[t := Idle], abandoned := s.abandoned + {pc.path}, loader := s.loader - {pc.path},
         replies := s.replies + [Reply(pc.path, map[], false)])
    case Throw => // likewise, and the caller gets no reply
      s.(threads := s.threads[t := Idle], abandoned := s.abandoned + {pc.path}, loader := s.loader - {pc.path})
    case Relock => s.(threads := s.threads[t := Publishing(pc.path, pc.table)], holder := Some(t))
    case Publish => s.(threads := s.threads[t := Notifying(pc.path, pc.table)], holder := None,
                       cache := s.cache[pc.path := pc.table], inProgress := s.inProgress - {pc.path},
                       loader := s.loader - {pc.path}, announcer := s.announcer[pc.path := t])
    case NotifyAll => s.(threads := Awoken(s.threads)[t := Idle], announcer := s.announcer - {pc.path},
                         replies := s.replies + [Reply(pc.path, pc.table, true)])
    case Wake => s.(threads := s.threads[t := Entering(pc.path)])
  }

  /** The state reached from `s` by a sequence of steps, if all of them are possible. */
  function Exec(s: State, steps: seq<(nat, Action)>): Option<State> {
    if steps == [] then Some(s) else
      var (t, a) := steps[|steps| - 1];
      match Exec(s, steps[..|steps| - 1])
      case None => None
      case Some(r) => if Enabled(r, t, a) then Some(Next(r, t, a)) else None
  }

  // ----- the invariant -----

  ghost predicate MutexInv(s: State) {
    && (s.holder.Some? ==> s.holder.value < |s.threads|)
    && forall t :: 0 <= t < |s.threads| ==> (s.threads[t].HoldsMutex() <==> s.holder == Some(t))
  }

  /** A path in progress has exactly one loader, or its loader abandoned it. */
  ghost predicate PathInv(s: State) {
    && s.inProgress == s.loader.Keys + s.abandoned
    && s.loader.Keys !! s.abandoned
    && s.cache.Keys !! s.inProgress
  }

  ghost predicate LoaderInv(s: State) {
    && (forall p :: p in s.loader ==> s.loader[p] < |s.threads| && s.threads[s.loader[p]].Owns(p))
    && (forall t :: 0 <= t < |s.threads| ==>
          var pc := s.threads[t];
          pc.Loading? || pc.Loaded? || pc.Publishing? ==> pc.path in s.loader && s.loader[pc.path] == t)
  }

  /** A publisher yet to notify has its table in the cache. */
  ghost predicate PublishedInv(s: State) {
    forall t :: 0 <= t < |s.threads| && s.threads[t].Notifying? ==>
      var pc := s.threads[t]; pc.path in s.cache && s.cache[pc.path] == pc.table
  }

  ghost predicate AnnouncerInv(s: State) {
    && (forall p :: p in s.announcer ==> s.announcer[p] < |s.threads| && s.threads[s.announcer[p]].Announces(p))
    && (forall t :: 0 <= t < |s.threads| && s.threads[t].Notifying? ==>
          s.threads[t].path in s.announcer && s.announcer[s.threads[t].path] == t)
  }

  ghost predicate WaiterInv(s: State) {
    forall t :: 0 <= t < |s.threads| && s.threads[t].Waiting? ==>
      var p := s.threads[t].path; p in s.loader || p in s.announcer || p in s.abandoned
  }

  ghost predicate HistoryInv(s: State) {
    && (forall p :: s.claims[p] == if p in s.inProgress || p in s.cache then 1 else 0)
    && (forall i :: 0 <= i < |s.replies| ==>
          var r := s.replies[i];
          if r.dumped then r.path in s.cache && s.cache[r.path] == r.table
          else r.path in s.abandoned && r.table == map[])
  }

  ghost predicate Inv(s: State) {
    MutexInv(s) && PathInv(s) && LoaderInv(s) && PublishedInv(s) && AnnouncerInv(s) && WaiterInv(s) && HistoryInv(s)
  }

  lemma MutexKept(s: State, t: nat, a: Action)
    requires Enabled(s, t, a) && MutexInv(s)
    ensures MutexInv(Next(s, t, a))
  {
  }

  lemma PathKept(s: State, t: nat, a: Action)
    requires Enabled(s, t, a) && PathInv(s) && LoaderInv(s)
    ensures PathInv(Next(s, t, a))
  {
  }

  lemma LoaderKept(s: State, t: nat, a: Action)
    requires Enabled(s, t, a) && PathInv(s) && LoaderInv(s)
    ensures LoaderInv(Next(s, t, a))
  {
    if a.NotifyAll? {
      NotifyKeepsLoaders(s, t);
    } else if a.Claim? {
      ClaimAddsLoader(s, t);
    } else if a.Publish? || a.Throw? || a == Dump(None) {
      DropsLoader(s, t, Next(s, t, a));
    } else {
      MoveKeepsLoaders(s, t, Next(s, t, a));
    }
  }

  predicate Owner(pc: Pc) { pc.Loading? || pc.Loaded? || pc.Publishing? }

  /** A thread that stays an owner, or stays none. */
  lemma MoveKeepsLoaders(s: State, t: nat, r: State)
    requires LoaderInv(s) && t < |s.threads| == |r.threads| && r.threads == s.threads[t := r.threads[t]]
    requires r.loader == s.loader && (Owner(s.threads[t]) <==> Owner(r.threads[t]))
    requires Owner(r.threads[t]) ==> r.threads[t].path == s.threads[t].path
    ensures LoaderInv(r)
  {
  }

  /** An owner that gives up its path. */
  lemma DropsLoader(s: State, t: nat, r: State)
    requires LoaderInv(s) && t < |s.threads| == |r.threads| && r.threads == s.threads[t := r.threads[t]]
    requires Owner(s.threads[t]) && !Owner(r.threads[t]) && r.loader == s.loader - {s.threads[t].path}
    ensures LoaderInv(r)
  {
  }

  lemma ClaimAddsLoader(s: State, t: nat)
    requires Enabled(s, t, Claim) && PathInv(s) && LoaderInv(s)
    ensures LoaderInv(Next(s, t, Claim))
  {
  }

  lemma NotifyKeepsLoaders(s: State, t: nat)
    requires Enabled(s, t, NotifyAll) && LoaderInv(s)
    ensures LoaderInv(Next(s, t, NotifyAll))
  {
  }

  lemma PublishedKept(s: State, t: nat, a: Action)
    requires Enabled(s, t, a) && PathInv(s) && LoaderInv(s) && PublishedInv(s)
    ensures PublishedInv(Next(s, t, a))
  {
  }

  lemma AnnouncerKept(s: State, t: nat, a: Action)
    requires Enabled(s, t, a) && PathInv(s) && LoaderInv(s) && PublishedInv(s) && AnnouncerInv(s)
    ensures AnnouncerInv(Next(s, t, a))
  {
    if a.NotifyAll? {
      NotifyKeepsAnnouncers(s, t);
    }
  }

  lemma NotifyKeepsAnnouncers(s: State, t: nat)
    requires Enabled(s, t, NotifyAll) && AnnouncerInv(s)
    ensures AnnouncerInv(Next(s, t, NotifyAll))
  {
  }

  lemma WaiterKept(s: State, t: nat, a: Action)
    requires Enabled(s, t, a) && PathInv(s) && LoaderInv(s) && WaiterInv(s)
    ensures WaiterInv(Next(s, t, a))
  {
  }

  lemma HistoryKept(s: State, t: nat, a: Action)
    requires Enabled(s, t, a) && PathInv(s) && LoaderInv(s) && PublishedInv(s) && HistoryInv(s)
    ensures HistoryInv(Next(s, t, a))
  {
  }

  lemma {:induction false} InvHolds(n: nat, steps: seq<(nat, Action)>)
    ensures Exec(Start(n), steps).Some? ==> Inv(Exec(Start(n), steps).value)
  {
    if steps != [] && Exec(Start(n), steps).Some? {
      InvHolds(n, steps[..|steps| - 1]);
      var s := Exec(Start(n), steps[..|steps| - 1]).value;
      var (t, a) := steps[|steps| - 1];
      InvKept(s, t, a);
    }
  }

  lemma InvKept(s: State, t: nat, a: Action)
    requires Enabled(s, t, a) && Inv(s)
    ensures Inv(Next(s, t, a))
  {
    MutexKept(s, t, a);
    PathKept(s, t, a);
    PublishedKept(s, t, a);
    LoaderKept(s, t, a);
    AnnouncerKept(s, t, a);
    WaiterKept(s, t, a);
    HistoryKept(s, t, a);
  }

  // ----- safety over whole runs -----

  /** At any moment at most one thread is loading a path, and over a whole run it is loaded at most once. */
  lemma AtMostOneLoad(n: nat, steps: seq<(nat, Action)>, p: string)
    requires Exec(Start(n), steps).Some?
    ensures var s := Exec(Start(n), steps).value;
            && s.claims[p] <= 1
            && forall t, u ::
                 0 <= t < |s.threads| && 0 <= u < |s.threads| && s.threads[t].Owns(p) && s.threads[u].Owns(p) ==> t == u
  {
    InvHolds(n, steps);
  }

  lemma NextKeepsCache(s: State, t: nat, a: Action, p: string)
    requires Enabled(s, t, a) && Inv(s) && p in s.cache
    ensures p in Next(s, t, a).cache && Next(s, t, a).cache[p] == s.cache[p]
  {
  }

  /** Cache entries are write-once: nothing that happens later changes or removes one. */
  lemma {:induction false} CacheIsWriteOnce(s: State, steps: seq<(nat, Action)>, p: string)
    requires Inv(s) && Exec(s, steps).Some? && p in s.cache
    ensures var r := Exec(s, steps).value;
            Inv(r) && p in r.cache && r.cache[p] == s.cache[p]
  {
    if steps != [] {
      var (t, a) := steps[|steps| - 1];
      CacheIsWriteOnce(s, steps[..|steps| - 1], p);
      var r := Exec(s, steps[..|steps| - 1]).value;
      InvKept(r, t, a);
      NextKeepsCache(r, t, a, p);
    }
  }

  /**
   Two calls for the same path, however far apart, get the same table, unless one of them
   was the loader whose dump came back empty; that one gets the empty table.
   */
  lemma SamePathSameTable(n: nat, steps: seq<(nat, Action)>, i: nat, j: nat)
    requires Exec(Start(n), steps).Some?
    requires var s := Exec(Start(n), steps).value;
             i < |s.replies| && j < |s.replies| && s.replies[i].path == s.replies[j].path
    ensures var s := Exec(Start(n), steps).value;
            s.replies[i] == s.replies[j] && (!s.replies[i].dumped ==> s.replies[i].table == map[])
  {
    InvHolds(n, steps);
  }

  // ----- who will wake a waiter -----

  /** A notification wakes every waiter, whatever its path, to look again. */
  lemma NotifyWakesEveryone(s: State, t: nat, u: nat)
    requires Enabled(s, t, NotifyAll) && u < |s.threads|
    ensures |Next(s, t, NotifyAll).threads| == |s.threads|
    ensures s.threads[u].Waiting? ==> Next(s, t, NotifyAll).threads[u] == Entering(s.threads[u].path)
  {
  }

  /** Somebody will wake the waiters on `p`: a live loader, or a publisher that has yet to notify. */
  ghost predicate WillBeWoken(s: State, p: string) {
    exists t :: 0 <= t < |s.threads| && (s.threads[t].Owns(p) || s.threads[t].Announces(p))
  }

  /** No wakeup is lost: a waiter will be woken exactly when no loader abandoned its path. */
  lemma WaiterWillBeWoken(n: nat, steps: seq<(nat, Action)>, t: nat)
    requires Exec(Start(n), steps).Some?
    requires var s := Exec(Start(n), steps).value; t < |s.threads| && s.threads[t].Waiting?
    ensures var s := Exec(Start(n), steps).value;
            WillBeWoken(s, s.threads[t].path) <==> s.threads[t].path !in s.abandoned
  {
    InvHolds(n, steps);
    var s := Exec(Start(n), steps).value;
    var p := s.threads[t].path;
    if p in s.loader {
      assert s.threads[s.loader[p]].Owns(p);
    } else if p in s.announcer {
      assert s.threads[s.announcer[p]].Announces(p);
    }
    if WillBeWoken(s, p) {
      var u :| 0 <= u < |s.threads| && (s.threads[u].Owns(p) || s.threads[u].Announces(p));
    }
  }

  lemma AbandonedStays(s: State, t: nat, a: Action, p: string)
    requires Enabled(s, t, a) && Inv(s) && p in s.abandoned
    ensures var r := Next(s, t, a);
            && p in r.abandoned && p in r.inProgress && p !in r.cache
            && (|r.replies| == |s.replies|
                || (|r.replies| == |s.replies| + 1 && r.replies[|s.replies|].path != p
                    && r.replies[..|s.replies|] == s.replies))
  {
  }

  /**
   After an empty dump, or an exception while one is parsed, the path stays in progress for
   good: whatever happens later, it is never cached and no further call for it ever returns.
   */
  lemma {:induction false} AbandonedPathIsStranded(s: State, steps: seq<(nat, Action)>, p: string)
    requires Inv(s) && Exec(s, steps).Some? && p in s.abandoned
    ensures var r := Exec(s, steps).value;
            && Inv(r) && p in r.abandoned && p in r.inProgress && p !in r.cache
            && |s.replies| <= |r.replies|
            && forall i :: |s.replies| <= i < |r.replies| ==> r.replies[i].path != p
  {
    if steps != [] {
      var (t, a) := steps[|steps| - 1];
      AbandonedPathIsStranded(s, steps[..|steps| - 1], p);
      var r := Exec(s, steps[..|steps| - 1]).value;
      InvKept(r, t, a);
      AbandonedStays(r, t, a, p);
    }
  }

  /** The stranded waiter is real: one call meets an empty dump or an exception, the next one waits for ever. */
  lemma AWaiterCanBeStranded(p: string, how: Action)
    requires how == Dump(None) || how == Throw
    ensures exists steps :: Exec(Start(2), steps).Some? &&
              var s := Exec(Start(2), steps).value; |s.threads| == 2 && s.threads[1] == Waiting(p) && p in s.abandoned
  {
    var before := AbandonedRun(p, how);
    var s5 := before + [(1, Call(p))];
    var s6 := s5 + [(1, Acquire)];
    Then(Start(2), before, 1, Call(p));
    Then(Start(2), s5, 1, Acquire);
    Then(Start(2), s6, 1, Wait);
  }

  /** The first of the two calls. */
  lemma AbandonedRun(p: string, how: Action) returns (steps: seq<(nat, Action)>)
    requires how == Dump(None) || how == Throw
    ensures Exec(Start(2), steps).Some?
    ensures var s := Exec(Start(2), steps).value;
            |s.threads| == 2 && s.threads[1] == Idle && s.holder == None && s.cache == map[]
            && p in s.inProgress && p in s.abandoned
  {
    var s1 := [(0, Call(p))];
    var s2 := s1 + [(0, Acquire)];
    var s3 := s2 + [(0, Claim)];
    steps := s3 + [(0, how)];
    Then(Start(2), [], 0, Call(p));
    assert [] + s1 == s1;
    Then(Start(2), s1, 0, Acquire);
    Then(Start(2), s2, 0, Claim);
    Then(Start(2), s3, 0, how);
  }

  lemma Then(s: State, steps: seq<(nat, Action)>, t: nat, a: Action)
    requires Exec(s, steps).Some? && Enabled(Exec(s, steps).value, t, a)
    ensures Exec(s, steps + [(t, a)]) == Some(Next(Exec(s, steps).value, t, a))
  {
    assert (steps + [(t, a)])[..|steps|] == steps;
  }

  // ----- progress -----

  /** A step the protocol itself takes: not a new call, not a spurious wakeup. */
  predicate IsProtocolStep(a: Action) { !a.Call? && !a.Wake? }

  /** No thread can take a protocol step. */
  ghost predicate Quiet(s: State) {
    forall t: nat, a :: IsProtocolStep(a) ==> !Enabled(s, t, a)
  }

  /** When the protocol has nothing left to do, every thread has returned or waits on an abandoned path. */
  lemma QuietMeansDone(n: nat, steps: seq<(nat, Action)>, t: nat)
    requires Exec(Start(n), steps).Some? && Quiet(Exec(Start(n), steps).value)
    requires t < |Exec(Start(n), steps).value.threads|
    ensures var s := Exec(Start(n), steps).value;
            s.threads[t].Idle? || (s.threads[t].Waiting? && s.threads[t].path in s.abandoned)
  {
    InvHolds(n, steps);
    var s := Exec(Start(n), steps).value;
    var awake := t;
    if s.threads[t].Waiting? {
      WaiterWillBeWoken(n, steps, t);
      if WillBeWoken(s, s.threads[t].path) {
        awake :| 0 <= awake < |s.threads|
            && (s.threads[awake].Owns(s.threads[t].path) || s.threads[awake].Announces(s.threads[t].path));
      }
    }
    if !s.threads[awake].Idle? && !s.threads[awake].Waiting? {
      var u, a := SomebodyCanMove(s, awake);
    }
  }

  /** As long as some thread is in a call and not asleep, somebody can take a protocol step. */
  lemma SomebodyCanMove(s: State, t: nat) returns (u: nat, a: Action)
    requires MutexInv(s) && t < |s.threads| && !s.threads[t].Idle? && !s.threads[t].Waiting?
    ensures IsProtocolStep(a) && Enabled(s, u, a)
  {
    u := if s.holder.Some? then s.holder.value else t;
    var pc := s.threads[u];
    assert s.holder.Some? ==> pc.HoldsMutex();
    a := match pc
         case Entering(_) => Acquire
         case Locked(p) => if p in s.cache then Hit else if p in s.inProgress then Wait else Claim
         case Loading(_) => Dump(None)
         case Loaded(_, _) => Relock
         case Publishing(_, _) => Publish
         case _ => NotifyAll;
  }

  /**
   How many protocol steps a thread's call can still cause in a system of `n` threads: its own,
   and those of the threads it wakes.
   */
  function Effort(n: nat, pc: Pc): nat {
    match pc
    case Idle => 0
    case Entering(_) => 2 * n + 6
    case Locked(_) => 2 * n + 5
    case Waiting(_) => 2 * n + 4
    case Loading(_) => 2 * n + 4
    case Loaded(_, _) => 2 * n + 3
    case Publishing(_, _) => 2 * n + 2
    case Notifying(_, _) => 2 * n + 1
  }

  function Total(n: nat, threads: seq<Pc>): nat {
    if threads == [] then 0 else Total(n, threads[..|threads| - 1]) + Effort(n, threads[|threads| - 1])
  }

  lemma {:induction false} TotalUpdate(n: nat, threads: seq<Pc>, t: nat, pc: Pc)
    requires t < |threads|
    ensures Total(n, threads[t := pc]) + Effort(n, threads[t]) == Total(n, threads) + Effort(n, pc)
  {
    var last := |threads| - 1;
    if t < last {
      TotalUpdate(n, threads[..last], t, pc);
      assert threads[t := pc][..last] == threads[..last][t := pc];
    } else {
      assert threads[t := pc][..last] == threads[..last];
    }
  }

  /** Waking a thread brings it two steps of effort. */
  lemma {:induction false} AwokenTotal(n: nat, threads: seq<Pc>)
    ensures Total(n, Awoken(threads)) <= Total(n, threads) + 2 * |threads|
  {
    if threads != [] {
      var last := |threads| - 1;
      AwokenTotal(n, threads[..last]);
      assert Awoken(threads)[..last] == Awoken(threads[..last]);
    }
  }

  /** The effort that a step adds from outside: a new call, or a spurious wakeup. */
  function Added(n: nat, a: Action): nat {
    if a.Call? then 2 * n + 6 else if a.Wake? then 2 else 0
  }

  /** Every protocol step uses up effort; only calls and spurious wakeups bring new effort. */
  lemma StepUsesEffort(s: State, t: nat, a: Action)
    requires Enabled(s, t, a)
    ensures var n := |s.threads|;
            |Next(s, t, a).threads| == n
            && Total(n, Next(s, t, a).threads) + (if IsProtocolStep(a) then 1 else 0)
               <= Total(n, s.threads) + Added(n, a)
  {
    var n, pc := |s.threads|, Next(s, t, a).threads[t];
    if a.NotifyAll? {
      AwokenTotal(n, s.threads);
      TotalUpdate(n, Awoken(s.threads), t, Idle);
    } else {
      OthersStay(s, t, a);
      EffortDrops(s, t, a);
      TotalUpdate(n, s.threads, t, pc);
    }
  }

  lemma OthersStay(s: State, t: nat, a: Action)
    requires Enabled(s, t, a) && !a.NotifyAll?
    ensures |Next(s, t, a).threads| == |s.threads| && Next(s, t, a).threads == s.threads[t := Next(s, t, a).threads[t]]
  {
  }

  lemma EffortDrops(s: State, t: nat, a: Action)
    requires Enabled(s, t, a) && !a.NotifyAll? && |Next(s, t, a).threads| == |s.threads|
    ensures var n := |s.threads|;
            Effort(n, Next(s, t, a).threads[t]) + (if IsProtocolStep(a) then 1 else 0)
            <= Effort(n, s.threads[t]) + Added(n, a)
  {
  }

  /** How many of `steps` are such actions. */
  function Count(steps: seq<(nat, Action)>, such: Action -> bool): nat {
    if steps == [] then 0 else
      Count(steps[..|steps| - 1], such) + if such(steps[|steps| - 1].1) then 1 else 0
  }

  predicate IsCall(a: Action) { a.Call? }

  predicate IsWake(a: Action) { a.Wake? }

  /** The effort left at the end is covered by that at the start and that brought in. */
  lemma {:induction false} EffortIsUsed(s: State, steps: seq<(nat, Action)>, k: nat)
    requires Exec(s, steps).Some? && k == 2 * |s.threads| + 6
    ensures var n, r := |s.threads|, Exec(s, steps).value;
            && |r.threads| == n
            && Count(steps, IsProtocolStep) + Total(n, r.threads)
               <= Total(n, s.threads) + k * Count(steps, IsCall) + 2 * Count(steps, IsWake)
  {
    if steps != [] {
      var front := steps[..|steps| - 1];
      var (t, a) := steps[|steps| - 1];
      EffortIsUsed(s, front, k);
      StepUsesEffort(Exec(s, front).value, t, a);
      Times(k, Count(front, IsCall));
    }
  }

  lemma Times(k: nat, c: nat)
    ensures k * (c + 1) == k * c + k
  {
  }

  /**
   In a system of `n` threads, any run from the start takes at most 2n + 6 protocol steps for
   each call and two for each spurious wakeup: it ends if these do.
   */
  lemma ProtocolStepsEnd(n: nat, steps: seq<(nat, Action)>)
    requires Exec(Start(n), steps).Some?
    ensures Count(steps, IsProtocolStep) <= (2 * n + 6) * Count(steps, IsCall) + 2 * Count(steps, IsWake)
  {
    EffortIsUsed(Start(n), steps, 2 * n + 6);
    NoEffort(n, Start(n).threads);
  }

  lemma {:induction false} NoEffort(n: nat, threads: seq<Pc>)
    requires forall t :: 0 <= t < |threads| ==> threads[t].Idle?
    ensures Total(n, threads) == 0
  {
    if threads != [] {
      NoEffort(n, threads[..|threads| - 1]);
    }
  }
}
