/**
 Calls of the signature cache are neither lost nor answered twice.
 */
module CallsAnswered {
  import opened Common
  import opened SingleFlight

  /** How many threads are in a call for `p`. */
  function Busy(threads: seq<Pc>, p: string): nat {
    if threads == [] then 0 else Busy(threads[..|threads| - 1], p) + In(threads[|threads| - 1], p)
  }

  function In(pc: Pc, p: string): nat { if !pc.Idle? && pc.path == p then 1 else 0 }

  /** How many replies were given for `p`. */
  function Replied(replies: seq<Reply>, p: string): nat {
    if replies == [] then 0 else
      Replied(replies[..|replies| - 1], p) + if replies[|replies| - 1].path == p then 1 else 0
  }

  /** How many calls were made for `p`. */
  function Asked(steps: seq<(nat, Action)>, p: string): nat {
    if steps == [] then 0 else
      Asked(steps[..|steps| - 1], p) + if steps[|steps| - 1].1 == Call(p) then 1 else 0
  }

  /** Step `(t, a)` from `s` leaves a call for `p` by an exception. */
  predicate Throws(s: State, t: nat, a: Action, p: string) {
    a.Throw? && t < |s.threads| && s.threads[t] == Loading(p)
  }

  /** How many calls for `p` were left by an exception. */
  function Thrown(n: nat, steps: seq<(nat, Action)>, p: string): nat {
    if steps == [] then 0 else
      var front, step := steps[..|steps| - 1], steps[|steps| - 1];
      var before := Exec(Start(n), front);
      Thrown(n, front, p) + if before.Some? && Throws(before.value, step.0, step.1, p) then 1 else 0
  }

  lemma {:induction false} BusyUpdate(threads: seq<Pc>, t: nat, pc: Pc, p: string)
    requires t < |threads|
    ensures Busy(threads[t := pc], p) + In(threads[t], p) == Busy(threads, p) + In(pc, p)
  {
    var last := |threads| - 1;
    if t < last {
      BusyUpdate(threads[..last], t, pc, p);
      assert threads[t := pc][..last] == threads[..last][t := pc];
    } else {
      assert threads[t := pc][..last] == threads[..last];
    }
  }

  lemma {:induction false} BusyAwoken(threads: seq<Pc>, p: string)
    ensures Busy(Awoken(threads), p) == Busy(threads, p)
  {
    if threads != [] {
      var last := |threads| - 1;
      BusyAwoken(threads[..last], p);
      assert Awoken(threads)[..last] == Awoken(threads[..last]);
    }
  }

  lemma {:induction false} NobodyBusy(threads: seq<Pc>, p: string)
    requires forall t :: 0 <= t < |threads| ==> threads[t].Idle?
    ensures Busy(threads, p) == 0
  {
    if threads != [] {
      NobodyBusy(threads[..|threads| - 1], p);
    }
  }

  /** The reply that a step gives for `p`, if any. */
  lemma RepliedNext(s: State, t: nat, a: Action, p: string)
    requires Enabled(s, t, a)
    ensures var answers := a.Hit? || a.NotifyAll? || a == Dump(None);
            Replied(Next(s, t, a).replies, p) == Replied(s.replies, p) + if answers then In(s.threads[t], p) else 0
  {
    var after := Next(s, t, a).replies;
    if a.Hit? || a.NotifyAll? || a == Dump(None) {
      assert after[..|s.replies|] == s.replies;
    }
  }

  lemma BusyNext(s: State, t: nat, a: Action, p: string)
    requires Enabled(s, t, a)
    ensures var r := Next(s, t, a);
            && |r.threads| == |s.threads|
            && Busy(r.threads, p) + In(s.threads[t], p) == Busy(s.threads, p) + In(r.threads[t], p)
  {
    var pc := Next(s, t, a).threads[t];
    if a.NotifyAll? {
      BusyAwoken(s.threads, p);
      BusyUpdate(Awoken(s.threads), t, Idle, p);
    } else {
      OthersStay(s, t, a);
      BusyUpdate(s.threads, t, pc, p);
    }
  }

  /** Every step keeps the balance: a call begins, or ends with a reply or an exception, or goes on. */
  lemma BalanceNext(s: State, t: nat, a: Action, p: string)
    requires Enabled(s, t, a)
    ensures var r := Next(s, t, a);
            Replied(r.replies, p) + Busy(r.threads, p) + (if Throws(s, t, a, p) then 1 else 0)
            == Replied(s.replies, p) + Busy(s.threads, p) + if a == Call(p) then 1 else 0
  {
    RepliedNext(s, t, a, p);
    BusyNext(s, t, a, p);
  }

  /** In every run, each call for a path has been answered once, was left by an exception, or is still going on. */
  lemma {:induction false} EveryCallIsAccountedFor(n: nat, steps: seq<(nat, Action)>, p: string)
    requires Exec(Start(n), steps).Some?
    ensures var s := Exec(Start(n), steps).value;
            Asked(steps, p) == Replied(s.replies, p) + Thrown(n, steps, p) + Busy(s.threads, p)
  {
    if steps == [] {
      NobodyBusy(Start(n).threads, p);
    } else {
      var front, step := steps[..|steps| - 1], steps[|steps| - 1];
      EveryCallIsAccountedFor(n, front, p);
      BalanceNext(Exec(Start(n), front).value, step.0, step.1, p);
    }
  }
}
