/**
 When the order in which extractions finish makes a difference to what they list: exactly when
 two of them offer a name under the same unclaimed key.
 */
module ProbeOrder {
  import opened ProbePipeline

  /** No unclaimed key is offered by two extractions. */
  ghost predicate Uncontended(slots: seq<Slot>, claimed: set<string>) {
    forall i, j, k {:trigger Offers(slots, i, k), Offers(slots, j, k)} ::
      0 <= i < |slots| && 0 <= j < |slots| && i != j && k !in claimed && Offers(slots, i, k) ==> !Offers(slots, j, k)
  }

  ghost predicate ListsAgree(slots: seq<Slot>, claimed: set<string>, a: seq<nat>, b: seq<nat>)
    requires EachOnce(a, |slots|) && EachOnce(b, |slots|)
  {
    ProcessAll(slots, claimed, a).lists == ProcessAll(slots, claimed, b).lists
  }

  ghost predicate AllListsAgree(slots: seq<Slot>, claimed: set<string>) {
    forall a, b :: EachOnce(a, |slots|) && EachOnce(b, |slots|) ==> ListsAgree(slots, claimed, a, b)
  }

  // ----- without contention every extraction lists what it would list alone -----

  /** What is kept depends on the claimed keys only as far as they are offered. */
  lemma {:induction false} DedupSame(slot: Slot, names: seq<string>, c1: set<string>, c2: set<string>)
    requires forall i :: 0 <= i < |names| ==> (slot.Key(names[i]) in c1 <==> slot.Key(names[i]) in c2)
    ensures Dedup(slot, names, c1).0 == Dedup(slot, names, c2).0
  {
    if names != [] {
      var front, last := names[..|names| - 1], names[|names| - 1];
      DedupSame(slot, front, c1, c2);
      DedupKeys(slot, front, c1, slot.Key(last));
      DedupKeys(slot, front, c2, slot.Key(last));
    }
  }

  lemma {:induction false} AnyOffersWhere(slots: seq<Slot>, order: seq<nat>, k: string) returns (m: nat)
    requires forall j :: 0 <= j < |order| ==> order[j] < |slots|
    requires AnyOffers(slots, order, k)
    ensures m < |order| && Offers(slots, order[m], k)
  {
    m := |order| - 1;
    if !Offers(slots, order[m], k) {
      m := AnyOffersWhere(slots, order[..m], k);
    }
  }

  /** A key that `last` offers is claimed when its turn comes only if it was claimed at the start. */
  lemma StillUnclaimed(slots: seq<Slot>, claimed: set<string>, front: seq<nat>, last: nat, k: string)
    requires forall j :: 0 <= j < |front| ==> front[j] < |slots| && front[j] != last
    requires last < |slots| && Uncontended(slots, claimed) && Offers(slots, last, k)
    ensures k in ProcessAll(slots, claimed, front).claimed <==> k in claimed
  {
    ClaimedIff(slots, claimed, front, k);
    if k !in claimed && AnyOffers(slots, front, k) {
      var m := AnyOffersWhere(slots, front, k);
    }
  }

  lemma ListsAsAlone(slots: seq<Slot>, claimed: set<string>, front: seq<nat>, last: nat)
    requires forall j :: 0 <= j < |front| ==> front[j] < |slots| && front[j] != last
    requires last < |slots| && Uncontended(slots, claimed) && !slots[last].invalid
    ensures Listed(slots[last], ProcessAll(slots, claimed, front).claimed).0 == Listed(slots[last], claimed).0
  {
    var slot := slots[last];
    if slot.Dedups() {
      var names, now := Offered(slot), ProcessAll(slots, claimed, front).claimed;
      forall i | 0 <= i < |names|
        ensures slot.Key(names[i]) in now <==> slot.Key(names[i]) in claimed
      {
        assert names[i] in names;
        assert Offers(slots, last, slot.Key(names[i]));
        StillUnclaimed(slots, claimed, front, last, slot.Key(names[i]));
      }
      DedupSame(slot, names, now, claimed);
    }
  }

  ghost predicate Distinct(order: seq<nat>, n: nat) {
    && (forall k :: 0 <= k < |order| ==> order[k] < n)
    && (forall j, k :: 0 <= j < k < |order| ==> order[j] != order[k])
  }

  /**
   Once the slots of `order` are processed, `i` has a list if it is valid and among them, the one
   it would make alone.
   */
  ghost predicate HasOwnList(slots: seq<Slot>, claimed: set<string>, order: seq<nat>, i: nat)
    requires forall k :: 0 <= k < |order| ==> order[k] < |slots|
  {
    var lists := ProcessAll(slots, claimed, order).lists;
    && (i in lists <==> i in order && i < |slots| && !slots[i].invalid)
    && (i in lists && i < |slots| ==> lists[i] == Listed(slots[i], claimed).0)
  }

  lemma InSnoc(front: seq<nat>, last: nat, i: nat)
    ensures i in front + [last] <==> i in front || i == last
  {
  }

  lemma ProcessSnoc(slots: seq<Slot>, claimed: set<string>, front: seq<nat>, last: nat)
    requires last < |slots| && forall j :: 0 <= j < |front| ==> front[j] < |slots|
    ensures ProcessAll(slots, claimed, front + [last]) == Process(slots, ProcessAll(slots, claimed, front), last)
  {
    assert (front + [last])[..|front|] == front;
  }

  lemma OneMoreList(slots: seq<Slot>, claimed: set<string>, front: seq<nat>, last: nat, i: nat)
    requires last < |slots| && forall j :: 0 <= j < |front| ==> front[j] < |slots| && front[j] != last
    requires Uncontended(slots, claimed) && HasOwnList(slots, claimed, front, i)
    ensures HasOwnList(slots, claimed, front + [last], i)
  {
    InSnoc(front, last, i);
    ProcessSnoc(slots, claimed, front, last);
    if !slots[last].invalid {
      ListsAsAlone(slots, claimed, front, last);
    }
  }

  lemma {:induction false} AloneLists(slots: seq<Slot>, claimed: set<string>, order: seq<nat>, i: nat)
    requires Distinct(order, |slots|) && Uncontended(slots, claimed)
    ensures HasOwnList(slots, claimed, order, i)
  {
    if order != [] {
      var front, last := order[..|order| - 1], order[|order| - 1];
      assert order == front + [last];
      AloneLists(slots, claimed, front, i);
      OneMoreList(slots, claimed, front, last, i);
    }
  }

  lemma UncontendedAgrees(slots: seq<Slot>, claimed: set<string>, a: seq<nat>, b: seq<nat>)
    requires EachOnce(a, |slots|) && EachOnce(b, |slots|) && Uncontended(slots, claimed)
    ensures ListsAgree(slots, claimed, a, b)
  {
    var x, y := ProcessAll(slots, claimed, a).lists, ProcessAll(slots, claimed, b).lists;
    forall i: nat
      ensures (i in x <==> i in y) && (i in x ==> x[i] == y[i])
    {
      AloneLists(slots, claimed, a, i);
      AloneLists(slots, claimed, b, i);
      InRange(a, |slots|, i);
      InRange(b, |slots|, i);
    }
    assert x.Keys == y.Keys;
  }

  /** The probes handed on are those of the extractions processed that are valid, with a valid list of their own. */
  lemma {:induction false} AloneIsHandedOn(slots: seq<Slot>, claimed: set<string>, order: seq<nat>, i: nat)
    requires Distinct(order, |slots|) && Uncontended(slots, claimed)
    ensures i in ProcessAll(slots, claimed, order).probes <==> i in order && IsHandedOn(slots, claimed, i)
  {
    if order != [] {
      var front, last := order[..|order| - 1], order[|order| - 1];
      assert order == front + [last];
      AloneIsHandedOn(slots, claimed, front, i);
      InSnoc(front, last, i);
      OneMoreHandedOn(slots, claimed, front, last, i);
    }
  }

  lemma OneMoreHandedOn(slots: seq<Slot>, claimed: set<string>, front: seq<nat>, last: nat, i: nat)
    requires last < |slots| && forall j :: 0 <= j < |front| ==> front[j] < |slots| && front[j] != last
    requires Uncontended(slots, claimed)
    ensures i in ProcessAll(slots, claimed, front + [last]).probes <==>
            i in ProcessAll(slots, claimed, front).probes || (i == last && IsHandedOn(slots, claimed, last))
  {
    ProcessSnoc(slots, claimed, front, last);
    if !slots[last].invalid {
      ListsAsAlone(slots, claimed, front, last);
    }
  }

  /** Extraction `i` is valid, and so is the list it would make alone. */
  predicate IsHandedOn(slots: seq<Slot>, claimed: set<string>, i: nat) {
    i < |slots| && !slots[i].invalid && slots[i].valid(Listed(slots[i], claimed).0)
  }

  /** Some extraction in `order` is not handed on. */
  ghost predicate SomeRefused(slots: seq<Slot>, claimed: set<string>, order: seq<nat>) {
    exists k :: 0 <= k < |order| && !IsHandedOn(slots, claimed, order[k])
  }

  lemma RefusedSnoc(slots: seq<Slot>, claimed: set<string>, front: seq<nat>, last: nat)
    ensures SomeRefused(slots, claimed, front + [last]) <==>
            SomeRefused(slots, claimed, front) || !IsHandedOn(slots, claimed, last)
  {
    var order := front + [last];
    assert order[|front|] == last;
    if k :| 0 <= k < |front| && !IsHandedOn(slots, claimed, front[k]) {
      assert !IsHandedOn(slots, claimed, order[k]);
    }
  }

  lemma {:induction false} AloneIsNoticed(slots: seq<Slot>, claimed: set<string>, order: seq<nat>)
    requires Distinct(order, |slots|) && Uncontended(slots, claimed)
    ensures ProcessAll(slots, claimed, order).hasInvalid <==> SomeRefused(slots, claimed, order)
  {
    if order != [] {
      var front, last := order[..|order| - 1], order[|order| - 1];
      assert order == front + [last];
      AloneIsNoticed(slots, claimed, front);
      RefusedSnoc(slots, claimed, front, last);
      if !slots[last].invalid {
        ListsAsAlone(slots, claimed, front, last);
      }
    }
  }

  /**
   Then the probes handed on, and whether any was found invalid, are the same for every
   completion order too: they are what each extraction decides alone.
   */
  lemma OutcomeDoesNotDependOnOrder(slots: seq<Slot>, claimed: set<string>, order: seq<nat>)
    requires EachOnce(order, |slots|) && Uncontended(slots, claimed)
    ensures var st := ProcessAll(slots, claimed, order);
            && (forall i: nat :: i in st.probes <==> IsHandedOn(slots, claimed, i))
            && (st.hasInvalid <==> exists i: nat :: i < |slots| && !IsHandedOn(slots, claimed, i))
  {
    var st := ProcessAll(slots, claimed, order);
    forall i: nat
      ensures i in st.probes <==> IsHandedOn(slots, claimed, i)
    {
      AloneIsHandedOn(slots, claimed, order, i);
      InRange(order, |slots|, i);
    }
    AloneIsNoticed(slots, claimed, order);
    if i: nat :| i < |slots| && !IsHandedOn(slots, claimed, i) {
      assert i in order;
      var k :| 0 <= k < |order| && order[k] == i;
    }
  }

  lemma InRange(order: seq<nat>, n: nat, i: nat)
    requires EachOnce(order, n)
    ensures i in order <==> i < n
  {
  }

  // ----- with contention the order matters -----

  /** The order of the slots with slot `q` moved to the front. */
  function FirstIs(n: nat, q: nat): seq<nat> {
    seq(n, t requires 0 <= t < n => if t == 0 then q else if t <= q then t - 1 else t)
  }

  lemma FirstIsEachOnce(n: nat, q: nat)
    requires q < n
    ensures EachOnce(FirstIs(n, q), n)
  {
    var order := FirstIs(n, q);
    forall i | 0 <= i < n
      ensures i in order
    {
      assert order[if i == q then 0 else if i < q then i + 1 else i] == i;
    }
  }

  /** The extraction that finishes first lists what it would list alone. */
  lemma {:induction false} FirstLists(slots: seq<Slot>, claimed: set<string>, order: seq<nat>, q: nat)
    requires Distinct(order, |slots|) && order != [] && order[0] == q && !slots[q].invalid
    ensures var lists := ProcessAll(slots, claimed, order).lists; q in lists && lists[q] == Listed(slots[q], claimed).0
  {
    if |order| == 1 {
      assert order[..0] == [];
    } else {
      FirstLists(slots, claimed, order[..|order| - 1], q);
    }
  }

  lemma FirstListsKey(slots: seq<Slot>, claimed: set<string>, order: seq<nat>, q: nat, k: string) returns (x: string)
    requires EachOnce(order, |slots|) && order != [] && order[0] == q && Offers(slots, q, k) && k !in claimed
    ensures var lists := ProcessAll(slots, claimed, order).lists; q in lists && x in lists[q] && slots[q].Key(x) == k
  {
    x :| x in Offered(slots[q]) && slots[q].Key(x) == k;
    FirstLists(slots, claimed, order, q);
    DedupIff(slots[q], Offered(slots[q]), claimed, x);
  }

  /**
   If `i` and `j` both offer `k`, some two orders give different lists: whoever does not list `k`
   in one is first in the other.
   */
  lemma ContendedDiffers(slots: seq<Slot>, claimed: set<string>, i: nat, j: nat, k: string)
    requires i < |slots| && j < |slots| && i != j && k !in claimed && Offers(slots, i, k) && Offers(slots, j, k)
    ensures !AllListsAgree(slots, claimed)
  {
    var n := |slots|;
    FirstIsEachOnce(n, 0);
    var a := FirstIs(n, 0);
    AllClaimedIff(slots, claimed, a, k);
    var p, x := NewKeyIsListed(slots, claimed, a, k);
    var q := if p == i then j else i;
    FirstIsEachOnce(n, q);
    var b := FirstIs(n, q);
    var y := FirstListsKey(slots, claimed, b, q, k);
    if ListsAgree(slots, claimed, a, b) {
      NoKeyListedTwice(slots, claimed, a, p, q, x, y);
    }
    assert !ListsAgree(slots, claimed, a, b);
  }

  /**
   The lists are the same for every completion order exactly when no key that is unclaimed at the
   start is offered by two extractions.
   */
  lemma ListsDoNotDependOnOrderIff(slots: seq<Slot>, claimed: set<string>)
    ensures AllListsAgree(slots, claimed) <==> Uncontended(slots, claimed)
  {
    if Uncontended(slots, claimed) {
      forall a, b | EachOnce(a, |slots|) && EachOnce(b, |slots|)
        ensures ListsAgree(slots, claimed, a, b)
      {
        UncontendedAgrees(slots, claimed, a, b);
      }
    } else {
      var i, j, k :| 0 <= i < |slots| && 0 <= j < |slots| && i != j && k !in claimed && Offers(slots, i, k)
                      && Offers(slots, j, k);
      ContendedDiffers(slots, claimed, i, j, k);
    }
  }

  /** The simplest contention: two custom extractions that both offer just `name`. */
  lemma ListsDependOnOrder(slot: Slot, name: string, slots: seq<Slot>)
    requires slot.capture.Custom? && slot.probe.CustomProbe? && !slot.invalid && slot.excluded == {}
    requires slot.candidates == [name] && slot.matches(name) && slots == [slot, slot]
    ensures ProcessAll(slots, {}, [0, 1]).lists == map[0 := [name], 1 := []]
    ensures ProcessAll(slots, {}, [1, 0]).lists == map[1 := [name], 0 := []]
  {
    OffersOneName(slot, name);
    FirstComeFirstServed(slots, slot, name, 0, 1);
    FirstComeFirstServed(slots, slot, name, 1, 0);
  }

  lemma FirstTurn(slots: seq<Slot>, slot: Slot, name: string, i: nat)
    requires slots == [slot, slot] && i < 2
    requires slot.capture.Custom? && !slot.invalid && Offered(slot) == [name]
    ensures ProcessAll(slots, {}, [i]).claimed == {name} && ProcessAll(slots, {}, [i]).lists == map[i := [name]]
  {
    assert [] + [i] == [i] && {} + {name} == {name};
    ProcessSnoc(slots, {}, [], i);
    OneNameListed(slot, name, {});
  }

  lemma FirstComeFirstServed(slots: seq<Slot>, slot: Slot, name: string, i: nat, j: nat)
    requires slots == [slot, slot] && i < 2 && j == 1 - i
    requires slot.capture.Custom? && !slot.invalid && Offered(slot) == [name]
    ensures ProcessAll(slots, {}, [i, j]).lists == map[i := [name], j := []]
  {
    assert [i] + [j] == [i, j];
    FirstTurn(slots, slot, name, i);
    ProcessSnoc(slots, {}, [i], j);
    OneNameListed(slot, name, {name});
  }

  lemma OffersOneName(slot: Slot, name: string)
    requires slot.probe.CustomProbe? && slot.candidates == [name] && slot.matches(name) && slot.excluded == {}
    ensures Offered(slot) == [name]
  {
    FilteredOne(name, slot.matches);
    assert Mapped([name], slot.Normalize) == [name];
    FilteredOne(name, slot.Admits);
  }

  lemma FilteredOne(name: string, keep: string -> bool)
    requires keep(name)
    ensures Filtered([name], keep) == [name]
  {
    assert [name][..0] == [];
    assert Filtered([], keep) + [name] == [name];
  }

  lemma OneNameListed(slot: Slot, name: string, claimed: set<string>)
    requires slot.capture.Custom? && Offered(slot) == [name]
    ensures Listed(slot, claimed) == if name in claimed then ([], claimed) else ([name], claimed + {name})
  {
    var names := [name];
    assert names[..|names| - 1] == [];
    assert Dedup(slot, [], claimed) == ([], claimed);
    assert names[|names| - 1] == name && slot.Key(name) == name;
    assert [] + [name] == [name];
  }
}
