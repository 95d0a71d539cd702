/**
 What the keys and the kinds of extractions mean for their lists: who shares a key, who keeps a
 name to itself, and in what order and how often names are listed.
 */
module ProbeKeys {
  import opened Common
  import opened FunctionNames
  import opened ProbePipeline

  // ----- who shares a key -----

  /** A name of a header, a kernel symbol or a custom probe is claimed as it is. */
  predicate Unprefixed(slot: Slot) {
    slot.capture.Header? || slot.capture.Ksym? || slot.capture.Custom?
  }

  /** What a name of a binary or USDT probe is claimed under. */
  function SourceOf(slot: Slot): string {
    if slot.capture.Usdt? then slot.binary + ['_'] + slot.provider else slot.binary
  }

  /** One text, split at an underscore, is both `x` under `a` and `y` under `b`. */
  ghost predicate SameSplit(a: string, x: string, b: string, y: string) {
    (a == b && x == y) || Overlap(a, x, b, y, '_') || Overlap(b, y, a, x, '_')
  }

  /**
   Two names have the same key: under two unprefixed kinds if they are equal; under two sources
   if names and sources are equal or one source goes on, after an underscore, where the other
   ends; and a name is claimed under a source and unprefixed if it spells out the source.
   */
  lemma SameKeyIff(a: Slot, b: Slot, x: string, y: string)
    ensures Unprefixed(a) && Unprefixed(b) ==> (a.Key(x) == b.Key(y) <==> x == y)
    ensures !Unprefixed(a) && Unprefixed(b) ==> (a.Key(x) == b.Key(y) <==> y == SourceOf(a) + ['_'] + x)
    ensures !Unprefixed(a) && !Unprefixed(b) ==> (a.Key(x) == b.Key(y) <==> SameSplit(SourceOf(a), x, SourceOf(b), y))
  {
    if !Unprefixed(a) {
      KeySpelled(a, x);
      if !Unprefixed(b) {
        KeySpelled(b, y);
        JoinedSameIff(SourceOf(a), x, SourceOf(b), y, '_');
      }
    }
  }

  lemma KeySpelled(slot: Slot, x: string)
    requires !Unprefixed(slot)
    ensures slot.Key(x) == SourceOf(slot) + ['_'] + x
  {
  }

  /** In particular for two binaries. */
  lemma BinariesShareKeyIff(a: Slot, b: Slot, x: string, y: string)
    requires a.capture.Binary? && b.capture.Binary?
    ensures a.Key(x) == b.Key(y) <==>
            (a.binary == b.binary && x == y)
            || Overlap(a.binary, x, b.binary, y, '_') || Overlap(b.binary, y, a.binary, x, '_')
  {
    SameKeyIff(a, b, x, y);
  }

  // ----- who lists a name -----

  /** Extraction `i` finds `x`. */
  ghost predicate OffersName(slots: seq<Slot>, i: nat, x: string)
    requires i < |slots|
  {
    !slots[i].invalid && exists c :: ComesFrom(slots[i], x, c)
  }

  /** Nobody else offers a name under the key of `x`. */
  ghost predicate KeepsToItself(slots: seq<Slot>, claimed: set<string>, i: nat, x: string)
    requires i < |slots|
  {
    && slots[i].Key(x) !in claimed
    && forall j {:trigger Offers(slots, j, slots[i].Key(x))} ::
         0 <= j < |slots| && j != i ==> !Offers(slots, j, slots[i].Key(x))
  }

  /** A name whose key nobody else offers is listed, in every completion order. */
  lemma UnsharedIsListed(slots: seq<Slot>, claimed: set<string>, order: seq<nat>, i: nat, x: string)
    requires i < |slots| && EachOnce(order, |slots|) && slots[i].Dedups()
    requires OffersName(slots, i, x) && KeepsToItself(slots, claimed, i, x)
    ensures var lists := ProcessAll(slots, claimed, order).lists; i in lists && x in lists[i]
  {
    var k := slots[i].Key(x);
    OfferedIff(slots[i], x);
    assert Offers(slots, i, k);
    AllClaimedIff(slots, claimed, order, k);
    var p, y := NewKeyIsListed(slots, claimed, order, k);
    ListedIsOffered(slots, claimed, order, p, y);
    KeyInjective(slots[i], x, y);
  }

  /** What an extraction lists it offers. */
  lemma {:induction false} ListedIsOffered(slots: seq<Slot>, claimed: set<string>, order: seq<nat>, i: nat, x: string)
    requires forall k :: 0 <= k < |order| ==> order[k] < |slots|
    requires i < |slots| && slots[i].Dedups()
    requires var lists := ProcessAll(slots, claimed, order).lists; i in lists && x in lists[i]
    ensures Offers(slots, i, slots[i].Key(x))
  {
    var front, last := order[..|order| - 1], order[|order| - 1];
    ProcessLists(slots, ProcessAll(slots, claimed, front), last, i, x);
    if i != last || slots[i].invalid {
      ListedIsOffered(slots, claimed, front, i, x);
    }
  }

  /** Neither path is the other, or the other and then an underscore and more. */
  predicate Apart(a: string, b: string) {
    a != b && !(a + ['_'] <= b) && !(b + ['_'] <= a)
  }

  /** Binaries with such paths share no key at all. */
  lemma ApartShareNoKey(a: Slot, b: Slot, x: string, y: string)
    requires a.capture.Binary? && b.capture.Binary? && Apart(a.binary, b.binary)
    ensures a.Key(x) != b.Key(y)
  {
    BinariesShareKeyIff(a, b, x, y);
    NoOverlap(a.binary, x, b.binary, y);
    NoOverlap(b.binary, y, a.binary, x);
  }

  lemma NoOverlap(a: string, x: string, b: string, y: string)
    requires !(a + ['_'] <= b)
    ensures !Overlap(a, x, b, y, '_')
  {
  }

  lemma ApartOffersNot(slots: seq<Slot>, i: nat, j: nat, x: string)
    requires i < |slots| && j < |slots| && slots[i].capture.Binary? && slots[j].capture.Binary?
    requires Apart(slots[i].binary, slots[j].binary)
    ensures !Offers(slots, j, slots[i].Key(x))
  {
    if y :| y in Offered(slots[j]) && slots[j].Key(y) == slots[i].Key(x) {
      ApartShareNoKey(slots[i], slots[j], x, y);
    }
  }

  /** No slot but `i` and `j` offers `k`. */
  ghost predicate OnlyThese(slots: seq<Slot>, i: nat, j: nat, k: string) {
    forall m {:trigger Offers(slots, m, k)} :: 0 <= m < |slots| && m != i && m != j ==> !Offers(slots, m, k)
  }

  /**
   Two uprobe extractions whose paths are apart both list a name that both their binaries have,
   whatever the order, unless a third claims it for one of them.
   */
  lemma BothBinariesList(slots: seq<Slot>, claimed: set<string>, order: seq<nat>, i: nat, j: nat, x: string)
    requires i < |slots| && j < |slots| && EachOnce(order, |slots|)
    requires slots[i].capture.Binary? && slots[i].probe.Uprobe? && slots[j].capture.Binary? && slots[j].probe.Uprobe?
    requires Apart(slots[i].binary, slots[j].binary) && OffersName(slots, i, x) && OffersName(slots, j, x)
    requires slots[i].Key(x) !in claimed && slots[j].Key(x) !in claimed
    requires OnlyThese(slots, i, j, slots[i].Key(x)) && OnlyThese(slots, i, j, slots[j].Key(x))
    ensures ListsName(slots, claimed, order, i, x) && ListsName(slots, claimed, order, j, x)
  {
    ApartOffersNot(slots, i, j, x);
    ApartOffersNot(slots, j, i, x);
    UnsharedIsListed(slots, claimed, order, i, x);
    UnsharedIsListed(slots, claimed, order, j, x);
  }

  ghost predicate ListsName(slots: seq<Slot>, claimed: set<string>, order: seq<nat>, i: nat, x: string)
    requires EachOnce(order, |slots|)
  {
    var lists := ProcessAll(slots, claimed, order).lists;
    i in lists && x in lists[i]
  }

  /** Of two header, kernel symbol or custom extractions never both list a name. */
  lemma PlainNameListedOnce(slots: seq<Slot>, claimed: set<string>, order: seq<nat>, i: nat, j: nat, x: string)
    requires i < |slots| && j < |slots| && i != j && EachOnce(order, |slots|)
    requires slots[i].capture.Header? || slots[i].capture.Ksym? || slots[i].capture.Custom?
    requires slots[j].capture.Header? || slots[j].capture.Ksym? || slots[j].capture.Custom?
    ensures !ListsName(slots, claimed, order, i, x) || !ListsName(slots, claimed, order, j, x)
  {
    SameKeyIff(slots[i], slots[j], x, x);
    if ListsName(slots, claimed, order, i, x) && ListsName(slots, claimed, order, j, x) {
      NoKeyListedTwice(slots, claimed, order, i, j, x, x);
    }
  }

  /** A binary probe that is no uprobe, and a USDT capture that is no USDT probe, list all they offer. */
  lemma OthersListAll(slot: Slot, claimed: set<string>, x: string)
    requires (slot.capture.Binary? && !slot.probe.Uprobe?) || (slot.capture.Usdt? && !slot.probe.UsdtProbe?)
    ensures x in Listed(slot, claimed).0 <==> exists c :: ComesFrom(slot, x, c)
    ensures Listed(slot, claimed).1 == claimed
  {
    ListedIff(slot, claimed, x);
  }

  /**
   Of all other kinds, a name is listed exactly if it is offered and its key unclaimed, and its key
   is claimed then.
   */
  lemma DedupedListUnclaimed(slot: Slot, claimed: set<string>, x: string)
    requires Unprefixed(slot) || (slot.capture.Binary? && slot.probe.Uprobe?)
             || (slot.capture.Usdt? && slot.probe.UsdtProbe?)
    ensures x in Listed(slot, claimed).0 <==> (exists c :: ComesFrom(slot, x, c)) && slot.Key(x) !in claimed
    ensures (exists c :: ComesFrom(slot, x, c)) ==> slot.Key(x) in Listed(slot, claimed).1
  {
    ListedIff(slot, claimed, x);
    OfferedIff(slot, x);
    DedupKeys(slot, Offered(slot), claimed, slot.Key(x));
    if x in Offered(slot) {
      var i :| 0 <= i < |Offered(slot)| && Offered(slot)[i] == x;
    }
  }

  // ----- order and number -----

  /** Names compare by their first different character; a name comes after its prefixes. */
  lemma {:induction false} BelowIff(a: string, b: string)
    ensures Below(a, b) <==>
            (a <= b && a != b) || exists k :: 0 <= k < |a| && k < |b| && a[..k] == b[..k] && a[k] < b[k]
  {
    if a != "" && b != "" && a[0] == b[0] {
      var s, t := a[1..], b[1..];
      BelowIff(s, t);
      assert a == [a[0]] + s && b == [b[0]] + t;
      assert s <= t <==> a <= b;
      if k :| 0 <= k < |s| && k < |t| && s[..k] == t[..k] && s[k] < t[k] {
        assert a[..k + 1] == [a[0]] + s[..k] && b[..k + 1] == [b[0]] + t[..k];
        assert a[k + 1] < b[k + 1];
      }
      if k :| 0 <= k < |a| && k < |b| && a[..k] == b[..k] && a[k] < b[k] {
        assert k > 0;
        assert s[..k - 1] == a[..k][1..] && t[..k - 1] == b[..k][1..];
        assert s[k - 1] < t[k - 1];
      }
    } else if a != "" && b != "" {
      if a[0] < b[0] {
        assert a[..0] == b[..0];
      }
      if k :| 0 <= k < |a| && k < |b| && a[..k] == b[..k] && a[k] < b[k] {
        FirstDiffers(a, b, k);
      }
    }
  }

  lemma FirstDiffers(a: string, b: string, k: nat)
    requires k < |a| && k < |b| && a[..k] == b[..k]
    ensures k > 0 ==> a[0] == b[0]
  {
    if k > 0 {
      assert a[..k][0] == a[0] && b[..k][0] == b[0];
    }
  }

  /** All other lists are in ascending order, of whatever kind. */
  lemma OthersAscend(slot: Slot, claimed: set<string>)
    requires !slot.probe.CustomProbe?
    ensures Ordered(Listed(slot, claimed).0)
  {
    var names := Filtered(Mapped(Filtered(slot.candidates, slot.matches), slot.Normalize), slot.Admits);
    SortOrdered(names);
    if slot.Dedups() {
      ListedIff(slot, claimed, "");
      StrictIsOrdered(Listed(slot, claimed).0);
    }
  }

  lemma StrictIsOrdered(names: seq<string>)
    requires StrictlyOrdered(names)
    ensures Ordered(names)
  {
    forall i, j | 0 <= i < j < |names|
      ensures !Below(names[j], names[i])
    {
      BelowTotal(names[i], names[j]);
    }
  }

  /** Custom names are listed in the order of the candidates they come from. */
  lemma CustomKeepsOrder(slot: Slot, a: nat, b: nat) returns (i: nat, j: nat)
    requires slot.probe.CustomProbe? && a < b < |Offered(slot)|
    ensures i < j < |slot.candidates|
    ensures slot.candidates[i] == Offered(slot)[a] && slot.candidates[j] == Offered(slot)[b]
  {
    var matched := Filtered(slot.candidates, slot.matches);
    var mapped := Mapped(matched, slot.Normalize);
    var c, d := FilteredAt(mapped, slot.Admits, a), FilteredAt(mapped, slot.Admits, b);
    FilteredInOrder(mapped, slot.Admits, a, b);
    i, j := FilteredAt(slot.candidates, slot.matches, c), FilteredAt(slot.candidates, slot.matches, d);
    FilteredInOrder(slot.candidates, slot.matches, c, d);
  }

  /** Where the `a`-th name that stays was. */
  function FilteredAt(names: seq<string>, keep: string -> bool, a: nat): (i: nat)
    requires a < |Filtered(names, keep)|
    ensures i < |names| && names[i] == Filtered(names, keep)[a]
  {
    if a < |Filtered(names[..|names| - 1], keep)| then FilteredAt(names[..|names| - 1], keep, a) else |names| - 1
  }

  lemma {:induction false} FilteredInOrder(names: seq<string>, keep: string -> bool, a: nat, b: nat)
    requires a < b < |Filtered(names, keep)|
    ensures FilteredAt(names, keep, a) < FilteredAt(names, keep, b)
  {
    if b < |Filtered(names[..|names| - 1], keep)| {
      FilteredInOrder(names[..|names| - 1], keep, a, b);
    }
  }

  /** How many of the candidates match and are not excluded. */
  ghost function Admitted(slot: Slot, candidates: seq<string>): nat {
    if candidates == [] then 0 else
      var c := candidates[|candidates| - 1];
      Admitted(slot, candidates[..|candidates| - 1])
      + if slot.matches(c) && slot.Admits(slot.Normalize(c)) then 1 else 0
  }

  /** No name is lost or doubled on the way to the shared keys. */
  lemma OfferedCount(slot: Slot)
    ensures |Offered(slot)| == Admitted(slot, slot.candidates)
  {
    var names := Filtered(Mapped(Filtered(slot.candidates, slot.matches), slot.Normalize), slot.Admits);
    SortOrdered(names);
    assert |multiset(Sort(names))| == |multiset(names)|;
    FilteredCount(slot, slot.candidates);
  }

  lemma {:induction false} FilteredCount(slot: Slot, candidates: seq<string>)
    ensures |Filtered(Mapped(Filtered(candidates, slot.matches), slot.Normalize), slot.Admits)|
            == Admitted(slot, candidates)
  {
    if candidates != [] {
      var front, c := candidates[..|candidates| - 1], candidates[|candidates| - 1];
      FilteredCount(slot, front);
      var before := Mapped(Filtered(front, slot.matches), slot.Normalize);
      var now := Mapped(Filtered(candidates, slot.matches), slot.Normalize);
      assert now == if slot.matches(c) then before + [slot.Normalize(c)] else before;
      assert slot.matches(c) ==> now[..|now| - 1] == before;
    }
  }
}
