/**
 From candidate function names to probe lists.

 Extractions run concurrently and are processed in whatever order they finish.  Each one's
 candidates are filtered, normalised, pruned and sorted, and then deduplicated against one
 set of keys shared by all extractions.
 */
module ProbePipeline {
  import opened FunctionNames

  datatype CaptureType = Header | Binary | Usdt | Ksym | Custom
  datatype ProbeType = Syscalls | Kprobe | Uprobe | UsdtProbe | CustomProbe

  /**
   A pending extraction: the configured probe, and what its extraction will deliver.  `binary`
   and `provider` are those of a binary or USDT probe.
   `matches` stands for the configured pattern (always true when there is none), `excluded`
   for the exclusion list under the probe's name, `valid` for the final validation.
   */
  datatype Slot = Slot(
    capture: CaptureType, probe: ProbeType, binary: string, provider: string, matches: string -> bool,
    excluded: set<string>, invalid: bool, candidates: seq<string>, valid: seq<string> -> bool)
  {
    predicate Dedups() {
      capture.Header? || capture.Ksym? || capture.Custom?
      || (capture.Binary? && probe.Uprobe?) || (capture.Usdt? && probe.UsdtProbe?)
    }

    /** The key under which a name is claimed. */
    function Key(name: string): string {
      if capture.Binary? then binary + "_" + name
      else if capture.Usdt? then binary + "_" + provider + "_" + name
      else name
    }

    function Normalize(name: string): string {
      if !probe.Syscalls? then name
      else if "__x64_sys_" <= name then name[10..]
      else if "sys_" <= name then name[4..]
      else name
    }

    predicate Admits(name: string) {
      name !in excluded && BaseName(name) !in excluded
    }
  }

  // ----- name order -----

  predicate Below(a: string, b: string) {
    b != "" && (a == "" || a[0] < b[0] || (a[0] == b[0] && Below(a[1..], b[1..])))
  }

  lemma {:induction false} BelowTotal(a: string, b: string)
    ensures Below(a, b) || Below(b, a) || a == b
    ensures !(Below(a, b) && Below(b, a)) && !Below(a, a)
  {
    if a != "" && b != "" {
      BelowTotal(a[1..], b[1..]);
      if a[0] == b[0] && a[1..] == b[1..] {
        assert a == [a[0]] + a[1..];
        assert b == [b[0]] + b[1..];
      }
    }
    if a != "" {
      BelowTotal(a[1..], a[1..]);
    }
  }

  lemma {:induction false} BelowTransitive(a: string, b: string, c: string)
    requires Below(a, b) && Below(b, c)
    ensures Below(a, c)
  {
    if a != "" && a[0] == b[0] == c[0] {
      BelowTransitive(a[1..], b[1..], c[1..]);
    }
  }

  predicate Ordered(names: seq<string>) {
    forall i, j :: 0 <= i < j < |names| ==> !Below(names[j], names[i])
  }

  predicate StrictlyOrdered(names: seq<string>) {
    forall i, j :: 0 <= i < j < |names| ==> Below(names[i], names[j])
  }

  function Insert(name: string, names: seq<string>): seq<string> {
    if names == [] || !Below(names[0], name) then [name] + names else [names[0]] + Insert(name, names[1..])
  }

  function Sort(names: seq<string>): seq<string> {
    if names == [] then [] else Insert(names[0], Sort(names[1..]))
  }

  lemma {:induction false} InsertOrdered(name: string, names: seq<string>)
    requires Ordered(names)
    ensures Ordered(Insert(name, names)) && multiset(Insert(name, names)) == multiset(names) + multiset{name}
  {
    if names != [] {
      var first, rest := names[0], names[1..];
      assert names == [first] + rest;
      if Below(first, name) {
        InsertOrdered(name, rest);
        BelowTotal(first, name);
        NoneBelow(first, Insert(name, rest), rest, name);
      } else {
        NoneBelowFirst(name, names);
      }
    }
  }

  lemma NoneBelow(first: string, tail: seq<string>, rest: seq<string>, name: string)
    requires multiset(tail) == multiset(rest) + multiset{name}
    requires !Below(name, first) && forall k :: 0 <= k < |rest| ==> !Below(rest[k], first)
    ensures forall j :: 0 <= j < |tail| ==> !Below(tail[j], first)
  {
    forall j | 0 <= j < |tail|
      ensures !Below(tail[j], first)
    {
      assert tail[j] in multiset(tail);
      assert tail[j] in rest || tail[j] == name;
    }
  }

  lemma NoneBelowFirst(name: string, names: seq<string>)
    requires names != [] && Ordered(names) && !Below(names[0], name)
    ensures forall j :: 0 <= j < |names| ==> !Below(names[j], name)
  {
    forall j | 0 <= j < |names|
      ensures !Below(names[j], name)
    {
      if Below(names[j], name) && j > 0 {
        BelowTotal(names[0], names[j]);
        if names[0] != names[j] {
          BelowTransitive(names[0], names[j], name);
        }
      }
    }
  }

  /** Sorting gives an ascending permutation... */
  lemma {:induction false} SortOrdered(names: seq<string>)
    ensures Ordered(Sort(names)) && multiset(Sort(names)) == multiset(names)
  {
    if names != [] {
      SortOrdered(names[1..]);
      InsertOrdered(names[0], Sort(names[1..]));
      assert names == [names[0]] + names[1..];
    }
  }

  /** ... and there is only one, so whatever algorithm the library sort uses gives the same list. */
  lemma {:induction false} AscendingIsUnique(a: seq<string>, b: seq<string>)
    requires Ordered(a) && Ordered(b) && multiset(a) == multiset(b)
    ensures a == b
  {
    if a == [] {
      assert |multiset(b)| == 0;
    } else {
      assert a[0] in multiset(a);
      assert b != [];
      assert b[0] in multiset(b);
      FirstIsLeast(a, b[0]);
      FirstIsLeast(b, a[0]);
      BelowTotal(a[0], b[0]);
      TailMultiset(a);
      TailMultiset(b);
      AscendingIsUnique(a[1..], b[1..]);
      assert a == [a[0]] + a[1..] && b == [b[0]] + b[1..];
    }
  }

  lemma FirstIsLeast(names: seq<string>, x: string)
    requires Ordered(names) && x in multiset(names)
    ensures !Below(x, names[0])
  {
    var i :| 0 <= i < |names| && names[i] == x;
    BelowTotal(x, x);
  }

  lemma TailMultiset(names: seq<string>)
    requires names != []
    ensures multiset(names[1..]) == multiset(names) - multiset{names[0]}
  {
    assert names == [names[0]] + names[1..];
  }

  // ----- one extraction -----

  function Filtered(names: seq<string>, keep: string -> bool): seq<string> {
    if names == [] then [] else
      var front, last := Filtered(names[..|names| - 1], keep), names[|names| - 1];
      if keep(last) then front + [last] else front
  }

  function Mapped(names: seq<string>, f: string -> string): (r: seq<string>)
    ensures |r| == |names|
  {
    seq(|names|, i requires 0 <= i < |names| => f(names[i]))
  }

  /** The names an extraction offers: matched, normalised, not excluded, and sorted unless custom. */
  function Offered(slot: Slot): seq<string> {
    var names := Filtered(Mapped(Filtered(slot.candidates, slot.matches), slot.Normalize), slot.Admits);
    if slot.probe.CustomProbe? then names else Sort(names)
  }

  /** The names kept, and the keys claimed, after going through `names`. */
  function Dedup(slot: Slot, names: seq<string>, claimed: set<string>): (seq<string>, set<string>) {
    if names == [] then ([], claimed) else
      var (kept, keys) := Dedup(slot, names[..|names| - 1], claimed);
      var name := names[|names| - 1];
      if slot.Key(name) in keys then (kept, keys) else (kept + [name], keys + {slot.Key(name)})
  }

  function Listed(slot: Slot, claimed: set<string>): (seq<string>, set<string>) {
    if slot.Dedups() then Dedup(slot, Offered(slot), claimed) else (Offered(slot), claimed)
  }

  method FilterNames(names: seq<string>, keep: string -> bool) returns (kept: seq<string>)
    ensures kept == Filtered(names, keep)
  {
    kept := [];
    for i := 0 to |names|
      invariant kept == Filtered(names[..i], keep)
    {
      assert names[..i + 1][..i] == names[..i];
      if keep(names[i]) {
        kept := kept + [names[i]];
      }
    }
    assert names[..|names|] == names;
  }

  method NormalizeNames(slot: Slot, names: seq<string>) returns (normalized: seq<string>)
    ensures normalized == Mapped(names, slot.Normalize)
  {
    normalized := names;
    if slot.probe.Syscalls? {
      for i := 0 to |normalized|
        invariant |normalized| == |names|
        invariant forall k :: 0 <= k < |names| ==> normalized[k] == if k < i then slot.Normalize(names[k]) else names[k]
      {
        var name := normalized[i];
        if "__x64_sys_" <= name {
          normalized := normalized[i := name[10..]];
        } else if "sys_" <= name {
          normalized := normalized[i := name[4..]];
        }
      }
    }
    assert forall k :: 0 <= k < |names| ==> Mapped(names, slot.Normalize)[k] == slot.Normalize(names[k]);
  }

  method DedupNames(slot: Slot, names: seq<string>, claimed: set<string>)
    returns (valid: seq<string>, keys: set<string>)
    ensures (valid, keys) == Dedup(slot, names, claimed)
  {
    valid, keys := [], claimed;
    for i := 0 to |names|
      invariant (valid, keys) == Dedup(slot, names[..i], claimed)
    {
      assert names[..i + 1][..i] == names[..i];
      var key := slot.Key(names[i]);
      if key in keys {
        continue;
      }
      keys := keys + {key};
      valid := valid + [names[i]];
    }
    assert names[..|names|] == names;
  }

  method ListFunctions(slot: Slot, claimed: set<string>) returns (functions: seq<string>, keys: set<string>)
    ensures (functions, keys) == Listed(slot, claimed)
  {
    functions := FilterNames(slot.candidates, slot.matches);
    functions := NormalizeNames(slot, functions);
    functions := FilterNames(functions, slot.Admits);
    if !slot.probe.CustomProbe? {
      functions := Sort(functions);
    }
    keys := claimed;
    if slot.Dedups() {
      functions, keys := DedupNames(slot, functions, claimed);
    }
  }

  // ----- what one extraction lists -----

  lemma {:induction false} FilteredIn(names: seq<string>, keep: string -> bool, x: string)
    ensures x in Filtered(names, keep) <==> x in names && keep(x)
  {
    if names != [] {
      FilteredIn(names[..|names| - 1], keep, x);
      assert names == names[..|names| - 1] + [names[|names| - 1]];
    }
  }

  /** `x` is how `c` is listed: a system call loses its prefix, any other name stays. */
  predicate ListedAs(slot: Slot, c: string, x: string) {
    if slot.probe.Syscalls? && "__x64_sys_" <= c then c == "__x64_sys_" + x
    else if slot.probe.Syscalls? && "sys_" <= c then c == "sys_" + x
    else c == x
  }

  lemma NormalizeIff(slot: Slot, c: string, x: string)
    ensures slot.Normalize(c) == x <==> ListedAs(slot, c, x)
  {
    DropPrefix("__x64_sys_", c, x);
    DropPrefix("sys_", c, x);
  }

  lemma DropPrefix(prefix: string, c: string, x: string)
    ensures prefix <= c ==> (c[|prefix|..] == x <==> c == prefix + x)
  {
    if prefix <= c {
      assert c == prefix + c[|prefix|..];
      assert (prefix + x)[|prefix|..] == x;
    }
  }

  /**
   The candidate in its original spelling that `x` comes from: it matches, and `x` is excluded
   neither by its full nor by its base name.
   */
  ghost predicate ComesFrom(slot: Slot, x: string, c: string) {
    && c in slot.candidates && slot.matches(c) && ListedAs(slot, c, x)
    && x !in slot.excluded && BaseName(x) !in slot.excluded
  }

  lemma OfferedIff(slot: Slot, x: string)
    ensures x in Offered(slot) <==> exists c :: ComesFrom(slot, x, c)
  {
    var matched := Filtered(slot.candidates, slot.matches);
    var mapped := Mapped(matched, slot.Normalize);
    var names := Filtered(mapped, slot.Admits);
    SortOrdered(names);
    assert x in Offered(slot) <==> x in names by {
      assert x in Sort(names) <==> x in multiset(Sort(names));
      assert x in names <==> x in multiset(names);
    }
    FilteredIn(mapped, slot.Admits, x);
    if x in mapped {
      var i :| 0 <= i < |mapped| && mapped[i] == x;
      FilteredIn(slot.candidates, slot.matches, matched[i]);
      NormalizeIff(slot, matched[i], x);
      assert slot.Admits(x) ==> ComesFrom(slot, x, matched[i]);
    }
    if c :| ComesFrom(slot, x, c) {
      FilteredIn(slot.candidates, slot.matches, c);
      NormalizeIff(slot, c, x);
      var i :| 0 <= i < |matched| && matched[i] == c;
      assert mapped[i] == x;
    }
  }

  /** Keys of the same extraction are equal only for equal names. */
  lemma KeyInjective(slot: Slot, a: string, b: string)
    ensures slot.Key(a) == slot.Key(b) <==> a == b
  {
    var p := if slot.capture.Usdt? then slot.binary + "_" + slot.provider + "_" else slot.binary + "_";
    assert (p + a)[|p|..] == a && (p + b)[|p|..] == b;
  }

  /** A name is kept exactly when it is offered and its key was not claimed before; its key is claimed either way. */
  lemma {:induction false} DedupIff(slot: Slot, names: seq<string>, claimed: set<string>, x: string)
    ensures var (kept, keys) := Dedup(slot, names, claimed);
            x in kept <==> x in names && slot.Key(x) !in claimed
  {
    if names != [] {
      var front, last := names[..|names| - 1], names[|names| - 1];
      DedupIff(slot, front, claimed, x);
      DedupIff(slot, front, claimed, last);
      DedupKeys(slot, front, claimed, slot.Key(last));
      assert names == front + [last];
      if slot.Key(last) in Dedup(slot, front, claimed).1 && slot.Key(last) !in claimed {
        var i :| 0 <= i < |front| && slot.Key(front[i]) == slot.Key(last);
        KeyInjective(slot, front[i], last);
      }
    }
  }

  lemma {:induction false} DedupKeys(slot: Slot, names: seq<string>, claimed: set<string>, k: string)
    ensures k in Dedup(slot, names, claimed).1 <==>
            k in claimed || exists i :: 0 <= i < |names| && slot.Key(names[i]) == k
  {
    if names != [] {
      var front, last := names[..|names| - 1], names[|names| - 1];
      DedupKeys(slot, front, claimed, k);
      if i :| 0 <= i < |front| && slot.Key(front[i]) == k {
        assert slot.Key(names[i]) == k;
      }
      if i :| 0 <= i < |names| && slot.Key(names[i]) == k {
        assert i < |front| ==> slot.Key(front[i]) == k;
      }
    }
  }

  lemma {:induction false} DedupStrict(slot: Slot, names: seq<string>, claimed: set<string>)
    requires Ordered(names)
    ensures StrictlyOrdered(Dedup(slot, names, claimed).0)
  {
    if names != [] {
      var front, last := names[..|names| - 1], names[|names| - 1];
      var kept := Dedup(slot, front, claimed).0;
      DedupStrict(slot, front, claimed);
      if slot.Key(last) !in Dedup(slot, front, claimed).1 {
        forall i | 0 <= i < |kept|
          ensures Below(kept[i], last)
        {
          DedupIff(slot, front, claimed, kept[i]);
          var k :| 0 <= k < |front| && front[k] == kept[i];
          assert !Below(names[|front|], names[k]);
          DedupKeys(slot, front, claimed, slot.Key(last));
          BelowTotal(kept[i], last);
        }
      }
    }
  }

  /**
   What an extraction lists: each name is the normalised form of a candidate that matched in
   its original spelling and is excluded neither by full nor by base name; for a deduplicated
   kind a name is listed exactly when, besides, its key was unclaimed.  Unless the probe is
   custom, a deduplicated list is strictly increasing.
   */
  lemma ListedIff(slot: Slot, claimed: set<string>, x: string)
    ensures x in Listed(slot, claimed).0 <==>
            (exists c :: ComesFrom(slot, x, c)) && (slot.Dedups() ==> slot.Key(x) !in claimed)
    ensures slot.Dedups() && !slot.probe.CustomProbe? ==> StrictlyOrdered(Listed(slot, claimed).0)
  {
    OfferedIff(slot, x);
    DedupIff(slot, Offered(slot), claimed, x);
    if slot.Dedups() && !slot.probe.CustomProbe? {
      SortOrdered(Filtered(Mapped(Filtered(slot.candidates, slot.matches), slot.Normalize), slot.Admits));
      DedupStrict(slot, Offered(slot), claimed);
    }
  }

  // ----- all extractions, in any order -----

  /** The shared keys, the list made by each extraction processed, and the probes that passed validation. */
  datatype Progress = Progress(claimed: set<string>, lists: map<nat, seq<string>>, probes: seq<nat>, hasInvalid: bool)

  function Process(slots: seq<Slot>, st: Progress, i: nat): Progress
    requires i < |slots|
  {
    if slots[i].invalid then st.(hasInvalid := true) else
      var (functions, keys) := Listed(slots[i], st.claimed);
      if slots[i].valid(functions) then Progress(keys, st.lists[i := functions], st.probes + [i], st.hasInvalid)
      else Progress(keys, st.lists[i := functions], st.probes, true)
  }

  function ProcessAll(slots: seq<Slot>, claimed: set<string>, order: seq<nat>): Progress
    requires forall k :: 0 <= k < |order| ==> order[k] < |slots|
  {
    if order == [] then Progress(claimed, map[], [], false)
    else Process(slots, ProcessAll(slots, claimed, order[..|order| - 1]), order[|order| - 1])
  }

  /** Each of `n` slots occurs exactly once. */
  ghost predicate EachOnce(order: seq<nat>, n: nat) {
    && (forall k :: 0 <= k < |order| ==> order[k] < n)
    && (forall j, k :: 0 <= j < k < |order| ==> order[j] != order[k])
    && (forall i :: 0 <= i < n ==> i in order)
  }

  /** Slot `i` offers a name whose key is `k`. */
  ghost predicate Offers(slots: seq<Slot>, i: nat, k: string)
    requires i < |slots|
  {
    !slots[i].invalid && slots[i].Dedups() && exists x :: x in Offered(slots[i]) && slots[i].Key(x) == k
  }

  lemma ProcessClaims(slots: seq<Slot>, st: Progress, i: nat, k: string)
    requires i < |slots|
    ensures k in Process(slots, st, i).claimed <==> k in st.claimed || Offers(slots, i, k)
  {
    var names := Offered(slots[i]);
    DedupKeys(slots[i], names, st.claimed, k);
    if x :| x in names && slots[i].Key(x) == k {
      var j :| 0 <= j < |names| && names[j] == x;
      assert slots[i].Key(names[j]) == k;
    }
    if j :| 0 <= j < |names| && slots[i].Key(names[j]) == k {
      assert names[j] in names;
    }
  }

  /** Some slot in `order` offers `k`. */
  ghost predicate AnyOffers(slots: seq<Slot>, order: seq<nat>, k: string)
    requires forall j :: 0 <= j < |order| ==> order[j] < |slots|
  {
    order != [] && (AnyOffers(slots, order[..|order| - 1], k) || Offers(slots, order[|order| - 1], k))
  }

  lemma {:induction false} AnyOffersAt(slots: seq<Slot>, order: seq<nat>, k: string, j: nat)
    requires forall j :: 0 <= j < |order| ==> order[j] < |slots|
    requires j < |order| && Offers(slots, order[j], k)
    ensures AnyOffers(slots, order, k)
  {
    if j < |order| - 1 {
      AnyOffersAt(slots, order[..|order| - 1], k, j);
    }
  }

  /** After any sequence of extractions, the keys claimed are those at the start and those offered. */
  lemma {:induction false} ClaimedIff(slots: seq<Slot>, claimed: set<string>, order: seq<nat>, k: string)
    requires forall j :: 0 <= j < |order| ==> order[j] < |slots|
    ensures k in ProcessAll(slots, claimed, order).claimed <==> k in claimed || AnyOffers(slots, order, k)
  {
    if order != [] {
      var front, last := order[..|order| - 1], order[|order| - 1];
      ClaimedIff(slots, claimed, front, k);
      ProcessClaims(slots, ProcessAll(slots, claimed, front), last, k);
    }
  }

  /** Some slot offers `k`. */
  ghost predicate SomeOffers(slots: seq<Slot>, k: string) {
    exists i :: 0 <= i < |slots| && Offers(slots, i, k)
  }

  lemma {:induction false} AnyIsSome(slots: seq<Slot>, order: seq<nat>, k: string)
    requires forall j :: 0 <= j < |order| ==> order[j] < |slots|
    requires AnyOffers(slots, order, k)
    ensures SomeOffers(slots, k)
  {
    if !Offers(slots, order[|order| - 1], k) {
      AnyIsSome(slots, order[..|order| - 1], k);
    }
  }

  lemma AllClaimedIff(slots: seq<Slot>, claimed: set<string>, order: seq<nat>, k: string)
    requires EachOnce(order, |slots|)
    ensures k in ProcessAll(slots, claimed, order).claimed <==> k in claimed || SomeOffers(slots, k)
  {
    ClaimedIff(slots, claimed, order, k);
    if AnyOffers(slots, order, k) {
      AnyIsSome(slots, order, k);
    } else if i :| 0 <= i < |slots| && Offers(slots, i, k) {
      assert i in order;
      var j :| 0 <= j < |order| && order[j] == i;
      AnyOffersAt(slots, order, k, j);
    }
  }

  /** Whatever order the extractions finish in, the same keys are claimed in the end. */
  lemma ClaimsDoNotDependOnOrder(slots: seq<Slot>, claimed: set<string>, a: seq<nat>, b: seq<nat>)
    requires EachOnce(a, |slots|) && EachOnce(b, |slots|)
    ensures ProcessAll(slots, claimed, a).claimed == ProcessAll(slots, claimed, b).claimed
  {
    var x, y := ProcessAll(slots, claimed, a).claimed, ProcessAll(slots, claimed, b).claimed;
    forall k
      ensures k in x <==> k in y
    {
      AllClaimedIff(slots, claimed, a, k);
      AllClaimedIff(slots, claimed, b, k);
    }
  }

  /** Only extractions that were processed have a list. */
  lemma {:induction false} ListedWasProcessed(slots: seq<Slot>, claimed: set<string>, order: seq<nat>, i: nat)
    requires forall k :: 0 <= k < |order| ==> order[k] < |slots|
    requires i in ProcessAll(slots, claimed, order).lists
    ensures exists k :: 0 <= k < |order| && order[k] == i
  {
    if i != order[|order| - 1] {
      var front := order[..|order| - 1];
      ListedWasProcessed(slots, claimed, front, i);
      var k :| 0 <= k < |front| && front[k] == i;
      assert order[k] == i;
    }
  }

  /** A name newly listed had its key unclaimed; all other lists stay as they are. */
  lemma ProcessLists(slots: seq<Slot>, st: Progress, last: nat, i: nat, x: string)
    requires last < |slots| && i < |slots| && slots[i].Dedups()
    requires var lists := Process(slots, st, last).lists; i in lists && x in lists[i]
    ensures if i == last && !slots[i].invalid then slots[i].Key(x) !in st.claimed && Offers(slots, i, slots[i].Key(x))
            else i in st.lists && x in st.lists[i]
  {
    DedupIff(slots[i], Offered(slots[i]), st.claimed, x);
  }

  /** A listed name of a deduplicated extraction has its key claimed by then, and not before. */
  lemma {:induction false} ListedKeyClaimed(slots: seq<Slot>, claimed: set<string>, order: seq<nat>, i: nat, x: string)
    requires forall k :: 0 <= k < |order| ==> order[k] < |slots|
    requires i < |slots| && slots[i].Dedups()
    requires var lists := ProcessAll(slots, claimed, order).lists; i in lists && x in lists[i]
    ensures slots[i].Key(x) in ProcessAll(slots, claimed, order).claimed && slots[i].Key(x) !in claimed
  {
    var front, last := order[..|order| - 1], order[|order| - 1];
    var st := ProcessAll(slots, claimed, front);
    ProcessClaims(slots, st, last, slots[i].Key(x));
    ProcessLists(slots, st, last, i, x);
    if i == last && !slots[i].invalid {
      ClaimedIff(slots, claimed, front, slots[i].Key(x));
    } else {
      ListedKeyClaimed(slots, claimed, front, i, x);
    }
  }

  /** No deduplication key is listed by two extractions, whatever the order. */
  lemma {:induction false} NoKeyListedTwice(slots: seq<Slot>, claimed: set<string>, order: seq<nat>, i: nat, j: nat,
                                            x: string, y: string)
    requires forall k :: 0 <= k < |order| ==> order[k] < |slots|
    requires i < |slots| && j < |slots| && i != j && slots[i].Dedups() && slots[j].Dedups()
    requires var st := ProcessAll(slots, claimed, order);
             i in st.lists && x in st.lists[i] && j in st.lists && y in st.lists[j]
    ensures slots[i].Key(x) != slots[j].Key(y)
  {
    if order != [] {
      var front, last := order[..|order| - 1], order[|order| - 1];
      var st := ProcessAll(slots, claimed, front);
      if last == i && !slots[i].invalid {
        DedupIff(slots[i], Offered(slots[i]), st.claimed, x);
        ListedKeyClaimed(slots, claimed, front, j, y);
      } else if last == j && !slots[j].invalid {
        DedupIff(slots[j], Offered(slots[j]), st.claimed, y);
        ListedKeyClaimed(slots, claimed, front, i, x);
      } else {
        NoKeyListedTwice(slots, claimed, front, i, j, x, y);
      }
    }
  }

  /** Every newly claimed key is listed by some extraction: the one that claimed it. */
  lemma {:induction false} NewKeyIsListed(slots: seq<Slot>, claimed: set<string>, order: seq<nat>, k: string)
    returns (i: nat, x: string)
    requires forall j :: 0 <= j < |order| ==> order[j] < |slots|
    requires forall j, l :: 0 <= j < l < |order| ==> order[j] != order[l]
    requires k !in claimed && k in ProcessAll(slots, claimed, order).claimed
    ensures var lists := ProcessAll(slots, claimed, order).lists;
            && i < |slots| && slots[i].Dedups() && slots[i].Key(x) == k
            && i in lists && x in lists[i]
  {
    var front, last := order[..|order| - 1], order[|order| - 1];
    var st := ProcessAll(slots, claimed, front);
    if k in st.claimed {
      i, x := NewKeyIsListed(slots, claimed, front, k);
      ListedWasProcessed(slots, claimed, front, i);
    } else {
      ProcessClaims(slots, st, last, k);
      i := last;
      x :| x in Offered(slots[i]) && slots[i].Key(x) == k;
      DedupIff(slots[i], Offered(slots[i]), st.claimed, x);
    }
  }

  // ----- the polling loop -----

  function CountTrue(flags: seq<bool>): (n: nat)
    ensures n <= |flags|
  {
    if flags == [] then 0 else CountTrue(flags[..|flags| - 1]) + if flags[|flags| - 1] then 1 else 0
  }

  lemma {:induction false} CountTrueSet(flags: seq<bool>, i: nat)
    requires i < |flags| && !flags[i]
    ensures CountTrue(flags[i := true]) == CountTrue(flags) + 1
  {
    var last := |flags| - 1;
    if i < last {
      CountTrueSet(flags[..last], i);
      assert flags[i := true][..last] == flags[..last][i := true];
    } else {
      assert flags[i := true][..last] == flags[..last];
    }
  }

  lemma {:induction false} CountTrueAll(flags: seq<bool>)
    ensures CountTrue(flags) == |flags| <==> forall i :: 0 <= i < |flags| ==> flags[i]
  {
    if flags != [] {
      var front := flags[..|flags| - 1];
      CountTrueAll(front);
      if forall i :: 0 <= i < |front| ==> front[i] {
        assert forall i :: 0 <= i < |flags| - 1 ==> flags[i] == front[i];
      } else {
        var i :| 0 <= i < |front| && !front[i];
        assert !flags[i];
      }
    }
  }

  /** The flagged slots are those processed so far, each processed once. */
  ghost predicate Tracks(done: seq<bool>, order: seq<nat>) {
    && (forall k :: 0 <= k < |order| ==> order[k] < |done| && done[order[k]])
    && (forall j, k :: 0 <= j < k < |order| ==> order[j] != order[k])
    && (forall i :: 0 <= i < |done| && done[i] ==> i in order)
  }

  lemma TracksNext(done: seq<bool>, order: seq<nat>, i: nat)
    requires Tracks(done, order) && i < |done| && !done[i]
    ensures Tracks(done[i := true], order + [i])
  {
    var next := order + [i];
    assert next[|order|] == i;
    forall k | 0 <= k < |done| && done[i := true][k]
      ensures k in next
    {
      if k != i {
        assert k in order;
      }
    }
  }

  method ProcessCompleted(slots: seq<Slot>, st: Progress, i: nat) returns (r: Progress)
    requires i < |slots|
    ensures r == Process(slots, st, i)
  {
    if slots[i].invalid {
      r := st.(hasInvalid := true);
      return;
    }
    var functions, keys := ListFunctions(slots[i], st.claimed);
    r := Progress(keys, st.lists[i := functions], st.probes, st.hasInvalid);
    if !slots[i].valid(functions) {
      r := r.(hasInvalid := true);
      return;
    }
    r := r.(probes := st.probes + [i]);
  }

  /** The flags, the count and the result are those of processing the slots of `order`. */
  ghost predicate Polled(slots: seq<Slot>, claimed: set<string>, done: seq<bool>, completed: nat, order: seq<nat>,
                         result: Progress) {
    && |done| == |slots| && Tracks(done, order) && completed == CountTrue(done)
    && result == ProcessAll(slots, claimed, order)
  }

  lemma PolledNext(slots: seq<Slot>, claimed: set<string>, done: seq<bool>, completed: nat, order: seq<nat>,
                   result: Progress, i: nat)
    requires Polled(slots, claimed, done, completed, order, result) && i < |slots| && !done[i]
    ensures Polled(slots, claimed, done[i := true], completed + 1, order + [i], Process(slots, result, i))
  {
    TracksNext(done, order, i);
    CountTrueSet(done, i);
    assert (order + [i])[..|order|] == order;
  }

  /** One round of polling: processes whichever of the remaining extractions are ready. */
  method PollRound(slots: seq<Slot>, claimed: set<string>, ready: nat -> bool, ghost before: seq<nat>,
                   done0: seq<bool>, completed0: nat, result0: Progress)
    returns (done: seq<bool>, completed: nat, result: Progress, ghost order: seq<nat>)
    requires Polled(slots, claimed, done0, completed0, before, result0)
    ensures Polled(slots, claimed, done, completed, order, result)
    ensures forall k :: 0 <= k < |slots| && ready(k) ==> done[k]
  {
    done, completed, result, order := done0, completed0, result0, before;
    for i := 0 to |slots|
      invariant Polled(slots, claimed, done, completed, order, result)
      invariant forall k :: 0 <= k < i && ready(k) ==> done[k]
    {
      if done[i] || !ready(i) {
        continue;
      }
      PolledNext(slots, claimed, done, completed, order, result, i);
      done := done[i := true];
      completed := completed + 1;
      order := order + [i];
      result := ProcessCompleted(slots, result, i);
    }
  }

  /**
   Polls the extractions until all are processed.  `ready(round, i)` says whether extraction
   `i` has finished when it is polled in that round; all have by round `deadline`.
   */
  method ExtractProbes(slots: seq<Slot>, claimed: set<string>, ready: (nat, nat) -> bool, deadline: nat)
    returns (result: Progress, completed: nat, ghost order: seq<nat>)
    requires forall i: nat :: i < |slots| ==> ready(deadline, i)
    ensures EachOnce(order, |slots|) && completed == |slots|
    ensures result == ProcessAll(slots, claimed, order)
  {
    result, completed, order := Progress(claimed, map[], [], false), 0, [];
    var done := seq(|slots|, _ => false);
    NoneTrue(done);
    var round := 0;
    while completed < |slots|
      invariant round <= deadline + 1
      invariant Polled(slots, claimed, done, completed, order, result)
      invariant round > deadline ==> completed == |slots|
      decreases deadline + 1 - round
    {
      var now: nat := round;
      done, completed, result, order :=
        PollRound(slots, claimed, (i: nat) => ready(now, i), order, done, completed, result);
      CountTrueAll(done);
      round := round + 1;
    }
    CountTrueAll(done);
  }

  lemma {:induction false} NoneTrue(flags: seq<bool>)
    requires forall i :: 0 <= i < |flags| ==> !flags[i]
    ensures CountTrue(flags) == 0
  {
    if flags != [] {
      NoneTrue(flags[..|flags| - 1]);
    }
  }
}
