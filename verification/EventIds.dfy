/**
 Runtime event ids: every function of every loaded probe gets the next number, a forward map
 takes ids to (probe, function) pairs and an inverse, keyed by one string per pair, takes
 pairs to ids.
 */
module EventIds {
  import opened Common

  datatype Probe = Probe(name: string, functions: seq<string>)

  type Pair = (string, string)

  const BASE: nat := 1000

  function EventKey(probe: string, function_: string): string {
    probe + ['\n'] + function_
  }

  // ----- what a probe file specifies -----

  /** The probes of supported kinds, in file order. */
  function Supported(categories: seq<Option<Probe>>): seq<Probe> {
    if categories == [] then [] else
      var front, last := Supported(categories[..|categories| - 1]), categories[|categories| - 1];
      if last.None? then front else front + [last.value]
  }

  function PairsOf(name: string, functions: seq<string>): seq<Pair> {
    if functions == [] then [] else PairsOf(name, functions[..|functions| - 1]) + [(name, functions[|functions| - 1])]
  }

  /** All (probe, function) pairs, in the order they are numbered. */
  function Pairs(probes: seq<Probe>): seq<Pair> {
    if probes == [] then [] else
      var last := probes[|probes| - 1];
      Pairs(probes[..|probes| - 1]) + PairsOf(last.name, last.functions)
  }

  function CategoryMap(pairs: seq<Pair>): map<nat, Pair> {
    if pairs == [] then map[] else
      CategoryMap(pairs[..|pairs| - 1])[BASE + |pairs| - 1 := pairs[|pairs| - 1]]
  }

  function IdMap(pairs: seq<Pair>): map<string, nat> {
    if pairs == [] then map[] else
      var last := pairs[|pairs| - 1];
      IdMap(pairs[..|pairs| - 1])[EventKey(last.0, last.1) := BASE + |pairs| - 1]
  }

  function Lookup(ids: map<string, nat>, probe: string, function_: string): Option<nat> {
    var key := EventKey(probe, function_);
    if key in ids then Some(ids[key]) else None
  }

  // ----- the program -----

  class ConfigurationManager {
    var runtimeProbes: seq<Probe>
    var categoryMap: map<nat, Pair>
    var eventIds: map<string, nat>

    /** Both maps number the pairs of the probes held. */
    ghost predicate Valid()
      reads this
    {
      Numbered(Loaded(), BASE + |Loaded()|, categoryMap, eventIds)
    }

    /** The pairs loaded, in the order they were numbered. */
    ghost function Loaded(): seq<Pair>
      reads this
    {
      Pairs(runtimeProbes)
    }

    constructor ()
      ensures Valid() && Loaded() == []
    {
      runtimeProbes, categoryMap, eventIds := [], map[], map[];
    }

    /**
     Loads a probe file.  `file` is its verified content, None when verification fails; an
     entry is None when its kind is not supported.  On failure nothing changes.
     */
    method LoadRuntimeProbeFile(file: Option<seq<Option<Probe>>>) returns (loaded: bool)
      requires Valid()
      modifies this
      ensures Valid() && (loaded <==> file.Some?)
      ensures loaded ==> runtimeProbes == Supported(file.value)
      ensures !loaded ==>
              runtimeProbes == old(runtimeProbes) && categoryMap == old(categoryMap) && eventIds == old(eventIds)
    {
      if file.None? { return false; }
      var categories := file.value;
      runtimeProbes, categoryMap, eventIds := [], map[], map[];
      var eventId := BASE;
      for i := 0 to |categories|
        invariant runtimeProbes == Supported(categories[..i])
        invariant Numbered(Pairs(runtimeProbes), eventId, categoryMap, eventIds)
      {
        assert categories[..i + 1][..i] == categories[..i];
        if categories[i].Some? {
          var probe := categories[i].value;
          ghost var pairs := Pairs(runtimeProbes);
          assert (runtimeProbes + [probe])[..|runtimeProbes|] == runtimeProbes;
          runtimeProbes := runtimeProbes + [probe];
          eventId := Assign(probe, eventId, pairs);
        }
      }
      assert categories[..|categories|] == categories;
      return true;
    }

    /** Numbers the functions of one probe, from `eventId` on. */
    method Assign(probe: Probe, eventId: nat, ghost pairs: seq<Pair>) returns (next: nat)
      requires Numbered(pairs, eventId, categoryMap, eventIds)
      modifies this`categoryMap, this`eventIds
      ensures Numbered(pairs + PairsOf(probe.name, probe.functions), next, categoryMap, eventIds)
    {
      next := eventId;
      assert pairs + PairsOf(probe.name, probe.functions[..0]) == pairs;
      for k := 0 to |probe.functions|
        invariant Numbered(pairs + PairsOf(probe.name, probe.functions[..k]), next, categoryMap, eventIds)
      {
        var function_ := probe.functions[k];
        PairsSnoc(pairs, probe.name, probe.functions, k);
        ghost var before := pairs + PairsOf(probe.name, probe.functions[..k]);
        NumberOne(before, (probe.name, function_), next, categoryMap, eventIds);
        categoryMap := categoryMap[next := (probe.name, function_)];
        eventIds := eventIds[EventKey(probe.name, function_) := next];
        next := next + 1;
      }
      assert probe.functions[..|probe.functions|] == probe.functions;
    }

    /**
     The id of a pair.  One is found exactly if some loaded pair has its key, and is then the
     last one given to that key.  If no loaded pair collides with it, that means: found exactly
     if loaded, under the last id given to the pair itself, which maps back to it.
     */
    method GetRuntimeEventId(probe: string, function_: string) returns (id: Option<nat>)
      requires Valid()
      ensures id.Some? <==> exists i :: 0 <= i < |Loaded()| && KeyOf(Loaded()[i]) == KeyOf((probe, function_))
      ensures id.Some? ==> IsLast(Loaded(), KeyOf((probe, function_)), id.value - BASE)
      ensures NoCollision(Loaded(), (probe, function_)) ==>
                && (id.Some? <==> exists i :: 0 <= i < |Loaded()| && Loaded()[i] == (probe, function_))
                && (id.Some? ==> id.value in categoryMap && categoryMap[id.value] == (probe, function_))
    {
      LookupFindsKey(Loaded(), (probe, function_));
      if NoCollision(Loaded(), (probe, function_)) {
        LookupFindsLoaded(Loaded(), (probe, function_));
      }
      var key := EventKey(probe, function_);
      if key !in eventIds { return None; }
      return Some(eventIds[key]);
    }
  }

  /** Pair `i` is the last with key `key`. */
  ghost predicate IsLast(pairs: seq<Pair>, key: string, i: int) {
    0 <= i < |pairs| && KeyOf(pairs[i]) == key && forall j :: i < j < |pairs| ==> KeyOf(pairs[j]) != key
  }

  lemma PairsSnoc(pairs: seq<Pair>, name: string, functions: seq<string>, k: nat)
    requires k < |functions|
    ensures pairs + PairsOf(name, functions[..k + 1]) == pairs + PairsOf(name, functions[..k]) + [(name, functions[k])]
  {
    assert functions[..k + 1][..k] == functions[..k];
  }

  /** The maps number `pairs` from 1000 on, and `next` is the next free id. */
  ghost predicate Numbered(pairs: seq<Pair>, next: nat, categoryMap: map<nat, Pair>, eventIds: map<string, nat>) {
    next == BASE + |pairs| && categoryMap == CategoryMap(pairs) && eventIds == IdMap(pairs)
  }

  lemma NumberOne(pairs: seq<Pair>, pair: Pair, next: nat, categoryMap: map<nat, Pair>, eventIds: map<string, nat>)
    requires Numbered(pairs, next, categoryMap, eventIds)
    ensures Numbered(pairs + [pair], next + 1, categoryMap[next := pair], eventIds[EventKey(pair.0, pair.1) := next])
  {
    assert (pairs + [pair])[..|pairs|] == pairs;
  }

  // ----- the two maps agree -----

  /** The ids in use are exactly 1000, 1001, ... in the order of the pairs. */
  lemma {:induction false} IdsAreContiguous(pairs: seq<Pair>, id: nat)
    ensures id in CategoryMap(pairs) <==> BASE <= id < BASE + |pairs|
    ensures id in CategoryMap(pairs) ==> CategoryMap(pairs)[id] == pairs[id - BASE]
  {
    if pairs != [] {
      IdsAreContiguous(pairs[..|pairs| - 1], id);
    }
  }

  function KeyOf(pair: Pair): string { EventKey(pair.0, pair.1) }

  /** The id under a key is the number of the last pair with that key. */
  lemma {:induction false} IdIsLast(pairs: seq<Pair>, key: string, i: nat)
    requires IsLast(pairs, key, i)
    ensures key in IdMap(pairs) && IdMap(pairs)[key] == BASE + i
  {
    if i < |pairs| - 1 {
      IdIsLast(pairs[..|pairs| - 1], key, i);
    }
  }

  lemma {:induction false} LastWithKey(pairs: seq<Pair>, key: string) returns (i: nat)
    requires key in IdMap(pairs)
    ensures IsLast(pairs, key, i)
  {
    i := |pairs| - 1;
    if KeyOf(pairs[i]) != key {
      i := LastWithKey(pairs[..|pairs| - 1], key);
    }
  }

  /** Looking up a pair gives its own id exactly when no later pair has taken over its key. */
  lemma {:induction false} LookupInvertsIff(pairs: seq<Pair>, i: nat)
    requires i < |pairs|
    ensures Lookup(IdMap(pairs), pairs[i].0, pairs[i].1) == Some(BASE + i) <==>
            forall j :: i < j < |pairs| ==> KeyOf(pairs[j]) != KeyOf(pairs[i])
  {
    var key := KeyOf(pairs[i]);
    KeyIsIn(pairs, i);
    var last := LastWithKey(pairs, key);
    IdIsLast(pairs, key, last);
    assert last >= i;
  }

  lemma {:induction false} KeyIsIn(pairs: seq<Pair>, i: nat)
    requires i < |pairs|
    ensures KeyOf(pairs[i]) in IdMap(pairs)
  {
    if i < |pairs| - 1 {
      KeyIsIn(pairs[..|pairs| - 1], i);
    }
  }

  /** A pair's key is found exactly if some pair has it, under the id of the last that does. */
  lemma LookupFindsKey(pairs: seq<Pair>, pair: Pair)
    ensures var id := Lookup(IdMap(pairs), pair.0, pair.1);
            && (id.Some? <==> exists i :: 0 <= i < |pairs| && KeyOf(pairs[i]) == KeyOf(pair))
            && (id.Some? ==> IsLast(pairs, KeyOf(pair), id.value - BASE))
  {
    if i :| 0 <= i < |pairs| && KeyOf(pairs[i]) == KeyOf(pair) {
      KeyIsIn(pairs, i);
    }
    if KeyOf(pair) in IdMap(pairs) {
      var last := LastWithKey(pairs, KeyOf(pair));
      IdIsLast(pairs, KeyOf(pair), last);
    }
  }

  // ----- when keys collide -----

  predicate NoNewline(s: string) { forall i :: 0 <= i < |s| ==> s[i] != '\n' }

  /** The name of `q` goes on, after a newline, where that of `p` ends, and the function of `p` is the rest of it. */
  ghost predicate Overlaps(p: Pair, q: Pair) {
    Overlap(p.0, p.1, q.0, q.1, '\n')
  }

  /** Two pairs have the same key exactly if they are the same or split one text at different newlines. */
  lemma SameKeyIff(p: Pair, q: Pair)
    ensures KeyOf(p) == KeyOf(q) <==> p == q || Overlaps(p, q) || Overlaps(q, p)
  {
    JoinedSameIff(p.0, p.1, q.0, q.1, '\n');
  }

  /** No loaded pair has the key of `pair` without being it. */
  ghost predicate NoCollision(pairs: seq<Pair>, pair: Pair) {
    forall i :: 0 <= i < |pairs| ==> !Overlaps(pairs[i], pair) && !Overlaps(pair, pairs[i])
  }

  lemma OverlapsHasNewlines(p: Pair, q: Pair)
    requires Overlaps(p, q)
    ensures !NoNewline(q.0) && !NoNewline(p.1)
  {
    var r: string :| q.0 == p.0 + ['\n'] + r && p.1 == r + ['\n'] + q.1;
    assert q.0[|p.0|] == '\n' && p.1[|r|] == '\n';
  }

  /** Newline-free probe names keep pairs from colliding, and so do newline-free function names. */
  lemma NewlineFreeDoNotCollide(pairs: seq<Pair>, pair: Pair)
    requires (NoNewline(pair.0) && forall i :: 0 <= i < |pairs| ==> NoNewline(pairs[i].0))
          || (NoNewline(pair.1) && forall i :: 0 <= i < |pairs| ==> NoNewline(pairs[i].1))
    ensures NoCollision(pairs, pair)
  {
    forall i | 0 <= i < |pairs|
      ensures !Overlaps(pairs[i], pair) && !Overlaps(pair, pairs[i])
    {
      if Overlaps(pairs[i], pair) {
        OverlapsHasNewlines(pairs[i], pair);
      }
      if Overlaps(pair, pairs[i]) {
        OverlapsHasNewlines(pair, pairs[i]);
      }
    }
  }

  /**
   What looking up `pair` ought to give: an id if the pair was loaded, the last one given to it,
   which maps back to it.
   */
  ghost predicate LookupIsRight(pairs: seq<Pair>, pair: Pair) {
    var id := Lookup(IdMap(pairs), pair.0, pair.1);
    && (id.Some? <==> exists i :: 0 <= i < |pairs| && pairs[i] == pair)
    && (id.Some? ==>
          && id.value >= BASE && id.value in CategoryMap(pairs) && CategoryMap(pairs)[id.value] == pair
          && forall j :: id.value - BASE < j < |pairs| ==> pairs[j] != pair)
  }

  /** It does for every pair that no loaded pair collides with... */
  lemma LookupFindsLoaded(pairs: seq<Pair>, pair: Pair)
    requires NoCollision(pairs, pair)
    ensures LookupIsRight(pairs, pair)
  {
    if i :| 0 <= i < |pairs| && pairs[i] == pair {
      KeyIsIn(pairs, i);
    }
    if KeyOf(pair) in IdMap(pairs) {
      var last := LastWithKey(pairs, KeyOf(pair));
      IdIsLast(pairs, KeyOf(pair), last);
      IdsAreContiguous(pairs, BASE + last);
      SameKeyIff(pairs[last], pair);
    }
  }

  /** The pair that splits the key of `p` at a newline of its name or its function instead. */
  lemma Resplit(p: Pair) returns (q: Pair)
    requires !NoNewline(p.0) || !NoNewline(p.1)
    ensures q != p && KeyOf(q) == KeyOf(p)
  {
    if !NoNewline(p.0) {
      var i :| 0 <= i < |p.0| && p.0[i] == '\n';
      q := (p.0[..i], p.0[i + 1..] + ['\n'] + p.1);
      assert p.0 == p.0[..i] + ['\n'] + p.0[i + 1..];
      assert |q.0| != |p.0|;
    } else {
      var i :| 0 <= i < |p.1| && p.1[i] == '\n';
      q := (p.0 + ['\n'] + p.1[..i], p.1[i + 1..]);
      assert p.1 == p.1[..i] + ['\n'] + p.1[i + 1..];
      assert |q.0| != |p.0|;
    }
  }

  /** ... and it does for every pair there is exactly if no loaded probe or function name has a newline. */
  lemma LookupIsAlwaysRightIff(pairs: seq<Pair>)
    ensures (forall pair :: LookupIsRight(pairs, pair)) <==>
            forall i :: 0 <= i < |pairs| ==> NoNewline(pairs[i].0) && NoNewline(pairs[i].1)
  {
    if forall i :: 0 <= i < |pairs| ==> NoNewline(pairs[i].0) && NoNewline(pairs[i].1) {
      forall pair
        ensures LookupIsRight(pairs, pair)
      {
        PlainPairsDoNotCollide(pairs, pair);
        LookupFindsLoaded(pairs, pair);
      }
    } else {
      var i :| 0 <= i < |pairs| && (!NoNewline(pairs[i].0) || !NoNewline(pairs[i].1));
      var q := Resplit(pairs[i]);
      assert Lookup(IdMap(pairs), q.0, q.1) == Lookup(IdMap(pairs), pairs[i].0, pairs[i].1);
      assert !LookupIsRight(pairs, pairs[i]) || !LookupIsRight(pairs, q);
    }
  }

  lemma PlainPairsDoNotCollide(pairs: seq<Pair>, pair: Pair)
    requires forall i :: 0 <= i < |pairs| ==> NoNewline(pairs[i].0) && NoNewline(pairs[i].1)
    ensures NoCollision(pairs, pair)
  {
    forall i | 0 <= i < |pairs|
      ensures !Overlaps(pairs[i], pair) && !Overlaps(pair, pairs[i])
    {
      if Overlaps(pairs[i], pair) {
        OverlapsHasNewlines(pairs[i], pair);
      }
      if Overlaps(pair, pairs[i]) {
        OverlapsHasNewlines(pair, pairs[i]);
      }
    }
  }

  /**
   With newlines in a probe name and in a function two different pairs can share a key, and the
   first loses its id.
   */
  lemma NewlineBreaksLookup()
    ensures var pairs := [("a", ['b', '\n', 'c']), (['a', '\n', 'b'], "c")];
            pairs[0] != pairs[1] && Lookup(IdMap(pairs), pairs[0].0, pairs[0].1) == Some(BASE + 1)
  {
    var pairs := [("a", ['b', '\n', 'c']), (['a', '\n', 'b'], "c")];
    assert KeyOf(pairs[0]) == ['a', '\n', 'b', '\n', 'c'] == KeyOf(pairs[1]);
    assert "a" != ['a', '\n', 'b'] by { assert |"a"| != |['a', '\n', 'b']|; }
    IdIsLast(pairs, KeyOf(pairs[1]), 1);
  }

  // ----- what is loaded -----

  /** Entry `i` of the file is a supported probe with that name and function. */
  predicate Lists(file: seq<Option<Probe>>, i: nat, pair: Pair) {
    i < |file| && file[i].Some? && file[i].value.name == pair.0 && pair.1 in file[i].value.functions
  }

  lemma {:induction false} PairsOfIff(name: string, functions: seq<string>, pair: Pair)
    ensures pair in PairsOf(name, functions) <==> pair.0 == name && pair.1 in functions
    ensures |PairsOf(name, functions)| == |functions|
  {
    if functions != [] {
      var front, last := functions[..|functions| - 1], functions[|functions| - 1];
      PairsOfIff(name, front, pair);
      assert functions == front + [last];
    }
  }

  /** How many entries of the file are supported. */
  function SupportedCount(file: seq<Option<Probe>>): nat {
    if file == [] then 0 else SupportedCount(file[..|file| - 1]) + if file[|file| - 1].Some? then 1 else 0
  }

  /** The probes held are those of all supported entries, in file order. */
  lemma {:induction false} SupportedAt(file: seq<Option<Probe>>, i: nat)
    ensures |Supported(file)| == SupportedCount(file)
    ensures i < |file| && file[i].Some? ==>
              var k := SupportedCount(file[..i]);
              k < |Supported(file)| && Supported(file)[k] == file[i].value
  {
    if file != [] {
      var front := file[..|file| - 1];
      SupportedAt(front, i);
      if i < |front| {
        assert front[..i] == file[..i];
      }
    }
  }

  /** How many functions the supported entries of the file list. */
  function FunctionCount(file: seq<Option<Probe>>): nat {
    if file == [] then 0 else
      var last := file[|file| - 1];
      FunctionCount(file[..|file| - 1]) + if last.Some? then |last.value.functions| else 0
  }

  /** The pairs of a file are those its supported entries list, and there are as many as functions are listed. */
  lemma {:induction false} PairsOfFile(file: seq<Option<Probe>>, pair: Pair)
    ensures pair in Pairs(Supported(file)) <==> exists i: nat :: Lists(file, i, pair)
    ensures |Pairs(Supported(file))| == FunctionCount(file)
  {
    if file != [] {
      var front, last := file[..|file| - 1], file[|file| - 1];
      PairsOfFile(front, pair);
      if last.Some? {
        PairsOfIff(last.value.name, last.value.functions, pair);
        assert (Supported(front) + [last.value])[..|Supported(front)|] == Supported(front);
      }
      ListsFront(file, pair);
    }
  }

  lemma ListsFront(file: seq<Option<Probe>>, pair: Pair)
    requires file != []
    ensures var front := file[..|file| - 1];
            (exists i: nat :: Lists(file, i, pair)) <==>
            (exists i: nat :: Lists(front, i, pair)) || Lists(file, |file| - 1, pair)
  {
    var front := file[..|file| - 1];
    if i: nat :| Lists(front, i, pair) {
      assert Lists(file, i, pair);
    }
    if i: nat :| Lists(file, i, pair) {
      assert i < |front| ==> Lists(front, i, pair);
    }
  }

  /**
   Pairs are numbered in file order: those of an earlier entry before those of a later, and within
   one as they are listed.
   */
  lemma {:induction false} PairAt(file: seq<Option<Probe>>, i: nat, j: nat)
    requires i < |file| && file[i].Some? && j < |file[i].value.functions|
    ensures var k := FunctionCount(file[..i]) + j;
            && k < |Pairs(Supported(file))|
            && Pairs(Supported(file))[k] == (file[i].value.name, file[i].value.functions[j])
  {
    var front, last := file[..|file| - 1], file[|file| - 1];
    if last.Some? {
      assert (Supported(front) + [last.value])[..|Supported(front)|] == Supported(front);
    }
    if i < |file| - 1 {
      PairAt(front, i, j);
      assert front[..i] == file[..i];
    } else {
      PairsOfFile(front, ("", ""));
      PairsOfIff(last.value.name, last.value.functions, ("", ""));
      PairsOfAt(last.value.name, last.value.functions, j);
    }
  }

  lemma {:induction false} PairsOfAt(name: string, functions: seq<string>, j: nat)
    requires j < |functions|
    ensures j < |PairsOf(name, functions)| && PairsOf(name, functions)[j] == (name, functions[j])
  {
    PairsOfIff(name, functions, ("", ""));
    if j < |functions| - 1 {
      PairsOfAt(name, functions[..|functions| - 1], j);
    } else {
      PairsOfIff(name, functions[..j], ("", ""));
    }
  }

  /** So the `j`-th function of entry `i` gets the id 1000, plus the functions of supported entries before, plus `j`. */
  lemma IdInFile(file: seq<Option<Probe>>, i: nat, j: nat)
    requires i < |file| && file[i].Some? && j < |file[i].value.functions|
    ensures var id := 1000 + FunctionCount(file[..i]) + j;
            && id in CategoryMap(Pairs(Supported(file)))
            && CategoryMap(Pairs(Supported(file)))[id] == (file[i].value.name, file[i].value.functions[j])
  {
    PairAt(file, i, j);
    IdsAreContiguous(Pairs(Supported(file)), 1000 + FunctionCount(file[..i]) + j);
  }
}
