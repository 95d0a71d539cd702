/**
 The function symbols of an ELF file, listed by name, with file offsets where a name is
 ambiguous or offsets are asked for.
 */
module ElfSymbols {
  import opened FunctionNames

  const WORD: nat := 0x1_0000_0000_0000_0000

  datatype Section = Section(addr: nat, offset: nat)

  /** A symbol table entry; `shndx` is the index of its section. */
  datatype Symbol = Symbol(name: string, defined: bool, isFunction: bool, value: nat, shndx: nat)

  /** The sections, and the entries of every static and dynamic symbol table. */
  datatype Elf = Elf(sections: seq<Section>, tables: seq<seq<Symbol>>)

  type Groups = map<string, set<string>>

  const EXCLUDED: set<string> := {"_init", "_fini", "_start"}

  /** Where the symbol lies in the file, as a 64-bit number; its plain value if it lies in no section. */
  function FileOffset(elf: Elf, s: Symbol): nat {
    if s.shndx < |elf.sections| && s.value >= elf.sections[s.shndx].addr
    then (elf.sections[s.shndx].offset + (s.value - elf.sections[s.shndx].addr)) % WORD
    else s.value % WORD
  }

  /** Within a section that lies in the 64-bit range, file offsets keep the distances of addresses. */
  lemma OffsetsKeepDistances(elf: Elf, s: Symbol, t: Symbol)
    requires s.shndx == t.shndx < |elf.sections| && elf.sections[s.shndx].addr <= s.value <= t.value
    requires elf.sections[s.shndx].offset + t.value - elf.sections[s.shndx].addr < WORD
    ensures FileOffset(elf, t) - FileOffset(elf, s) == t.value - s.value
    ensures s.value == elf.sections[s.shndx].addr ==> FileOffset(elf, s) == elf.sections[s.shndx].offset
  {
    var section := elf.sections[s.shndx];
    assert 0 <= section.offset + (s.value - section.addr) <= section.offset + (t.value - section.addr) < WORD;
  }

  /** A symbol in no section, or below the start of its section, is at its plain value. */
  lemma OffsetOutsideSections(elf: Elf, s: Symbol)
    requires s.shndx >= |elf.sections| || s.value < elf.sections[s.shndx].addr
    ensures s.value < 0x1_0000_0000_0000_0000 ==> FileOffset(elf, s) == s.value
  {
  }

  predicate Counts(s: Symbol) { s.defined && s.isFunction }

  predicate Clean(name: string) { name != "" && ColonFree(name) }

  function AddSymbol(elf: Elf, groups: Groups, s: Symbol): Groups {
    if !Counts(s) then groups else
      var offsets := if s.name in groups then groups[s.name] else {};
      groups[s.name := if Clean(s.name) then offsets + {PrintOffset(FileOffset(elf, s))} else offsets]
  }

  function AddTable(elf: Elf, groups: Groups, table: seq<Symbol>): Groups {
    if table == [] then groups else AddSymbol(elf, AddTable(elf, groups, table[..|table| - 1]), table[|table| - 1])
  }

  function AddTables(elf: Elf, tables: seq<seq<Symbol>>): Groups {
    if tables == [] then map[] else AddTable(elf, AddTables(elf, tables[..|tables| - 1]), tables[|tables| - 1])
  }

  /** The printed offsets of every defined function name. */
  method CollectOffsets(elf: Elf) returns (groups: Groups)
    ensures groups == AddTables(elf, elf.tables)
  {
    groups := map[];
    for i := 0 to |elf.tables|
      invariant groups == AddTables(elf, elf.tables[..i])
    {
      assert elf.tables[..i + 1][..i] == elf.tables[..i];
      var syms := elf.tables[i];
      ghost var before := groups;
      for j := 0 to |syms|
        invariant groups == AddTable(elf, before, syms[..j])
      {
        assert syms[..j + 1][..j] == syms[..j];
        var s := syms[j];
        if !s.defined { continue; }
        if !s.isFunction { continue; }
        if s.name !in groups {
          groups := groups[s.name := {}];
        }
        if Clean(s.name) {
          groups := groups[s.name := groups[s.name] + {PrintOffset(FileOffset(elf, s))}];
        }
      }
      assert syms[..|syms|] == syms;
    }
    assert elf.tables[..|elf.tables|] == elf.tables;
  }

  // ----- what is listed -----

  function WithOffset(name: string, offset: string): string { name + [':'] + offset }

  /** `e` is listed for `name`. */
  ghost predicate EntryOf(groups: Groups, includeOffsets: bool, name: string, e: string) {
    && name in groups && name !in EXCLUDED
    && if |groups[name]| > 1 || includeOffsets
       then exists offset :: offset in groups[name] && e == WithOffset(name, offset)
       else e == name
  }

  /** With offsets asked for, every listed name has one to print. */
  ghost predicate Printable(groups: Groups, includeOffsets: bool) {
    includeOffsets ==> forall name :: name in groups && name !in EXCLUDED ==> groups[name] != {}
  }

  /** The entries of one name, in whatever order its offsets come. */
  method EntriesOf(name: string, offsets: set<string>, includeOffsets: bool) returns (entries: seq<string>)
    requires includeOffsets ==> offsets != {}
    ensures forall e :: e in entries <==>
              if |offsets| > 1 || includeOffsets
              then exists offset :: offset in offsets && e == WithOffset(name, offset) else e == name
    ensures forall i, j :: 0 <= i < j < |entries| ==> entries[i] != entries[j]
  {
    entries := [];
    if |offsets| > 1 {
      var left := offsets;
      while left != {}
        invariant left <= offsets
        invariant forall e :: e in entries <==>
                  exists offset :: offset in offsets - left && e == WithOffset(name, offset)
        invariant forall i, j :: 0 <= i < j < |entries| ==> entries[i] != entries[j]
        decreases |left|
      {
        var offset :| offset in left;
        forall o | o in offsets - left
          ensures WithOffset(name, o) != WithOffset(name, offset)
        {
          WithOffsetInjective(name, o, offset);
        }
        assert WithOffset(name, offset) !in entries;
        entries := entries + [WithOffset(name, offset)];
        left := left - {offset};
      }
    } else if includeOffsets {
      var offset :| offset in offsets;
      OnlyOne(offsets, offset);
      entries := [WithOffset(name, offset)];
    } else {
      entries := [name];
    }
  }

  lemma WithOffsetInjective(name: string, a: string, b: string)
    ensures WithOffset(name, a) == WithOffset(name, b) <==> a == b
  {
    assert WithOffset(name, a)[|name| + 1..] == a && WithOffset(name, b)[|name| + 1..] == b;
  }

  lemma OnlyOne(s: set<string>, x: string)
    requires x in s && |s| <= 1
    ensures s == {x}
  {
    assert |s - {x}| == 0;
    assert s == (s - {x}) + {x};
  }

  ghost predicate Distinct(entries: seq<string>) {
    forall i, j :: 0 <= i < j < |entries| ==> entries[i] != entries[j]
  }

  ghost predicate Lists(groups: Groups, includeOffsets: bool, symbols: seq<string>) {
    forall e :: e in symbols <==> exists name :: EntryOf(groups, includeOffsets, name, e)
  }

  /** Lists the function symbols, name by name in no particular order. */
  method ExtractSymbols(elf: Elf, includeOffsets: bool) returns (symbols: seq<string>)
    requires Printable(AddTables(elf, elf.tables), includeOffsets)
    ensures var groups := AddTables(elf, elf.tables);
            && Lists(groups, includeOffsets, symbols)
            && ((forall name :: name in groups ==> Clean(name)) ==> Distinct(symbols))
  {
    var groups := CollectOffsets(elf);
    symbols := [];
    var left := groups.Keys;
    while left != {}
      invariant left <= groups.Keys
      invariant forall e :: e in symbols <==> exists name :: name !in left && EntryOf(groups, includeOffsets, name, e)
      invariant (forall name :: name in groups ==> Clean(name)) ==> Distinct(symbols)
      decreases |left|
    {
      var name :| name in left;
      if name !in EXCLUDED {
        var entries := EntriesOf(name, groups[name], includeOffsets);
        assert forall e :: e in entries <==> EntryOf(groups, includeOffsets, name, e);
        if forall n :: n in groups ==> Clean(n) {
          forall e | e in symbols
            ensures e !in entries
          {
            var other :| other !in left && EntryOf(groups, includeOffsets, other, e);
            EntryBase(groups, includeOffsets, other, e);
            if e in entries {
              EntryBase(groups, includeOffsets, name, e);
            }
          }
          DistinctConcat(symbols, entries);
        }
        symbols := symbols + entries;
      }
      left := left - {name};
    }
  }

  lemma DistinctConcat(a: seq<string>, b: seq<string>)
    requires Distinct(a) && Distinct(b) && forall e :: e in a ==> e !in b
    ensures Distinct(a + b)
  {
    forall i, j | 0 <= i < j < |a + b|
      ensures (a + b)[i] != (a + b)[j]
    {
      if i < |a| <= j {
        assert (a + b)[i] in a && (a + b)[j] in b;
      }
    }
  }

  /** An entry of a clean name has that name as its base name. */
  lemma EntryBase(groups: Groups, includeOffsets: bool, name: string, e: string)
    requires EntryOf(groups, includeOffsets, name, e) && Clean(name)
    ensures BaseName(e) == name
  {
    if offset :| offset in groups[name] && e == WithOffset(name, offset) {
      BaseOfOffset(name, offset);
    } else {
      BaseOfColonFree(name);
    }
  }

  // ----- the groups are the symbol tables, by name -----

  function AllSymbols(tables: seq<seq<Symbol>>): seq<Symbol> {
    if tables == [] then [] else AllSymbols(tables[..|tables| - 1]) + tables[|tables| - 1]
  }

  /** They are the entries of all tables. */
  lemma {:induction false} AllSymbolsIff(tables: seq<seq<Symbol>>, s: Symbol)
    ensures s in AllSymbols(tables) <==> exists i :: 0 <= i < |tables| && s in tables[i]
  {
    if tables != [] {
      var front := tables[..|tables| - 1];
      AllSymbolsIff(front, s);
      if i :| 0 <= i < |front| && s in front[i] {
        assert s in tables[i];
      }
      if i :| 0 <= i < |tables| && s in tables[i] {
        assert i < |front| ==> s in front[i];
      }
    }
  }

  lemma {:induction false} TablesAreOne(elf: Elf, tables: seq<seq<Symbol>>)
    ensures AddTables(elf, tables) == AddTable(elf, map[], AllSymbols(tables))
  {
    if tables != [] {
      var front, last := tables[..|tables| - 1], tables[|tables| - 1];
      TablesAreOne(elf, front);
      AddTableConcat(elf, map[], AllSymbols(front), last);
    }
  }

  lemma {:induction false} AddTableConcat(elf: Elf, groups: Groups, a: seq<Symbol>, b: seq<Symbol>)
    ensures AddTable(elf, groups, a + b) == AddTable(elf, AddTable(elf, groups, a), b)
  {
    if b == [] {
      assert a + b == a;
    } else {
      AddTableConcat(elf, groups, a, b[..|b| - 1]);
      assert (a + b)[..|a + b| - 1] == a + b[..|b| - 1];
    }
  }

  /** `s` is a defined function of the file called `name`. */
  ghost predicate Names(elf: Elf, s: Symbol, name: string) {
    s in AllSymbols(elf.tables) && s.defined && s.isFunction && s.name == name
  }

  lemma {:induction false} GroupIff(elf: Elf, syms: seq<Symbol>, name: string, offset: string)
    ensures name in AddTable(elf, map[], syms) <==> exists s :: s in syms && Counts(s) && s.name == name
    ensures name in AddTable(elf, map[], syms) ==>
              (offset in AddTable(elf, map[], syms)[name] <==>
               exists s :: s in syms && Counts(s) && s.name == name && Clean(name)
                           && PrintOffset(FileOffset(elf, s)) == offset)
  {
    if syms != [] {
      var front, last := syms[..|syms| - 1], syms[|syms| - 1];
      assert syms == front + [last];
      GroupIff(elf, front, name, offset);
    }
  }

  ghost predicate AllClean(elf: Elf) {
    forall s :: s in AllSymbols(elf.tables) && s.defined && s.isFunction ==> Clean(s.name)
  }

  lemma GroupsOf(elf: Elf, name: string, offset: string)
    ensures var groups := AddTables(elf, elf.tables);
            && (name in groups <==> exists s :: Names(elf, s, name))
            && (name in groups ==> (offset in groups[name] <==>
                  exists s :: Names(elf, s, name) && Clean(name) && PrintOffset(FileOffset(elf, s)) == offset))
  {
    TablesAreOne(elf, elf.tables);
    var syms := AllSymbols(elf.tables);
    GroupIff(elf, syms, name, offset);
    if s :| s in syms && Counts(s) && s.name == name && PrintOffset(FileOffset(elf, s)) == offset {
      assert Names(elf, s, name);
    }
    if s :| s in syms && Counts(s) && s.name == name {
      assert Names(elf, s, name);
    }
  }

  /** Every defined function name that is not excluded is clean. */
  ghost predicate ListedAreClean(elf: Elf) {
    forall s :: s in AllSymbols(elf.tables) && s.defined && s.isFunction && s.name !in EXCLUDED ==> Clean(s.name)
  }

  /** Asked-for offsets can be printed for all listed names exactly when these are clean. */
  lemma PrintableIff(elf: Elf, includeOffsets: bool)
    ensures Printable(AddTables(elf, elf.tables), includeOffsets) <==> !includeOffsets || ListedAreClean(elf)
  {
    var groups := AddTables(elf, elf.tables);
    if ListedAreClean(elf) {
      forall name | name in groups && name !in EXCLUDED
        ensures groups[name] != {}
      {
        GroupsOf(elf, name, "");
        var s :| Names(elf, s, name);
        GroupsOf(elf, name, PrintOffset(FileOffset(elf, s)));
      }
    }
    if Printable(groups, true) {
      forall s | s in AllSymbols(elf.tables) && Counts(s) && s.name !in EXCLUDED
        ensures Clean(s.name)
      {
        assert Names(elf, s, s.name);
        GroupsOf(elf, s.name, "");
        var offset :| offset in groups[s.name];
        GroupsOf(elf, s.name, offset);
      }
    }
  }

  /** In particular when all names are clean. */
  lemma CleanIsPrintable(elf: Elf, includeOffsets: bool)
    requires AllClean(elf)
    ensures Printable(AddTables(elf, elf.tables), includeOffsets)
  {
    PrintableIff(elf, includeOffsets);
  }

  /** A name is clean if it is not empty and has no colon. */
  lemma CleanIff(name: string)
    ensures Clean(name) <==> name != "" && forall i :: 0 <= i < |name| ==> name[i] != ':'
  {
    ColonFreeIff(name);
  }

  /** Three names are never listed. */
  lemma ExcludedIs(name: string)
    ensures name in EXCLUDED <==> name == "_init" || name == "_fini" || name == "_start"
  {
  }

  /** The base names of what is listed are exactly the defined function names that are not excluded. */
  lemma BaseNamesListed(elf: Elf, includeOffsets: bool, symbols: seq<string>, name: string)
    requires AllClean(elf) && Lists(AddTables(elf, elf.tables), includeOffsets, symbols)
    ensures (exists e :: e in symbols && BaseName(e) == name) <==>
            (exists s :: Names(elf, s, name)) && name !in EXCLUDED
  {
    var groups := AddTables(elf, elf.tables);
    if e :| e in symbols && BaseName(e) == name {
      var n :| EntryOf(groups, includeOffsets, n, e);
      GroupsOf(elf, n, "");
      EntryBase(groups, includeOffsets, n, e);
    }
    if (exists s :: Names(elf, s, name)) && name !in EXCLUDED {
      GroupsOf(elf, name, "");
      CleanIsPrintable(elf, true);
      var offset :| offset in groups[name];
      var e := if |groups[name]| > 1 || includeOffsets then WithOffset(name, offset) else name;
      assert EntryOf(groups, includeOffsets, name, e);
      EntryBase(groups, includeOffsets, name, e);
    }
  }

  function ListedFor(symbols: seq<string>, name: string): set<string> {
    set e | e in symbols && BaseName(e) == name
  }

  function EntriesFor(name: string, offsets: set<string>, includeOffsets: bool): set<string> {
    if |offsets| > 1 || includeOffsets then OffsetEntries(name, offsets) else {name}
  }

  lemma ListedForIs(elf: Elf, includeOffsets: bool, symbols: seq<string>, name: string)
    requires AllClean(elf) && Lists(AddTables(elf, elf.tables), includeOffsets, symbols)
    requires name in AddTables(elf, elf.tables) && name !in EXCLUDED
    ensures ListedFor(symbols, name) == EntriesFor(name, AddTables(elf, elf.tables)[name], includeOffsets)
  {
    var groups := AddTables(elf, elf.tables);
    var entries := EntriesFor(name, groups[name], includeOffsets);
    forall e
      ensures e in ListedFor(symbols, name) <==> e in entries
    {
      if e in ListedFor(symbols, name) {
        var n :| EntryOf(groups, includeOffsets, n, e);
        GroupsOf(elf, n, "");
        EntryBase(groups, includeOffsets, n, e);
      }
      if e in entries {
        assert EntryOf(groups, includeOffsets, name, e);
        GroupsOf(elf, name, "");
        EntryBase(groups, includeOffsets, name, e);
      }
    }
  }

  /** The entries listed for a name: one for each distinct offset if there are several, else one. */
  lemma EntriesPerName(elf: Elf, includeOffsets: bool, symbols: seq<string>, name: string)
    requires AllClean(elf) && Lists(AddTables(elf, elf.tables), includeOffsets, symbols)
    requires name in AddTables(elf, elf.tables) && name !in EXCLUDED
    ensures |AddTables(elf, elf.tables)[name]| >= 1
    ensures |ListedFor(symbols, name)| == |AddTables(elf, elf.tables)[name]|
  {
    var offsets := AddTables(elf, elf.tables)[name];
    ListedForIs(elf, includeOffsets, symbols, name);
    CleanIsPrintable(elf, true);
    WithOffsetCount(name, offsets);
  }

  /** All functions called `name` lie at one file offset. */
  ghost predicate Unambiguous(elf: Elf, name: string) {
    forall s, t :: Names(elf, s, name) && Names(elf, t, name) ==> FileOffset(elf, s) == FileOffset(elf, t)
  }

  /** A name is listed without an offset exactly if it is unambiguous and offsets are not asked for. */
  lemma PlainIff(elf: Elf, includeOffsets: bool, symbols: seq<string>, name: string)
    requires AllClean(elf) && Lists(AddTables(elf, elf.tables), includeOffsets, symbols)
    requires name in AddTables(elf, elf.tables) && name !in EXCLUDED
    ensures name in symbols <==> !includeOffsets && Unambiguous(elf, name)
  {
    var groups := AddTables(elf, elf.tables);
    GroupsOf(elf, name, "");
    var s :| Names(elf, s, name);
    UnambiguousIff(elf, name);
    if name in symbols {
      var n :| EntryOf(groups, includeOffsets, n, name);
      GroupsOf(elf, n, "");
      EntryBase(groups, includeOffsets, n, name);
      BaseOfColonFree(name);
    }
    if !includeOffsets && Unambiguous(elf, name) {
      assert EntryOf(groups, includeOffsets, name, name);
    }
  }

  lemma UnambiguousIff(elf: Elf, name: string)
    requires AllClean(elf) && name in AddTables(elf, elf.tables)
    ensures |AddTables(elf, elf.tables)[name]| > 1 <==> !Unambiguous(elf, name)
  {
    var offsets := AddTables(elf, elf.tables)[name];
    if |offsets| > 1 {
      var a :| a in offsets;
      if offsets - {a} == {} {
        OnlyOffset(offsets, a);
      }
      var b :| b in offsets - {a};
      GroupsOf(elf, name, a);
      GroupsOf(elf, name, b);
    }
    if !Unambiguous(elf, name) {
      var s, t :| Names(elf, s, name) && Names(elf, t, name) && FileOffset(elf, s) != FileOffset(elf, t);
      var a, b := PrintOffset(FileOffset(elf, s)), PrintOffset(FileOffset(elf, t));
      GroupsOf(elf, name, a);
      GroupsOf(elf, name, b);
      OffsetRoundTrip(FileOffset(elf, s));
      OffsetRoundTrip(FileOffset(elf, t));
      TwoOffsets(offsets, a, b);
    }
  }

  lemma OnlyOffset(offsets: set<string>, a: string)
    requires a in offsets && offsets - {a} == {}
    ensures |offsets| == 1
  {
    assert offsets == {a};
  }

  lemma TwoOffsets(offsets: set<string>, a: string, b: string)
    requires a in offsets && b in offsets && a != b
    ensures |offsets| > 1
  {
    assert {a, b} <= offsets;
    assert |offsets - {a}| > 0 by { assert b in offsets - {a}; }
  }

  function OffsetEntries(name: string, offsets: set<string>): set<string> {
    set o | o in offsets :: WithOffset(name, o)
  }

  lemma {:induction false} WithOffsetCount(name: string, offsets: set<string>)
    ensures |OffsetEntries(name, offsets)| == |offsets|
    decreases |offsets|
  {
    if offsets != {} {
      var x :| x in offsets;
      var rest := OffsetEntries(name, offsets - {x});
      WithOffsetCount(name, offsets - {x});
      forall o | o in offsets - {x}
        ensures WithOffset(name, o) != WithOffset(name, x)
      {
        WithOffsetInjective(name, o, x);
      }
      assert OffsetEntries(name, offsets) == rest + {WithOffset(name, x)};
    }
  }

  /** What a listed entry says: a name and the offset printed after it. */
  function Decode(e: string): (string, nat) {
    var base := BaseName(e);
    (base, if |base| < |e| then ReadOffset(e[|base| + 1..]) else 0)
  }

  lemma DecodeWithOffset(name: string, offset: nat)
    requires ColonFree(name)
    ensures Decode(WithOffset(name, PrintOffset(offset))) == (name, offset)
  {
    var e := WithOffset(name, PrintOffset(offset));
    BaseOfOffset(name, PrintOffset(offset));
    assert e[|name| + 1..] == PrintOffset(offset);
    OffsetRoundTrip(offset);
  }

  lemma EntryDecodes(elf: Elf, e: string) returns (s: Symbol)
    requires AllClean(elf) && exists name :: EntryOf(AddTables(elf, elf.tables), true, name, e)
    ensures Names(elf, s, s.name) && s.name !in EXCLUDED && Decode(e) == (s.name, FileOffset(elf, s))
  {
    var groups := AddTables(elf, elf.tables);
    var name :| EntryOf(groups, true, name, e);
    var o :| o in groups[name] && e == WithOffset(name, o);
    GroupsOf(elf, name, o);
    s :| Names(elf, s, name) && PrintOffset(FileOffset(elf, s)) == o;
    DecodeWithOffset(name, FileOffset(elf, s));
  }

  lemma SymbolListed(elf: Elf, s: Symbol)
    requires AllClean(elf) && Names(elf, s, s.name) && s.name !in EXCLUDED
    ensures EntryOf(AddTables(elf, elf.tables), true, s.name, WithOffset(s.name, PrintOffset(FileOffset(elf, s))))
  {
    GroupsOf(elf, s.name, PrintOffset(FileOffset(elf, s)));
  }

  /** With offsets asked for, the entries decode to exactly the (name, file offset) pairs of the file's functions. */
  lemma OffsetsRecovered(elf: Elf, symbols: seq<string>, name: string, offset: nat)
    requires AllClean(elf) && Lists(AddTables(elf, elf.tables), true, symbols)
    ensures (exists e :: e in symbols && Decode(e) == (name, offset)) <==>
            (exists s :: Names(elf, s, name) && FileOffset(elf, s) == offset) && name !in EXCLUDED
  {
    if e :| e in symbols && Decode(e) == (name, offset) {
      var s := EntryDecodes(elf, e);
    }
    if name !in EXCLUDED {
      if s :| Names(elf, s, name) && FileOffset(elf, s) == offset {
        SymbolListed(elf, s);
        DecodeWithOffset(name, offset);
        assert WithOffset(name, PrintOffset(offset)) in symbols;
      }
    }
  }
}
