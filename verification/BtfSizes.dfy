/**
 What the size resolver finds: the size at the end of a type's walk through qualifiers and
 typedefs, on any table, cyclic or dangling.
 */
module BtfSizes {
  import opened Text
  import opened BtfTypes

  /** `ids` goes through qualifiers and typedefs, each id but perhaps the last for the first time. */
  ghost predicate SizePath(types: Table, ids: seq<int>) {
    && ids != []
    && (forall k {:trigger ids[k]} :: 0 <= k < |ids| - 1 ==>
          ids[k] != 0 && ids[k] in types && types[ids[k]].SizeTransparent() && types[ids[k]].target == ids[k + 1])
    && forall a, b :: 0 <= a < b < |ids| - 1 ==> ids[a] != ids[b]
  }

  function Before(ids: seq<int>, i: nat): set<int>
    requires i <= |ids|
  {
    set k | 0 <= k < i :: ids[k]
  }

  /** The path goes no further: it has come to no type, back to itself, to a missing type, or to one with a size. */
  predicate IsEnd(types: Table, ids: seq<int>)
    requires ids != []
  {
    var last := |ids| - 1;
    ids[last] == 0 || ids[last] in Before(ids, last) || ids[last] !in types || !types[ids[last]].SizeTransparent()
  }

  lemma {:induction false} SizeAlong(types: Table, ids: seq<int>, i: nat)
    requires SizePath(types, ids) && i < |ids|
    ensures ResolveSize(types, ids[i], Before(ids, i)) == ResolveSize(types, ids[|ids| - 1], Before(ids, |ids| - 1))
    decreases |ids| - i
  {
    if i < |ids| - 1 {
      SizeAlong(types, ids, i + 1);
      assert Before(ids, i + 1) == Before(ids, i) + {ids[i]};
      assert ids[i] !in Before(ids, i);
    }
  }

  /**
   The size of a type is read off the end of its path: the size of an integer, enumeration,
   structure or union; 8 for a pointer, an array or a missing type; 0 for no type at all and for
   a path that goes round; for anything else its size, or 8 if it has none.
   */
  lemma SizeIsAtTheEnd(types: Table, ids: seq<int>)
    requires SizePath(types, ids) && IsEnd(types, ids)
    ensures var last := |ids| - 1;
            var end, size := ids[last], ResolveSize(types, ids[0], {});
            if end == 0 || end in Before(ids, last) then size == 0
            else if end !in types then size == 8
            else
              var d := types[end];
              && (d.kind.Int? || d.kind.Enum? || d.kind.Struct? || d.kind.Union? ==> size == d.size)
              && (d.kind.Ptr? || d.kind.Array? ==> size == 8)
              && (d.kind.Fwd? || d.kind.Other? ==> size == if d.size > 0 then d.size else 8)
              && d.kind != Typedef && d.kind != Const && d.kind != Volatile && d.kind != Restrict
  {
    assert Before(ids, 0) == {};
    SizeAlong(types, ids, 0);
  }

  lemma BeforeSnoc(ids: seq<int>, id: int)
    requires ids != []
    ensures Before(ids + [id], |ids|) == Before(ids, |ids| - 1) + {ids[|ids| - 1]}
  {
    assert forall k :: 0 <= k < |ids| ==> (ids + [id])[k] == ids[k];
  }

  lemma OneMoreId(types: Table, ids: seq<int>)
    requires SizePath(types, ids) && !IsEnd(types, ids)
    ensures SizePath(types, ids + [types[ids[|ids| - 1]].target])
  {
    var last := |ids| - 1;
    var more := ids + [types[ids[last]].target];
    assert forall a :: 0 <= a < last ==> ids[a] in Before(ids, last);
    forall k {:trigger more[k]} | 0 <= k < |more| - 1
      ensures more[k] != 0 && more[k] in types && types[more[k]].SizeTransparent()
              && types[more[k]].target == more[k + 1]
    {
      assert more[k] == ids[k] && (k < last ==> more[k + 1] == ids[k + 1]);
    }
    forall a, b | 0 <= a < b < |more| - 1
      ensures more[a] != more[b]
    {
      assert more[a] == ids[a] && more[b] == ids[b];
    }
  }

  /** Every type has such a path. */
  lemma {:induction false} SizePathExists(types: Table, ids: seq<int>) returns (path: seq<int>)
    requires SizePath(types, ids)
    ensures SizePath(types, path) && IsEnd(types, path) && path[0] == ids[0]
    decreases types.Keys - Before(ids, |ids| - 1)
  {
    if IsEnd(types, ids) {
      path := ids;
    } else {
      var last := |ids| - 1;
      OneMoreId(types, ids);
      BeforeSnoc(ids, types[ids[last]].target);
      assert ids[last] in types.Keys - Before(ids, last);
      path := SizePathExists(types, ids + [types[ids[last]].target]);
    }
  }

  lemma PathOf(types: Table, id: int) returns (path: seq<int>)
    ensures SizePath(types, path) && IsEnd(types, path) && path[0] == id
  {
    path := SizePathExists(types, [id]);
  }

  /**
   An argument that is no pointer is captured whole up to 8 bytes; if its type has no size, as
   many bytes are taken as the name of the type suggests.
   */
  lemma BytesOfArg(types: Table, id: int, maxCapture: nat)
    requires !DescribeArg(types, id, maxCapture).isPointer
    ensures var spec, size := DescribeArg(types, id, maxCapture), ResolveSize(types, id, {});
            && (0 < size <= 8 ==> spec.numBytes == size)
            && (size > 8 ==> spec.numBytes == 8)
            && (size == 0 ==> spec.numBytes == ScalarSize(spec.cType))
  {
  }

  /** So an argument that is an integer, enumeration, structure or union in the end takes that size, up to 8. */
  lemma SizedArg(types: Table, ids: seq<int>, maxCapture: nat)
    requires SizePath(types, ids) && IsEnd(types, ids) && !DescribeArg(types, ids[0], maxCapture).isPointer
    requires var last := |ids| - 1; ids[last] != 0 && ids[last] !in Before(ids, last) && ids[last] in types
    requires var d := types[ids[|ids| - 1]];
             (d.kind.Int? || d.kind.Enum? || d.kind.Struct? || d.kind.Union?) && d.size > 0
    ensures var size := types[ids[|ids| - 1]].size;
            DescribeArg(types, ids[0], maxCapture).numBytes == if size < 8 then size else 8
  {
    SizeIsAtTheEnd(types, ids);
    BytesOfArg(types, ids[0], maxCapture);
  }

  // ----- sizes by name -----

  /** A text contains every character of what it contains. */
  lemma ContainsChar(s: string, part: string, k: nat) returns (i: nat)
    requires Contains(s, part) && k < |part|
    ensures i < |s| && s[i] == part[k]
  {
    var at :| 0 <= at <= |s| && part <= s[at..];
    assert s[at..][k] == part[k];
    i := at + k;
  }

  lemma ContainsAt(a: string, part: string, b: string)
    ensures Contains(a + part + b, part)
  {
    var s := a + part + b;
    assert s[|a|..] == part + b;
    assert part <= s[|a|..];
  }

  /** No character of `s` is the one that `part` has at `k`. */
  predicate Lacks(s: string, part: string, k: nat)
    requires k < |part|
  {
    forall i :: 0 <= i < |s| ==> s[i] != part[k]
  }

  lemma LacksIsNotContained(s: string, part: string, k: nat)
    requires k < |part| && Lacks(s, part, k)
    ensures !Contains(s, part)
  {
    if Contains(s, part) {
      var i := ContainsChar(s, part, k);
    }
  }

  /** Single bytes. */
  lemma ByteSizes()
    ensures ScalarSize("char") == ScalarSize("signed char") == ScalarSize("unsigned char") == 1
    ensures ScalarSize("bool") == ScalarSize("_Bool") == 1
  {
  }

  /** Short integers, however they go on. */
  lemma ShortSize(rest: string)
    ensures ScalarSize("short" + rest) == 2
  {
    assert ("short" + rest)[0] == 's' && ("short" + rest)[1] == 'h';
    assert "" + "short" + rest == "short" + rest;
    ContainsAt("", "short", rest);
  }

  /** Long integers, unless the rest makes them short. */
  lemma LongSize(rest: string)
    requires !Contains("long" + rest, "short")
    ensures ScalarSize("long" + rest) == 8
  {
    assert ("long" + rest)[0] == 'l';
    assert "" + "long" + rest == "long" + rest;
    ContainsAt("", "long", rest);
  }

  /** Floating-point numbers. */
  lemma FloatSizes()
    ensures ScalarSize("float") == 4 && ScalarSize("double") == 8
  {
    LacksIsNotContained("float", "short", 1);
    LacksIsNotContained("double", "short", 1);
  }

  /** Plain integers. */
  lemma IntSize()
    ensures ScalarSize("int") == 4
  {
    LacksIsNotContained("int", "short", 1);
    NoLong("int");
    ContainsAt("", "int", "");
    assert "" + "int" + "" == "int";
  }

  lemma UnsignedIntSize()
    ensures ScalarSize("unsigned int") == 4
  {
    LacksIsNotContained("unsigned int", "short", 1);
    NoLong("unsigned int");
    ContainsAt("unsigned ", "int", "");
    assert "unsigned " + "int" + "" == "unsigned int";
  }

  lemma NoLong(s: string)
    requires forall i :: 0 <= i < |s| ==> s[i] != 'l'
    ensures !Contains(s, "long") && !Contains(s, "long long") && !Contains(s, "long double")
  {
    LacksIsNotContained(s, "long", 0);
    LacksIsNotContained(s, "long long", 0);
    LacksIsNotContained(s, "long double", 0);
  }

  /** Whatever else a type is called, it is taken to fill a word of 8 bytes. */
  lemma OtherSize(c: string)
    requires c != "_Bool" && c != "bool" && c != "char" && c != "signed char" && c != "unsigned char" && c != "float"
    requires !Contains(c, "short") && !Contains(c, "int")
    ensures ScalarSize(c) == 8
  {
  }
}
