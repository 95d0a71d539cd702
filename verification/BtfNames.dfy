/**
 How types are named and arguments described, in terms of where a type's walk ends.
 */
module BtfNames {
  import opened Common
  import opened Text
  import opened TextWords
  import opened BtfTypes
  import opened BtfSizes

  /** `ids` goes through qualifiers and typedefs without a name, each id but perhaps the last for the first time. */
  ghost predicate NamePath(types: Table, ids: seq<int>) {
    && ids != []
    && (forall k {:trigger ids[k]} :: 0 <= k < |ids| - 1 ==>
          ids[k] != 0 && ids[k] in types && types[ids[k]].Transparent() && types[ids[k]].target == ids[k + 1])
    && forall a, b :: 0 <= a < b < |ids| - 1 ==> ids[a] != ids[b]
  }

  /** One "const " for each CONST that the path passes from its `i`-th type on. */
  ghost function Consts(types: Table, ids: seq<int>, i: nat): string
    requires i < |ids| && NamePath(types, ids)
    decreases |ids| - i
  {
    if i == |ids| - 1 then "" else ConstOf(types[ids[i]]) + Consts(types, ids, i + 1)
  }

  function ConstOf(d: TypeDef): string { if d.kind.Const? then "const " else "" }

  lemma NameStep(types: Table, ids: seq<int>, i: nat)
    requires NamePath(types, ids) && i < |ids| - 1
    ensures ResolveName(types, ids[i], Before(ids, i))
         == ConstOf(types[ids[i]]) + ResolveName(types, ids[i + 1], Before(ids, i + 1))
  {
    assert ids[i] !in Before(ids, i);
    assert Before(ids, i + 1) == Before(ids, i) + {ids[i]};
    assert types[ids[i]].Transparent() && types[ids[i]].target == ids[i + 1];
    var rest := ResolveName(types, ids[i + 1], Before(ids, i + 1));
    assert "" + rest == rest;
  }

  /** Along a path the name is that of the type at the end, with a "const " for each CONST passed. */
  lemma {:induction false} NameAlongPath(types: Table, ids: seq<int>, i: nat)
    requires NamePath(types, ids) && i < |ids|
    ensures ResolveName(types, ids[i], Before(ids, i))
         == Consts(types, ids, i) + ResolveName(types, ids[|ids| - 1], Before(ids, |ids| - 1))
    decreases |ids| - i
  {
    var end := ResolveName(types, ids[|ids| - 1], Before(ids, |ids| - 1));
    if i < |ids| - 1 {
      Regroup(ConstOf(types[ids[i]]), Consts(types, ids, i + 1), end);
      NameAlongPath(types, ids, i + 1);
      NameStep(types, ids, i);
    } else {
      assert "" + end == end;
    }
  }

  /** What a type that is looked through no further, and is no pointer, is called. */
  ghost predicate IsCalled(d: TypeDef, name: string) {
    && (d.kind.Int? || d.kind.Enum? ==> name == if d.name == "" then "int" else d.name)
    && (d.kind.Typedef? ==> d.name != "" && name == d.name)
    && (d.kind.Struct? || d.kind.Fwd? ==> name == if d.name == "" then "struct" else "struct " + d.name)
    && (d.kind.Union? ==> name == if d.name == "" then "union" else "union " + d.name)
    && (d.kind.Other? ==> name == if d.name == "" then "unsigned long long" else d.name)
    && d.kind != Const && d.kind != Volatile && d.kind != Restrict
  }

  /**
   What an argument type is called: "const " for each CONST its path passes, and then the name of
   what is at its end; a path that comes to no type or goes round ends at "void", and one that
   comes to a missing type at "unsigned long long".
   */
  lemma NameIsAtTheEnd(types: Table, ids: seq<int>)
    requires NamePath(types, ids)
    ensures var last := |ids| - 1;
            var end, name := ids[last], ResolveName(types, ids[0], {});
            if end == 0 || end in Before(ids, last) then name == Consts(types, ids, 0) + "void"
            else if end !in types then name == Consts(types, ids, 0) + "unsigned long long"
            else types[end].Transparent() || types[end].IsPointer()
                 || exists s :: IsCalled(types[end], s) && name == Consts(types, ids, 0) + s
  {
    var last := |ids| - 1;
    NameAlongPath(types, ids, 0);
    assert Before(ids, 0) == {};
    if ids[last] != 0 && ids[last] in types && ids[last] !in Before(ids, last)
       && !types[ids[last]].Transparent() && !types[ids[last]].IsPointer() {
      assert IsCalled(types[ids[last]], ResolveName(types, ids[last], Before(ids, last)));
    }
  }

  /** Every type has such a path to where it is looked through no further. */
  lemma {:induction false} NamePathExists(types: Table, ids: seq<int>) returns (path: seq<int>)
    requires NamePath(types, ids)
    ensures NamePath(types, path) && IsNameEnd(types, path) && path[0] == ids[0]
    decreases types.Keys - Before(ids, |ids| - 1)
  {
    if IsNameEnd(types, ids) {
      path := ids;
    } else {
      var last := |ids| - 1;
      OneMoreName(types, ids);
      BeforeSnoc(ids, types[ids[last]].target);
      assert ids[last] in types.Keys - Before(ids, last);
      path := NamePathExists(types, ids + [types[ids[last]].target]);
    }
  }

  predicate IsNameEnd(types: Table, ids: seq<int>)
    requires ids != []
  {
    var last := |ids| - 1;
    ids[last] == 0 || ids[last] in Before(ids, last) || ids[last] !in types || !types[ids[last]].Transparent()
  }

  lemma OneMoreName(types: Table, ids: seq<int>)
    requires NamePath(types, ids) && !IsNameEnd(types, ids)
    ensures NamePath(types, ids + [types[ids[|ids| - 1]].target])
  {
    var last := |ids| - 1;
    var more := ids + [types[ids[last]].target];
    assert forall a :: 0 <= a < last ==> ids[a] in Before(ids, last);
    forall k {:trigger more[k]} | 0 <= k < |more| - 1
      ensures more[k] != 0 && more[k] in types && types[more[k]].Transparent()
              && types[more[k]].target == more[k + 1]
    {
      assert more[k] == ids[k] && (k < last ==> more[k + 1] == ids[k + 1]);
    }
    forall a, b | 0 <= a < b < |more| - 1
      ensures more[a] != more[b]
    {
      assert more[a] == ids[a] && more[b] == ids[b];
    }
  }

  /** A pointer is called what it points to is called, and a star after a space. */
  lemma NameOfPointer(types: Table, id: int, seen: set<int>)
    requires id != 0 && id !in seen && id in types && types[id].IsPointer()
    requires var pointee := ResolveName(types, types[id].target, seen + {id}); pointee != "" && Tidy(pointee)
    ensures ResolveName(types, id, seen) == ResolveName(types, types[id].target, seen + {id}) + " *"
  {
    StarIsTidy(ResolveName(types, types[id].target, seen + {id}));
    TidyStays(ResolveName(types, types[id].target, seen + {id}) + " *");
  }

  lemma {:induction false} StarIsTidy(s: string)
    requires s != "" && Tidy(s)
    ensures Tidy(s + " *")
  {
    SingleThen(s, " *");
    assert (s + " *")[0] == s[0] && (s + " *")[|s| + 1] == '*';
  }

  lemma {:induction false} SingleThen(s: string, t: string)
    requires Single(s) && Single(t) && s != "" && !IsSpace(s[|s| - 1])
    ensures Single(s + t)
  {
    if |s| == 1 {
      assert (s + t)[1..] == t;
    } else {
      SingleThen(s[1..], t);
      assert (s + t)[1..] == s[1..] + t;
    }
  }

  /**
   A pointer to a named type without blanks at its ends is described as such, with 8 bytes, or as
   many as are captured of a string if the name ends in "char".
   */
  lemma PointerToNamed(types: Table, id: int, maxCapture: nat)
    requires id != 0 && id in types && types[id].IsPointer()
    requires var t := types[id].target; t != 0 && t != id && t in types && types[t].kind.Int?
    requires var n := types[types[id].target].name; n != "" && Tidy(n) && !HasStar(n)
    ensures var n := types[types[id].target].name;
            && (Contains(n + " *", "char *") ==>
                DescribeArg(types, id, maxCapture) == ArgSpec(n + " *", true, maxCapture))
            && (!Contains(n + " *", "char *") ==> DescribeArg(types, id, maxCapture) == ArgSpec(n + " *", true, 8))
  {
    var n := types[types[id].target].name;
    NameOfPointer(types, id, {});
    StarIsTidy(n);
    TidyStays(n + " *");
    assert (n + " *")[|n| + 1] == '*';
  }

  /** Strings are told from other pointers by the end of the name. */
  lemma CharStarIff(n: string)
    requires !HasStar(n)
    ensures Contains(n + " *", "char *") <==> |n| >= 4 && n[|n| - 4..] == "char"
  {
    var s := n + " *";
    if |n| >= 4 && n[|n| - 4..] == "char" {
      assert s == n[..|n| - 4] + "char *" + "";
      ContainsAt(n[..|n| - 4], "char *", "");
    }
    if i :| 0 <= i <= |s| && "char *" <= s[i..] {
      assert s[i..][5] == '*' && s[i + 5] == '*';
      assert i + 5 == |n| + 1;
      assert s[i..][..4] == "char";
      assert n[|n| - 4..] == s[i..][..4];
    }
  }
}
