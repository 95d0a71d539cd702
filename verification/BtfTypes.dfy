/**
 Naming and sizing argument types from a BTF type table.

 A table maps ids to type definitions that point at other ids; tables come from an external
 dump and may be cyclic or dangling.  Both resolvers carry the set of ids already seen.
 */
module BtfTypes {
  import opened Text

  datatype Kind = Int | Enum | Struct | Union | Typedef | Const | Volatile | Restrict | Ptr | Array | Fwd | Other

  datatype TypeDef = TypeDef(kind: Kind, name: string, target: int, size: nat) {
    /** Looked through when a type is named. */
    predicate Transparent() {
      kind.Const? || kind.Volatile? || kind.Restrict? || (kind.Typedef? && name == "")
    }

    /** Looked through when a type is sized: a named typedef too. */
    predicate SizeTransparent() {
      kind.Const? || kind.Volatile? || kind.Restrict? || kind.Typedef?
    }

    predicate IsPointer() { kind.Ptr? || kind.Array? }

    /** Its printed name contains a star. */
    predicate Starred() { IsPointer() || HasStar(name) }
  }

  type Table = map<int, TypeDef>

  function ResolveName(types: Table, id: int, seen: set<int>): string
    decreases types.Keys - seen
  {
    if id == 0 || id in seen then "void"
    else if id !in types then "unsigned long long"
    else
      var d, seen' := types[id], seen + {id};
      assert id in types.Keys - seen;
      match d.kind
      case Int => if d.name == "" then "int" else d.name
      case Enum => if d.name == "" then "int" else d.name
      case Struct => if d.name == "" then "struct" else "struct " + d.name
      case Union => if d.name == "" then "union" else "union " + d.name
      case Typedef => if d.name == "" then ResolveName(types, d.target, seen') else d.name
      case Const => "const " + ResolveName(types, d.target, seen')
      case Volatile => ResolveName(types, d.target, seen')
      case Restrict => ResolveName(types, d.target, seen')
      case Ptr => NormalizeSpaces(ResolveName(types, d.target, seen') + " *")
      case Array => NormalizeSpaces(ResolveName(types, d.target, seen') + " *")
      case Fwd => if d.name == "" then "struct" else "struct " + d.name
      case Other => if d.name == "" then "unsigned long long" else d.name
  }

  function ResolveSize(types: Table, id: int, seen: set<int>): nat
    decreases types.Keys - seen
  {
    if id == 0 || id in seen then 0
    else if id !in types then 8
    else
      var d := types[id];
      assert id in types.Keys - seen;
      match d.kind
      case Ptr => 8
      case Array => 8
      case Int => d.size
      case Enum => d.size
      case Struct => d.size
      case Union => d.size
      case Typedef => ResolveSize(types, d.target, seen + {id})
      case Const => ResolveSize(types, d.target, seen + {id})
      case Volatile => ResolveSize(types, d.target, seen + {id})
      case Restrict => ResolveSize(types, d.target, seen + {id})
      case _ => if d.size > 0 then d.size else 8
  }

  // ----- the resolvers -----

  /** The caller's set of type ids, shared by the whole recursion. */
  class SeenIds {
    var ids: set<int>

    constructor ()
      ensures ids == {}
    {
      ids := {};
    }

    /** Adds `id`; false if it was there already. */
    method Insert(id: int) returns (added: bool)
      modifies this
      ensures added <==> id !in old(ids)
      ensures ids == old(ids) + {id}
    {
      added := id !in ids;
      ids := ids + {id};
    }
  }

  /** The printed name of type `id`, on any table, cyclic or dangling. */
  method ResolveBtfTypeName(types: Table, id: int, seen: SeenIds) returns (name: string)
    modifies seen
    ensures name == ResolveName(types, id, old(seen.ids))
    ensures old(seen.ids) <= seen.ids
    decreases types.Keys - seen.ids
  {
    if id == 0 { return "void"; }
    var added := seen.Insert(id);
    if !added { return "void"; }
    if id !in types { return "unsigned long long"; }
    var d := types[id];
    assert id in types.Keys - old(seen.ids);
    if d.kind.Int? || d.kind.Enum? { return if d.name == "" then "int" else d.name; }
    if d.kind.Struct? { return if d.name == "" then "struct" else "struct " + d.name; }
    if d.kind.Union? { return if d.name == "" then "union" else "union " + d.name; }
    if d.kind.Typedef? && d.name != "" { return d.name; }
    if d.kind.Fwd? { return if d.name == "" then "struct" else "struct " + d.name; }
    if d.kind.Other? { return if d.name == "" then "unsigned long long" else d.name; }
    name := ResolveBtfTypeName(types, d.target, seen);
    if d.kind.Const? { name := "const " + name; }
    if d.kind.Ptr? || d.kind.Array? { name := NormalizeSpaces(name + " *"); }
  }

  /** The size of type `id`, on any table, cyclic or dangling; zero if it has none. */
  method ResolveBtfTypeSize(types: Table, id: int, seen: SeenIds) returns (size: nat)
    modifies seen
    ensures size == ResolveSize(types, id, old(seen.ids))
    decreases types.Keys - seen.ids
  {
    if id == 0 { return 0; }
    var added := seen.Insert(id);
    if !added { return 0; }
    if id !in types { return 8; }
    var d := types[id];
    assert id in types.Keys - old(seen.ids);
    if d.kind.Ptr? || d.kind.Array? { return 8; }
    if d.kind.Int? || d.kind.Enum? || d.kind.Struct? || d.kind.Union? { return d.size; }
    if d.kind.Typedef? || d.kind.Const? || d.kind.Volatile? || d.kind.Restrict? {
      size := ResolveBtfTypeSize(types, d.target, seen);
      return;
    }
    return if d.size > 0 then d.size else 8;
  }

  // ----- pointer classification -----

  /** `ids` is the walk from its first to its last id through transparent types to one that is not. */
  ghost predicate Walk(types: Table, ids: seq<int>) {
    && ids != []
    && (forall k :: 0 <= k < |ids| ==> ids[k] != 0 && ids[k] in types)
    && (forall k :: 0 <= k < |ids| - 1 ==> types[ids[k]].Transparent() && types[ids[k]].target == ids[k + 1])
    && !types[ids[|ids| - 1]].Transparent()
  }

  /** A walk visits no id twice: it would then go round for ever. */
  lemma {:induction false} WalkIsSimple(types: Table, ids: seq<int>, a: nat, b: nat)
    requires Walk(types, ids) && a < b < |ids|
    ensures ids[a] != ids[b]
    decreases |ids| - b
  {
    if ids[a] == ids[b] && b + 1 < |ids| {
      assert types[ids[a]].target == ids[a + 1] && types[ids[b]].target == ids[b + 1];
      WalkIsSimple(types, ids, a + 1, b + 1);
    }
  }

  /** A walk that avoids `seen` decides whether the printed name has a star. */
  lemma {:induction false} WalkDecidesStar(types: Table, ids: seq<int>, seen: set<int>)
    requires Walk(types, ids) && forall k :: 0 <= k < |ids| ==> ids[k] !in seen
    ensures HasStar(ResolveName(types, ids[0], seen)) <==> types[ids[|ids| - 1]].Starred()
    decreases |ids|
  {
    var d, seen' := types[ids[0]], seen + {ids[0]};
    if d.Transparent() {
      var rest := ids[1..];
      assert |ids| > 1;
      forall k | 0 <= k < |rest|
        ensures rest[k] !in seen'
      {
        WalkIsSimple(types, ids, 0, k + 1);
      }
      assert rest[|rest| - 1] == ids[|ids| - 1];
      WalkDecidesStar(types, rest, seen');
      StarConcat("const ", ResolveName(types, d.target, seen'));
    } else {
      LeafStar(types, ids[0], seen);
    }
  }

  lemma LeafStar(types: Table, id: int, seen: set<int>)
    requires id != 0 && id !in seen && id in types && !types[id].Transparent()
    ensures HasStar(ResolveName(types, id, seen)) <==> types[id].Starred()
  {
    var d := types[id];
    StarConcat("struct ", d.name);
    StarConcat("union ", d.name);
    if d.IsPointer() {
      var pointee := ResolveName(types, d.target, seen + {id});
      StarConcat(pointee, " *");
      assert " *"[1] == '*';
      NormalizeKeepsStars(pointee + " *");
    }
  }

  /** A starred name is always reached by such a walk. */
  lemma {:induction false} StarHasWalk(types: Table, id: int, seen: set<int>) returns (ids: seq<int>)
    requires HasStar(ResolveName(types, id, seen))
    ensures Walk(types, ids) && ids[0] == id && types[ids[|ids| - 1]].Starred()
    decreases types.Keys - seen
  {
    var d := types[id];
    assert id in types.Keys - seen;
    if d.Transparent() {
      StarConcat("const ", ResolveName(types, d.target, seen + {id}));
      var rest := StarHasWalk(types, d.target, seen + {id});
      ids := [id] + rest;
    } else {
      LeafStar(types, id, seen);
      ids := [id];
    }
  }

  /** The printed name of a type has a star exactly when its walk ends at a pointer, an array or a starred name. */
  lemma NameHasStarIff(types: Table, id: int)
    ensures HasStar(ResolveName(types, id, {})) <==>
            exists ids :: Walk(types, ids) && ids[0] == id && types[ids[|ids| - 1]].Starred()
  {
    if HasStar(ResolveName(types, id, {})) {
      var ids := StarHasWalk(types, id, {});
    }
    if ids :| Walk(types, ids) && ids[0] == id && types[ids[|ids| - 1]].Starred() {
      WalkDecidesStar(types, ids, {});
    }
  }

  /** The walk of a pointer type also leads the size resolver to 8 bytes. */
  lemma {:induction false} PointerWalkSize(types: Table, ids: seq<int>, seen: set<int>)
    requires Walk(types, ids) && types[ids[|ids| - 1]].IsPointer()
    requires forall k :: 0 <= k < |ids| ==> ids[k] !in seen
    ensures ResolveSize(types, ids[0], seen) == 8
    decreases |ids|
  {
    if |ids| > 1 {
      var rest := ids[1..];
      forall k | 0 <= k < |rest|
        ensures rest[k] !in seen + {ids[0]}
      {
        WalkIsSimple(types, ids, 0, k + 1);
      }
      assert rest[|rest| - 1] == ids[|ids| - 1];
      PointerWalkSize(types, rest, seen + {ids[0]});
    }
  }

  // ----- argument descriptions -----

  datatype ArgSpec = ArgSpec(cType: string, isPointer: bool, numBytes: nat)

  ghost predicate Contains(s: string, part: string) {
    exists i {:trigger s[i..]} :: 0 <= i <= |s| && part <= s[i..]
  }

  ghost function ScalarSize(cType: string): (n: nat)
    ensures n == 1 || n == 2 || n == 4 || n == 8
  {
    if cType == "_Bool" || cType == "bool" || cType == "char" || cType == "signed char"
       || cType == "unsigned char" then 1
    else if Contains(cType, "short") then 2
    else if cType == "float" then 4
    else if cType == "double" || Contains(cType, "long double") || Contains(cType, "long long")
            || Contains(cType, "long") then 8
    else if Contains(cType, "int") then 4
    else 8
  }

  /** The description of an argument of type `id`; `maxCapture` bytes are captured of a string. */
  ghost function DescribeArg(types: Table, id: int, maxCapture: nat): ArgSpec {
    var cType := NormalizeSpaces(NormalizeSpaces(ResolveName(types, id, {})));
    var isPointer := HasStar(NormalizeSpaces(ResolveName(types, id, {})));
    var numBytes := ResolveSize(types, id, {});
    if isPointer then ArgSpec(cType, true, if Contains(cType, "char *") then maxCapture else 8)
    else
      var size := if numBytes > 0 then numBytes else ScalarSize(cType);
      ArgSpec(cType, false, if size < 8 then size else 8)
  }

  /** No type name in the table contains a star. */
  ghost predicate StarFree(types: Table) {
    forall id :: id in types ==> !HasStar(types[id].name)
  }

  /**
   With star-free type names, on any table, an argument is taken for a pointer exactly when
   its walk reaches a pointer or array type; its size then resolves to 8.  Every other
   argument takes between 1 and 8 bytes.
   */
  lemma PointerArgs(types: Table, id: int, maxCapture: nat)
    requires StarFree(types)
    ensures var spec := DescribeArg(types, id, maxCapture);
            && (spec.isPointer <==> exists ids :: Walk(types, ids) && ids[0] == id && types[ids[|ids| - 1]].IsPointer())
            && (spec.isPointer ==> ResolveSize(types, id, {}) == 8)
            && (!spec.isPointer ==> 1 <= spec.numBytes <= 8)
  {
    NormalizeKeepsStars(ResolveName(types, id, {}));
    NameHasStarIff(types, id);
    if DescribeArg(types, id, maxCapture).isPointer {
      var ids :| Walk(types, ids) && ids[0] == id && types[ids[|ids| - 1]].Starred();
      assert types[ids[|ids| - 1]].IsPointer();
      PointerWalkSize(types, ids, {});
    }
    if ids :| Walk(types, ids) && ids[0] == id && types[ids[|ids| - 1]].IsPointer() {
      assert types[ids[|ids| - 1]].Starred();
    }
  }
}
