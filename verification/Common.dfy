/** What several modules use. */
module Common {

  datatype Option<T> = None | Some(value: T)

  lemma Regroup<T>(a: seq<T>, b: seq<T>, c: seq<T>)
    ensures a + b + c == a + (b + c)
  {
  }

  // ----- texts joined at a separator -----

  /** The text `b` goes on, after a separator, where `a` ends, and `x` is the rest of it. */
  ghost predicate Overlap(a: string, x: string, b: string, y: string, separator: char) {
    exists r: string {:trigger r + [separator]} :: b == a + [separator] + r && x == r + [separator] + y
  }

  /** Two joined texts are the same exactly if their parts are, or one text is split at two different separators. */
  lemma JoinedSameIff(a: string, x: string, b: string, y: string, separator: char)
    ensures a + [separator] + x == b + [separator] + y <==>
            (a == b && x == y) || Overlap(a, x, b, y, separator) || Overlap(b, y, a, x, separator)
  {
    OverlapIff(a, x, b, y, separator);
    OverlapIff(b, y, a, x, separator);
    if a + [separator] + x == b + [separator] + y && |a| == |b| {
      JoinedParts(a, x, separator);
      JoinedParts(b, y, separator);
    }
  }

  lemma JoinedParts(a: string, x: string, separator: char)
    ensures var k := a + [separator] + x;
            k[..|a|] == a && k[|a|] == separator && k[|a| + 1..] == x
  {
  }

  lemma OverlapIff(a: string, x: string, b: string, y: string, separator: char)
    ensures Overlap(a, x, b, y, separator) <==> a + [separator] + x == b + [separator] + y && |a| < |b|
  {
    var s := [separator];
    if r: string :| b == a + s + r && x == r + s + y {
      assert a + s + (r + s + y) == a + s + r + s + y;
    }
    var k := a + s + x;
    if k == b + s + y && |a| < |b| {
      var r := b[|a| + 1..];
      JoinedParts(a, x, separator);
      JoinedParts(b, y, separator);
      assert b == k[..|a|] + [k[|a|]] + r;
      assert x == r + [k[|b|]] + y;
      assert r + s + y == x;
    }
  }
}
