/**
 Splitting the text between the parentheses of a C prototype into its arguments.
 */
module ArgumentList {
  import opened Common
  import opened Text

  /** The scanner after some prefix: finished pieces, the one in progress, open parentheses. */
  datatype Scan = Scan(pieces: seq<string>, current: string, depth: int)

  function Bump(depth: int, ch: char): int {
    if ch == '(' then depth + 1 else if ch == ')' then depth - 1 else depth
  }

  function Advance(st: Scan, ch: char): Scan {
    var depth := Bump(st.depth, ch);
    if ch == ',' && depth == 0 then Scan(st.pieces + [st.current], "", depth)
    else Scan(st.pieces, st.current + [ch], depth)
  }

  function ScanOf(s: string): Scan {
    if s == "" then Scan([], "", 0) else Advance(ScanOf(s[..|s| - 1]), s[|s| - 1])
  }

  /** The text between the commas at depth zero. */
  function Pieces(s: string): (pieces: seq<string>)
    ensures pieces != []
  {
    ScanOf(s).pieces + [ScanOf(s).current]
  }

  function TrimAll(pieces: seq<string>): seq<string> {
    seq(|pieces|, i requires 0 <= i < |pieces| => Trim(pieces[i]))
  }

  /** The pieces trimmed; a last piece that is blank is no argument. */
  function Arguments(pieces: seq<string>): seq<string>
    requires pieces != []
  {
    var last := |pieces| - 1;
    TrimAll(if Trim(pieces[last]) == "" then pieces[..last] else pieces)
  }

  function Split(s: string): seq<string> { Arguments(Pieces(s)) }

  method SplitArguments(argList: string) returns (arguments: seq<string>)
    ensures arguments == Split(argList)
  {
    arguments := [];
    var current, depth := "", 0;
    ghost var pieces := [];
    for i := 0 to |argList|
      invariant ScanOf(argList[..i]) == Scan(pieces, current, depth) && arguments == TrimAll(pieces)
    {
      var ch := argList[i];
      assert argList[..i + 1][..i] == argList[..i];
      if ch == '(' { depth := depth + 1; }
      if ch == ')' { depth := depth - 1; }
      if ch == ',' && depth == 0 {
        TrimAllSnoc(pieces, current);
        arguments := arguments + [Trim(current)];
        pieces := pieces + [current];
        current := "";
        continue;
      }
      current := current + [ch];
    }
    assert argList[..|argList|] == argList;
    assert (pieces + [current])[..|pieces|] == pieces;
    TrimAllSnoc(pieces, current);
    if Trim(current) != "" {
      arguments := arguments + [Trim(current)];
    }
  }

  lemma TrimAllSnoc(pieces: seq<string>, piece: string)
    ensures TrimAll(pieces + [piece]) == TrimAll(pieces) + [Trim(piece)]
  {
  }

  // ----- the pieces of any text -----

  /** Opening minus closing parentheses. */
  function Net(s: string): int {
    if s == "" then 0 else Bump(Net(s[..|s| - 1]), s[|s| - 1])
  }

  /** No comma lies at depth zero. */
  predicate CommasInside(s: string) {
    s == "" || (CommasInside(s[..|s| - 1]) && !(s[|s| - 1] == ',' && Net(s[..|s| - 1]) == 0))
  }

  /** Parentheses balance overall and every comma lies inside some. */
  predicate Closed(s: string) {
    Net(s) == 0 && CommasInside(s)
  }

  /** What splitting at commas gives: all pieces but the last are closed, and the last has no comma at depth zero. */
  ghost predicate ArePieces(pieces: seq<string>) {
    && pieces != []
    && CommasInside(pieces[|pieces| - 1])
    && forall i {:trigger pieces[i]} :: 0 <= i < |pieces| - 1 ==> Closed(pieces[i])
  }

  function Join(pieces: seq<string>, separator: string): string
    requires pieces != []
  {
    if |pieces| == 1 then pieces[0]
    else Join(pieces[..|pieces| - 1], separator) + separator + pieces[|pieces| - 1]
  }

  lemma {:induction false} NetSnoc(s: string, ch: char)
    ensures Net(s + [ch]) == Bump(Net(s), ch)
    ensures CommasInside(s + [ch]) <==> CommasInside(s) && !(ch == ',' && Net(s) == 0)
  {
    assert (s + [ch])[..|s|] == s;
  }

  lemma JoinSnoc(pieces: seq<string>, piece: string, separator: string)
    requires pieces != []
    ensures Join(pieces + [piece], separator) == Join(pieces, separator) + separator + piece
  {
    assert (pieces + [piece])[..|pieces|] == pieces;
  }

  /** The piece in progress, extended by one character. */
  lemma JoinExtend(pieces: seq<string>, current: string, ch: char, separator: string)
    ensures Join(pieces + [current + [ch]], separator) == Join(pieces + [current], separator) + [ch]
  {
    if pieces != [] {
      JoinSnoc(pieces, current, separator);
      JoinSnoc(pieces, current + [ch], separator);
      Regroup(Join(pieces, separator) + separator, current, [ch]);
    }
  }

  /** The scanner has cut `s`. */
  ghost predicate Cuts(st: Scan, s: string) {
    var pieces := st.pieces + [st.current];
    ArePieces(pieces) && Join(pieces, ",") == s && st.depth == Net(st.current)
  }

  lemma CutsStep(st: Scan, s: string, ch: char)
    requires Cuts(st, s)
    ensures Cuts(Advance(st, ch), s + [ch])
  {
    var pieces, r := st.pieces + [st.current], Advance(st, ch);
    NetSnoc(st.current, ch);
    assert pieces[|st.pieces|] == st.current;
    if ch == ',' && r.depth == 0 {
      JoinSnoc(pieces, "", ",");
      assert Join(pieces, ",") + "," + "" == Join(pieces, ",") + [ch];
    } else {
      JoinExtend(st.pieces, st.current, ch, ",");
      assert forall i :: 0 <= i < |st.pieces| ==> pieces[i] == st.pieces[i];
    }
  }

  lemma {:induction false} ScanCuts(s: string)
    ensures Cuts(ScanOf(s), s)
  {
    if s != "" {
      var front, ch := s[..|s| - 1], s[|s| - 1];
      ScanCuts(front);
      CutsStep(ScanOf(front), front, ch);
      assert front + [ch] == s;
    }
  }

  /** For every text: its pieces, joined by commas, give it back, and no comma at depth zero is left in one. */
  lemma PiecesJoin(s: string)
    ensures ArePieces(Pieces(s)) && Join(Pieces(s), ",") == s
  {
    ScanCuts(s);
  }

  // ----- splitting undoes joining -----

  lemma {:induction false} ScanSnoc(a: string, ch: char)
    ensures ScanOf(a + [ch]) == Advance(ScanOf(a), ch)
  {
    assert (a + [ch])[..|a|] == a;
  }

  lemma AppendSnoc(a: string, s: string)
    requires s != ""
    ensures var front, last := s[..|s| - 1], s[|s| - 1];
            a + s == a + front + [last] && s == front + [last]
  {
  }

  /** A closed piece, started at depth zero, is taken up whole. */
  lemma {:induction false} ScanPiece(a: string, args: seq<string>, piece: string)
    requires ScanOf(a) == Scan(args, "", 0)
    requires CommasInside(piece)
    ensures ScanOf(a + piece) == Scan(args, piece, Net(piece))
  {
    if piece == "" {
      assert a + piece == a;
    } else {
      var front, last := piece[..|piece| - 1], piece[|piece| - 1];
      ScanPiece(a, args, front);
      ScanSnoc(a + front, last);
      AppendSnoc(a, piece);
    }
  }

  lemma {:induction false} ScanJoin(pieces: seq<string>)
    requires ArePieces(pieces)
    ensures var last := |pieces| - 1;
            ScanOf(Join(pieces, ",")) == Scan(pieces[..last], pieces[last], Net(pieces[last]))
  {
    var last := |pieces| - 1;
    if last == 0 {
      ScanPiece("", [], pieces[0]);
      assert "" + pieces[0] == pieces[0];
      assert pieces[..0] == [];
    } else {
      var front := pieces[..last];
      assert Closed(pieces[last - 1]);
      ScanJoin(front);
      ScanSnoc(Join(front, ","), ',');
      assert front[..last - 1] + [front[last - 1]] == front;
      ScanPiece(Join(front, ",") + ",", front, pieces[last]);
    }
  }

  /** There is only one way to cut a text into pieces: splitting finds those it was joined from. */
  lemma PiecesOfJoin(pieces: seq<string>)
    requires ArePieces(pieces)
    ensures Pieces(Join(pieces, ",")) == pieces
  {
    ScanJoin(pieces);
  }

  /** A well-formed argument: closed, trimmed and not empty. */
  ghost predicate IsArgument(s: string) {
    Closed(s) && Trim(s) == s && s != ""
  }

  /** So splitting a text joined from pieces gives each piece trimmed, except that a blank last one is dropped. */
  lemma SplitOfJoin(pieces: seq<string>)
    requires ArePieces(pieces)
    ensures var last := |pieces| - 1;
            Split(Join(pieces, ",")) == TrimAll(if Trim(pieces[last]) == "" then pieces[..last] else pieces)
  {
    PiecesOfJoin(pieces);
  }

  lemma ArgumentsArePieces(arguments: seq<string>)
    requires arguments != [] && forall i :: 0 <= i < |arguments| ==> IsArgument(arguments[i])
    ensures ArePieces(arguments) && Trim(arguments[|arguments| - 1]) != ""
  {
    assert IsArgument(arguments[|arguments| - 1]);
  }

  lemma TrimmedStay(pieces: seq<string>)
    requires forall i :: 0 <= i < |pieces| ==> IsArgument(pieces[i])
    ensures TrimAll(pieces) == pieces
  {
    forall i | 0 <= i < |pieces|
      ensures TrimAll(pieces)[i] == pieces[i]
    {
      assert IsArgument(pieces[i]);
    }
  }

  /** Splitting inverts joining, with or without a space after the comma. */
  lemma SplitInvertsJoin(arguments: seq<string>)
    requires arguments != [] && forall i :: 0 <= i < |arguments| ==> IsArgument(arguments[i])
    ensures Split(Join(arguments, ",")) == arguments
    ensures Split(Join(arguments, ", ")) == arguments
  {
    ArgumentsArePieces(arguments);
    TrimmedStay(arguments);
    SplitOfJoin(arguments);
    JoinSpaced(arguments);
    SpacedArguments(arguments);
    SplitOfJoin(Spaced(arguments));
  }

  lemma SpacedArguments(arguments: seq<string>)
    requires arguments != [] && forall i :: 0 <= i < |arguments| ==> IsArgument(arguments[i])
    ensures var spaced := Spaced(arguments);
            && ArePieces(spaced)
            && TrimAll(spaced) == arguments && Trim(spaced[|spaced| - 1]) != ""
  {
    var spaced := Spaced(arguments);
    forall i | 0 <= i < |spaced|
      ensures Closed(spaced[i]) && Trim(spaced[i]) == arguments[i]
    {
      if i > 0 {
        SpacedClosed(arguments[i]);
      }
    }
  }

  /** All arguments but the first, with a space in front. */
  function Spaced(arguments: seq<string>): seq<string> {
    seq(|arguments|, i requires 0 <= i < |arguments| => if i == 0 then arguments[0] else " " + arguments[i])
  }

  lemma CommaSpace(a: string, b: string)
    ensures a + ", " + b == a + "," + (" " + b)
  {
  }

  lemma {:induction false} JoinSpaced(arguments: seq<string>)
    requires arguments != []
    ensures Join(arguments, ", ") == Join(Spaced(arguments), ",")
  {
    var last := |arguments| - 1;
    if last > 0 {
      JoinSpaced(arguments[..last]);
      assert Spaced(arguments)[..last] == Spaced(arguments[..last]);
      CommaSpace(Join(arguments[..last], ", "), arguments[last]);
    }
  }

  lemma {:induction false} SpacedNet(s: string)
    ensures Net(" " + s) == Net(s) && (CommasInside(" " + s) <==> CommasInside(s))
  {
    if s == "" {
      assert (" " + s)[..0] == "";
    } else {
      SpacedNet(s[..|s| - 1]);
      assert (" " + s)[..|s|] == " " + s[..|s| - 1];
    }
  }

  lemma SpacedClosed(s: string)
    requires Closed(s)
    ensures Closed(" " + s) && Trim(" " + s) == Trim(s)
  {
    assert (" " + s)[1..] == s;
    SpacedNet(s);
  }
}
