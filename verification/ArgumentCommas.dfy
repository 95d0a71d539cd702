/**
 Which commas part two arguments: those before which as many parentheses have closed as opened.
 */
module ArgumentCommas {
  import opened Common
  import opened ArgumentList

  function CountOf(s: string, ch: char): nat {
    if s == "" then 0 else CountOf(s[..|s| - 1], ch) + if s[|s| - 1] == ch then 1 else 0
  }

  lemma {:induction false} CountConcat(a: string, b: string, ch: char)
    ensures CountOf(a + b, ch) == CountOf(a, ch) + CountOf(b, ch)
  {
    if b == "" {
      assert a + b == a;
    } else {
      CountConcat(a, b[..|b| - 1], ch);
      assert (a + b)[..|a + b| - 1] == a + b[..|b| - 1];
    }
  }

  /** As many parentheses have opened as closed. */
  predicate Balanced(s: string) {
    CountOf(s, '(') == CountOf(s, ')')
  }

  /** Nesting is opening minus closing parentheses, and nothing else. */
  lemma {:induction false} NetIsCounted(s: string)
    ensures Net(s) == CountOf(s, '(') - CountOf(s, ')')
  {
    if s != "" {
      NetIsCounted(s[..|s| - 1]);
    }
  }

  /** The scanner's depth counts from the start of the text: it is zero wherever a piece ends. */
  lemma {:induction false} DepthIsCounted(s: string)
    ensures ScanOf(s).depth == CountOf(s, '(') - CountOf(s, ')')
  {
    if s != "" {
      DepthIsCounted(s[..|s| - 1]);
    }
  }

  /** The number of commas before which parentheses are balanced. */
  function TopCommas(s: string): nat {
    if s == "" then 0 else
      var front := s[..|s| - 1];
      TopCommas(front) + if s[|s| - 1] == ',' && Balanced(front) then 1 else 0
  }

  /** There is one more piece than there are such commas. */
  lemma {:induction false} PieceCount(s: string)
    ensures |Pieces(s)| == TopCommas(s) + 1
  {
    if s != "" {
      PieceCount(s[..|s| - 1]);
      DepthIsCounted(s[..|s| - 1]);
    }
  }

  /** At such a comma the text parts: the pieces before it, and those after. */
  lemma PartsAtComma(a: string, b: string)
    requires Balanced(a)
    ensures Pieces(a + "," + b) == Pieces(a) + Pieces(b)
  {
    var x, y := Pieces(a), Pieces(b);
    PiecesJoin(a);
    PiecesJoin(b);
    ScanCuts(a);
    DepthIsCounted(a);
    BothArePieces(x, y);
    JoinConcat(x, y, ",");
    PiecesOfJoin(x + y);
  }

  lemma BothArePieces(x: seq<string>, y: seq<string>)
    requires ArePieces(x) && ArePieces(y) && Net(x[|x| - 1]) == 0
    ensures ArePieces(x + y)
  {
    var all := x + y;
    assert all[|all| - 1] == y[|y| - 1];
    forall i {:trigger all[i]} | 0 <= i < |all| - 1
      ensures Closed(all[i])
    {
      assert all[i] == if i < |x| then x[i] else y[i - |x|];
    }
  }

  lemma {:induction false} JoinConcat(x: seq<string>, y: seq<string>, separator: string)
    requires x != [] && y != []
    ensures Join(x + y, separator) == Join(x, separator) + separator + Join(y, separator)
  {
    var last := y[|y| - 1];
    if |y| == 1 {
      assert y == [last];
      JoinSnoc(x, last, separator);
    } else {
      var front := y[..|y| - 1];
      JoinConcat(x, front, separator);
      assert y == front + [last] && x + y == (x + front) + [last];
      JoinSnoc(front, last, separator);
      JoinSnoc(x + front, last, separator);
      Regroup(Join(x, separator) + separator, Join(front, separator), separator);
      Regroup(Join(x, separator) + separator, Join(front, separator) + separator, last);
    }
  }

  /** A callback parameter keeps its commas. */
  lemma CallbackIsOnePiece(before: string, inside: string, after: string)
    requires TopCommas(before) == 0 && Balanced(before) && CountOf(inside, '(') == CountOf(inside, ')') == 0
    requires CountOf(after, ',') == 0 && CountOf(after, '(') == CountOf(after, ')') == 0
    ensures |Pieces(before + "(" + inside + ")" + after)| == 1
  {
    var open := before + "(";
    assert open[..|before|] == before;
    CountConcat(before, "(", '(');
    CountConcat(before, "(", ')');
    OneChar('(');
    InsideParentheses(open, inside);
    var closed := open + inside + ")";
    assert closed[..|open + inside|] == open + inside;
    NoCommas(closed, after);
    PieceCount(closed + after);
  }

  lemma OneChar(ch: char)
    ensures CountOf([ch], ch) == 1
    ensures forall c :: c != ch ==> CountOf([ch], c) == 0
  {
    assert [ch][..0] == "";
  }

  lemma {:induction false} InsideParentheses(open: string, inside: string)
    requires CountOf(open, '(') == CountOf(open, ')') + 1 && TopCommas(open) == 0
    requires CountOf(inside, '(') == CountOf(inside, ')') == 0
    ensures TopCommas(open + inside) == 0
    ensures CountOf(open + inside, '(') == CountOf(open + inside, ')') + 1
  {
    if inside == "" {
      assert open + inside == open;
    } else {
      InsideParentheses(open, inside[..|inside| - 1]);
      assert (open + inside)[..|open + inside| - 1] == open + inside[..|inside| - 1];
    }
  }

  lemma {:induction false} NoCommas(s: string, t: string)
    requires CountOf(t, ',') == 0
    ensures TopCommas(s + t) == TopCommas(s)
  {
    if t == "" {
      assert s + t == s;
    } else {
      NoCommas(s, t[..|t| - 1]);
      assert (s + t)[..|s + t| - 1] == s + t[..|t| - 1];
    }
  }
}
