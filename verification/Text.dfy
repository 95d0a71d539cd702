/**
 White space in C declarations: trimming, and the normal form that argument types are
 printed in.
 */
module Text {

  predicate IsSpace(c: char) {
    c == ' ' || c == '\t' || c == '\n' || c == '\r' || c as int == 11 || c as int == 12
  }

  function TrimLeft(s: string): string {
    if s != [] && IsSpace(s[0]) then TrimLeft(s[1..]) else s
  }

  function TrimRight(s: string): string {
    if s != [] && IsSpace(s[|s| - 1]) then TrimRight(s[..|s| - 1]) else s
  }

  function Trim(s: string): string { TrimRight(TrimLeft(s)) }

  /** How many white-space characters `s` starts with. */
  function Run(s: string): (n: nat)
    ensures n <= |s|
  {
    if s != [] && IsSpace(s[0]) then 1 + Run(s[1..]) else 0
  }

  /** Every run of white space becomes one space. */
  function Collapse(s: string): string {
    if s == [] then []
    else if IsSpace(s[0]) then [' '] + Collapse(s[Run(s)..])
    else [s[0]] + Collapse(s[1..])
  }

  /** Every run of white space before a star becomes one space. */
  function SpaceBeforeStar(s: string): string {
    if s == [] then []
    else if 0 < Run(s) < |s| && s[Run(s)] == '*' then [' ', '*'] + SpaceBeforeStar(s[Run(s) + 1..])
    else [s[0]] + SpaceBeforeStar(s[1..])
  }

  /** Every run of white space after a star becomes one space. */
  function SpaceAfterStar(s: string): string {
    if s == [] then []
    else if s[0] == '*' && Run(s[1..]) > 0 then ['*', ' '] + SpaceAfterStar(s[1 + Run(s[1..])..])
    else [s[0]] + SpaceAfterStar(s[1..])
  }

  function NormalizeSpaces(s: string): string {
    SpaceAfterStar(SpaceBeforeStar(Trim(Collapse(s))))
  }

  // ----- normalisation neither adds nor drops stars -----

  predicate HasStar(s: string) {
    exists i :: 0 <= i < |s| && s[i] == '*'
  }

  lemma StarConcat(a: string, b: string)
    ensures HasStar(a + b) <==> HasStar(a) || HasStar(b)
  {
    if i :| 0 <= i < |a| && a[i] == '*' {
      assert (a + b)[i] == '*';
    }
    if i :| 0 <= i < |b| && b[i] == '*' {
      assert (a + b)[|a| + i] == '*';
    }
  }

  lemma StarTail(s: string)
    requires s != []
    ensures HasStar(s) <==> s[0] == '*' || HasStar(s[1..])
  {
    StarConcat([s[0]], s[1..]);
    assert [s[0]] + s[1..] == s;
    assert [s[0]][0] == s[0];
  }

  lemma StarCons(c: char, s: string)
    ensures HasStar([c] + s) <==> c == '*' || HasStar(s)
  {
    StarConcat([c], s);
    assert [c][0] == c;
  }

  lemma {:induction false} StarAfterRun(s: string)
    ensures HasStar(s[Run(s)..]) <==> HasStar(s)
  {
    if s != [] && IsSpace(s[0]) {
      StarTail(s);
      StarAfterRun(s[1..]);
      assert s[1..][Run(s[1..])..] == s[Run(s)..];
    } else {
      assert s[0..] == s;
    }
  }

  lemma {:induction false} CollapseKeepsStars(s: string)
    ensures HasStar(Collapse(s)) <==> HasStar(s)
    decreases |s|
  {
    if s != [] && IsSpace(s[0]) {
      StarAfterRun(s);
      CollapseKeepsStars(s[Run(s)..]);
      StarCons(' ', Collapse(s[Run(s)..]));
    } else if s != [] {
      StarTail(s);
      CollapseKeepsStars(s[1..]);
      StarCons(s[0], Collapse(s[1..]));
    }
  }

  lemma {:induction false} TrimLeftKeepsStars(s: string)
    ensures HasStar(TrimLeft(s)) <==> HasStar(s)
  {
    if s != [] && IsSpace(s[0]) {
      StarTail(s);
      TrimLeftKeepsStars(s[1..]);
    }
  }

  lemma {:induction false} TrimRightKeepsStars(s: string)
    ensures HasStar(TrimRight(s)) <==> HasStar(s)
  {
    if s != [] && IsSpace(s[|s| - 1]) {
      var front, last := s[..|s| - 1], s[|s| - 1];
      TrimRightKeepsStars(front);
      StarConcat(front, [last]);
      assert s == front + [last];
      StarCons(last, []);
    }
  }

  lemma {:induction false} BeforeKeepsStars(s: string)
    ensures HasStar(SpaceBeforeStar(s)) <==> HasStar(s)
    decreases |s|
  {
    if s != [] && 0 < Run(s) < |s| && s[Run(s)] == '*' {
      assert SpaceBeforeStar(s)[1] == '*';
    } else if s != [] {
      StarTail(s);
      BeforeKeepsStars(s[1..]);
      StarCons(s[0], SpaceBeforeStar(s[1..]));
    }
  }

  lemma {:induction false} AfterKeepsStars(s: string)
    ensures HasStar(SpaceAfterStar(s)) <==> HasStar(s)
    decreases |s|
  {
    if s != [] && s[0] == '*' && Run(s[1..]) > 0 {
      assert SpaceAfterStar(s)[0] == '*';
    } else if s != [] {
      StarTail(s);
      AfterKeepsStars(s[1..]);
      StarCons(s[0], SpaceAfterStar(s[1..]));
    }
  }

  lemma NormalizeKeepsStars(s: string)
    ensures HasStar(NormalizeSpaces(s)) <==> HasStar(s)
  {
    var collapsed := Collapse(s);
    CollapseKeepsStars(s);
    TrimLeftKeepsStars(collapsed);
    TrimRightKeepsStars(TrimLeft(collapsed));
    BeforeKeepsStars(Trim(collapsed));
    AfterKeepsStars(SpaceBeforeStar(Trim(collapsed)));
  }
}
