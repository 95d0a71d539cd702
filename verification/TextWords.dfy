/**
 What normalising white space does to a text: it keeps the words and puts one space between them.
 */
module TextWords {
  import opened Text

  /** White space is a blank, or one of the five control characters from tab to carriage return. */
  lemma IsSpaceIff(c: char)
    ensures IsSpace(c) <==> c == ' ' || 9 <= c as int <= 13
  {
  }

  // ----- trimming -----

  predicate AllSpace(s: string) { forall i :: 0 <= i < |s| ==> IsSpace(s[i]) }

  /** No white space at either end. */
  predicate Bare(s: string) {
    s != "" ==> !IsSpace(s[0]) && !IsSpace(s[|s| - 1])
  }

  lemma {:induction false} TrimLeftIs(before: string, s: string)
    requires AllSpace(before) && (s != "" ==> !IsSpace(s[0]))
    ensures TrimLeft(before + s) == s
  {
    if before == "" {
      assert before + s == s;
    } else {
      assert (before + s)[1..] == before[1..] + s;
      TrimLeftIs(before[1..], s);
    }
  }

  lemma {:induction false} TrimRightIs(s: string, after: string)
    requires AllSpace(after) && (s != "" ==> !IsSpace(s[|s| - 1]))
    ensures TrimRight(s + after) == s
  {
    if after == "" {
      assert s + after == s;
    } else {
      assert (s + after)[..|s + after| - 1] == s + after[..|after| - 1];
      TrimRightIs(s, after[..|after| - 1]);
    }
  }

  /** Trimming takes off all white space around a text, and nothing else. */
  lemma TrimIs(before: string, s: string, after: string)
    requires AllSpace(before) && AllSpace(after) && Bare(s)
    ensures Trim(before + s + after) == s
  {
    assert before + s + after == before + (s + after);
    if s == "" {
      assert before + (s + after) == before + after + "" && AllSpace(before + after);
      TrimLeftIs(before + after, "");
    } else {
      TrimLeftIs(before, s + after);
      TrimRightIs(s, after);
    }
  }

  // ----- words -----

  /** A reader that collects the words of a text. */
  datatype Reader = Reader(words: seq<string>, word: string)

  function Step(r: Reader, c: char): Reader {
    if !IsSpace(c) then Reader(r.words, r.word + [c])
    else if r.word == "" then r else Reader(r.words + [r.word], "")
  }

  function Read(r: Reader, s: string): Reader
    decreases s
  {
    if s == "" then r else Read(Step(r, s[0]), s[1..])
  }

  /** The words of a text: its longest stretches without white space, in order. */
  function Words(s: string): seq<string> { Done(Read(Reader([], ""), s)) }

  function Done(r: Reader): seq<string> { if r.word == "" then r.words else r.words + [r.word] }

  lemma {:induction false} SkipRun(r: Reader, s: string)
    requires r.word == ""
    ensures Read(r, s[Run(s)..]) == Read(r, s)
  {
    if s != "" && IsSpace(s[0]) {
      SkipRun(r, s[1..]);
      assert s[1..][Run(s[1..])..] == s[Run(s)..];
    } else {
      assert s[0..] == s;
    }
  }

  lemma ReadCons(r: Reader, c: char, s: string)
    ensures Read(r, [c] + s) == Read(Step(r, c), s)
  {
    assert ([c] + s)[1..] == s;
  }

  lemma {:induction false} CollapseReads(r: Reader, s: string)
    ensures Read(r, Collapse(s)) == Read(r, s)
    decreases |s|
  {
    if s != "" && IsSpace(s[0]) {
      var rest := s[Run(s)..];
      assert s[1..][Run(s[1..])..] == rest;
      ReadCons(r, ' ', Collapse(rest));
      CollapseReads(Step(r, ' '), rest);
      SkipRun(Step(r, ' '), s[1..]);
    } else if s != "" {
      ReadCons(r, s[0], Collapse(s[1..]));
      CollapseReads(Step(r, s[0]), s[1..]);
    }
  }

  lemma {:induction false} ReadSnoc(r: Reader, s: string, c: char)
    ensures Read(r, s + [c]) == Step(Read(r, s), c)
    decreases s
  {
    if s == "" {
      assert s + [c] == [c] && [c][1..] == "";
    } else {
      assert (s + [c])[1..] == s[1..] + [c];
      ReadSnoc(Step(r, s[0]), s[1..], c);
    }
  }

  lemma {:induction false} TrimLeftReads(r: Reader, s: string)
    requires r.word == ""
    ensures Read(r, TrimLeft(s)) == Read(r, s)
  {
    if s != "" && IsSpace(s[0]) {
      TrimLeftReads(r, s[1..]);
    }
  }

  lemma {:induction false} TrimRightReads(r: Reader, s: string)
    ensures Done(Read(r, TrimRight(s))) == Done(Read(r, s))
  {
    if s != "" && IsSpace(s[|s| - 1]) {
      var front := s[..|s| - 1];
      TrimRightReads(r, front);
      assert s == front + [s[|s| - 1]];
      ReadSnoc(r, front, s[|s| - 1]);
    }
  }

  // ----- the normal form -----

  /** Single blanks between words are the only white space. */
  predicate Tidy(s: string) { Bare(s) && Single(s) }

  /** White space is single blanks. */
  predicate Single(s: string) {
    s == "" || (Single(s[1..]) && (IsSpace(s[0]) ==> s[0] == ' ' && (|s| > 1 ==> !IsSpace(s[1]))))
  }

  lemma {:induction false} CollapseIsSingle(s: string)
    ensures Single(Collapse(s))
    ensures s != "" && !IsSpace(s[0]) ==> Collapse(s) != "" && Collapse(s)[0] == s[0]
    decreases |s|
  {
    if s != "" && IsSpace(s[0]) {
      var rest := s[Run(s)..];
      AfterRun(s);
      CollapseIsSingle(rest);
      assert ([' '] + Collapse(rest))[1..] == Collapse(rest);
    } else if s != "" {
      CollapseIsSingle(s[1..]);
      assert ([s[0]] + Collapse(s[1..]))[1..] == Collapse(s[1..]);
    }
  }

  lemma {:induction false} AfterRun(s: string)
    ensures Run(s) < |s| ==> !IsSpace(s[Run(s)])
    ensures Run(s) == |s| ==> Collapse(s[Run(s)..]) == ""
  {
    if s != "" && IsSpace(s[0]) {
      AfterRun(s[1..]);
      if Run(s) < |s| {
        assert s[Run(s)] == s[1..][Run(s[1..])];
      }
    }
  }

  lemma {:induction false} SingleFront(s: string)
    requires s != "" && Single(s)
    ensures Single(s[..|s| - 1])
  {
    if |s| > 1 {
      SingleFront(s[1..]);
      assert s[..|s| - 1][1..] == s[1..][..|s| - 2];
    }
  }

  lemma {:induction false} TrimRightIsTidy(s: string)
    requires Single(s) && (s != "" ==> !IsSpace(s[0]))
    ensures Tidy(TrimRight(s))
  {
    if s != "" && IsSpace(s[|s| - 1]) {
      SingleFront(s);
      assert |s| > 1;
      TrimRightIsTidy(s[..|s| - 1]);
    }
  }

  lemma {:induction false} TrimLeftIsSingle(s: string)
    requires Single(s)
    ensures Single(TrimLeft(s)) && (TrimLeft(s) != "" ==> !IsSpace(TrimLeft(s)[0]))
  {
    if s != "" && IsSpace(s[0]) {
      TrimLeftIsSingle(s[1..]);
    }
  }

  lemma SingleRun(s: string)
    requires Single(s)
    ensures Run(s) <= 1 && (Run(s) == 1 ==> s[0] == ' ')
  {
  }

  /** The passes around stars have nothing left to do. */
  lemma {:induction false} BeforeStarIsIdle(s: string)
    requires Single(s)
    ensures SpaceBeforeStar(s) == s
    decreases |s|
  {
    SingleRun(s);
    if s != "" && 0 < Run(s) < |s| && s[Run(s)] == '*' {
      assert Single(s[1..]) && s[1..][1..] == s[2..];
      BeforeStarIsIdle(s[2..]);
      assert s == [' ', '*'] + s[2..];
    } else if s != "" {
      BeforeStarIsIdle(s[1..]);
      assert s == [s[0]] + s[1..];
    }
  }

  lemma {:induction false} AfterStarIsIdle(s: string)
    requires Single(s)
    ensures SpaceAfterStar(s) == s
    decreases |s|
  {
    if s != "" {
      SingleRun(s[1..]);
      if s[0] == '*' && Run(s[1..]) > 0 {
        assert Single(s[1..]) && s[1..][1..] == s[2..];
        AfterStarIsIdle(s[2..]);
        assert s == ['*', ' '] + s[2..];
      } else {
        AfterStarIsIdle(s[1..]);
        assert s == [s[0]] + s[1..];
      }
    }
  }

  /** Normalising gives a tidy text with the same words. */
  lemma NormalizeIsTidy(s: string)
    ensures Tidy(NormalizeSpaces(s)) && Words(NormalizeSpaces(s)) == Words(s)
  {
    var collapsed := Collapse(s);
    CollapseIsSingle(s);
    TrimLeftIsSingle(collapsed);
    TrimRightIsTidy(TrimLeft(collapsed));
    BeforeStarIsIdle(Trim(collapsed));
    AfterStarIsIdle(Trim(collapsed));
    CollapseReads(Reader([], ""), s);
    TrimLeftReads(Reader([], ""), collapsed);
    TrimRightReads(Reader([], ""), TrimLeft(collapsed));
  }

  // ----- a tidy text stays as it is -----

  lemma {:induction false} CollapseKeepsSingle(s: string)
    requires Single(s)
    ensures Collapse(s) == s
    decreases |s|
  {
    if s != "" {
      SingleRun(s);
      CollapseKeepsSingle(s[1..]);
      assert s == [s[0]] + s[1..];
    }
  }

  lemma TidyStays(s: string)
    requires Tidy(s)
    ensures NormalizeSpaces(s) == s
  {
    CollapseKeepsSingle(s);
    TrimIs("", s, "");
    assert "" + s + "" == s;
    BeforeStarIsIdle(s);
    AfterStarIsIdle(s);
  }

  /** So normalising twice is normalising once. */
  lemma NormalizeTwice(s: string)
    ensures NormalizeSpaces(NormalizeSpaces(s)) == NormalizeSpaces(s)
  {
    NormalizeIsTidy(s);
    TidyStays(NormalizeSpaces(s));
  }
}
