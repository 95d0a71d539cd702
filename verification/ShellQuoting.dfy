/**
 Quoting a string for the shell, and how the shell reads it back.
 */
module ShellQuoting {
  import opened Common

  const NUL: char := 0 as char

  /** One character inside single quotes; a quote closes, is escaped and reopens. */
  function QuoteChar(ch: char): string {
    if ch == '\'' then ['\'', '\\', '\'', '\''] else [ch]
  }

  function QuoteAll(s: string): string {
    if s == "" then "" else QuoteChar(s[0]) + QuoteAll(s[1..])
  }

  function Escape(s: string): string {
    ['\''] + QuoteAll(s) + ['\'']
  }

  method ShellEscape(value: string) returns (escaped: string)
    ensures escaped == Escape(value)
  {
    escaped := ['\''];
    for i := 0 to |value|
      invariant escaped == ['\''] + QuoteAll(value[..i])
    {
      QuoteSnoc(value[..i], value[i]);
      assert value[..i + 1] == value[..i] + [value[i]];
      if value[i] == '\'' {
        escaped := escaped + ['\'', '\\', '\'', '\''];
      } else {
        escaped := escaped + [value[i]];
      }
    }
    assert value[..|value|] == value;
    escaped := escaped + ['\''];
  }

  lemma {:induction false} QuoteSnoc(s: string, ch: char)
    ensures QuoteAll(s + [ch]) == QuoteAll(s) + QuoteChar(ch)
  {
    if s == "" {
      assert [ch][1..] == "";
    } else {
      assert (s + [ch])[1..] == s[1..] + [ch];
      QuoteSnoc(s[1..], ch);
    }
  }

  // ----- how the shell reads it -----

  /**
   Where the reader is: between words, in a word, inside single quotes, just after an unquoted
   backslash (sections 2.2.1 and 2.2.2 of the Shell Command Language, IEEE Std 1003.1-2017), or
   stopped at the first thing that is more than words and quoting.
   */
  datatype Mode = Between | Word | Single | Backslash | Stopped

  /** The words completed so far, and the one begun. */
  datatype Reader = Reader(words: seq<string>, mode: Mode, word: string)

  /** Unquoted characters that start an operator, an expansion or another kind of quoting. */
  predicate Special(c: char) {
    c == '"' || c == '$' || c == '`' || c == '|' || c == '&' || c == ';' || c == '<' || c == '>' || c == '(' || c == ')'
    || c == '\n' || c == '*' || c == '?' || c == '['
  }

  /** At its start a word can also be a comment or a tilde expansion. */
  predicate SpecialFirst(c: char) { c == '#' || c == '~' }

  function Step(r: Reader, c: char): Reader {
    match r.mode
    case Stopped => r
    case Single => if c == '\'' then r.(mode := Word) else r.(word := r.word + [c])
    case Backslash => if c == '\n' then r.(mode := Stopped) else r.(mode := Word, word := r.word + [c])
    case _ =>
      if c == '\'' then r.(mode := Single)
      else if c == '\\' then r.(mode := Backslash)
      else if c == ' ' || c == '\t' then
        if r.mode == Between then r else Reader(r.words + [r.word], Between, "")
      else if Special(c) || (r.mode == Between && SpecialFirst(c)) then r.(mode := Stopped)
      else r.(mode := Word, word := r.word + [c])
  }

  /** The reader after reading `s`. */
  function Read(r: Reader, s: string): Reader {
    if s == "" then r else Step(Read(r, s[..|s| - 1]), s[|s| - 1])
  }

  const FRESH := Reader([], Between, "")

  /** The words of a complete text that is nothing but words; None for any other. */
  function WordsOf(s: string): Option<seq<string>> {
    var r := Read(FRESH, s);
    match r.mode
    case Between => Some(r.words)
    case Word => Some(r.words + [r.word])
    case _ => None
  }

  lemma {:induction false} ReadConcat(r: Reader, a: string, b: string)
    ensures Read(r, a + b) == Read(Read(r, a), b)
  {
    if b == "" {
      assert a + b == a;
    } else {
      ReadConcat(r, a, b[..|b| - 1]);
      assert (a + b)[..|a + b| - 1] == a + b[..|b| - 1];
    }
  }

  lemma ReadOne(r: Reader, c: char)
    ensures Read(r, [c]) == Step(r, c)
  {
    assert [c][..0] == "";
  }

  /** Inside quotes, one quoted character reads as itself. */
  lemma ReadQuotedChar(r: Reader, c: char)
    requires r.mode == Single
    ensures Read(r, QuoteChar(c)) == r.(word := r.word + [c])
  {
    if c == '\'' {
      var q: seq<char> := ['\'', '\\', '\'', '\''];
      assert q[..3] == ['\'', '\\', '\''] && q[..3][..2] == ['\'', '\\'] && q[..3][..2][..1] == ['\''];
      ReadOne(r, '\'');
      assert Read(r, q[..3][..2]) == r.(mode := Backslash);
      assert Read(r, q[..3]) == r.(mode := Word, word := r.word + [c]);
    } else {
      ReadOne(r, c);
    }
  }

  /** Inside quotes, the quoted text of `s` reads as `s`. */
  lemma {:induction false} ReadQuoted(r: Reader, s: string)
    requires r.mode == Single
    ensures Read(r, QuoteAll(s)) == r.(word := r.word + s)
    decreases s
  {
    if s != "" {
      var first := r.(word := r.word + [s[0]]);
      ReadConcat(r, QuoteChar(s[0]), QuoteAll(s[1..]));
      ReadQuotedChar(r, s[0]);
      ReadQuoted(first, s[1..]);
      assert r.word + [s[0]] + s[1..] == r.word + s;
    } else {
      assert r.word + s == r.word;
    }
  }

  /** The escaped string extends the word being read, or begun with it, by exactly the string. */
  lemma ReadEscaped(r: Reader, s: string)
    requires r.mode == Between || r.mode == Word
    ensures Read(r, Escape(s)) == r.(mode := Word, word := r.word + s)
  {
    var quote: seq<char> := ['\''];
    ReadConcat(r, quote + QuoteAll(s), quote);
    ReadConcat(r, quote, QuoteAll(s));
    ReadOne(r, '\'');
    ReadQuoted(r.(mode := Single), s);
    ReadOne(r.(mode := Single, word := r.word + s), '\'');
  }

  /** Words read are never taken back. */
  lemma {:induction false} WordsGrow(r: Reader, s: string)
    ensures r.words <= Read(r, s).words
  {
    if s != "" {
      WordsGrow(r, s[..|s| - 1]);
    }
  }

  /** Between words no word is begun. */
  lemma {:induction false} BetweenIsEmpty(s: string)
    ensures Read(FRESH, s).mode == Between ==> Read(FRESH, s).word == ""
  {
    if s != "" {
      BetweenIsEmpty(s[..|s| - 1]);
    }
  }

  /**
   Put between words of a command and followed by a blank, the escaped string is read as exactly
   one word, the string itself; the rest is read on from there, and whatever it is, redirections
   included, the words of the command begin with those before and this one.
   */
  lemma EscapedIsOneWord(prefix: string, s: string, rest: string)
    requires Read(FRESH, prefix).mode == Between
    ensures var words := Read(FRESH, prefix).words + [s];
            && Read(FRESH, prefix + Escape(s) + [' '] + rest) == Read(Reader(words, Between, ""), rest)
            && words <= Read(FRESH, prefix + Escape(s) + [' '] + rest).words
  {
    var before := Read(FRESH, prefix);
    BetweenIsEmpty(prefix);
    ReadConcat(FRESH, prefix + Escape(s) + [' '], rest);
    ReadConcat(FRESH, prefix + Escape(s), [' ']);
    ReadConcat(FRESH, prefix, Escape(s));
    ReadEscaped(before, s);
    ReadOne(before.(mode := Word, word := "" + s), ' ');
    assert "" + s == s;
    WordsGrow(Reader(before.words + [s], Between, ""), rest);
  }

  // ----- the commands -----

  /** A word that needs no quoting. */
  predicate PlainWord(w: string) {
    w != "" && !SpecialFirst(w[0]) && PlainChars(w)
  }

  predicate PlainChars(w: string) {
    forall i :: 0 <= i < |w| ==> PlainChar(w[i])
  }

  predicate PlainChar(c: char) {
    c != '\'' && c != '\\' && c != ' ' && c != '\t' && !Special(c)
  }

  lemma {:induction false} ReadPlain(r: Reader, w: string)
    requires r.mode == Between && r.word == "" && PlainWord(w)
    ensures Read(r, w) == r.(mode := Word, word := w)
  {
    var front, last := w[..|w| - 1], w[|w| - 1];
    assert PlainChar(last);
    if front == "" {
      ReadOne(r, last);
      assert w == [last] && "" + [last] == w;
    } else {
      assert PlainChars(front) && front[0] == w[0];
      ReadPlain(r, front);
      assert front + [last] == w;
    }
  }

  lemma ReadWord(r: Reader, w: string)
    requires r.mode == Between && r.word == "" && PlainWord(w)
    ensures Read(r, w + " ") == Reader(r.words + [w], Between, "")
  {
    ReadConcat(r, w, " ");
    ReadPlain(r, w);
    ReadOne(r.(mode := Word, word := w), ' ');
  }

  /** The words, each followed by a blank. */
  function Spell(words: seq<string>): string {
    if words == [] then "" else Spell(words[..|words| - 1]) + words[|words| - 1] + " "
  }

  lemma {:induction false} ReadSpelled(words: seq<string>)
    requires forall i :: 0 <= i < |words| ==> PlainWord(words[i])
    ensures Read(FRESH, Spell(words)) == Reader(words, Between, "")
  {
    if words != [] {
      var front, last := words[..|words| - 1], words[|words| - 1];
      assert front + [last] == words;
      Regroup(Spell(front), last, " ");
      ReadSpelled(front);
      ReadConcat(FRESH, Spell(front), last + " ");
      ReadWord(Reader(front, Between, ""), last);
    }
  }

  /** A command of plain words, a path in quotes and anything after a blank passes the path as the next word. */
  lemma CommandPassesPath(words: seq<string>, path: string, rest: string)
    requires forall i :: 0 <= i < |words| ==> PlainWord(words[i])
    ensures words + [path] <= Read(FRESH, Spell(words) + Escape(path) + [' '] + rest).words
  {
    ReadSpelled(words);
    EscapedIsOneWord(Spell(words), path, rest);
  }

  lemma DebugWordsArePlain()
    ensures PlainWord("readelf") && PlainWord("--debug-dump=info")
    ensures PlainWord("llvm-dwarfdump") && PlainWord("--debug-info")
  {
  }

  lemma ReadelfText()
    ensures Spell(["readelf", "--debug-dump=info"]) == "readelf --debug-dump=info "
  {
    SpellTwo("readelf", "--debug-dump=info");
  }

  lemma DwarfdumpText()
    ensures Spell(["llvm-dwarfdump", "--debug-info"]) == "llvm-dwarfdump --debug-info "
  {
    SpellTwo("llvm-dwarfdump", "--debug-info");
  }

  lemma BpftoolText()
    ensures Spell(["bpftool", "btf", "dump", "file"]) == "bpftool btf dump file "
    ensures PlainWord("bpftool") && PlainWord("btf") && PlainWord("dump") && PlainWord("file")
  {
    SpellTwo("bpftool", "btf");
    SpellTwoMore(["bpftool", "btf"], "dump", "file");
    assert ["bpftool", "btf"] + ["dump", "file"] == ["bpftool", "btf", "dump", "file"];
  }

  /** Each of the three commands that quote a path begins with plain words, and so passes it. */
  lemma ReadelfPassesPath(path: string, rest: string)
    ensures ["readelf", "--debug-dump=info"] + [path]
         <= Read(FRESH, "readelf --debug-dump=info " + Escape(path) + [' '] + rest).words
  {
    DebugWordsArePlain();
    ReadelfText();
    CommandPassesPath(["readelf", "--debug-dump=info"], path, rest);
  }

  lemma DwarfdumpPassesPath(path: string, rest: string)
    ensures ["llvm-dwarfdump", "--debug-info"] + [path]
         <= Read(FRESH, "llvm-dwarfdump --debug-info " + Escape(path) + [' '] + rest).words
  {
    DebugWordsArePlain();
    DwarfdumpText();
    CommandPassesPath(["llvm-dwarfdump", "--debug-info"], path, rest);
  }

  lemma BpftoolPassesPath(path: string, rest: string)
    ensures ["bpftool", "btf", "dump", "file"] + [path]
         <= Read(FRESH, "bpftool btf dump file " + Escape(path) + [' '] + rest).words
  {
    BpftoolText();
    CommandPassesPath(["bpftool", "btf", "dump", "file"], path, rest);
  }

  lemma SpellTwoMore(words: seq<string>, a: string, b: string)
    ensures Spell(words + [a, b]) == Spell(words) + a + " " + b + " "
  {
    assert (words + [a, b])[..|words| + 1] == words + [a];
    assert (words + [a])[..|words|] == words;
  }

  lemma SpellTwo(a: string, b: string)
    ensures Spell([a, b]) == a + " " + b + " "
  {
    SpellTwoMore([], a, b);
    assert [] + [a, b] == [a, b];
    assert "" + a == a;
  }

  // ----- the command goes through a C string -----

  /** What a C function sees of `s`: everything before the first NUL. */
  function CString(s: string): string {
    if s == "" || s[0] == NUL then "" else [s[0]] + CString(s[1..])
  }

  predicate NulFree(s: string) {
    s == "" || (s[0] != NUL && NulFree(s[1..]))
  }

  lemma {:induction false} CStringConcat(a: string, b: string)
    ensures CString(a + b) == if NulFree(a) then a + CString(b) else CString(a)
  {
    if a == "" {
      assert a + b == b;
    } else {
      assert (a + b)[1..] == a[1..] + b;
      CStringConcat(a[1..], b);
      Regroup([a[0]], a[1..], CString(b));
      assert a == [a[0]] + a[1..];
    }
  }

  lemma CStringOfChar(c: char)
    ensures NulFree(QuoteChar(c)) <==> c != NUL
    ensures c == NUL ==> CString(QuoteChar(c)) == ""
  {
    if c == '\'' {
      var q := QuoteChar(c);
      assert q[1..] == ['\\', '\'', '\''];
      assert q[1..][1..] == ['\'', '\''] && q[1..][1..][1..] == ['\''];
      assert NulFree(q[1..][1..][1..]) && NulFree(q[1..][1..]) && NulFree(q[1..]);
    }
  }

  /** Up to the first NUL, the quoted text is that of the string. */
  lemma {:induction false} CStringOfQuoted(s: string)
    ensures NulFree(QuoteAll(s)) <==> NulFree(s)
    ensures !NulFree(s) ==> CString(QuoteAll(s)) == QuoteAll(CString(s))
  {
    if s != "" {
      CStringOfChar(s[0]);
      CStringOfQuoted(s[1..]);
      CStringConcat(QuoteChar(s[0]), QuoteAll(s[1..]));
      NulFreeConcat(QuoteChar(s[0]), QuoteAll(s[1..]));
      if s[0] != NUL {
        assert CString(s)[1..] == CString(s[1..]);
      }
    }
  }

  lemma {:induction false} NulFreeConcat(a: string, b: string)
    ensures NulFree(a + b) <==> NulFree(a) && NulFree(b)
  {
    if a == "" {
      assert a + b == b;
    } else {
      NulFreeConcat(a[1..], b);
      assert (a + b)[1..] == a[1..] + b;
    }
  }

  lemma CStringOfNulFree(s: string)
    requires NulFree(s)
    ensures CString(s) == s
  {
    CStringConcat(s, "");
    assert s + "" == s;
  }

  /** Through a C string the round trip succeeds exactly for strings without a NUL. */
  lemma EscapeRoundTripsIff(s: string)
    ensures WordsOf(CString(Escape(s))) == Some([s]) <==> NulFree(s)
  {
    var quote: seq<char> := ['\''];
    CStringOfQuoted(s);
    NulFreeConcat(quote, QuoteAll(s));
    NulFreeConcat(quote + QuoteAll(s), quote);
    if NulFree(s) {
      CStringOfNulFree(Escape(s));
      ReadEscaped(FRESH, s);
      assert "" + s == s && [] + [s] == [s];
    } else {
      var t := QuoteAll(CString(s));
      CStringConcat(quote + QuoteAll(s), quote);
      CStringConcat(quote, QuoteAll(s));
      ReadConcat(FRESH, quote, t);
      ReadOne(FRESH, '\'');
      ReadQuoted(FRESH.(mode := Single), CString(s));
    }
  }
}
