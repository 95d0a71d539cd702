/**
 Which records a stream holds: those on its fragments, that is, on what lies between its newlines.
 */
module TraceRecords {
  import opened Common
  import opened TraceAggregate

  /** One carriage return at the end of a line is dropped, and nothing else. */
  lemma ChopsOneReturn(line: string)
    ensures ChopReturn(line + ['\r']) == line
    ensures (line == "" || line[|line| - 1] != '\r') ==> ChopReturn(line) == line
  {
  }

  /** Fragment `i` of a stream holds no record: it is blank, or one of the brackets around the trace. */
  predicate Skipped(fragments: seq<string>, i: nat)
    requires i < |fragments|
  {
    var line := ChopReturn(fragments[i]);
    line == "" || line == "]" || (line == "[" && i == 0 && |fragments| > 1)
  }

  /** The records on the first `m` fragments, in order. */
  function RecordsOf(parse: string -> Option<Record>, fragments: seq<string>, m: nat): seq<Record>
    requires m <= |fragments|
  {
    if m == 0 then [] else
      var record := parse(ChopReturn(fragments[m - 1]));
      RecordsOf(parse, fragments, m - 1)
      + if Skipped(fragments, m - 1) || record.None? then [] else [record.value]
  }

  lemma {:induction false} CompleteLines(parse: string -> Option<Record>, fragments: seq<string>, m: nat)
    requires m < |fragments|
    ensures RecordsOn(parse, fragments[..m]) == RecordsOf(parse, fragments, m)
  {
    if m > 0 {
      CompleteLines(parse, fragments, m - 1);
      CompleteLine(parse, fragments, m - 1);
    }
  }

  lemma CompleteLine(parse: string -> Option<Record>, fragments: seq<string>, m: nat)
    requires m < |fragments| - 1 && RecordsOn(parse, fragments[..m]) == RecordsOf(parse, fragments, m)
    ensures RecordsOn(parse, fragments[..m + 1]) == RecordsOf(parse, fragments, m + 1)
  {
    assert fragments[..m + 1] == fragments[..m] + [fragments[m]];
    assert fragments[..m] == [] <==> m == 0;
    OneMoreLine(parse, fragments[..m], fragments[m]);
  }

  lemma OneMoreLine(parse: string -> Option<Record>, lines: seq<string>, line: string)
    ensures RecordsOn(parse, lines + [line]) == Append(RecordsOn(parse, lines), RecordOn(parse, line, lines == []))
  {
    assert (lines + [line])[..|lines|] == lines;
  }

  /**
   However its fragments come about, the records of a stream are what the parser makes of them,
   in order, without blanks and brackets; an opening bracket counts as one only if it is the
   first of several fragments.
   */
  lemma RecordsOnFragments(parse: string -> Option<Record>, fragments: seq<string>)
    requires fragments != [] && forall i :: 0 <= i < |fragments| ==> NoNewline(fragments[i])
    ensures var last := |fragments| - 1;
            RecordsIn(parse, Glue(fragments[..last]) + fragments[last]) == RecordsOf(parse, fragments, |fragments|)
  {
    var last := |fragments| - 1;
    LinesUnique(fragments[..last], fragments[last]);
    CompleteLines(parse, fragments, last);
  }

  /** Every stream has such fragments. */
  lemma {:induction false} HasFragments(s: string)
    ensures s == Glue(Lines(s).lines) + Lines(s).rest && NoNewline(Lines(s).rest)
    ensures forall i :: 0 <= i < |Lines(s).lines| ==> NoNewline(Lines(s).lines[i])
  {
    GlueOfLines(s);
    RestHasNoNewline(s);
    if s != "" {
      HasFragments(s[..|s| - 1]);
    }
  }

  /** A final newline makes the rest one more line. */
  lemma WithNewline(parse: string -> Option<Record>, s: string)
    ensures var cut := Lines(s);
            RecordsIn(parse, s + ['\n'])
            == Append(RecordsOn(parse, cut.lines), RecordOn(parse, cut.rest, cut.lines == []))
  {
    LinesSnoc(s, '\n');
    OneMoreLine(parse, Lines(s).lines, Lines(s).rest);
  }

  /** A final newline makes no difference, to any parser, unless it makes a lone opening bracket the first line. */
  lemma FinalNewlineIff(s: string)
    ensures (forall parse: string -> Option<Record> :: RecordsIn(parse, s) == RecordsIn(parse, s + ['\n'])) <==>
            s != "[" && s != ['[', '\r']
  {
    if s == "[" || s == ['[', '\r'] {
      LoneBracket(s);
      var parse: string -> Option<Record> := (_: string) => Some(Record("", "", 0));
      OneFragment(s);
      RestOnly(parse, s);
      WithNewline(parse, s);
      assert RecordsIn(parse, s) != RecordsIn(parse, s + ['\n']);
    } else {
      forall parse: string -> Option<Record>
        ensures RecordsIn(parse, s) == RecordsIn(parse, s + ['\n'])
      {
        FirstRest(s);
        BracketAlone(Lines(s).rest);
        WithNewline(parse, s);
      }
    }
  }

  lemma FirstRest(s: string)
    ensures Lines(s).lines == [] ==> Lines(s).rest == s
  {
    GlueOfLines(s);
    assert Glue([]) + Lines(s).rest == Lines(s).rest;
  }

  lemma BracketAlone(line: string)
    ensures ChopReturn(line) == "[" <==> line == "[" || line == ['[', '\r']
  {
    if ChopReturn(line) == "[" && line != "[" {
      assert line == line[..|line| - 1] + [line[|line| - 1]];
    }
  }

  lemma LoneBracket(s: string)
    requires s == "[" || s == ['[', '\r']
    ensures NoNewline(s) && ChopReturn(s) == "["
  {
    BracketAlone(s);
    assert ['[', '\r'][..1] == ['['] && ['['][..0] == [];
  }

  /** A single line is read whether or not a newline ends it. */
  lemma OneLineIsRead(parse: string -> Option<Record>, line: string, r: Record)
    requires NoNewline(line) && line != "" && line != "[" && line != "]" && line[|line| - 1] != '\r'
    requires parse(line) == Some(r)
    ensures RecordsIn(parse, line) == [r] && RecordsIn(parse, line + ['\n']) == [r]
  {
    assert line != ['[', '\r'] by { assert ['[', '\r'][1] == '\r'; }
    RestIsRead(parse, line, r);
    FinalNewlineIff(line);
  }

  /** A text without a newline is all rest. */
  lemma OneFragment(line: string)
    requires NoNewline(line)
    ensures Lines(line) == Cut([], line)
  {
    LinesExtend("", line);
    assert "" + line == line;
  }

  lemma RestOnly(parse: string -> Option<Record>, line: string)
    requires Lines(line) == Cut([], line)
    ensures RecordsIn(parse, line) == Append([], RecordAtEnd(parse, line))
  {
  }

  lemma RestIsRead(parse: string -> Option<Record>, line: string, r: Record)
    requires NoNewline(line) && line != "" && line != "]" && line[|line| - 1] != '\r' && parse(line) == Some(r)
    ensures RecordsIn(parse, line) == [r]
  {
    OneFragment(line);
    ChopsOneReturn(line);
    RestOnly(parse, line);
  }
}
