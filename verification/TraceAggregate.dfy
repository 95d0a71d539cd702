/**
 Per-function statistics of a trace that arrives in chunks.

 Chunks are cut anywhere, so the end of a chunk that is not a whole line is carried over to
 the next.  Each line that parses to a record with a category, a name and a duration is added
 to the statistics of its (category, name) pair.
 */
module TraceAggregate {
  import opened Common
  import opened DurationStats

  datatype Record = Record(cat: string, name: string, dur: int)

  type Key = (string, string)

  // ----- lines -----

  /** The complete lines of a stream, without their newlines, and the unterminated rest. */
  datatype Cut = Cut(lines: seq<string>, rest: string)

  function Lines(s: string): Cut {
    if s == "" then Cut([], "") else
      var cut, c := Lines(s[..|s| - 1]), s[|s| - 1];
      if c == '\n' then Cut(cut.lines + [cut.rest], "") else Cut(cut.lines, cut.rest + [c])
  }

  lemma {:induction false} LinesSnoc(s: string, c: char)
    ensures Lines(s + [c])
            == if c == '\n' then Cut(Lines(s).lines + [Lines(s).rest], "")
               else Cut(Lines(s).lines, Lines(s).rest + [c])
  {
    assert (s + [c])[..|s|] == s;
  }

  predicate NoNewline(s: string) {
    s == "" || (NoNewline(s[..|s| - 1]) && s[|s| - 1] != '\n')
  }

  /** Text without a newline only extends the unterminated rest. */
  lemma {:induction false} LinesExtend(s: string, t: string)
    requires NoNewline(t)
    ensures Lines(s + t) == Cut(Lines(s).lines, Lines(s).rest + t)
  {
    if t == "" {
      assert s + t == s && Lines(s).rest + t == Lines(s).rest;
    } else {
      var front, c := t[..|t| - 1], t[|t| - 1];
      LinesExtend(s, front);
      LinesSnoc(s + front, c);
      Snoc(s, t);
      Snoc(Lines(s).rest, t);
    }
  }

  lemma Snoc(s: string, t: string)
    requires t != ""
    ensures s + t == s + t[..|t| - 1] + [t[|t| - 1]]
  {
  }

  /** After a whole number of lines, newline-free text is the next line as soon as a newline follows. */
  lemma LineAfter(head: string, line: string)
    requires Lines(head).rest == "" && NoNewline(line)
    ensures Lines(head + line) == Cut(Lines(head).lines, line)
    ensures Lines(head + line + ['\n']) == Cut(Lines(head).lines + [line], "")
  {
    LinesExtend(head, line);
    assert "" + line == line;
    LinesSnoc(head + line, '\n');
  }

  /** More text is cut just as if it came after the unterminated rest alone. */
  lemma {:induction false} LinesConcat(s: string, t: string)
    ensures CutsOn(s, t)
  {
    if t == "" {
      NothingMore(s);
    } else {
      LinesConcat(s, t[..|t| - 1]);
      CutsOnStep(s, t[..|t| - 1], t[|t| - 1]);
      assert t == t[..|t| - 1] + [t[|t| - 1]];
    }
  }

  ghost predicate CutsOn(s: string, t: string) {
    var cut, more := Lines(s), Lines(Lines(s).rest + t);
    Lines(s + t) == Cut(cut.lines + more.lines, more.rest)
  }

  lemma NothingMore(s: string)
    ensures CutsOn(s, "")
  {
    var cut := Lines(s);
    RestHasNoNewline(s);
    LinesExtend("", cut.rest);
    assert s + "" == s && cut.rest + "" == cut.rest && "" + cut.rest == cut.rest;
    assert cut.lines + [] == cut.lines;
  }

  lemma CutsOnStep(s: string, t: string, c: char)
    requires CutsOn(s, t)
    ensures CutsOn(s, t + [c])
  {
    var rest := Lines(s).rest;
    Regroup(s, t, [c]);
    Regroup(rest, t, [c]);
    LinesSnoc(s + t, c);
    LinesSnoc(rest + t, c);
  }

  lemma {:induction false} RestHasNoNewline(s: string)
    ensures NoNewline(Lines(s).rest)
  {
    if s != "" {
      RestHasNoNewline(s[..|s| - 1]);
      var rest, c := Lines(s[..|s| - 1]).rest, s[|s| - 1];
      assert (rest + [c])[..|rest|] == rest;
    }
  }

  /** The lines, each followed by a newline. */
  function Glue(lines: seq<string>): string {
    if lines == [] then "" else Glue(lines[..|lines| - 1]) + lines[|lines| - 1] + ['\n']
  }

  /** Writing the lines and the rest back gives the stream... */
  lemma {:induction false} GlueOfLines(s: string)
    ensures Glue(Lines(s).lines) + Lines(s).rest == s
  {
    if s != "" {
      var front, c := s[..|s| - 1], s[|s| - 1];
      var cut := Lines(front);
      GlueOfLines(front);
      Regroup(Glue(cut.lines), cut.rest, [c]);
      assert front + [c] == s;
      assert (cut.lines + [cut.rest])[..|cut.lines|] == cut.lines;
    }
  }

  /** ... and there is only one way to write it as newline-free lines and a newline-free rest. */
  lemma {:induction false} LinesUnique(lines: seq<string>, rest: string)
    requires NoNewline(rest) && forall i :: 0 <= i < |lines| ==> NoNewline(lines[i])
    ensures Lines(Glue(lines) + rest) == Cut(lines, rest)
  {
    if lines != [] {
      var front, last := lines[..|lines| - 1], lines[|lines| - 1];
      LinesUnique(front, "");
      assert Glue(front) + "" == Glue(front);
      LineAfter(Glue(front), last);
      assert front + [last] == lines;
    }
    LineAfter(Glue(lines), rest);
  }

  // ----- records -----

  function ChopReturn(line: string): string {
    if line != "" && line[|line| - 1] == '\r' then line[..|line| - 1] else line
  }

  /** The record on a complete line; the opening bracket is passed over on the first line only. */
  function RecordOn(parse: string -> Option<Record>, raw: string, first: bool): Option<Record> {
    var line := ChopReturn(raw);
    if (first && line == "[") || line == "]" || line == "" then None else parse(line)
  }

  /** The record on an unterminated last line, where an opening bracket is not passed over. */
  function RecordAtEnd(parse: string -> Option<Record>, rest: string): Option<Record> {
    RecordOn(parse, rest, false)
  }

  function Append(records: seq<Record>, r: Option<Record>): seq<Record> {
    if r.None? then records else records + [r.value]
  }

  function RecordsOn(parse: string -> Option<Record>, lines: seq<string>): seq<Record> {
    if lines == [] then [] else
      Append(RecordsOn(parse, lines[..|lines| - 1]), RecordOn(parse, lines[|lines| - 1], |lines| == 1))
  }

  function RecordsIn(parse: string -> Option<Record>, stream: string): seq<Record> {
    var cut := Lines(stream);
    Append(RecordsOn(parse, cut.lines), RecordAtEnd(parse, cut.rest))
  }

  lemma RecordsSnoc(parse: string -> Option<Record>, lines: seq<string>, line: string)
    ensures StatsOf(RecordsOn(parse, lines + [line]))
         == AddOption(StatsOf(RecordsOn(parse, lines)), RecordOn(parse, line, lines == []))
  {
    assert (lines + [line])[..|lines|] == lines;
    StatsAppend(RecordsOn(parse, lines), RecordOn(parse, line, lines == []));
  }

  // ----- statistics by key -----

  function AddRecord(stats: map<Key, Summary>, r: Record): map<Key, Summary> {
    var key := (r.cat, r.name);
    stats[key := (if key in stats then stats[key] else EMPTY).Add(r.dur)]
  }

  function AddOption(stats: map<Key, Summary>, r: Option<Record>): map<Key, Summary> {
    if r.None? then stats else AddRecord(stats, r.value)
  }

  function StatsOf(records: seq<Record>): map<Key, Summary> {
    if records == [] then map[] else AddRecord(StatsOf(records[..|records| - 1]), records[|records| - 1])
  }

  lemma StatsAppend(records: seq<Record>, r: Option<Record>)
    ensures StatsOf(Append(records, r)) == AddOption(StatsOf(records), r)
  {
    if r.Some? {
      assert (records + [r.value])[..|records|] == records;
    }
  }

  // ----- the program -----

  /** The statistics of each key, updated in place. */
  class StatsMap {
    var table: map<Key, Stats>
    ghost var Repr: set<Stats>

    /** No two keys share their statistics. */
    ghost predicate Valid()
      reads this
    {
      forall key :: key in table ==> table[key] in Repr && table[key].owner == key
    }

    function Value(): map<Key, Summary>
      requires Valid()
      reads this, Repr
    {
      map key | key in table :: table[key].Value()
    }

    constructor ()
      ensures Valid() && Value() == map[] && Repr == {}
    {
      table, Repr := map[], {};
    }

    method Add(r: Record)
      requires Valid()
      modifies this, Repr
      ensures Valid() && fresh(Repr - old(Repr))
      ensures Value() == AddRecord(old(Value()), r)
    {
      var key := (r.cat, r.name);
      if key !in table {
        var stats := new Stats(key);
        table := table[key := stats];
        Repr := Repr + {stats};
      }
      table[key].Add(r.dur);
    }
  }

  /** The statistics are those of `lines`, the first of which is treated specially. */
  ghost predicate Handled(parse: string -> Option<Record>, lines: seq<string>, firstLine: bool,
                          stats: map<Key, Summary>) {
    firstLine == (lines == []) && stats == StatsOf(RecordsOn(parse, lines))
  }

  /** The first `pos` characters of `text` are whole lines, which after those of `before` make up `lines`. */
  ghost predicate Taken(before: seq<string>, text: string, pos: nat, lines: seq<string>) {
    pos <= |text| && Lines(text[..pos]).rest == "" && lines == before + Lines(text[..pos]).lines
  }

  lemma Slices(text: string, pos: nat, newline: nat)
    requires pos <= newline <= |text|
    ensures text[..pos] + text[pos..newline] == text[..newline]
    ensures newline < |text| ==> text[..newline] + [text[newline]] == text[..newline + 1]
    ensures newline == |text| ==> text[..newline] == text && text[pos..newline] == text[pos..]
  {
  }

  /** The first newline of `text` from `pos` on is at `newline`, or there is none and that is the end. */
  ghost predicate IsNewline(text: string, pos: nat, newline: nat) {
    pos <= newline <= |text| && NoNewline(text[pos..newline]) && (newline < |text| ==> text[newline] == '\n')
  }

  /** The text up to the next newline is one more line; without one, it is the rest. */
  lemma TakeLine(before: seq<string>, text: string, pos: nat, newline: nat, lines: seq<string>)
    requires Taken(before, text, pos, lines) && IsNewline(text, pos, newline)
    ensures newline < |text| ==> Taken(before, text, newline + 1, lines + [text[pos..newline]])
    ensures newline == |text| ==> Lines(text).rest == text[pos..] && lines == before + Lines(text).lines
  {
    Slices(text, pos, newline);
    LineAfter(text[..pos], text[pos..newline]);
    Regroup(before, Lines(text[..pos]).lines, [text[pos..newline]]);
  }

  /** Handles one complete line, which follows those of `lines`. */
  method HandleLine(parse: string -> Option<Record>, raw: string, firstLine: bool, stats: StatsMap,
                    ghost lines: seq<string>)
    requires stats.Valid() && Handled(parse, lines, firstLine, stats.Value())
    modifies stats, stats.Repr
    ensures stats.Valid() && fresh(stats.Repr - old(stats.Repr))
    ensures Handled(parse, lines + [raw], false, stats.Value())
  {
    RecordsSnoc(parse, lines, raw);
    var line := ChopReturn(raw);
    if firstLine && line == "[" { return; }
    if line == "]" { return; }
    if line == "" { return; }
    var record := parse(line);
    if record.None? { return; }
    stats.Add(record.value);
  }

  /** The position of the first newline of `text` from `pos` on, or its length. */
  method FindNewline(text: string, pos: nat) returns (newline: nat)
    requires pos <= |text|
    ensures IsNewline(text, pos, newline)
  {
    newline := pos;
    while newline < |text| && text[newline] != '\n'
      invariant pos <= newline <= |text| && NoNewline(text[pos..newline])
    {
      assert text[pos..newline + 1][..newline - pos] == text[pos..newline];
      newline := newline + 1;
    }
  }

  /** The line of `text` at `pos`, if it is complete, and where the next one starts. */
  method NextLine(text: string, pos: nat, ghost before: seq<string>, ghost lines: seq<string>)
    returns (line: Option<string>, next: nat)
    requires Taken(before, text, pos, lines)
    ensures line.Some? ==> pos < next && Taken(before, text, next, lines + [line.value])
    ensures line.None? ==> next == pos && Lines(text).rest == text[pos..] && lines == before + Lines(text).lines
  {
    var newline := FindNewline(text, pos);
    TakeLine(before, text, pos, newline, lines);
    if newline == |text| { return None, pos; }
    return Some(text[pos..newline]), newline + 1;
  }

  lemma TakeNone(before: seq<string>, text: string)
    ensures Taken(before, text, 0, before)
  {
    assert text[..0] == "" && before + [] == before;
  }

  /** Handles every complete line of `leftover`, `before` being the lines handled earlier. */
  method TakeLines(parse: string -> Option<Record>, leftover: string, wasFirst: bool, stats: StatsMap,
                   ghost before: seq<string>)
    returns (rest: string, firstLine: bool)
    requires stats.Valid() && Handled(parse, before, wasFirst, stats.Value())
    modifies stats, stats.Repr
    ensures rest == Lines(leftover).rest
    ensures stats.Valid() && Handled(parse, before + Lines(leftover).lines, firstLine, stats.Value())
    ensures fresh(stats.Repr - old(stats.Repr))
  {
    firstLine := wasFirst;
    var pos := 0;
    ghost var lines := before;
    TakeNone(before, leftover);
    while true
      invariant stats.Valid() && fresh(stats.Repr - old(stats.Repr)) && Handled(parse, lines, firstLine, stats.Value())
      invariant Taken(before, leftover, pos, lines)
      decreases |leftover| - pos
    {
      var line, next := NextLine(leftover, pos, before, lines);
      if line.None? { break; }
      HandleLine(parse, line.value, firstLine, stats, lines);
      pos, firstLine, lines := next, false, lines + [line.value];
    }
    rest := leftover[pos..];
  }

  /** Handles an unterminated last line, after the complete lines of `seen`. */
  method TakeRest(parse: string -> Option<Record>, leftover: string, firstLine: bool, stats: StatsMap,
                  ghost seen: string)
    requires stats.Valid() && leftover == Lines(seen).rest
    requires Handled(parse, Lines(seen).lines, firstLine, stats.Value())
    modifies stats, stats.Repr
    ensures stats.Valid() && stats.Value() == StatsOf(RecordsIn(parse, seen))
  {
    StatsAppend(RecordsOn(parse, Lines(seen).lines), RecordAtEnd(parse, leftover));
    if leftover != "" {
      var line := ChopReturn(leftover);
      if line != "]" && line != "" {
        var record := parse(line);
        if record.Some? {
          stats.Add(record.value);
        }
      }
    }
  }

  function Concat(chunks: seq<string>): string {
    if chunks == [] then "" else Concat(chunks[..|chunks| - 1]) + chunks[|chunks| - 1]
  }

  /**
   However the stream is cut into chunks, the statistics are those of the records on the lines
   of the whole stream.  What is left of a chunk after its last newline is carried over.
   */
  method AggregateTrace(chunks: seq<string>, parse: string -> Option<Record>) returns (stats: StatsMap)
    ensures stats.Valid() && stats.Value() == StatsOf(RecordsIn(parse, Concat(chunks)))
  {
    stats := new StatsMap();
    var firstLine, leftover := true, "";
    for i := 0 to |chunks|
      invariant fresh(stats) && fresh(stats.Repr) && stats.Valid()
      invariant leftover == Lines(Concat(chunks[..i])).rest
      invariant Handled(parse, Lines(Concat(chunks[..i])).lines, firstLine, stats.Value())
    {
      ghost var seen := Concat(chunks[..i]);
      assert chunks[..i + 1][..i] == chunks[..i];
      LinesConcat(seen, chunks[i]);
      leftover := leftover + chunks[i];
      leftover, firstLine := TakeLines(parse, leftover, firstLine, stats, Lines(seen).lines);
    }
    assert chunks[..|chunks|] == chunks;
    TakeRest(parse, leftover, firstLine, stats, Concat(chunks));
  }
}
