/**
 * The line loop of the log parser: every input line is counted, cut on ','
 * and either dropped with a warning (fewer than four tokens) or turned into
 * one log entry that is appended to the output in input order.
 *
 * The two library parsers the loop calls are not modelled: `Parsers.time`
 * stands for `std::get_time` with format "%Y-%m-%d %H:%M:%S" followed by
 * `std::mktime` (None when the stream's fail bit is set), and
 * `Parsers.number` stands for `std::stod` (None when it throws).
 */
module LogParser {

  import opened Options
  import opened Tokens

  datatype Parsers = Parsers(time: string -> Option<int>, number: string -> Option<real>)

  /** The `value` key of an entry: not written, written as null, or a number. */
  datatype Value = Omitted | Null | Number(x: real)

  /** One JSON entry of the output array. */
  datatype LogRecord = LogRecord(
    timestampStr: string,
    timestampEpoch: Option<int>,
    level: string,
    eventType: string,
    description: string,
    value: Value)

  /** A warning written to standard error, by kind and 1-based line number. */
  datatype WarningKind = MalformedLine | UnparsableTimestamp
  datatype Warning = Warning(kind: WarningKind, line: nat)

  /** What one iteration of the loop contributes. */
  datatype LineOutcome = LineOutcome(entry: Option<LogRecord>, warnings: seq<Warning>)

  /** The loop's state after a run: the entries, the warnings, the line counter. */
  datatype Report = Report(entries: seq<LogRecord>, warnings: seq<Warning>, lineNum: nat)

  const Delimiter: char := ','

  /** A line is dropped when it splits into fewer than four tokens. */
  predicate Malformed(line: string)
  {
    |Pieces(line, Delimiter)| < 4
  }

  /** Tokens 3 onward glued back together with commas. */
  function Description(parts: seq<string>): string
    requires |parts| >= 4
  {
    Join(parts[3..], Delimiter)
  }

  /** The `value` key: tried only for the three sensor types, null when the
      number does not parse. */
  function ValueOf(eventType: string, description: string, p: Parsers): Value
  {
    if eventType == "Engine RPM" || eventType == "Battery Voltage" || eventType == "Vehicle Speed" then
      match p.number(description)
      case Some(x) => Number(x)
      case None => Null
    else Omitted
  }

  /** The entry built from the tokens of a line that has at least four. */
  function BuildRecord(parts: seq<string>, p: Parsers): LogRecord
    requires |parts| >= 4
  {
    var description := Description(parts);
    LogRecord(parts[0], p.time(parts[0]), parts[1], parts[2], description,
              ValueOf(parts[2], description, p))
  }

  /** One iteration of the loop on the line numbered `lineNum`. */
  function ProcessLine(line: string, lineNum: nat, p: Parsers): LineOutcome
  {
    var parts := Pieces(line, Delimiter);
    if |parts| < 4 then LineOutcome(None, [Warning(MalformedLine, lineNum)])
    else
      var entry := BuildRecord(parts, p);
      LineOutcome(Some(entry),
                  if entry.timestampEpoch.None? then [Warning(UnparsableTimestamp, lineNum)] else [])
  }

  function EntryList(o: Option<LogRecord>): seq<LogRecord>
  {
    match o
    case Some(e) => [e]
    case None => []
  }

  /** The loop's state after reading `lines`: the loop run on the last line
      after the loop on all the others. The counter ends at the number of
      lines read, skipped ones included. */
  function ParseLog(lines: seq<string>, p: Parsers): (r: Report)
    ensures r.lineNum == |lines|
    decreases |lines|
  {
    if lines == [] then Report([], [], 0)
    else
      var before := ParseLog(lines[..|lines| - 1], p);
      var lineNum := before.lineNum + 1;
      var out := ProcessLine(lines[|lines| - 1], lineNum, p);
      Report(before.entries + EntryList(out.entry), before.warnings + out.warnings, lineNum)
  }

  /** Reference definition of the entries: the well-formed lines, in order,
      each turned into its record. */
  function Records(lines: seq<string>, p: Parsers): seq<LogRecord>
  {
    if lines == [] then []
    else
      (if Malformed(lines[0]) then [] else [BuildRecord(Pieces(lines[0], Delimiter), p)])
      + Records(lines[1..], p)
  }

  /** The number of malformed-line warnings in `ws`. */
  function MalformedCount(ws: seq<Warning>): nat
  {
    if ws == [] then 0
    else MalformedCount(ws[..|ws| - 1]) + (if ws[|ws| - 1].kind == MalformedLine then 1 else 0)
  }

  // ---------------------------------------------------------------------
  // The imperative code
  // ---------------------------------------------------------------------

  /** Rebuilds the description: token 3, then ',' and each later token. */
  method RejoinDescription(parts: seq<string>) returns (description: string)
    requires |parts| >= 4
    ensures description == Description(parts)
  {
    description := parts[3];
    for i := 4 to |parts|
      invariant description == Join(parts[3..i], Delimiter)
    {
      JoinSnoc(parts[3..i], parts[i], Delimiter);
      assert parts[3..i + 1] == parts[3..i] + [parts[i]];
      description := description + [Delimiter] + parts[i];
    }
    assert parts[3..|parts|] == parts[3..];
  }

  /** The `while (std::getline(inputFile, line))` loop of `main`. */
  method ParseLines(lines: seq<string>, p: Parsers)
    returns (logEntries: seq<LogRecord>, warnings: seq<Warning>, lineNum: nat)
    ensures Report(logEntries, warnings, lineNum) == ParseLog(lines, p)
    ensures logEntries == Records(lines, p)
    ensures lineNum == |lines|
  {
    logEntries, warnings, lineNum := [], [], 0;
    var k := 0;
    while k < |lines|
      invariant k <= |lines|
      invariant Report(logEntries, warnings, lineNum) == ParseLog(lines[..k], p)
    {
      var line := lines[k];
      assert lines[..k + 1][..k] == lines[..k];
      k := k + 1;
      lineNum := lineNum + 1;
      var parts := Split(line, Delimiter);

      if |parts| < 4 {
        warnings := warnings + [Warning(MalformedLine, lineNum)];
        continue;
      }

      var description := RejoinDescription(parts);

      var timestampEpoch := p.time(parts[0]);
      if timestampEpoch.None? {
        warnings := warnings + [Warning(UnparsableTimestamp, lineNum)];
      }

      var value := Omitted;
      if parts[2] == "Engine RPM" || parts[2] == "Battery Voltage" || parts[2] == "Vehicle Speed" {
        match p.number(description) {
          case Some(x) => value := Number(x);
          case None => value := Null;
        }
      }

      logEntries := logEntries + [LogRecord(parts[0], timestampEpoch, parts[1], parts[2], description, value)];
    }
    assert lines[..k] == lines;
    EntriesInOrder(lines, p);
  }

  // ---------------------------------------------------------------------
  // Properties of the loop
  // ---------------------------------------------------------------------

  /** Reading one more line runs one more iteration on it, numbered after
      the lines already read. */
  lemma ParseLogStep(lines: seq<string>, line: string, p: Parsers)
    ensures var before := ParseLog(lines, p);
            var out := ProcessLine(line, |lines| + 1, p);
            ParseLog(lines + [line], p) ==
              Report(before.entries + EntryList(out.entry), before.warnings + out.warnings, |lines| + 1)
  {
    assert (lines + [line])[..|lines|] == lines;
  }

  lemma {:induction false} RecordsAppend(a: seq<string>, b: seq<string>, p: Parsers)
    ensures Records(a + b, p) == Records(a, p) + Records(b, p)
    decreases |a|
  {
    if a != [] {
      assert (a + b)[0] == a[0] && (a + b)[1..] == a[1..] + b;
      RecordsAppend(a[1..], b, p);
      var head := if Malformed(a[0]) then [] else [BuildRecord(Pieces(a[0], Delimiter), p)];
      assert Records(a + b, p) == head + Records(a[1..] + b, p);
      assert Records(a, p) == head + Records(a[1..], p);
    } else {
      assert a + b == b;
    }
  }

  /** The entries are the records of the well-formed lines, in input order. */
  lemma {:induction false} EntriesInOrder(lines: seq<string>, p: Parsers)
    ensures ParseLog(lines, p).entries == Records(lines, p)
    decreases |lines|
  {
    if lines != [] {
      var init, last := lines[..|lines| - 1], lines[|lines| - 1];
      assert lines == init + [last];
      EntriesInOrder(init, p);
      RecordsAppend(init, [last], p);
    }
  }

  /** A malformed line contributes nothing, and the lines after it are still
      processed. */
  lemma MalformedLineDropped(before: seq<string>, line: string, after: seq<string>, p: Parsers)
    requires Malformed(line)
    ensures Records(before + [line] + after, p) == Records(before, p) + Records(after, p)
  {
    RecordsAppend(before + [line], after, p);
    RecordsAppend(before, [line], p);
  }

  lemma MalformedCountSnoc(ws: seq<Warning>, w: Warning)
    ensures MalformedCount(ws + [w]) == MalformedCount(ws) + (if w.kind == MalformedLine then 1 else 0)
  {
    assert (ws + [w])[..|ws|] == ws;
  }

  /** One more line adds one to the entries or one malformed-line warning. */
  lemma EntryCountStep(init: seq<string>, line: string, p: Parsers)
    ensures var before, after := ParseLog(init, p), ParseLog(init + [line], p);
            |after.entries| + MalformedCount(after.warnings) ==
            |before.entries| + MalformedCount(before.warnings) + 1
  {
    ParseLogStep(init, line, p);
    var before := ParseLog(init, p);
    var out := ProcessLine(line, |init| + 1, p);
    if Malformed(line) {
      assert before.entries + EntryList(out.entry) == before.entries;
      MalformedCountSnoc(before.warnings, Warning(MalformedLine, |init| + 1));
    } else if out.warnings != [] {
      MalformedCountSnoc(before.warnings, Warning(UnparsableTimestamp, |init| + 1));
    } else {
      assert before.warnings + out.warnings == before.warnings;
    }
  }

  /** Every line read yields either an entry or a malformed-line warning. */
  lemma {:induction false} EntryCount(lines: seq<string>, p: Parsers)
    ensures |ParseLog(lines, p).entries| + MalformedCount(ParseLog(lines, p).warnings) == |lines|
    decreases |lines|
  {
    if lines != [] {
      var init := lines[..|lines| - 1];
      assert init + [lines[|lines| - 1]] == lines;
      EntryCount(init, p);
      EntryCountStep(init, lines[|lines| - 1], p);
    }
  }

  /** A line is malformed exactly when it has fewer than three commas, or
      three commas with the last one at its very end ("t,l,T," is dropped). */
  lemma MalformedIffFewCommas(line: string)
    ensures Malformed(line) <==>
      multiset(line)[Delimiter] < 3 ||
      (multiset(line)[Delimiter] == 3 && line[|line| - 1] == Delimiter)
  {
    PiecesCount(line, Delimiter);
  }

  /** A malformed line yields no entry and one malformed-line warning naming it. */
  lemma MalformedLineOutcome(line: string, lineNum: nat, p: Parsers)
    requires Malformed(line)
    ensures ProcessLine(line, lineNum, p) == LineOutcome(None, [Warning(MalformedLine, lineNum)])
  {
  }

  /** A line with at least four tokens yields one entry whose first three
      fields are tokens 0, 1 and 2 verbatim, whose epoch is what the time
      parser gives for token 0, and which comes with a timestamp warning
      exactly when that parse fails. */
  lemma WellFormedLineOutcome(line: string, lineNum: nat, p: Parsers)
    requires !Malformed(line)
    ensures var parts := Pieces(line, Delimiter);
            var out := ProcessLine(line, lineNum, p);
            && out.entry.Some?
            && out.entry.value.timestampStr == parts[0]
            && out.entry.value.level == parts[1]
            && out.entry.value.eventType == parts[2]
            && out.entry.value.description == Description(parts)
            && out.entry.value.timestampEpoch == p.time(parts[0])
            && out.entry.value.value == ValueOf(parts[2], Description(parts), p)
            && (out.entry.value.timestampEpoch.None? ==> out.warnings == [Warning(UnparsableTimestamp, lineNum)])
            && (out.entry.value.timestampEpoch.Some? ==> out.warnings == [])
  {
  }

  /** The description is the text after the line's third comma, less one
      trailing comma if the line ends in one. */
  lemma DescriptionAfterThirdComma(line: string)
    requires !Malformed(line)
    ensures var parts := Pieces(line, Delimiter);
            && Delimiter !in parts[0] && Delimiter !in parts[1] && Delimiter !in parts[2]
            && DropTrailing(line, Delimiter) ==
               parts[0] + [Delimiter] + parts[1] + [Delimiter] + parts[2] + [Delimiter] + Description(parts)
  {
    var parts := Pieces(line, Delimiter);
    PiecesHaveNoDelimiter(line, Delimiter, 0);
    JoinPieces(line, Delimiter);
    assert parts[1..][1..] == parts[2..] && parts[2..][1..] == parts[3..];
    assert Join(parts, Delimiter) == parts[0] + [Delimiter] + Join(parts[1..], Delimiter);
    assert Join(parts[1..], Delimiter) == parts[1] + [Delimiter] + Join(parts[2..], Delimiter);
    assert Join(parts[2..], Delimiter) == parts[2] + [Delimiter] + Join(parts[3..], Delimiter);
  }

  /** Every entry of a log carries the value key its own type and
      description call for. */
  lemma {:induction false} RecordValues(lines: seq<string>, p: Parsers)
    ensures forall e :: e in Records(lines, p) ==> e.value == ValueOf(e.eventType, e.description, p)
    decreases |lines|
  {
    if lines != [] {
      RecordValues(lines[1..], p);
    }
  }

  /** The `value` key is written only for the three sensor types, and is null
      exactly when the number parser fails on the description. */
  lemma ValueRule(eventType: string, description: string, p: Parsers)
    ensures var v := ValueOf(eventType, description, p);
            && (!v.Omitted? <==> eventType in {"Engine RPM", "Battery Voltage", "Vehicle Speed"})
            && (v.Null? <==> eventType in {"Engine RPM", "Battery Voltage", "Vehicle Speed"} && p.number(description).None?)
            && (v.Number? ==> p.number(description) == Some(v.x))
  {
  }

  /** The warnings one line contributes all carry that line's number. */
  lemma LastLineWarnings(lines: seq<string>, p: Parsers)
    requires lines != []
    ensures var ws := ParseLog(lines, p).warnings;
            var before := ParseLog(lines[..|lines| - 1], p).warnings;
            var out := ProcessLine(lines[|lines| - 1], |lines|, p).warnings;
            ws == before + out && forall w :: w in out ==> w.line == |lines|
  {
  }

  /** A malformed-line warning names exactly the lines that split into fewer
      than four tokens. */
  lemma {:induction false} MalformedWarnings(lines: seq<string>, p: Parsers, n: nat)
    ensures Warning(MalformedLine, n) in ParseLog(lines, p).warnings <==>
            1 <= n <= |lines| && Malformed(lines[n - 1])
    decreases |lines|
  {
    if lines != [] {
      var init := lines[..|lines| - 1];
      MalformedWarnings(init, p, n);
      LastLineWarnings(lines, p);
      if 1 <= n < |lines| {
        assert lines[n - 1] == init[n - 1];
      }
    }
  }

  /** A timestamp warning names exactly the well-formed lines whose first
      token does not parse as a time; each such line still yields an entry. */
  lemma {:induction false} TimestampWarnings(lines: seq<string>, p: Parsers, n: nat)
    ensures Warning(UnparsableTimestamp, n) in ParseLog(lines, p).warnings <==>
            1 <= n <= |lines| && !Malformed(lines[n - 1]) &&
            p.time(Pieces(lines[n - 1], Delimiter)[0]).None?
    decreases |lines|
  {
    if lines != [] {
      var init := lines[..|lines| - 1];
      TimestampWarnings(init, p, n);
      LastLineWarnings(lines, p);
      if 1 <= n < |lines| {
        assert lines[n - 1] == init[n - 1];
      }
    }
  }

  /** Warnings come out in line order, each naming a line that was read. */
  lemma {:induction false} WarningsInLineOrder(lines: seq<string>, p: Parsers)
    ensures var ws := ParseLog(lines, p).warnings;
            forall i :: 0 <= i < |ws| ==> 1 <= ws[i].line <= |lines|
    ensures var ws := ParseLog(lines, p).warnings;
            forall i, j :: 0 <= i < j < |ws| ==> ws[i].line <= ws[j].line
    decreases |lines|
  {
    if lines != [] {
      var init := lines[..|lines| - 1];
      WarningsInLineOrder(init, p);
      LastLineWarnings(lines, p);
      var before := ParseLog(init, p).warnings;
      var out := ProcessLine(lines[|lines| - 1], |lines|, p).warnings;
      var ws := ParseLog(lines, p).warnings;
      forall i | 0 <= i < |ws|
        ensures 1 <= ws[i].line <= |lines|
      {
        if i < |before| {
          assert ws[i] == before[i];
        } else {
          assert ws[i] in out;
        }
      }
      forall i, j | 0 <= i < j < |ws|
        ensures ws[i].line <= ws[j].line
      {
        if j >= |before| {
          assert ws[j] in out;
          if i >= |before| {
            assert ws[i] in out;
          } else {
            assert ws[i] == before[i];
          }
        }
      }
    }
  }
}
