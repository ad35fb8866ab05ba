/** What the model yields on concrete and parametrised lines, proved as
    lemmas: the quirks of `split` and one line of each kind the line loop
    handles. */
module Scenarios {

  import opened Options
  import opened Tokens
  import opened LogParser

  lemma SplitEmpty()
    ensures Pieces("", ',') == []
  {
  }

  lemma SplitLoneComma()
    ensures Pieces(",", ',') == [""]
  {
    PiecesTrailingDelimiter("", ',');
    assert "" + [','] == ",";
  }

  lemma SplitTrailingComma()
    ensures Pieces("a,b,", ',') == ["a", "b"]
  {
    assert Join(["a", "b"], ',') == "a,b";
    PiecesJoin(["a", "b"], ',');
    PiecesTrailingDelimiter("a,b", ',');
    assert "a,b" + [','] == "a,b,";
  }

  lemma SplitEmptyMiddle()
    ensures Pieces("a,,b", ',') == ["a", "", "b"]
  {
    assert Join(["a", "", "b"], ',') == "a,,b";
    PiecesJoin(["a", "", "b"], ',');
  }

  /** A line of three fields ending in a comma, such as "t,l,T,", has only
      three tokens, so it is dropped. */
  lemma TrailingCommaDropsLine(t0: string, t1: string, t2: string)
    requires ',' !in t0 && ',' !in t1 && ',' !in t2 && t2 != []
    ensures Malformed(Join([t0, t1, t2], ',') + [','])
  {
    var ts := [t0, t1, t2];
    var line := Join(ts, ',');
    assert ts[1..] == [t1, t2] && [t1, t2][1..] == [t2];
    assert Join([t1, t2], ',') == t1 + [','] + t2;
    assert line == t0 + [','] + (t1 + [','] + t2);
    assert line[|line| - 1] == t2[|t2| - 1];
    PiecesJoin(ts, ',');
    PiecesTrailingDelimiter(line, ',');
  }

  /** A line of four fields ending in a comma, such as "t,l,T,a,", is kept,
      but its description is the fourth field without that comma. */
  lemma TrailingCommaLeftOffDescription(t0: string, t1: string, t2: string, x: string)
    requires ',' !in t0 && ',' !in t1 && ',' !in t2 && ',' !in x && x != []
    ensures !Malformed(Join([t0, t1, t2, x], ',') + [','])
    ensures Description(Pieces(Join([t0, t1, t2, x], ',') + [','], ',')) == x
  {
    var ts := [t0, t1, t2, x];
    var line := Join(ts, ',');
    assert ts[1..] == [t1, t2, x] && [t1, t2, x][1..] == [t2, x] && [t2, x][1..] == [x];
    assert Join([t2, x], ',') == t2 + [','] + x;
    assert Join([t1, t2, x], ',') == t1 + [','] + (t2 + [','] + x);
    assert line == t0 + [','] + (t1 + [','] + (t2 + [','] + x));
    assert line[|line| - 1] == x[|x| - 1];
    PiecesJoin(ts, ',');
    PiecesTrailingDelimiter(line, ',');
    assert Pieces(line + [','], ',') == ts;
    assert ts[3..] == [x];
  }

  // The lines below are built from their fields; `stamp` is any timestamp
  // text and `junk` any text the time parser rejects, neither holding a comma.

  /** A sensor reading gets its epoch and its numeric value. */
  lemma SpeedLineOutcome(p: Parsers, stamp: string, epoch: int, n: nat)
    requires ',' !in stamp
    requires p.time(stamp) == Some(epoch) && p.number("55.5") == Some(55.5)
    ensures ProcessLine(Join([stamp, "INFO", "Vehicle Speed", "55.5"], ','), n, p) ==
      LineOutcome(Some(LogRecord(stamp, Some(epoch), "INFO", "Vehicle Speed", "55.5", Number(55.5))), [])
  {
    var ts := [stamp, "INFO", "Vehicle Speed", "55.5"];
    PiecesJoin(ts, ',');
    assert ts[3..] == ["55.5"];
  }

  /** A line of two fields gives no entry and a warning naming it. */
  lemma ShortLineOutcome(p: Parsers, n: nat)
    ensures ProcessLine("bad,line", n, p) == LineOutcome(None, [Warning(MalformedLine, n)])
  {
    assert Join(["bad", "line"], ',') == "bad,line";
    PiecesJoin(["bad", "line"], ',');
  }

  /** A bad timestamp gives a null epoch and a warning, but the entry stays
      and its value is still parsed. */
  lemma BadDateLineOutcome(p: Parsers, junk: string, n: nat)
    requires ',' !in junk
    requires p.time(junk) == None && p.number("3000") == Some(3000.0)
    ensures ProcessLine(Join([junk, "INFO", "Engine RPM", "3000"], ','), n, p) ==
      LineOutcome(Some(LogRecord(junk, None, "INFO", "Engine RPM", "3000", Number(3000.0))),
                  [Warning(UnparsableTimestamp, n)])
  {
    var ts := [junk, "INFO", "Engine RPM", "3000"];
    PiecesJoin(ts, ',');
    assert ts[3..] == ["3000"];
  }

  /** Commas inside the description survive; an unknown type gets no value. */
  lemma NoteLineOutcome(p: Parsers, stamp: string, epoch: int, n: nat)
    requires ',' !in stamp
    requires p.time(stamp) == Some(epoch)
    ensures ProcessLine(Join([stamp, "INFO", "Note", "hello", "world", "42"], ','), n, p) ==
      LineOutcome(Some(LogRecord(stamp, Some(epoch), "INFO", "Note", "hello,world,42", Omitted)), [])
  {
    var ts := [stamp, "INFO", "Note", "hello", "world", "42"];
    PiecesJoin(ts, ',');
    assert ts[3..] == ["hello", "world", "42"];
    assert Join(["hello", "world", "42"], ',') == "hello,world,42";
  }

  /** A sensor type whose description is not a number gets a null value. */
  lemma IdleLineOutcome(p: Parsers, stamp: string, epoch: int, n: nat)
    requires ',' !in stamp
    requires p.time(stamp) == Some(epoch) && p.number("idle") == None
    ensures ProcessLine(Join([stamp, "INFO", "Engine RPM", "idle"], ','), n, p) ==
      LineOutcome(Some(LogRecord(stamp, Some(epoch), "INFO", "Engine RPM", "idle", Null)), [])
  {
    var ts := [stamp, "INFO", "Engine RPM", "idle"];
    PiecesJoin(ts, ',');
    assert ts[3..] == ["idle"];
  }
}
