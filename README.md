# Automotive log parser — Dafny model

This project models the core of a command-line tool. The tool reads a
comma-separated vehicle diagnostic log and turns each line into a JSON record
with these fields: `timestamp_str`, `timestamp_epoch`, `level`, `type`,
`description` and an optional `value`. The model covers two parts:

- the tokenizer `split(s, delimiter)`, which calls `std::getline` on a string
  stream until a call fails;
- the line loop of `main`, which counts lines, drops lines with fewer than
  four tokens, glues tokens 3 onward back together as the description, parses
  the timestamp and, for three sensor types, parses the description as a
  number.

Files:

- `options.dfy` — the `Option` type used for the fields that may be null.
- `tokens.dfy` (module `Tokens`):
  - `Pieces` is the reference definition of what `split` returns.
  - `Split` and `GetLine` are the imperative loop, proved equal to `Pieces`.
  - `Join` glues tokens back together, for the round-trip lemmas.
  - The remaining lemmas state what `split` promises.
- `log_parser.dfy` (module `LogParser`):
  - The records and warnings.
  - One iteration of the loop (`ProcessLine`).
  - The loop's state after reading a list of lines (`ParseLog`), and a
    head-first reference definition of the entries (`Records`).
  - The imperative loop (`ParseLines`, `RejoinDescription`), proved equal to
    both.
  - The properties of the loop.
- `scenarios.dfy` (module `Scenarios`) — what the model yields on concrete
  and parametrised lines, proved as lemmas: the quirks of `split` and one
  line of each kind.

The library parsers are parameters:

- A `Parsers` value holds two total functions. `time` stands for
  `std::get_time` with the format `%Y-%m-%d %H:%M:%S` followed by
  `std::mktime`; it returns `None` when the stream's fail bit is set.
  `number` stands for `std::stod`; it returns `None` when `stod` throws.
- The `value` key has three states: `Omitted` (key not written), `Null` and
  `Number(x)`.
- Warnings are modelled by kind and 1-based line number. Their text is not
  modelled.

`std::stod` and `std::get_time` accept a numeric or date prefix followed by
other text: `"3000rpm"` gives 3000, and nothing checks for characters left
after the timestamp. Both parsers are parameters, so every lemma holds
whatever they accept. The scenarios only fix the parsers' answers on the
inputs they use.

Behaviour of `split` as written:

- The empty line gives no tokens.
- `","` gives one empty token.
- One trailing delimiter gives no trailing empty token, so `"t,l,T,"` has
  three tokens and is dropped.
- `"t,l,T,a,"` is kept, and its description is `"a"`.

## Model

| member | source | states |
|---|---|---|
| Tokens.NextDelimiter | parser/src/main.cpp:16 | one `getline` call reading from a position stops at a position no smaller, within the string, and on the delimiter unless it reached the end |
| Tokens.NoDelimiterBefore | parser/src/main.cpp:16 | the text one `getline` call reads holds no delimiter |
| Tokens.GetLine | parser/src/main.cpp:16-17 | one `getline` call returns the next token and a resume position strictly further on; that token followed by the tokens from the resume position are the tokens from the start position |
| Tokens.Split | parser/src/main.cpp:12-20 | the token-collecting loop returns exactly the tokens of the reference definition `Pieces` |
| Tokens.PiecesEmpty | parser/src/main.cpp:12-20 | `split` returns no tokens if and only if the input is empty |
| Tokens.PiecesHaveNoDelimiter | parser/src/main.cpp:16-17 | no token returned by `split` contains the delimiter |
| Tokens.JoinPieces | parser/src/main.cpp:12-20 | gluing the tokens back with the delimiter gives the input, less one trailing delimiter if it ends in one |
| Tokens.PiecesJoin | parser/src/main.cpp:12-20 | splitting glued tokens gives them back when none holds the delimiter and the last one is not empty; empty tokens in the middle are preserved |
| Tokens.PiecesCount | parser/src/main.cpp:12-20 | the number of tokens is 0 for the empty input; it is the number of delimiters if the input ends in one, and one more otherwise |
| Tokens.PiecesTrailingDelimiter | parser/src/main.cpp:16 | adding a delimiter at the end adds an empty token only when the text before it is empty or already ends in the delimiter; otherwise the tokens are unchanged |
| Tokens.JoinCount | parser/src/main.cpp:57-59 | gluing n delimiter-free tokens inserts exactly n - 1 delimiters |
| Tokens.JoinSnoc | parser/src/main.cpp:57-59 | appending one token to the glued text adds the delimiter and that token at the end |
| LogParser.RejoinDescription | parser/src/main.cpp:55-60 | the loop that rebuilds the description returns tokens 3 onward joined with commas |
| LogParser.ParseLines | parser/src/main.cpp:41-84 | after the line loop, the entries, the warnings and the line counter equal the state `ParseLog` defines; the entries equal the reference list `Records`, and the counter equals the number of lines read |
| LogParser.ParseLog | parser/src/main.cpp:39-42 | the line counter ends at the number of lines read, skipped lines included |
| LogParser.EntriesInOrder | parser/src/main.cpp:83 | the entries are the records of the well-formed lines, in input order |
| LogParser.MalformedLineDropped | parser/src/main.cpp:45-48 | a malformed line adds no entry; the lines before and after it contribute as if it were absent |
| LogParser.EntryCount | parser/src/main.cpp:41-48 | entries plus malformed-line warnings equals the number of lines read |
| LogParser.EntryCountStep | parser/src/main.cpp:45-83 | each line adds exactly one to the entries or to the malformed-line warnings |
| LogParser.MalformedIffFewCommas | parser/src/main.cpp:43-45 | a line is dropped exactly when it has fewer than three commas, or exactly three with the last one at the end of the line |
| LogParser.MalformedLineOutcome | parser/src/main.cpp:45-48 | a malformed line yields no entry and exactly one malformed-line warning carrying its line number |
| LogParser.WellFormedLineOutcome | parser/src/main.cpp:50-71 | a line with at least four tokens yields an entry; tokens 0-2 are copied verbatim and the epoch is what the time parser gives for token 0; there is a timestamp warning for that line if and only if the parse fails, and no warning otherwise; the value key is `ValueOf` of token 2 and the description |
| LogParser.DescriptionAfterThirdComma | parser/src/main.cpp:43-60 | tokens 0-2 hold no comma; the line, less one trailing comma, is tokens 0-2 and the description separated by commas, so the description is the text after the third comma |
| LogParser.RecordValues | parser/src/main.cpp:73-83 | every entry of a log carries the value key `ValueOf` gives for its own type and description |
| LogParser.ValueRule | parser/src/main.cpp:73-81 | the value is written if and only if the type is one of the three sensor types; it is null if and only if additionally the number parse fails; otherwise it is the parsed number |
| LogParser.LastLineWarnings | parser/src/main.cpp:41-84 | the warnings of a log are those of all earlier lines followed by those of the last line, which all carry the last line's number |
| LogParser.MalformedWarnings | parser/src/main.cpp:45-47 | there is a malformed-line warning for line n if and only if 1 <= n <= number of lines and line n has fewer than four tokens |
| LogParser.TimestampWarnings | parser/src/main.cpp:62-71 | there is a timestamp warning for line n if and only if line n exists, is well formed, and its first token does not parse as a time |
| LogParser.WarningsInLineOrder | parser/src/main.cpp:41-84 | every warning names a line that was read, and warnings appear in nondecreasing line order |
| Scenarios.SplitEmpty | parser/src/main.cpp:12-20 | the empty string splits into no tokens |
| Scenarios.SplitLoneComma | parser/src/main.cpp:12-20 | "," splits into one empty token |
| Scenarios.SplitTrailingComma | parser/src/main.cpp:12-20 | "a,b," splits into "a" and "b" |
| Scenarios.SplitEmptyMiddle | parser/src/main.cpp:12-20 | "a,,b" splits into "a", "" and "b" |
| Scenarios.TrailingCommaDropsLine | parser/src/main.cpp:43-48 | three comma-free fields, the third non-empty, followed by a trailing comma (as in "t,l,T,") form a malformed line |
| Scenarios.TrailingCommaLeftOffDescription | parser/src/main.cpp:43-60 | four comma-free fields, the fourth non-empty, followed by a trailing comma (as in "t,l,T,a,") are kept, and the description is the fourth field without the comma |
| Scenarios.SpeedLineOutcome | parser/src/main.cpp:50-83 | a Vehicle Speed line with a valid timestamp gets its epoch and value 55.5, with no warning |
| Scenarios.ShortLineOutcome | parser/src/main.cpp:43-48 | "bad,line" yields no entry and a malformed-line warning for its line |
| Scenarios.BadDateLineOutcome | parser/src/main.cpp:62-81 | an Engine RPM line whose timestamp does not parse is kept with a null epoch, a timestamp warning, and value 3000 |
| Scenarios.NoteLineOutcome | parser/src/main.cpp:55-81 | a Note line's description "hello,world,42" survives with its commas, and no value key is written |
| Scenarios.IdleLineOutcome | parser/src/main.cpp:73-81 | an Engine RPM line with description "idle" is kept with a null value |

## Left out

- The argument check, opening the input and output files, and the exit codes
  (parser/src/main.cpp:23-35, 86-92) are I/O and are not modelled. The loop
  takes the file's lines as a sequence of strings.
- Reading the file into lines (`std::getline` on the file stream at line 41)
  is not modelled. The lines are given as they come out, including any
  carriage return a CRLF file would leave on them.
- The JSON library (lines 37, 50, 94) is not modelled. Serialisation,
  pretty-printing and key order are left out, and a record is a datatype.
- The internals of `std::get_time` and `std::mktime` are not modelled: the
  local time zone, the range checks and what a prefix match accepts. They
  are the `Parsers.time` parameter.
- The internals of `std::stod` are not modelled: prefix parsing, the
  out-of-range exception and rounding to `double`. They are the
  `Parsers.number` parameter, and a number is a `real`.
- `std::stod("nan")` and `std::stod("inf")` return a non-finite double
  without throwing, which no `real` stands for; the JSON library writes it
  as null. A `Parsers.number` that maps these inputs to `None` reproduces
  that output.
- A line of the source is a `std::string` of bytes; here it is a `string`
  of characters, one character per byte. This is exact for the parser,
  because a `','` byte never occurs inside a UTF-8 multi-byte sequence and
  the three sensor type names are ASCII.
- The text of the warnings on standard error and the final confirmation
  message (lines 46, 67, 97) is not modelled. A warning is its kind and line
  number.
- ParseLines: the line counter is an unbounded `nat`. The 32-bit
  `int lineNum` of the source would overflow after 2^31 - 1 lines; that is
  not modelled.
