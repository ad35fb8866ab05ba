/**
 * The tokenizer of the log parser: `split(s, delimiter)` cuts a string on one
 * delimiter character by calling `std::getline` on a string stream until a
 * call fails. Each call reads from the stream position up to the next
 * delimiter (or up to the end), stores that text as a token and consumes the
 * delimiter; a call made when nothing is left fails. So empty tokens in the
 * middle are kept, the empty string gives no tokens, and a single trailing
 * delimiter gives no trailing empty token.
 */
module Tokens {

  /** Where the `getline` call that starts at stream position `pos` stops:
      the first `d` at or after `pos`, or the end of `s`. */
  function NextDelimiter(s: string, d: char, pos: nat): (i: nat)
    requires pos <= |s|
    ensures pos <= i <= |s|
    ensures i < |s| ==> s[i] == d
    decreases |s| - pos
  {
    if pos == |s| || s[pos] == d then pos else NextDelimiter(s, d, pos + 1)
  }

  /** No delimiter lies between `pos` and the stopping point. */
  lemma {:induction false} NoDelimiterBefore(s: string, d: char, pos: nat)
    requires pos <= |s|
    ensures d !in s[pos..NextDelimiter(s, d, pos)]
    decreases |s| - pos
  {
    if pos < |s| && s[pos] != d {
      NoDelimiterBefore(s, d, pos + 1);
      assert s[pos..NextDelimiter(s, d, pos)] == [s[pos]] + s[pos + 1..NextDelimiter(s, d, pos + 1)];
    }
  }

  /** The stopping point is the only index with no `d` before it (from `pos`)
      and a `d`, or the end, at it. */
  lemma {:induction false} NextDelimiterUnique(s: string, d: char, pos: nat, j: nat)
    requires pos <= j <= |s|
    requires d !in s[pos..j]
    requires j < |s| ==> s[j] == d
    ensures NextDelimiter(s, d, pos) == j
    decreases j - pos
  {
    if pos < j {
      assert s[pos] == s[pos..j][0];
      assert s[pos + 1..j] == s[pos..j][1..];
      NextDelimiterUnique(s, d, pos + 1, j);
    }
  }

  /** The tokens the `getline` calls produce from stream position `pos` on. */
  function PiecesFrom(s: string, d: char, pos: nat): seq<string>
    requires pos <= |s|
    decreases |s| - pos
  {
    if pos == |s| then []
    else
      var i := NextDelimiter(s, d, pos);
      [s[pos..i]] + (if i < |s| then PiecesFrom(s, d, i + 1) else [])
  }

  /** The tokens `split(s, d)` returns. */
  function Pieces(s: string, d: char): seq<string>
  {
    PiecesFrom(s, d, 0)
  }

  /** A `getline` call that meets a delimiter: its token, then the tokens
      after that delimiter. */
  lemma PiecesStep(s: string, d: char, pos: nat, i: nat)
    requires pos < |s| && i == NextDelimiter(s, d, pos) && i < |s|
    ensures PiecesFrom(s, d, pos) == [s[pos..i]] + PiecesFrom(s, d, i + 1)
  {
  }

  /** A `getline` call that meets no delimiter takes all that is left. */
  lemma PiecesLast(s: string, d: char, pos: nat)
    requires pos < |s| && NextDelimiter(s, d, pos) == |s|
    ensures PiecesFrom(s, d, pos) == [s[pos..]]
  {
    assert s[pos..|s|] == s[pos..];
  }

  /** The glued form of tokens `ts`: `d` between neighbours. */
  function Join(ts: seq<string>, d: char): string
  {
    if ts == [] then []
    else if |ts| == 1 then ts[0]
    else ts[0] + [d] + Join(ts[1..], d)
  }

  /** `s` without its last character when that character is `d`. */
  function DropTrailing(s: string, d: char): string
  {
    if s != [] && s[|s| - 1] == d then s[..|s| - 1] else s
  }

  lemma AppendAssoc<T>(a: seq<T>, b: seq<T>, c: seq<T>)
    ensures a + (b + c) == (a + b) + c
  {
  }

  lemma DropTrailingAppend(a: string, b: string, d: char)
    requires b != []
    ensures DropTrailing(a + b, d) == a + DropTrailing(b, d)
  {
    if b[|b| - 1] == d {
      assert (a + b)[..|a + b| - 1] == a + b[..|b| - 1];
    }
  }

  lemma CountAround(a: string, d: char, b: string)
    requires d !in a
    ensures multiset(a + [d] + b)[d] == 1 + multiset(b)[d]
  {
    assert multiset(a + [d] + b) == multiset(a) + multiset{d} + multiset(b);
  }

  lemma SplitAt<T>(s: seq<T>, pos: nat, i: nat)
    requires pos <= i < |s|
    ensures s[pos..] == s[pos..i] + [s[i]] + s[i + 1..]
  {
    assert s[pos..] == s[pos..i] + s[i..];
    assert s[i..] == [s[i]] + s[i + 1..];
  }

  lemma Middle<T>(a: seq<T>, b: seq<T>, x: T, c: seq<T>)
    ensures (a + (b + [x] + c))[|a|..|a| + |b|] == b
    ensures (a + (b + [x] + c))[|a| + |b|] == x
  {
    assert (a + (b + [x] + c))[|a|..|a| + |b|] == (b + [x] + c)[..|b|];
  }

  /** `split` returns no tokens exactly for the empty string. */
  lemma PiecesEmpty(s: string, d: char)
    ensures Pieces(s, d) == [] <==> s == []
  {
  }

  /** No token holds the delimiter. */
  lemma {:induction false} PiecesHaveNoDelimiter(s: string, d: char, pos: nat)
    requires pos <= |s|
    ensures forall k :: 0 <= k < |PiecesFrom(s, d, pos)| ==> d !in PiecesFrom(s, d, pos)[k]
    decreases |s| - pos
  {
    if pos < |s| {
      var i := NextDelimiter(s, d, pos);
      NoDelimiterBefore(s, d, pos);
      if i < |s| {
        PiecesStep(s, d, pos, i);
        PiecesHaveNoDelimiter(s, d, i + 1);
      } else {
        PiecesLast(s, d, pos);
      }
    }
  }

  /** Gluing grows on the right: one more token adds `d` and that token. */
  lemma {:induction false} JoinSnoc(ts: seq<string>, t: string, d: char)
    requires ts != []
    ensures Join(ts + [t], d) == Join(ts, d) + [d] + t
    decreases |ts|
  {
    if |ts| == 1 {
      assert (ts + [t])[1..] == [t];
    } else {
      assert (ts + [t])[1..] == ts[1..] + [t];
      JoinSnoc(ts[1..], t, d);
    }
  }

  /** Gluing a token in front of a non-empty list puts `d` between them. */
  lemma JoinCons(t: string, ts: seq<string>, d: char)
    requires ts != []
    ensures Join([t] + ts, d) == t + [d] + Join(ts, d)
  {
    assert ([t] + ts)[1..] == ts;
  }

  /** The inductive step of `JoinPiecesFrom` for a delimiter with more text
      after it. */
  lemma JoinPiecesStep(s: string, d: char, pos: nat, i: nat)
    requires pos < |s| && i == NextDelimiter(s, d, pos) && i + 1 < |s|
    requires Join(PiecesFrom(s, d, i + 1), d) == DropTrailing(s[i + 1..], d)
    ensures Join(PiecesFrom(s, d, pos), d) == DropTrailing(s[pos..], d)
  {
    PiecesStep(s, d, pos, i);
    var token, rest, tail := s[pos..i], s[i + 1..], PiecesFrom(s, d, i + 1);
    assert tail != [];
    JoinCons(token, tail, d);
    SplitAt(s, pos, i);
    DropTrailingAppend(token + [d], rest, d);
  }

  /** `JoinPiecesFrom` for a delimiter that ends the input. */
  lemma JoinPiecesFinalDelimiter(s: string, d: char, pos: nat, i: nat)
    requires pos < |s| && i == NextDelimiter(s, d, pos) && i + 1 == |s|
    ensures Join(PiecesFrom(s, d, pos), d) == DropTrailing(s[pos..], d)
  {
    PiecesStep(s, d, pos, i);
    assert PiecesFrom(s, d, i + 1) == [];
    assert [s[pos..i]] + [] == [s[pos..i]];
    assert s[pos..] == s[pos..i] + [d];
  }

  /** `JoinPiecesFrom` when no delimiter is left. */
  lemma JoinPiecesNoDelimiter(s: string, d: char, pos: nat)
    requires pos < |s| && NextDelimiter(s, d, pos) == |s|
    ensures Join(PiecesFrom(s, d, pos), d) == DropTrailing(s[pos..], d)
  {
    PiecesLast(s, d, pos);
    NoDelimiterBefore(s, d, pos);
    assert s[|s| - 1] == s[pos..][|s| - 1 - pos];
  }

  /** Splitting from `pos` and gluing back gives the rest of the input,
      except that a single trailing delimiter is lost. */
  lemma {:induction false} JoinPiecesFrom(s: string, d: char, pos: nat)
    requires pos <= |s|
    ensures Join(PiecesFrom(s, d, pos), d) == DropTrailing(s[pos..], d)
    decreases |s| - pos
  {
    if pos < |s| {
      var i := NextDelimiter(s, d, pos);
      if i == |s| {
        JoinPiecesNoDelimiter(s, d, pos);
      } else if i + 1 == |s| {
        JoinPiecesFinalDelimiter(s, d, pos, i);
      } else {
        JoinPiecesFrom(s, d, i + 1);
        JoinPiecesStep(s, d, pos, i);
      }
    }
  }

  /** Splitting and gluing back gives the input, except that a single
      trailing delimiter is lost. */
  lemma JoinPieces(s: string, d: char)
    ensures Join(Pieces(s, d), d) == DropTrailing(s, d)
  {
    JoinPiecesFrom(s, d, 0);
    assert s[0..] == s;
  }

  /** A last token with no delimiter in it is read whole. */
  lemma PiecesAfterLastToken(pre: string, t: string, d: char)
    requires d !in t && t != []
    ensures PiecesFrom(pre + t, d, |pre|) == [t]
  {
    var s := pre + t;
    assert s[|pre|..|s|] == t;
    NextDelimiterUnique(s, d, |pre|, |s|);
    PiecesLast(s, d, |pre|);
  }

  /** A token with no delimiter in it, followed by a delimiter, is read up to
      that delimiter, and reading resumes after it. */
  lemma PiecesAfterToken(s: string, pos: nat, t: string, d: char, next: nat)
    requires next == pos + |t| + 1 <= |s| && s[pos..pos + |t|] == t && s[pos + |t|] == d
    requires d !in t
    ensures PiecesFrom(s, d, pos) == [t] + PiecesFrom(s, d, next)
  {
    NextDelimiterUnique(s, d, pos, pos + |t|);
    PiecesStep(s, d, pos, pos + |t|);
  }

  /** Splitting the glued tokens after any prefix gives the tokens back. */
  lemma {:induction false} PiecesAfterJoin(pre: string, ts: seq<string>, d: char)
    requires forall k :: 0 <= k < |ts| ==> d !in ts[k]
    requires ts != [] ==> ts[|ts| - 1] != []
    ensures PiecesFrom(pre + Join(ts, d), d, |pre|) == ts
    decreases |ts|
  {
    if ts == [] {
      assert pre + Join(ts, d) == pre;
    } else if |ts| == 1 {
      PiecesAfterLastToken(pre, ts[0], d);
    } else {
      var t := ts[0];
      var pre' := pre + t + [d];
      JoinCons(t, ts[1..], d);
      assert [t] + ts[1..] == ts;
      var s := pre + Join(ts, d);
      assert s == pre + (t + [d] + Join(ts[1..], d));
      assert s == pre' + Join(ts[1..], d);
      Middle(pre, t, d, Join(ts[1..], d));
      PiecesAfterJoin(pre', ts[1..], d);
      PiecesAfterToken(s, |pre|, t, d, |pre'|);
    }
  }

  /** Splitting inverts gluing whenever no token holds the delimiter and the
      last token is not empty; in particular empty tokens between two
      delimiters come back as they were. */
  lemma PiecesJoin(ts: seq<string>, d: char)
    requires forall k :: 0 <= k < |ts| ==> d !in ts[k]
    requires ts != [] ==> ts[|ts| - 1] != []
    ensures Pieces(Join(ts, d), d) == ts
  {
    PiecesAfterJoin([], ts, d);
    assert [] + Join(ts, d) == Join(ts, d);
  }

  /** Gluing `n` tokens that hold no `d` puts exactly `n - 1` of them in. */
  lemma {:induction false} JoinCount(ts: seq<string>, d: char)
    requires ts != []
    requires forall k :: 0 <= k < |ts| ==> d !in ts[k]
    ensures multiset(Join(ts, d))[d] == |ts| - 1
    decreases |ts|
  {
    if |ts| == 1 {
      assert d !in multiset(ts[0]);
    } else {
      JoinCons(ts[0], ts[1..], d);
      assert [ts[0]] + ts[1..] == ts;
      JoinCount(ts[1..], d);
      CountAround(ts[0], d, Join(ts[1..], d));
    }
  }

  /** The number of tokens: one per delimiter, plus one for the text after
      the last delimiter when that text is not empty. */
  lemma PiecesCount(s: string, d: char)
    ensures |Pieces(s, d)| ==
      if s == [] then 0
      else if s[|s| - 1] == d then multiset(s)[d]
      else multiset(s)[d] + 1
  {
    if s != [] {
      PiecesEmpty(s, d);
      PiecesHaveNoDelimiter(s, d, 0);
      JoinPieces(s, d);
      JoinCount(Pieces(s, d), d);
      if s[|s| - 1] == d {
        assert s == s[..|s| - 1] + [d];
        assert multiset(s) == multiset(s[..|s| - 1]) + multiset{d};
      }
    }
  }

  /** Reading from `s + [d]` stops where reading from `s` stops, or at the
      added delimiter. */
  lemma NextDelimiterExtended(s: string, d: char, pos: nat)
    requires pos <= |s|
    ensures NextDelimiter(s + [d], d, pos) == NextDelimiter(s, d, pos)
  {
    var i := NextDelimiter(s, d, pos);
    NoDelimiterBefore(s, d, pos);
    assert (s + [d])[pos..i] == s[pos..i];
    NextDelimiterUnique(s + [d], d, pos, i);
  }

  /** Reading the added delimiter on its own gives one empty token. */
  lemma PiecesAtAddedDelimiter(s: string, d: char)
    ensures PiecesFrom(s + [d], d, |s|) == [[]]
  {
    var t := s + [d];
    assert t[|s|] == d;
    NextDelimiterUnique(t, d, |s|, |s|);
    PiecesStep(t, d, |s|, |s|);
    assert PiecesFrom(t, d, |s| + 1) == [];
    assert t[|s|..|s|] == [];
  }

  /** The last token of `s`, read from `s + [d]`, stops at the added
      delimiter. */
  lemma PiecesLastBeforeAddedDelimiter(s: string, d: char, pos: nat)
    requires pos < |s| && NextDelimiter(s, d, pos) == |s|
    ensures PiecesFrom(s + [d], d, pos) == PiecesFrom(s, d, pos)
    ensures s[|s| - 1] != d
  {
    var t := s + [d];
    NextDelimiterExtended(s, d, pos);
    PiecesStep(t, d, pos, |s|);
    assert t[pos..|s|] == s[pos..];
    PiecesLast(s, d, pos);
    NoDelimiterBefore(s, d, pos);
    assert s[|s| - 1] == s[pos..|s|][|s| - 1 - pos];
  }

  /** The inductive step of `PiecesFromTrailingDelimiter`. */
  lemma PiecesTrailingDelimiterStep(s: string, d: char, pos: nat, i: nat, extra: seq<string>)
    requires pos < |s| && i == NextDelimiter(s, d, pos) && i < |s|
    requires PiecesFrom(s + [d], d, i + 1) == PiecesFrom(s, d, i + 1) + extra
    ensures PiecesFrom(s + [d], d, pos) == PiecesFrom(s, d, pos) + extra
  {
    var t := s + [d];
    NextDelimiterExtended(s, d, pos);
    PiecesStep(t, d, pos, i);
    assert t[pos..i] == s[pos..i];
    PiecesStep(s, d, pos, i);
    AppendAssoc([s[pos..i]], PiecesFrom(s, d, i + 1), extra);
  }

  /** A delimiter added at the end of the stream, read from `pos` on. */
  lemma {:induction false} PiecesFromTrailingDelimiter(s: string, d: char, pos: nat)
    requires pos <= |s|
    ensures PiecesFrom(s + [d], d, pos) ==
      PiecesFrom(s, d, pos) + (if pos == |s| || s[|s| - 1] == d then [[]] else [])
    decreases |s| - pos
  {
    if pos == |s| {
      PiecesAtAddedDelimiter(s, d);
    } else {
      var i := NextDelimiter(s, d, pos);
      if i < |s| {
        PiecesFromTrailingDelimiter(s, d, i + 1);
        var extra: seq<string> := if i + 1 == |s| || s[|s| - 1] == d then [[]] else [];
        PiecesTrailingDelimiterStep(s, d, pos, i, extra);
      } else {
        PiecesLastBeforeAddedDelimiter(s, d, pos);
      }
    }
  }

  /** The trailing-delimiter rule: a delimiter added at the end yields a new,
      empty token only when the text before it is empty or already ends in
      the delimiter; otherwise it yields nothing. */
  lemma PiecesTrailingDelimiter(s: string, d: char)
    ensures Pieces(s + [d], d) ==
      Pieces(s, d) + (if s == [] || s[|s| - 1] == d then [[]] else [])
  {
    PiecesFromTrailingDelimiter(s, d, 0);
  }

  /** One `std::getline(stream, token, delimiter)` call at stream position
      `pos`: the token it stores and the position where reading resumes. */
  method GetLine(s: string, pos: nat, delimiter: char) returns (token: string, next: nat)
    requires pos < |s|
    ensures pos < next <= |s|
    ensures [token] + PiecesFrom(s, delimiter, next) == PiecesFrom(s, delimiter, pos)
  {
    token := "";
    var i := pos;
    while i < |s| && s[i] != delimiter
      invariant pos <= i <= |s|
      invariant token == s[pos..i]
      invariant delimiter !in token
    {
      token := token + [s[i]];
      i := i + 1;
    }
    NextDelimiterUnique(s, delimiter, pos, i);
    if i < |s| {
      // the delimiter is consumed
      PiecesStep(s, delimiter, pos, i);
      next := i + 1;
    } else {
      PiecesLast(s, delimiter, pos);
      next := i;
    }
  }

  /** `split`: call `getline` until it fails, keeping every token. */
  method Split(s: string, delimiter: char) returns (tokens: seq<string>)
    ensures tokens == Pieces(s, delimiter)
  {
    tokens := [];
    var pos := 0;
    while pos < |s|
      invariant pos <= |s|
      invariant tokens + PiecesFrom(s, delimiter, pos) == Pieces(s, delimiter)
      decreases |s| - pos
    {
      var token, next := GetLine(s, pos, delimiter);
      AppendAssoc(tokens, [token], PiecesFrom(s, delimiter, next));
      tokens := tokens + [token];
      pos := next;
    }
  }
}
