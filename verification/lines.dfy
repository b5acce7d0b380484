/**
  The text helpers of the command-line front end: splitting a domain-list file
  into lines and deleting blank characters from each line.

  `SplitLines` follows the loop of the tool: characters accumulate into a
  pending line, each '\n' emits the pending line (possibly empty), and the
  pending line left at the end is emitted only when it is non-empty.
  `Join` and `Terminated` are its partners: the first rebuilds the input, the
  second is the inverse used by the text writer (one '\n' after every line).
 */
module Lines {

  const Newline: char := '\n'

  /** The pieces produced from `s` when `pending` has already been read. */
  function SplitPending(pending: string, s: string): seq<string>
    decreases |s|
  {
    if s == [] then
      (if pending == [] then [] else [pending])
    else if s[0] == Newline then
      [pending] + SplitPending([], s[1..])
    else
      SplitPending(pending + [s[0]], s[1..])
  }

  /** Splits `s` on '\n'; a final empty piece is dropped, inner empty pieces are kept. */
  function SplitLines(s: string): seq<string>
  {
    SplitPending([], s)
  }

  /** The pieces separated by a single '\n' (no '\n' after the last piece). */
  function Join(pieces: seq<string>): string
  {
    if |pieces| == 0 then []
    else if |pieces| == 1 then pieces[0]
    else pieces[0] + [Newline] + Join(pieces[1..])
  }

  /** Every line followed by '\n': the shape of text written line by line. */
  function Terminated(lines: seq<string>): string
  {
    if lines == [] then [] else lines[0] + [Newline] + Terminated(lines[1..])
  }

  /** "\n" when `s` ends in a newline, else the empty string. */
  function TrailingNewline(s: string): string
  {
    if |s| > 0 && s[|s| - 1] == Newline then [Newline] else []
  }

  /** `s` is non-empty and its last character is not a newline: text follows the last '\n'. */
  predicate OpenEnded(s: string)
  {
    |s| > 0 && s[|s| - 1] != Newline
  }

  predicate NoNewlines(pieces: seq<string>)
  {
    forall i :: 0 <= i < |pieces| ==> Newline !in pieces[i]
  }

  lemma {:induction false} SplitPendingNonEmpty(pending: string, s: string)
    requires s != []
    ensures SplitPending(pending, s) != []
    decreases |s|
  {
    if s[0] != Newline && s[1..] != [] {
      SplitPendingNonEmpty(pending + [s[0]], s[1..]);
    }
  }

  lemma {:induction false} SplitPendingNoNewline(pending: string, s: string)
    requires Newline !in pending
    ensures NoNewlines(SplitPending(pending, s))
    decreases |s|
  {
    if s == [] {
    } else if s[0] == Newline {
      SplitPendingNoNewline([], s[1..]);
    } else {
      SplitPendingNoNewline(pending + [s[0]], s[1..]);
    }
  }

  /** No piece returned by SplitLines contains '\n'. */
  lemma SplitLinesNoNewline(s: string)
    ensures NoNewlines(SplitLines(s))
  {
    SplitPendingNoNewline([], s);
  }

  lemma JoinCons(head: string, rest: seq<string>)
    requires rest != []
    ensures Join([head] + rest) == head + [Newline] + Join(rest)
  {
    assert ([head] + rest)[1..] == rest;
  }

  lemma TrailingNewlineTail(s: string)
    requires s != [] && (s[0] != Newline || s[1..] != [])
    ensures TrailingNewline(s) == TrailingNewline(s[1..])
  {
  }

  lemma {:induction false} SplitPendingJoin(pending: string, s: string)
    ensures Join(SplitPending(pending, s)) + TrailingNewline(s) == pending + s
    decreases |s|
  {
    if s == [] {
      assert pending + s == pending;
    } else if s[0] == Newline {
      SplitPendingJoinAtNewline(pending, s);
    } else {
      SplitPendingJoin(pending + [s[0]], s[1..]);
      TrailingNewlineTail(s);
      assert pending + [s[0]] + s[1..] == pending + s;
    }
  }

  lemma {:induction false} SplitPendingJoinAtNewline(pending: string, s: string)
    requires s != [] && s[0] == Newline
    ensures Join(SplitPending(pending, s)) + TrailingNewline(s) == pending + s
    decreases |s|, 0
  {
    var tail := s[1..];
    var rest := SplitPending([], tail);
    assert SplitPending(pending, s) == [pending] + rest;
    if tail == [] {
      assert s == [Newline];
      assert rest == [];
      assert Join([pending]) == pending;
    } else {
      SplitPendingNonEmpty([], tail);
      SplitPendingJoin([], tail);
      JoinCons(pending, rest);
      TrailingNewlineTail(s);
      assert s == [Newline] + tail;
      AppendRegroup(pending, Join(rest), TrailingNewline(tail), tail);
    }
  }

  lemma AppendRegroup(p: string, j: string, t: string, tail: string)
    requires j + t == tail
    ensures p + [Newline] + j + t == p + ([Newline] + tail)
  {
  }

  /** Joining the pieces with '\n', plus the trailing '\n' if any, gives back the input. */
  lemma SplitLinesJoin(s: string)
    ensures Join(SplitLines(s)) + TrailingNewline(s) == s
  {
    SplitPendingJoin([], s);
    assert [] + s == s;
  }

  lemma NewlineCountCons(s: string)
    requires s != []
    ensures multiset(s)[Newline] == (if s[0] == Newline then 1 else 0) + multiset(s[1..])[Newline]
  {
    assert s == [s[0]] + s[1..];
    assert multiset(s) == multiset([s[0]]) + multiset(s[1..]);
  }

  lemma OpenEndedAppend(a: string, b: string)
    requires b != []
    ensures OpenEnded(a + b) == OpenEnded(b)
  {
    assert (a + b)[|a + b| - 1] == b[|b| - 1];
  }

  lemma {:induction false} SplitPendingCount(pending: string, s: string)
    requires Newline !in pending
    ensures |SplitPending(pending, s)|
            == multiset(s)[Newline] + (if OpenEnded(pending + s) then 1 else 0)
    decreases |s|
  {
    if s == [] {
      assert pending + s == pending;
      assert pending != [] ==> pending[|pending| - 1] in pending;
    } else {
      NewlineCountCons(s);
      if s[0] == Newline {
        SplitPendingCount([], s[1..]);
        assert [] + s[1..] == s[1..];
        if s[1..] != [] {
          OpenEndedAppend(pending + [Newline], s[1..]);
          assert pending + [Newline] + s[1..] == pending + s;
        } else {
          OpenEndedAppend(pending, s);
        }
      } else {
        assert Newline !in pending + [s[0]];
        SplitPendingCount(pending + [s[0]], s[1..]);
        assert pending + [s[0]] + s[1..] == pending + s;
      }
    }
  }

  /**
    The number of pieces is the number of '\n' in `s`, plus one when text follows
    the last '\n'; the empty input gives no pieces.
   */
  lemma SplitLinesCount(s: string)
    ensures |SplitLines(s)| == multiset(s)[Newline] + (if OpenEnded(s) then 1 else 0)
    ensures s == [] ==> SplitLines(s) == []
  {
    SplitPendingCount([], s);
    assert [] + s == s;
  }

  lemma {:induction false} SplitPendingLine(pending: string, line: string, rest: string)
    requires Newline !in line
    ensures SplitPending(pending, line + [Newline] + rest) == [pending + line] + SplitPending([], rest)
    decreases |line|
  {
    var s := line + [Newline] + rest;
    if line == [] {
      assert s == [Newline] + rest;
      assert s[1..] == rest;
      assert pending + line == pending;
    } else {
      assert s[0] == line[0];
      assert s[1..] == line[1..] + [Newline] + rest;
      SplitPendingLine(pending + [line[0]], line[1..], rest);
      assert pending + [line[0]] + line[1..] == pending + line;
    }
  }

  /** Splitting text written as newline-terminated lines gives back exactly those lines. */
  lemma {:induction false} SplitTerminated(lines: seq<string>)
    requires NoNewlines(lines)
    ensures SplitLines(Terminated(lines)) == lines
  {
    if lines != [] {
      assert Newline !in lines[0];
      SplitPendingLine([], lines[0], Terminated(lines[1..]));
      SplitTerminated(lines[1..]);
      assert [] + lines[0] == lines[0];
    }
  }

  /** The characters the tool deletes from every line of a domain list. */
  predicate IsBlank(c: char)
  {
    c == '\r' || c == '\t' || c == ' '
  }

  predicate Clean(s: string)
  {
    forall i :: 0 <= i < |s| ==> !IsBlank(s[i])
  }

  /**
    Deletes every '\r', '\t' and ' ' from `s`, wherever it occurs (this is not a
    trim: interior blanks go too); other characters are kept in order.
   */
  function CleanLine(s: string): (r: string)
    ensures |r| <= |s|
    ensures Clean(r)
  {
    if s == [] then []
    else (if IsBlank(s[0]) then [] else [s[0]]) + CleanLine(s[1..])
  }

  /** Cleaning works piecewise, so the order of the kept characters is the input's order. */
  lemma {:induction false} CleanLineAppend(a: string, b: string)
    ensures CleanLine(a + b) == CleanLine(a) + CleanLine(b)
    decreases |a|
  {
    if a == [] {
      assert a + b == b;
    } else {
      assert (a + b)[0] == a[0];
      assert (a + b)[1..] == a[1..] + b;
      CleanLineAppend(a[1..], b);
    }
  }

  /** A string without blanks is left unchanged. */
  lemma {:induction false} CleanLineKeepsClean(s: string)
    requires Clean(s)
    ensures CleanLine(s) == s
    decreases |s|
  {
    if s != [] {
      assert !IsBlank(s[0]);
      CleanLineKeepsClean(s[1..]);
      assert [s[0]] + s[1..] == s;
    }
  }

  /** Cleaning twice is cleaning once. */
  lemma CleanLineIdempotent(s: string)
    ensures CleanLine(CleanLine(s)) == CleanLine(s)
  {
    CleanLineKeepsClean(CleanLine(s));
  }

  /** Each blank is removed every time it occurs; every other character keeps its count. */
  lemma {:induction false} CleanLineCounts(s: string, c: char)
    ensures multiset(CleanLine(s))[c] == if IsBlank(c) then 0 else multiset(s)[c]
    decreases |s|
  {
    if s != [] {
      CleanLineCounts(s[1..], c);
      assert s == [s[0]] + s[1..];
      assert multiset(s) == multiset([s[0]]) + multiset(s[1..]);
      var head := if IsBlank(s[0]) then [] else [s[0]];
      assert multiset(CleanLine(s)) == multiset(head) + multiset(CleanLine(s[1..]));
    }
  }

  /** A character absent from the input is absent from the cleaned line. */
  lemma CleanLineNoNew(s: string, c: char)
    requires c !in s
    ensures c !in CleanLine(s)
  {
    CleanLineCounts(s, c);
    assert multiset(s)[c] == 0;
  }
}
