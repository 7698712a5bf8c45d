/** Python's text operations as the mutation tools use them: substring search, non-overlapping
    counting, line splitting, leading whitespace, and line and column positions. */
module Text {
  import opened Ordering

  // ------------------------------------------------------------ search and count

  predicate OccursAt(s: string, pattern: string, i: nat) {
    i + |pattern| <= |s| && s[i..i + |pattern|] == pattern
  }

  /** The first occurrence at or after `from`, or -1. */
  function Find(s: string, pattern: string, from: nat): (i: int)
    requires from <= |s|
    ensures i >= 0 ==> from <= i && OccursAt(s, pattern, i) && forall j :: from <= j < i ==> !OccursAt(s, pattern, j)
    ensures i < 0 ==> i == -1 && forall j :: from <= j ==> !OccursAt(s, pattern, j)
    decreases |s| - from
  {
    if OccursAt(s, pattern, from) then from
    else if from == |s| then -1
    else Find(s, pattern, from + 1)
  }

  /** How often `pattern` occurs from `from` on, each occurrence starting after the one before it. */
  function CountFrom(s: string, pattern: string, from: nat): nat
    requires pattern != "" && from <= |s|
    decreases |s| - from
  {
    var i := Find(s, pattern, from);
    if i < 0 then 0 else 1 + CountFrom(s, pattern, i + |pattern|)
  }

  function Count(s: string, pattern: string): nat
    requires pattern != ""
  {
    CountFrom(s, pattern, 0)
  }

  /** A count of one leaves room only for occurrences that overlap the first. */
  lemma CountOne(s: string, pattern: string)
    requires pattern != "" && Count(s, pattern) == 1
    ensures var first := Find(s, pattern, 0);
            first >= 0 && forall j: nat :: OccursAt(s, pattern, j) ==> first <= j < first + |pattern|
  {
    var first := Find(s, pattern, 0);
    assert CountFrom(s, pattern, first + |pattern|) == 0;
    assert Find(s, pattern, first + |pattern|) < 0;
  }

  /** The count is one exactly when there is an occurrence and none starts at or after its end. */
  lemma CountOneIff(s: string, pattern: string)
    requires pattern != ""
    ensures Count(s, pattern) == 1 <==>
            exists i: nat :: OccursAt(s, pattern, i)
                             && forall j: nat :: OccursAt(s, pattern, j) ==> i <= j < i + |pattern|
  {
    hide OccursAt;
    if Count(s, pattern) == 1 {
      CountOne(s, pattern);
      var first: nat := Find(s, pattern, 0);
      assert OccursAt(s, pattern, first);
    }
    if i: nat :| OccursAt(s, pattern, i) && forall j: nat :: OccursAt(s, pattern, j) ==> i <= j < i + |pattern| {
      OnlyOccurrence(s, pattern, i);
    }
  }

  lemma OnlyOccurrence(s: string, pattern: string, i: nat)
    requires pattern != "" && OccursAt(s, pattern, i)
    requires forall j: nat :: OccursAt(s, pattern, j) ==> i <= j < i + |pattern|
    ensures Count(s, pattern) == 1
  {
    assert Find(s, pattern, 0) == i;
    assert Find(s, pattern, i + |pattern|) == -1;
    assert CountFrom(s, pattern, i + |pattern|) == 0;
  }

  // ------------------------------------------------------------------------ lines

  predicate EndsLine(c: char) {
    c in "\n\r\U{0B}\U{0C}\U{1C}\U{1D}\U{1E}\U{85}\U{2028}\U{2029}"
  }

  /** The characters that end a line, by code point. */
  lemma LineEnds(c: char)
    ensures EndsLine(c) <==>
            var n := c as int;
            10 <= n <= 13 || 28 <= n <= 30 || n == 0x85 || n == 0x2028 || n == 0x2029
  {
  }

  /** The length of the first line, its terminator included. */
  function FirstLine(s: string): (n: nat)
    requires s != ""
    ensures 1 <= n <= |s|
  {
    if EndsLine(s[0]) then (if s[0] == '\r' && |s| > 1 && s[1] == '\n' then 2 else 1)
    else if |s| == 1 then 1
    else 1 + FirstLine(s[1..])
  }

  /** The lines of a text, each with its terminator. */
  function SplitLines(s: string): seq<string> {
    if s == "" then [] else [s[..FirstLine(s)]] + SplitLines(s[FirstLine(s)..])
  }

  function Join(lines: seq<string>): string {
    if lines == [] then "" else lines[0] + Join(lines[1..])
  }

  /** A text whose only terminator, if any, is at its end; carriage return and newline count as one. */
  predicate OneLine(s: string) {
    s != "" && forall i :: 0 <= i < |s| - 1 && EndsLine(s[i]) ==> i == |s| - 2 && s[i] == '\r' && s[i + 1] == '\n'
  }

  /** `s` ends in a terminator that what follows does not complete. */
  predicate EndsBefore(s: string, next: string) {
    s != "" && next != "" && EndsLine(s[|s| - 1]) && !(s[|s| - 1] == '\r' && next[0] == '\n')
  }

  predicate AreLines(lines: seq<string>) {
    && (forall i :: 0 <= i < |lines| ==> OneLine(lines[i]))
    && (forall i, k :: 0 <= i < |lines| - 1 && k == i + 1 ==> EndsBefore(lines[i], lines[k]))
  }

  lemma {:induction false} FirstLineIs(s: string)
    requires s != ""
    ensures OneLine(s[..FirstLine(s)]) && (FirstLine(s) < |s| ==> EndsBefore(s[..FirstLine(s)], s[FirstLine(s)..]))
  {
    var n := FirstLine(s);
    if !EndsLine(s[0]) && |s| > 1 {
      FirstLineIs(s[1..]);
      assert s[1..][..n - 1] == s[1..n] && s[1..][n - 1..] == s[n..];
      forall i | 0 <= i < n - 1 && EndsLine(s[i]) ensures i == n - 2 && s[i] == '\r' && s[i + 1] == '\n' {
        assert s[i] == s[1..n][i - 1];
      }
    }
  }

  lemma {:induction false} FirstLineOf(line: string, rest: string)
    requires OneLine(line) && (rest != "" ==> EndsBefore(line, rest))
    ensures FirstLine(line + rest) == |line|
  {
    var s := line + rest;
    if EndsLine(line[0]) {
      assert |line| > 1 ==> |line| == 2;
    } else if |line| > 1 {
      assert s[1..] == line[1..] + rest;
      FirstLineOf(line[1..], rest);
    }
  }

  /** Splitting loses nothing, and gives lines: each with at most one terminator, at its end, and all but
      the last with one. */
  lemma {:induction false} SplitJoins(s: string)
    ensures Join(SplitLines(s)) == s
    ensures AreLines(SplitLines(s))
    ensures forall line :: line in SplitLines(s) ==> line != ""
  {
    if s != "" {
      var n := FirstLine(s);
      SplitJoins(s[n..]);
      FirstLineIs(s);
      var rest := SplitLines(s[n..]);
      assert SplitLines(s)[1..] == rest;
      assert s == s[..n] + s[n..];
      if rest != [] { FirstChar(rest); }
      hide OneLine, FirstLine;
      assert AreLines([s[..n]] + rest);
    }
  }

  lemma FirstChar(lines: seq<string>)
    requires lines != [] && lines[0] != ""
    ensures Join(lines) != "" && Join(lines)[0] == lines[0][0]
  {
  }

  /** Lines are what their text is split into. */
  lemma {:induction false} JoinSplits(lines: seq<string>)
    requires AreLines(lines)
    ensures SplitLines(Join(lines)) == lines
  {
    if lines != [] {
      var rest := Join(lines[1..]);
      JoinSplits(lines[1..]);
      if |lines| > 1 { FirstChar(lines[1..]); }
      FirstLineOf(lines[0], rest);
      assert Join(lines) == lines[0] + rest;
      assert Join(lines)[|lines[0]|..] == rest && Join(lines)[..|lines[0]|] == lines[0];
    }
  }

  lemma {:induction false} JoinAppend(a: seq<string>, b: seq<string>)
    ensures Join(a + b) == Join(a) + Join(b)
  {
    if a == [] {
      assert a + b == b;
    } else {
      JoinAppend(a[1..], b);
      assert (a + b)[1..] == a[1..] + b && (a + b)[0] == a[0];
      hide Join;
      Associates(a[0], Join(a[1..]), Join(b));
    }
  }

  lemma Associates(a: string, b: string, c: string)
    ensures a + (b + c) == (a + b) + c
  {
  }

  predicate IsSpace(c: char) {
    c in " \t\n\r\U{0B}\U{0C}\U{1C}\U{1D}\U{1E}\U{1F}\U{85}\U{A0}\U{1680}\U{2028}\U{2029}\U{202F}\U{205F}\U{3000}"
    || '\U{2000}' <= c <= '\U{200A}'
  }

  /** The blanks, by code point. */
  lemma Blanks(c: char)
    ensures IsSpace(c) <==>
            var n := c as int;
            || 9 <= n <= 13 || 28 <= n <= 32 || n == 0x85 || n == 0xA0 || n == 0x1680 || 0x2000 <= n <= 0x200A
            || n == 0x2028 || n == 0x2029 || n == 0x202F || n == 0x205F || n == 0x3000
  {
  }

  /** The length of the leading whitespace. */
  function Indent(s: string): (n: nat)
    ensures n <= |s| && (n < |s| ==> !IsSpace(s[n])) && forall i :: 0 <= i < n ==> IsSpace(s[i])
  {
    if s == "" || !IsSpace(s[0]) then 0 else 1 + Indent(s[1..])
  }

  /** A number in decimal digits. */
  function Decimal(n: nat): (s: string)
    ensures s != ""
  {
    if n < 10 then ["0123456789"[n]] else Decimal(n / 10) + ["0123456789"[n % 10]]
  }

  // -------------------------------------------------------------------- positions

  function Newlines(s: string, end: nat): (n: nat)
    requires end <= |s|
    ensures n <= end
  {
    if end == 0 then 0 else Newlines(s, end - 1) + (if s[end - 1] == '\n' then 1 else 0)
  }

  /** The last newline before `end`, or -1. */
  function LastNewline(s: string, end: nat): (i: int)
    requires end <= |s|
    ensures -1 <= i < end && (i >= 0 ==> s[i] == '\n') && forall j :: i < j < end ==> s[j] != '\n'
  {
    if end == 0 then -1 else if s[end - 1] == '\n' then end - 1 else LastNewline(s, end - 1)
  }

  datatype Position = Position(line: int, column: int)

  function PositionOf(s: string, offset: nat): Position
    requires offset <= |s|
  {
    Position(Newlines(s, offset) + 1, offset - LastNewline(s, offset))
  }

  predicate Before(a: Position, b: Position) {
    a.line < b.line || (a.line == b.line && a.column < b.column)
  }

  lemma {:induction false} NewlinesRise(s: string, a: nat, b: nat)
    requires a <= b <= |s|
    ensures Newlines(s, a) <= Newlines(s, b)
    ensures Newlines(s, a) == Newlines(s, b) ==> LastNewline(s, a) == LastNewline(s, b)
  {
    if a < b { NewlinesRise(s, a, b - 1); }
  }

  /** Positions are ordered as offsets are; in particular an offset and its position determine each
      other. */
  lemma PositionsFollowOffsets(s: string, a: nat, b: nat)
    requires a <= |s| && b <= |s|
    ensures a < b <==> Before(PositionOf(s, a), PositionOf(s, b))
    ensures a == b <==> PositionOf(s, a) == PositionOf(s, b)
  {
    if a <= b { NewlinesRise(s, a, b); } else { NewlinesRise(s, b, a); }
  }

  /** The offset at which line `n` (counted from 1) starts. */
  function LineStart(s: string, n: nat, from: nat): Option<nat>
    requires from <= |s|
    decreases |s| - from
  {
    if n <= 1 then Some(from)
    else if from == |s| then None
    else LineStart(s, if s[from] == '\n' then n - 1 else n, from + 1)
  }

  lemma {:induction false} LineStartOf(s: string, offset: nat, n: nat, from: nat)
    requires from <= offset <= |s| && n == Newlines(s, offset) - Newlines(s, from) + 1
    requires n > 1 || LastNewline(s, offset) == from as int - 1
    ensures LineStart(s, n, from) == Some((LastNewline(s, offset) + 1) as nat)
    decreases offset - from
  {
    if n > 1 {
      if from < offset {
        NewlinesRise(s, from + 1, offset);
        assert Newlines(s, from + 1) == Newlines(s, from) + (if s[from] == '\n' then 1 else 0);
        LineStartOf(s, offset, if s[from] == '\n' then n - 1 else n, from + 1);
      }
    }
  }

  /** Reading a position back gives the offset. */
  lemma PositionGivesOffset(s: string, offset: nat)
    requires offset <= |s|
    ensures var p := PositionOf(s, offset);
            p.line >= 1 && LineStart(s, p.line, 0).Some? && LineStart(s, p.line, 0).value + p.column - 1 == offset
  {
    if Newlines(s, offset) == 0 { NewlinesRise(s, 0, offset); }
    LineStartOf(s, offset, Newlines(s, offset) + 1, 0);
  }
}
