/** Source mutation: the smallest unique context of a line, the exact splice, and the generator. */
module SourceMutation {
  import opened Ordering
  import opened Text

  // ------------------------------------------------------------------ exact splice

  datatype Span = Span(startOffset: nat, endOffset: nat, start: Position, end: Position)

  /** The splice: refused unless the match is counted once, and made at its first occurrence. */
  method ApplyExactMutation(source: string, pattern: string, replacement: string) returns (r: Option<(string, Span)>)
    requires pattern != ""
    ensures r.Some? <==> Count(source, pattern) == 1
    ensures r.Some? ==>
              var (mutated, span) := r.value;
              && span.startOffset == Find(source, pattern, 0)
              && span.endOffset == span.startOffset + |pattern| <= |source|
              && mutated == source[..span.startOffset] + replacement + source[span.endOffset..]
              && span.start == PositionOf(source, span.startOffset)
              && span.end == PositionOf(source, span.endOffset)
  {
    if Count(source, pattern) != 1 {
      return None;
    }
    CountOne(source, pattern);
    var start := Find(source, pattern, 0);
    var end := start + |pattern|;
    var startLine := Newlines(source, start) + 1;
    var startColumn := start - LastNewline(source, start);
    var endLine := Newlines(source, end) + 1;
    var lastNewline := LastNewline(source, end);
    var endColumn := if lastNewline < 0 then end + 1 else end - lastNewline;
    var mutated := source[..start] + replacement + source[end..];
    r := Some((mutated, Span(start, end, Position(startLine, startColumn), Position(endLine, endColumn))));
  }

  /** The span of an accepted mutation is exact: its slice is the match, its positions determine its
      offsets and are ordered as they are, and putting the match back restores the source. */
  lemma SpanIsExact(source: string, pattern: string, span: Span)
    requires pattern != "" && Count(source, pattern) == 1
    requires span.startOffset == Find(source, pattern, 0) && span.endOffset == span.startOffset + |pattern| <= |source|
    requires span.start == PositionOf(source, span.startOffset) && span.end == PositionOf(source, span.endOffset)
    ensures source[span.startOffset..span.endOffset] == pattern
    ensures Before(span.start, span.end)
    ensures forall o: nat :: o <= |source| && PositionOf(source, o) == span.start ==> o == span.startOffset
    ensures forall o: nat :: o <= |source| && PositionOf(source, o) == span.end ==> o == span.endOffset
    ensures source[..span.startOffset] + pattern + source[span.endOffset..] == source
  {
    hide CountFrom, PositionOf, Before;
    CountOne(source, pattern);
    assert OccursAt(source, pattern, span.startOffset);
    hide Find;
    PositionsFollowOffsets(source, span.startOffset, span.endOffset);
    PositionNames(source, span.startOffset);
    PositionNames(source, span.endOffset);
    OccurrenceSplits(source, pattern, span.startOffset);
  }

  lemma OccurrenceSplits(source: string, pattern: string, i: nat)
    requires OccursAt(source, pattern, i)
    ensures source[..i] + pattern + source[i + |pattern|..] == source
  {
  }

  lemma PositionNames(source: string, offset: nat)
    requires offset <= |source|
    ensures forall o: nat :: o <= |source| && PositionOf(source, o) == PositionOf(source, offset) ==> o == offset
  {
    hide PositionOf;
    forall o: nat | o <= |source| && PositionOf(source, o) == PositionOf(source, offset) ensures o == offset {
      PositionsFollowOffsets(source, o, offset);
    }
  }

  /** The mutation is undone by splicing the match back at the recorded start. */
  lemma SpliceBack(source: string, pattern: string, replacement: string, start: nat)
    requires OccursAt(source, pattern, start)
    ensures var mutated := source[..start] + replacement + source[start + |pattern|..];
            mutated[..start] + pattern + mutated[start + |replacement|..] == source
  {
    var a, b := source[..start], source[start + |pattern|..];
    assert a + replacement + b == a + (replacement + b);
    assert (a + (replacement + b))[..start] == a;
    assert (a + replacement + b)[start + |replacement|..] == b;
    assert source == a + pattern + b;
  }

  // ------------------------------------------------------------------ unique context

  datatype Context = Context(pattern: string, replacement: string, startLine: nat, endLine: nat)

  function ContextStart(target: nat, radius: nat): nat {
    if target > radius then target - radius else 0
  }

  function ContextEnd(lines: seq<string>, target: nat, radius: nat): nat {
    if target + radius + 1 < |lines| then target + radius + 1 else |lines|
  }

  function ContextText(lines: seq<string>, target: nat, radius: nat): string
    requires target < |lines|
  {
    Join(lines[ContextStart(target, radius)..ContextEnd(lines, target, radius)])
  }

  /** The context at `radius`, with the target line replaced. */
  function ContextAt(lines: seq<string>, target: nat, radius: nat, replacementLine: string): Context
    requires target < |lines|
  {
    var start, end := ContextStart(target, radius), ContextEnd(lines, target, radius);
    Context(Join(lines[start..end]), Join(lines[start..target] + [replacementLine] + lines[target + 1..end]),
            start + 1, end)
  }

  /** The context holds the target line and exactly its neighbours within the radius, with the target replaced. */
  lemma ContextIsWithin(lines: seq<string>, target: nat, radius: nat, replacementLine: string, i: nat)
    requires target < |lines| && i < |lines|
    ensures var c := ContextAt(lines, target, radius, replacementLine);
            && c.startLine == ContextStart(target, radius) + 1 && c.endLine == ContextEnd(lines, target, radius)
            && c.pattern == Join(lines[c.startLine - 1..c.endLine])
            && c.replacement == Join(lines[target := replacementLine][c.startLine - 1..c.endLine])
            && (c.startLine <= i + 1 <= c.endLine <==> target - radius <= i <= target + radius)
  {
    hide Join;
    var start, end := ContextStart(target, radius), ContextEnd(lines, target, radius);
    assert lines[target := replacementLine][start..end]
        == lines[start..target] + [replacementLine] + lines[target + 1..end];
  }

  const MAX_RADIUS: nat := 8

  ghost predicate LeastUnique(source: string, lines: seq<string>, target: nat, radius: nat)
    requires target < |lines| && forall line :: line in lines ==> line != ""
  {
    && radius <= MAX_RADIUS
    && CountContext(source, lines, target, radius) == 1
    && forall r :: 0 <= r < radius ==> CountContext(source, lines, target, r) != 1
  }

  lemma ContextIsNotEmpty(lines: seq<string>, target: nat, radius: nat)
    requires target < |lines| && lines[target] != ""
    ensures ContextText(lines, target, radius) != ""
  {
    var start, end := ContextStart(target, radius), ContextEnd(lines, target, radius);
    assert lines[start..end] == lines[start..target] + ([lines[target]] + lines[target + 1..end]);
    JoinAppend(lines[start..target], [lines[target]] + lines[target + 1..end]);
  }

  function CountContext(source: string, lines: seq<string>, target: nat, radius: nat): nat
    requires target < |lines| && forall line :: line in lines ==> line != ""
  {
    assert lines[target] in lines;
    ContextIsNotEmpty(lines, target, radius);
    Count(source, ContextText(lines, target, radius))
  }

  /** The smallest symmetric context that is counted once, within eight lines. */
  method UniqueContextMutation(source: string, lines: seq<string>, target: nat, replacementLine: string)
    returns (r: Option<Context>)
    requires target < |lines| && forall line :: line in lines ==> line != ""
    ensures r.Some? ==> exists radius :: LeastUnique(source, lines, target, radius)
                                      && r.value == ContextAt(lines, target, radius, replacementLine)
    ensures r == None ==> forall radius :: 0 <= radius <= MAX_RADIUS ==>
              CountContext(source, lines, target, radius) != 1
  {
    hide CountContext;
    for radius := 0 to MAX_RADIUS + 1
      invariant forall i :: 0 <= i < radius ==> CountContext(source, lines, target, i) != 1
    {
      if CountContext(source, lines, target, radius) == 1 {
        assert LeastUnique(source, lines, target, radius);
        var start, end := ContextStart(target, radius), ContextEnd(lines, target, radius);
        var replacementLines := lines[start..end][target - start := replacementLine];
        assert replacementLines == lines[start..target] + [replacementLine] + lines[target + 1..end];
        return Some(Context(Join(lines[start..end]), Join(replacementLines), start + 1, end));
      }
    }
    return None;
  }

  // ---------------------------------------------------- does the splice hit its line

  /** The text with the target line replaced and every other line as it was. */
  function WithLine(lines: seq<string>, target: nat, replacementLine: string): string
    requires target < |lines|
  {
    Join(lines[..target] + [replacementLine] + lines[target + 1..])
  }

  /** Where the context itself lies in the source. */
  function ContextOffset(lines: seq<string>, target: nat, radius: nat): nat
    requires target < |lines|
  {
    |Join(lines[..ContextStart(target, radius)])|
  }

  lemma JoinThree(a: seq<string>, b: seq<string>, c: seq<string>)
    ensures Join(a + b + c) == Join(a) + Join(b) + Join(c)
  {
    JoinAppend(a + b, c);
    JoinAppend(a, b);
  }

  /** The context occurs at its own offset, and spliced there it replaces exactly the target line. */
  lemma OwnSplice(lines: seq<string>, target: nat, radius: nat, replacementLine: string)
    requires target < |lines|
    ensures var source, c, o := Join(lines), ContextAt(lines, target, radius, replacementLine),
                                ContextOffset(lines, target, radius);
            && OccursAt(source, c.pattern, o)
            && source[..o] + c.replacement + source[o + |c.pattern|..] == WithLine(lines, target, replacementLine)
  {
    var start, end := ContextStart(target, radius), ContextEnd(lines, target, radius);
    var before, context, after := lines[..start], lines[start..end], lines[end..];
    var changed := lines[start..target] + [replacementLine] + lines[target + 1..end];
    Regroup(lines, start, target, end, replacementLine);
    JoinThree(before, context, after);
    JoinThree(before, changed, after);
    Sides(Join(before), Join(context), Join(after));
  }

  lemma Sides(a: string, b: string, c: string)
    ensures OccursAt(a + b + c, b, |a|)
    ensures (a + b + c)[..|a|] == a && (a + b + c)[|a| + |b|..] == c
  {
    assert (a + b + c)[|a|..|a| + |b|] == b;
  }

  lemma Regroup(lines: seq<string>, start: nat, target: nat, end: nat, x: string)
    requires start <= target < end <= |lines|
    ensures lines == lines[..start] + lines[start..end] + lines[end..]
    ensures lines[..target] + [x] + lines[target + 1..]
         == lines[..start] + (lines[start..target] + [x] + lines[target + 1..end]) + lines[end..]
  {
  }

  /** The text of a comment that replaces a line: its indentation, a note, and its newline. */
  function CommentReplacement(line: string, operatorId: string): string {
    line[..Indent(line)] + "// CGQA auto-mutation " + operatorId + ": removed reviewed statement"
    + (if line != "" && line[|line| - 1] == '\n' then "\n" else "")
  }

  /** What every mutation operator's pattern demands of the line it matches: after its indentation
      comes a statement, not a comment. */
  predicate Statement(line: string) {
    Indent(line) < |line| && line[Indent(line)] != '/'
  }

  /** If splices at two occurrences gave one text, pattern and replacement would agree everywhere. */
  lemma {:induction false} SplicesAgree(s: string, m: string, r: string, i: nat, j: nat, k: nat)
    requires OccursAt(s, m, i) && OccursAt(s, m, j) && i < j
    requires s[..i] + r + s[i + |m|..] == s[..j] + r + s[j + |m|..]
    requires k < |m| && k < |r|
    ensures r[k] == m[k]
  {
    var x, y := s[..i] + r + s[i + |m|..], s[..j] + r + s[j + |m|..];
    assert x[i + k] == r[k] && s[i..i + |m|][k] == m[k];
    if i + k < j {
      assert y[i + k] == s[i + k];
    } else {
      var h := i + k - j;
      SplicesAgree(s, m, r, i, j, h);
      assert y[j + h] == r[h] && s[j..j + |m|][h] == m[h];
    }
  }

  /** Inside the context, the statement and the comment that replaces it differ after the indentation. */
  lemma CommentDiffers(lines: seq<string>, target: nat, radius: nat, operatorId: string) returns (k: nat)
    requires target < |lines| && Statement(lines[target])
    ensures var c := ContextAt(lines, target, radius, CommentReplacement(lines[target], operatorId));
            k < |c.pattern| && k < |c.replacement| && c.pattern[k] != c.replacement[k]
  {
    hide Join, Indent, IsSpace, CommentReplacement;
    var start, end := ContextStart(target, radius), ContextEnd(lines, target, radius);
    var line, comment := lines[target], CommentReplacement(lines[target], operatorId);
    var a, b := lines[start..target], lines[target + 1..end];
    assert lines[start..end] == a + [line] + b;
    JoinThree(a, [line], b);
    JoinThree(a, [comment], b);
    JoinOne(line);
    JoinOne(comment);
    CommentStarts(line, operatorId);
    k := |Join(a)| + Indent(line);
  }

  lemma JoinOne(line: string)
    ensures Join([line]) == line
  {
  }

  lemma CommentStarts(line: string, operatorId: string)
    ensures |CommentReplacement(line, operatorId)| > Indent(line)
            && CommentReplacement(line, operatorId)[Indent(line)] == '/'
  {
  }

  ghost function Mutated(source: string, c: Context): string
    requires c.pattern != "" && Count(source, c.pattern) == 1
  {
    CountOne(source, c.pattern);
    var first := Find(source, c.pattern, 0);
    source[..first] + c.replacement + source[first + |c.pattern|..]
  }

  /** Exactly when a generated mutation replaces its target line and nothing else: when the first
      occurrence of the context in the source is the context itself. */
  lemma HitsTargetIff(lines: seq<string>, target: nat, radius: nat, operatorId: string)
    requires target < |lines| && (forall line :: line in lines ==> line != "") && Statement(lines[target])
    requires CountContext(Join(lines), lines, target, radius) == 1
    ensures var source, comment := Join(lines), CommentReplacement(lines[target], operatorId);
            var c := ContextAt(lines, target, radius, comment);
            && c.pattern == ContextText(lines, target, radius) != ""
            && (Mutated(source, c) == WithLine(lines, target, comment)
                <==> Find(source, c.pattern, 0) == ContextOffset(lines, target, radius))
  {
    hide Find, Join, WithLine, CommentReplacement, Indent, OccursAt, Mutated, CountFrom, Statement,
         ContextOffset, ContextAt, ContextText;
    var source, comment := Join(lines), CommentReplacement(lines[target], operatorId);
    var c, o := ContextAt(lines, target, radius, comment), ContextOffset(lines, target, radius);
    PatternIsText(lines, target, radius, comment);
    assert lines[target] in lines;
    ContextIsNotEmpty(lines, target, radius);
    OwnSplice(lines, target, radius, comment);
    var k := CommentDiffers(lines, target, radius, operatorId);
    HitsIff(source, c, o, WithLine(lines, target, comment), k);
  }

  lemma PatternIsText(lines: seq<string>, target: nat, radius: nat, replacementLine: string)
    requires target < |lines|
    ensures ContextAt(lines, target, radius, replacementLine).pattern == ContextText(lines, target, radius)
  {
  }

  lemma HitsIff(source: string, c: Context, o: nat, expected: string, k: nat)
    requires c.pattern != "" && Count(source, c.pattern) == 1 && OccursAt(source, c.pattern, o)
    requires expected == source[..o] + c.replacement + source[o + |c.pattern|..]
    requires k < |c.pattern| && k < |c.replacement| && c.pattern[k] != c.replacement[k]
    ensures Mutated(source, c) == expected <==> Find(source, c.pattern, 0) == o
  {
    hide CountFrom, OccursAt;
    CountOne(source, c.pattern);
    hide Find, Count;
    var first := Find(source, c.pattern, 0);
    if first < o && Mutated(source, c) == expected {
      SplicesAgree(source, c.pattern, c.replacement, first, o, k);
    }
  }

  /** In particular it does when the context occurs at one offset, overlaps included. */
  lemma SingleOffsetHitsTarget(lines: seq<string>, target: nat, radius: nat, operatorId: string)
    requires target < |lines| && (forall line :: line in lines ==> line != "") && Statement(lines[target])
    requires CountContext(Join(lines), lines, target, radius) == 1
    requires forall i, j ::
               (OccursAt(Join(lines), ContextText(lines, target, radius), i)
                && OccursAt(Join(lines), ContextText(lines, target, radius), j)) ==> i == j
    ensures var comment := CommentReplacement(lines[target], operatorId);
            Mutated(Join(lines), ContextAt(lines, target, radius, comment)) == WithLine(lines, target, comment)
  {
    var comment := CommentReplacement(lines[target], operatorId);
    HitsTargetIff(lines, target, radius, operatorId);
    OwnSplice(lines, target, radius, comment);
    CountOne(Join(lines), ContextText(lines, target, radius));
  }
}
