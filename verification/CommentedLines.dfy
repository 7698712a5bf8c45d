/** What replacing a statement by a comment does to the lines of a source. */
module CommentedLines {
  import opened Text
  import opened SourceMutation
  import opened MutationGenerator

  predicate NoTerminator(s: string) {
    forall i :: 0 <= i < |s| ==> !EndsLine(s[i])
  }

  predicate EndsInNewline(line: string) {
    line != "" && line[|line| - 1] == '\n'
  }

  function Words(): string {
    "// CGQA auto-mutation "
  }

  function Rest(): string {
    ": removed reviewed statement"
  }

  /** The comment without its newline. */
  function Note(line: string, operatorId: string): string {
    line[..Indent(line)] + Words() + operatorId + Rest()
  }

  lemma NoteAndNewline(line: string, operatorId: string)
    ensures CommentReplacement(line, operatorId) == Note(line, operatorId) + if EndsInNewline(line) then "\n" else ""
  {
  }

  /** The comment keeps the indentation, starts with two slashes after it, and names the operator. */
  lemma CommentBegins(line: string, operatorId: string)
    ensures var comment, n := CommentReplacement(line, operatorId), Indent(line);
            && n + 2 <= |comment| && comment[..n] == line[..n] && comment[n..n + 2] == "//"
            && exists k: nat :: OccursAt(comment, operatorId, k)
  {
    hide CommentReplacement, OccursAt, Indent, Words, Rest;
    var end := if EndsInNewline(line) then "\n" else "";
    CommentSum(line, operatorId);
    WordsBegin();
    Parts(line[..Indent(line)], Words(), operatorId, Rest() + end);
    Reassociate(line[..Indent(line)] + Words() + operatorId, Rest(), end);
  }

  lemma WordsBegin()
    ensures |Words()| >= 2 && Words()[0] == '/' && Words()[1] == '/'
  {
  }

  lemma CommentSum(line: string, operatorId: string)
    ensures CommentReplacement(line, operatorId)
         == line[..Indent(line)] + Words() + operatorId + Rest() + if EndsInNewline(line) then "\n" else ""
  {
  }

  lemma Reassociate(a: string, b: string, c: string)
    ensures a + b + c == a + (b + c)
  {
  }

  lemma Parts(a: string, b: string, c: string, d: string)
    requires |b| >= 2
    ensures var s := a + b + c + d;
            s[..|a|] == a && s[|a|..|a| + 2] == [b[0], b[1]] && OccursAt(s, c, |a + b|)
  {
    Sides(a + b, c, d);
    assert a + b + c + d == a + (b + c + d);
  }

  lemma WordsEndNoLine()
    ensures NoTerminator(Words()) && NoTerminator(Rest())
  {
  }

  /** The indentation of a statement ends no line. */
  lemma IndentationIsPlain(line: string)
    requires OneLine(line) && Statement(line)
    ensures NoTerminator(line[..Indent(line)])
  {
    assert IsSpace('\n');
    forall i | 0 <= i < Indent(line) ensures !EndsLine(line[i]) {
    }
  }

  lemma NoteIsPlain(line: string, operatorId: string)
    requires OneLine(line) && Statement(line) && NoTerminator(operatorId)
    ensures NoTerminator(Note(line, operatorId)) && Note(line, operatorId) != ""
    ensures Note(line, operatorId)[0] == line[0] || Note(line, operatorId)[0] == '/'
  {
    hide EndsLine, Indent, Statement, Words, Rest;
    IndentationIsPlain(line);
    WordsEndNoLine();
    WordsBegin();
  }

  lemma CommentIsLine(line: string, operatorId: string)
    requires OneLine(line) && Statement(line) && NoTerminator(operatorId)
    ensures OneLine(CommentReplacement(line, operatorId))
    ensures EndsInNewline(line) <==> EndsInNewline(CommentReplacement(line, operatorId))
    ensures !EndsInNewline(line) ==> NoTerminator(CommentReplacement(line, operatorId))
  {
    NoteAndNewline(line, operatorId);
    NoteIsPlain(line, operatorId);
    hide Note, CommentReplacement, Statement, EndsLine;
    assert EndsLine('\n') by { NewlineEnds(); }
  }

  lemma NewlineEnds()
    ensures EndsLine('\n')
  {
  }

  /** Replacing a line by another one, between the same neighbours. */
  lemma LinesWith(lines: seq<string>, target: nat, line: string)
    requires AreLines(lines) && target < |lines| && OneLine(line)
    requires target > 0 ==> EndsBefore(lines[target - 1], line)
    requires target + 1 < |lines| ==> EndsBefore(line, lines[target + 1])
    ensures AreLines(lines[target := line])
  {
    hide OneLine, EndsBefore;
  }

  /** The comment can follow whatever the statement followed. */
  lemma CommentFollows(before: string, line: string, operatorId: string)
    requires EndsBefore(before, line) && OneLine(line) && Statement(line) && NoTerminator(operatorId)
    ensures EndsBefore(before, Note(line, operatorId)) && EndsBefore(before, CommentReplacement(line, operatorId))
  {
    NoteIsPlain(line, operatorId);
    NoteAndNewline(line, operatorId);
    hide Note, CommentReplacement, Statement, EndsLine;
  }

  lemma Follows(line: string, next: string)
    requires EndsInNewline(line) && next != ""
    ensures EndsBefore(line, next)
  {
    NewlineEnds();
  }

  /** With a newline, or at the end, the lines stay lines: all but the target as they were. */
  lemma LinesStay(lines: seq<string>, target: nat, operatorId: string)
    requires AreLines(lines) && target < |lines| && Statement(lines[target]) && NoTerminator(operatorId)
    requires target == |lines| - 1 || EndsInNewline(lines[target])
    ensures var comment := CommentReplacement(lines[target], operatorId);
            SplitLines(WithLine(lines, target, comment)) == lines[target := comment]
  {
    hide OneLine, EndsBefore, Statement, CommentReplacement, SplitLines, Join, EndsInNewline;
    var comment := CommentReplacement(lines[target], operatorId);
    CommentIsLine(lines[target], operatorId);
    if target > 0 { CommentFollows(lines[target - 1], lines[target], operatorId); }
    if target + 1 < |lines| {
      assert OneLine(lines[target + 1]);
      LineIsNotEmpty(lines[target + 1]);
      Follows(comment, lines[target + 1]);
    }
    LinesWith(lines, target, comment);
    JoinSplits(lines[target := comment]);
    assert lines[..target] + [comment] + lines[target + 1..] == lines[target := comment];
  }

  lemma LineIsNotEmpty(line: string)
    requires OneLine(line)
    ensures line != ""
  {
  }

  /** The lines with the comment and its successor run together. */
  function RunTogether(lines: seq<string>, target: nat, comment: string): seq<string>
    requires target + 1 < |lines|
  {
    lines[..target] + [comment + lines[target + 1]] + lines[target + 2..]
  }

  lemma MergedLine(note: string, next: string)
    requires NoTerminator(note) && note != "" && OneLine(next)
    ensures OneLine(note + next)
  {
    var s := note + next;
    hide EndsLine;
    assert forall i :: 0 <= i < |note| ==> s[i] == note[i];
    assert forall i :: 0 <= i < |next| ==> s[|note| + i] == next[i];
  }

  lemma MergedAreLines(lines: seq<string>, target: nat, note: string)
    requires AreLines(lines) && target + 1 < |lines| && NoTerminator(note) && note != ""
    requires target > 0 ==> EndsBefore(lines[target - 1], note)
    ensures AreLines(RunTogether(lines, target, note))
  {
    var merged, all := note + lines[target + 1], RunTogether(lines, target, note);
    MergedLine(note, lines[target + 1]);
    if target > 0 { StartsSame(lines[target - 1], note, lines[target + 1]); }
    if target + 2 < |lines| { EndsSame(note, lines[target + 1], lines[target + 2]); }
    hide OneLine, EndsBefore, NoTerminator;
    forall i, k | 0 <= i < |all| - 1 && k == i + 1 ensures EndsBefore(all[i], all[k]) {
      if i > target { assert all[i] == lines[i + 1] && all[k] == lines[k + 1]; }
    }
  }

  lemma StartsSame(before: string, note: string, next: string)
    requires EndsBefore(before, note)
    ensures EndsBefore(before, note + next)
  {
    hide EndsLine;
  }

  lemma EndsSame(note: string, line: string, next: string)
    requires EndsBefore(line, next)
    ensures EndsBefore(note + line, next)
  {
    hide EndsLine;
  }

  /** After a line that ends otherwise, the comment swallows the line that follows. */
  lemma NextIsSwallowed(lines: seq<string>, target: nat, operatorId: string)
    requires AreLines(lines) && target + 1 < |lines| && Statement(lines[target]) && NoTerminator(operatorId)
    requires !EndsInNewline(lines[target])
    ensures var comment := CommentReplacement(lines[target], operatorId);
            && SplitLines(WithLine(lines, target, comment)) == RunTogether(lines, target, comment)
            && |RunTogether(lines, target, comment)| == |lines| - 1
  {
    var comment := CommentReplacement(lines[target], operatorId);
    var next := lines[target + 1];
    hide OneLine, EndsBefore, Statement, CommentReplacement, SplitLines, Join, EndsInNewline, NoTerminator;
    CommentIsLine(lines[target], operatorId);
    LineIsNotEmpty(comment);
    if target > 0 { CommentFollows(lines[target - 1], lines[target], operatorId); }
    MergedAreLines(lines, target, comment);
    JoinSplits(RunTogether(lines, target, comment));
    TwoAsOne(lines[..target], comment, next, lines[target + 2..]);
    assert lines[target + 1..] == [next] + lines[target + 2..];
    assert lines[..target] + [comment] + lines[target + 1..]
        == lines[..target] + [comment] + ([next] + lines[target + 2..]);
  }

  lemma TwoAsOne(before: seq<string>, a: string, b: string, after: seq<string>)
    ensures Join(before + [a] + ([b] + after)) == Join(before + [a + b] + after)
  {
    JoinThree(before, [a], [b] + after);
    JoinThree(before, [a + b], after);
    JoinAppend([b], after);
    JoinOne(a);
    JoinOne(b);
    JoinOne(a + b);
  }

  /** The lines of the mutated text are the lines of the source with the comment in place of the statement exactly
      when the statement is on the last line or its line ends in a newline; then no other line changes. */
  lemma LinesStayIff(lines: seq<string>, target: nat, operatorId: string)
    requires AreLines(lines) && target < |lines| && Statement(lines[target]) && NoTerminator(operatorId)
    ensures var comment := CommentReplacement(lines[target], operatorId);
            var after := SplitLines(Join(lines[target := comment]));
            && (|after| == |lines| && (forall i :: 0 <= i < |lines| && i != target ==> after[i] == lines[i])
                <==> target == |lines| - 1 || EndsInNewline(lines[target]))
            && (|after| == |lines| ==> after[target] == comment)
  {
    var comment := CommentReplacement(lines[target], operatorId);
    hide AreLines, Statement, CommentReplacement, SplitLines, Join, EndsInNewline, NoTerminator;
    assert lines[..target] + [comment] + lines[target + 1..] == lines[target := comment];
    if target == |lines| - 1 || EndsInNewline(lines[target]) {
      LinesStay(lines, target, operatorId);
    } else {
      NextIsSwallowed(lines, target, operatorId);
    }
  }

  /** So a generated mutation that hits its line leaves the other lines of the source as they were exactly when
      that line is the last or ends in a newline. */
  lemma GeneratedMutationKeepsLines(s: Scanned, c: Config, g: Mutation)
    requires WellScanned(s) && Genuine(s, c, g) && NoTerminator(s.operators[g.line].value.id)
    requires g.context.pattern != "" && Count(s.source, g.context.pattern) == 1
    requires Mutated(s.source, g.context)
          == WithLine(SplitLines(s.source), g.line,
                      CommentReplacement(SplitLines(s.source)[g.line], s.operators[g.line].value.id))
    ensures var lines, after := SplitLines(s.source), SplitLines(Mutated(s.source, g.context));
            |after| == |lines| && (forall i :: 0 <= i < |lines| && i != g.line ==> after[i] == lines[i]) <==>
            g.line == |lines| - 1 || EndsInNewline(lines[g.line])
  {
    hide SplitLines, Mutated, CommentReplacement, EndsInNewline, NoTerminator, AreLines, UniqueAt, BindingFor, Count,
         Join;
    var lines, id := SplitLines(s.source), s.operators[g.line].value.id;
    SplitJoins(s.source);
    LinesStayIff(lines, g.line, id);
    var comment := CommentReplacement(lines[g.line], id);
    assert lines[..g.line] + [comment] + lines[g.line + 1..] == lines[g.line := comment];
  }

  /** A statement that ends in a carriage return takes the next line with it. */
  lemma CarriageReturnSwallows(operatorId: string)
    requires NoTerminator(operatorId)
    ensures var lines := ["a;\r", "b;"];
            && SplitLines(Join(lines)) == lines
            && |SplitLines(Join(lines[0 := CommentReplacement(lines[0], operatorId)]))| == 1
  {
    var lines := ["a;\r", "b;"];
    var comment := CommentReplacement(lines[0], operatorId);
    TwoLines();
    hide *;
    JoinSplits(lines);
    NextIsSwallowed(lines, 0, operatorId);
    assert lines[..0] + [comment] + lines[1..] == lines[0 := comment];
    OneLess(lines, comment);
  }

  lemma OneLess(lines: seq<string>, comment: string)
    requires |lines| == 2
    ensures WithLine(lines, 0, comment) == Join(lines[0 := comment]) && |RunTogether(lines, 0, comment)| == 1
  {
    assert lines[..0] + [comment] + lines[1..] == lines[0 := comment];
  }

  lemma TwoLines()
    ensures AreLines(["a;\r", "b;"]) && Statement("a;\r") && !EndsInNewline("a;\r")
  {
    assert EndsLine('\r') && !EndsLine('a') && !EndsLine('b') && !EndsLine(';') && !IsSpace('a');
    hide EndsLine, IsSpace;
  }
}
