/** Three equal statements: a generated mutation of the third is made on the second. */
module MutationMisses {
  import opened Ordering
  import opened Text
  import opened SourceMutation
  import opened MutationGenerator

  /** A statement on a line of its own, with a newline as its only terminator. */
  predicate StatementLine(line: string) {
    && Statement(line) && line[|line| - 1] == '\n'
    && forall i :: 0 <= i < |line| - 1 ==> !EndsLine(line[i])
  }

  function Thrice(line: string): string {
    line + line + line
  }

  // ------------------------------------------------------------ where contexts occur

  lemma ThriceLines(line: string)
    requires StatementLine(line)
    ensures Join([line, line, line]) == Thrice(line) && SplitLines(Thrice(line)) == [line, line, line]
  {
    JoinOfThree(line, line, line);
    JoinSplits([line, line, line]);
  }

  lemma JoinOfThree(a: string, b: string, c: string)
    ensures Join([a, b, c]) == a + b + c
  {
    JoinThree([a], [b], [c]);
    assert [a] + [b] + [c] == [a, b, c];
    assert Join([a]) == a && Join([b]) == b && Join([c]) == c;
  }

  lemma OwnOffsets(line: string)
    requires line != ""
    ensures forall i :: i == 0 || i == |line| || i == 2 * |line| ==> OccursAt(Thrice(line), line, i)
    ensures OccursAt(Thrice(line), line + line, 0)
  {
    assert Thrice(line) == line + (line + line);
  }

  lemma CountsThree(line: string)
    requires line != ""
    ensures Count(Thrice(line), line) == 3
  {
    var n, s := |line|, Thrice(line);
    hide OccursAt;
    OwnOffsets(line);
    assert CountFrom(s, line, 3 * n) == 0 by { NothingFits(s, line, 3 * n); }
    assert Find(s, line, 2 * n) == 2 * n;
    assert CountFrom(s, line, 2 * n) == 1;
    assert Find(s, line, n) == n;
    assert CountFrom(s, line, n) == 2;
    assert Find(s, line, 0) == 0;
  }

  lemma NothingFits(s: string, pattern: string, from: nat)
    requires pattern != "" && from <= |s| < from + |pattern|
    ensures Find(s, pattern, from) == -1
  {
  }

  lemma CountsOne(line: string)
    requires line != ""
    ensures Count(Thrice(line), line + line) == 1 && Find(Thrice(line), line + line, 0) == 0
  {
    var n, s := |line|, Thrice(line);
    OwnOffsets(line);
    hide OccursAt;
    NothingFits(s, line + line, 2 * n);
    assert CountFrom(s, line + line, 2 * n) == 0;
  }

  // ------------------------------------------------------------- contexts of the third line

  lemma ThirdContexts(line: string, comment: string)
    ensures var lines := [line, line, line];
            && ContextText(lines, 2, 0) == line && ContextText(lines, 2, 1) == line + line
            && ContextAt(lines, 2, 1, comment).pattern == line + line
            && ContextAt(lines, 2, 1, comment).replacement == line + comment
  {
    var lines := [line, line, line];
    assert lines[2..3] == [line] && lines[1..3] == [line] + [line];
    assert lines[1..2] + [comment] + lines[3..3] == [line] + [comment];
    JoinAppend([line], [line]);
    JoinAppend([line], [comment]);
    assert Join([line]) == line && Join([comment]) == comment;
  }

  lemma ReplacedLines(line: string, comment: string)
    ensures var lines := [line, line, line];
            && WithLine(lines, 1, comment) == line + comment + line
            && WithLine(lines, 2, comment) == line + line + comment
  {
    var lines := [line, line, line];
    assert lines[..1] + [comment] + lines[2..] == [line, comment, line];
    assert lines[..2] + [comment] + lines[3..] == [line, line, comment];
    JoinOfThree(line, comment, line);
    JoinOfThree(line, line, comment);
  }

  lemma PlacesDiffer(line: string, operatorId: string)
    requires Statement(line)
    ensures var comment := CommentReplacement(line, operatorId);
            line + comment + line != line + line + comment
  {
    var comment, k := CommentReplacement(line, operatorId), |line| + Indent(line);
    assert comment[Indent(line)] == '/';
    assert (line + comment + line)[k] == '/' && (line + line + comment)[k] == line[Indent(line)];
  }

  /** For every such statement, copied twice: the least unique context of the third line is found, is
      counted once, and its mutation replaces the second line instead. */
  lemma OverlapMissesTarget(line: string, operatorId: string)
    requires StatementLine(line)
    ensures var lines := [line, line, line];
            var source, comment := Thrice(line), CommentReplacement(line, operatorId);
            var c := ContextAt(lines, 2, 1, comment);
            && SplitLines(source) == lines && LeastUnique(source, lines, 2, 1)
            && c.pattern != "" && Count(source, c.pattern) == 1
            && Mutated(source, c) == WithLine(lines, 1, comment) != WithLine(lines, 2, comment)
  {
    hide Find, CountFrom, WithLine, Join, ContextAt, ContextText, CommentReplacement, SplitLines, StatementLine;
    var lines := [line, line, line];
    var source, comment := Thrice(line), CommentReplacement(line, operatorId);
    LineIsStatement(line);
    ThriceLines(line);
    CountsThree(line);
    CountsOne(line);
    ThirdContexts(line, comment);
    ReplacedLines(line, comment);
    PlacesDiffer(line, operatorId);
    SpliceFirst(line, comment);
  }

  lemma LineIsStatement(line: string)
    requires StatementLine(line)
    ensures Statement(line) && line != ""
  {
  }

  lemma SpliceFirst(line: string, comment: string)
    ensures Thrice(line)[..0] + (line + comment) + Thrice(line)[|line + line|..] == line + comment + line
  {
    assert Thrice(line)[|line + line|..] == line;
  }

  // ------------------------------------------------------------------- what is generated

  /** Three copies of a line, matched by one operator, in one function. */
  function ThriceScanned(line: string, operator: Operator, function_: string): Scanned {
    Scanned(Thrice(line), [Some(operator), Some(operator), Some(operator)], [function_, function_, function_])
  }

  predicate Bound(c: Config, operator: Operator, function_: string) {
    && operator.faultClass in c.requiredFaultClasses && c.maxPerFaultClass >= 3
    && BindingFor(c.bindings, operator.faultClass, function_).Some?
  }

  lemma ThriceIsScanned(line: string, operator: Operator, function_: string)
    requires StatementLine(line)
    ensures WellScanned(ThriceScanned(line, operator, function_))
  {
    ThriceLines(line);
    LineIsStatement(line);
    hide StatementLine, Statement, SplitLines, Thrice;
  }

  /** Whatever the generator collects from three such lines, it has a mutation of the third. */
  lemma ThirdIsGenerated(line: string, operator: Operator, function_: string, c: Config, h: Harvest)
    requires StatementLine(line) && Bound(c, operator, function_)
    requires WellScanned(ThriceScanned(line, operator, function_))
    requires AllDecided(ThriceScanned(line, operator, function_), c, 3, h)
    requires AllGenuine(ThriceScanned(line, operator, function_), c, 3, h)
    ensures exists g :: g in h.generated && g.line == 2
  {
    hide StatementLine, WellScanned, Genuine, SplitLines, BindingFor, CountClass, LeastUnique, AllGenuine, Taken;
    var s := ThriceScanned(line, operator, function_);
    OverlapMissesTarget(line, operator.id);
    HasContext(s, 2, 1);
    TakenFits(s, c, 2, operator.faultClass);
    assert FateOf(s, c, 2) == Emitted;
    LinesAre(s, c, 3, Emitted);
    hide FateOf, Lines;
    var i :| 0 <= i < |h.generated| && h.generated[i].line == 2;
    assert h.generated[i] in h.generated;
  }

  lemma HasContext(s: Scanned, i: nat, radius: nat)
    requires i < |SplitLines(s.source)| && forall line :: line in SplitLines(s.source) ==> line != ""
    requires LeastUnique(s.source, SplitLines(s.source), i, radius)
    ensures !NoUniqueContext(s, i)
  {
    hide CountContext, SplitLines;
  }

  /** So the generator, run on three copies of a matched and bound statement, emits a mutation of the third
      line that the exact splice accepts and that replaces the second line instead. */
  lemma GeneratedMutationMisses(line: string, operator: Operator, function_: string, c: Config, h: Harvest)
    returns (g: Mutation)
    requires StatementLine(line) && Bound(c, operator, function_)
    requires WellScanned(ThriceScanned(line, operator, function_))
    requires AllDecided(ThriceScanned(line, operator, function_), c, 3, h)
    requires AllGenuine(ThriceScanned(line, operator, function_), c, 3, h)
    ensures var s, comment := ThriceScanned(line, operator, function_), CommentReplacement(line, operator.id);
            && g in h.generated && g.line == 2 && Genuine(s, c, g)
            && g.context.pattern != "" && Count(s.source, g.context.pattern) == 1
            && Mutated(s.source, g.context) == WithLine([line, line, line], 1, comment)
               != WithLine([line, line, line], 2, comment)
  {
    hide StatementLine, WellScanned, SplitLines, BindingFor, CountClass, CommentReplacement,
         WithLine, Mutated, AllDecided;
    var s := ThriceScanned(line, operator, function_);
    ThirdIsGenerated(line, operator, function_, c, h);
    g :| g in h.generated && g.line == 2;
    assert Genuine(s, c, g);
    hide AllGenuine;
    OverlapMissesTarget(line, operator.id);
    var radius :| UniqueAt(s, g.line, radius, g.context);
    LeastIsOne(s.source, [line, line, line], 2, radius, 1);
  }

  /** The generator itself, on such a source. */
  method GenerateThrice(line: string, operator: Operator, function_: string, c: Config)
    returns (h: Harvest, ghost g: Mutation)
    requires StatementLine(line) && Bound(c, operator, function_)
    ensures var lines, comment := [line, line, line], CommentReplacement(line, operator.id);
            && g in h.generated && g.line == 2
            && g.context.pattern != "" && Count(Thrice(line), g.context.pattern) == 1
            && Mutated(Thrice(line), g.context) == WithLine(lines, 1, comment) != WithLine(lines, 2, comment)
  {
    hide *;
    ThriceIsScanned(line, operator, function_);
    ScannedFields(line, operator, function_);
    h := Generate(ThriceScanned(line, operator, function_), c);
    g := GeneratedMutationMisses(line, operator, function_, c, h);
  }

  lemma ScannedFields(line: string, operator: Operator, function_: string)
    ensures ThriceScanned(line, operator, function_).source == Thrice(line)
    ensures |ThriceScanned(line, operator, function_).operators| == 3
  {
  }

  /** Such a line of Solidity, and the operator whose pattern it matches. */
  const STATE_WRITE := "state = State.A;\n"

  const STATE_WRITE_DROP := Operator("STATE_WRITE_DROP", "state_transition")

  lemma PrintableGoesOn(c: char)
    requires ' ' <= c <= '~'
    ensures !EndsLine(c)
  {
  }

  lemma StateWriteIsStatementLine()
    ensures StatementLine(STATE_WRITE)
  {
    hide EndsLine;
    var line := STATE_WRITE;
    assert |line| == 17 && line[16] == '\n' && line[0] == 's';
    assert !IsSpace('s') && Indent(line) == 0;
    hide IsSpace, Indent;
    forall i | 0 <= i < 16 ensures !EndsLine(line[i]) {
      assert ' ' <= line[i] <= '~';
      PrintableGoesOn(line[i]);
    }
  }

  /** Three state writes under the state-write operator: whatever the generator collects contains the
      misplaced mutation. */
  lemma StateWriteMisses(function_: string, c: Config, h: Harvest) returns (g: Mutation)
    requires Bound(c, STATE_WRITE_DROP, function_)
    requires var s := ThriceScanned(STATE_WRITE, STATE_WRITE_DROP, function_);
             WellScanned(s) && AllDecided(s, c, 3, h) && AllGenuine(s, c, 3, h)
    ensures var lines, comment := [STATE_WRITE, STATE_WRITE, STATE_WRITE],
                               CommentReplacement(STATE_WRITE, STATE_WRITE_DROP.id);
            && g in h.generated && g.line == 2
            && Mutated(Thrice(STATE_WRITE), g.context) == WithLine(lines, 1, comment) != WithLine(lines, 2, comment)
  {
    hide WellScanned, AllDecided, AllGenuine, Bound, StatementLine, Mutated, WithLine, CommentReplacement, Genuine;
    StateWriteIsStatementLine();
    g := GeneratedMutationMisses(STATE_WRITE, STATE_WRITE_DROP, function_, c, h);
  }
}
