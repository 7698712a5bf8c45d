/** The generation loop: which matched lines become mutations, and what each one is. */
module MutationGenerator {
  import opened Ordering
  import opened Text
  import opened SourceMutation

  datatype Operator = Operator(id: string, faultClass: Id)

  datatype Binding = Binding(faultClass: Id, function_: string, matchPath: string, matchTest: string)

  datatype Mutation = Mutation(line: nat, faultClass: Id, context: Context, matchPath: string, matchTest: string)

  datatype Config = Config(requiredFaultClasses: set<Id>, bindings: seq<Binding>, maxPerFaultClass: nat)

  /** The source with, for every line, the operator that matches it and the enclosing function. */
  datatype Scanned = Scanned(source: string, operators: seq<Option<Operator>>, functions: seq<string>)

  ghost predicate WellScanned(s: Scanned) {
    && |s.operators| == |s.functions| == |SplitLines(s.source)|
    && forall i :: 0 <= i < |s.operators| && s.operators[i].Some? ==> Statement(SplitLines(s.source)[i])
  }

  predicate Binds(b: Binding, faultClass: Id, function_: string) {
    b.faultClass == faultClass && b.function_ == function_
  }

  /** The first binding of a class in a function. */
  function FirstBinding(bindings: seq<Binding>, faultClass: Id, function_: string): (r: Option<Binding>)
    ensures r.Some? ==>
              exists i :: 0 <= i < |bindings| && bindings[i] == r.value && Binds(bindings[i], faultClass, function_)
                          && forall j :: 0 <= j < i ==> !Binds(bindings[j], faultClass, function_)
    ensures r == None ==> forall i :: 0 <= i < |bindings| ==> !Binds(bindings[i], faultClass, function_)
  {
    if bindings == [] then None
    else if Binds(bindings[0], faultClass, function_) then Some(bindings[0])
    else
      assert forall i :: 1 <= i < |bindings| ==> bindings[1..][i - 1] == bindings[i];
      FirstBinding(bindings[1..], faultClass, function_)
  }

  /** The binding of a class in a function, or the class's wildcard. */
  function BindingFor(bindings: seq<Binding>, faultClass: Id, function_: string): Option<Binding> {
    var exact := FirstBinding(bindings, faultClass, function_);
    if exact.Some? then exact else FirstBinding(bindings, faultClass, "*")
  }

  /** A binding is found exactly when the class is bound in the function or by the wildcard; the function's own
      comes before the wildcard, and the first of a kind before the rest. */
  lemma ExactBeforeWildcard(bindings: seq<Binding>, faultClass: Id, function_: string)
    ensures BindingFor(bindings, faultClass, function_).Some? <==>
            exists i :: 0 <= i < |bindings| && bindings[i].faultClass == faultClass
                        && (bindings[i].function_ == function_ || bindings[i].function_ == "*")
    ensures BindingFor(bindings, faultClass, function_).Some? ==>
              var b := BindingFor(bindings, faultClass, function_).value;
              && b.faultClass == faultClass
              && (b.function_ == function_
                  || (b.function_ == "*"
                      && forall i :: 0 <= i < |bindings| && bindings[i].faultClass == faultClass ==>
                                       bindings[i].function_ != function_))
              && exists i :: 0 <= i < |bindings| && bindings[i] == b
                             && forall j :: 0 <= j < i ==> bindings[j].faultClass != faultClass
                                                           || bindings[j].function_ != b.function_
  {
    var exact, wild := FirstBinding(bindings, faultClass, function_), FirstBinding(bindings, faultClass, "*");
    hide FirstBinding;
    if exact.Some? {
      var i :| 0 <= i < |bindings| && bindings[i] == exact.value && Binds(bindings[i], faultClass, function_)
               && forall j :: 0 <= j < i ==> !Binds(bindings[j], faultClass, function_);
    } else if wild.Some? {
      var i :| 0 <= i < |bindings| && bindings[i] == wild.value && Binds(bindings[i], faultClass, "*")
               && forall j :: 0 <= j < i ==> !Binds(bindings[j], faultClass, "*");
    }
  }

  /** Line `i` is matched by an operator of a required class. */
  ghost predicate Wanted(s: Scanned, c: Config, i: nat) {
    i < |s.operators| && s.operators[i].Some? && s.operators[i].value.faultClass in c.requiredFaultClasses
  }

  ghost predicate NoUniqueContext(s: Scanned, i: nat)
    requires i < |SplitLines(s.source)|
  {
    SplitJoins(s.source);
    forall radius :: 0 <= radius <= MAX_RADIUS ==> CountContext(s.source, SplitLines(s.source), i, radius) != 1
  }

  /** `g` is a genuine mutation of a wanted line: bound to tests, with the least unique context, and
      a comment in place of the line. */
  ghost predicate Genuine(s: Scanned, c: Config, g: Mutation)
    requires WellScanned(s)
  {
    && Wanted(s, c, g.line) && g.faultClass == s.operators[g.line].value.faultClass
    && (var b := BindingFor(c.bindings, g.faultClass, s.functions[g.line]);
        b.Some? && g.matchPath == b.value.matchPath && g.matchTest == b.value.matchTest)
    && exists radius :: UniqueAt(s, g.line, radius, g.context)
  }

  ghost predicate UniqueAt(s: Scanned, i: nat, radius: nat, context: Context)
    requires WellScanned(s) && i < |s.operators| && s.operators[i].Some?
  {
    var lines := SplitLines(s.source);
    SplitJoins(s.source);
    && LeastUnique(s.source, lines, i, radius)
    && context == ContextAt(lines, i, radius, CommentReplacement(lines[i], s.operators[i].value.id))
  }

  function CountClass(generated: seq<Mutation>, faultClass: Id): nat {
    if generated == [] then 0
    else CountClass(generated[..|generated| - 1], faultClass)
         + (if generated[|generated| - 1].faultClass == faultClass then 1 else 0)
  }

  /** What the loop collects. */
  datatype Harvest = Harvest(discovered: seq<nat>, ambiguous: seq<nat>, generated: seq<Mutation>,
                             unboundClasses: set<Id>, perClassCount: map<Id, nat>)

  // ------------------------------------------------------- what becomes of each line

  /** A line matches no required class, finds its class full, has no test binding, has no unique context,
      or becomes a mutation. */
  datatype Fate = Ignored | Full | Untested | NoContext | Emitted

  function ClassOf(s: Scanned, i: nat): Id
    requires i < |s.operators| && s.operators[i].Some?
  {
    s.operators[i].value.faultClass
  }

  /** How many of the first `n` lines became mutations of a class. */
  ghost function Taken(s: Scanned, c: Config, n: nat, faultClass: Id): nat
    requires WellScanned(s) && n <= |s.operators|
    decreases n, 0
  {
    if n == 0 then 0
    else
      Taken(s, c, n - 1, faultClass)
      + if FateOf(s, c, n - 1) == Emitted && ClassOf(s, n - 1) == faultClass then 1 else 0
  }

  /** First come, first served: the class of a line is full when earlier lines have used its limit. */
  ghost function FateOf(s: Scanned, c: Config, i: nat): (fate: Fate)
    requires WellScanned(s) && i < |s.operators|
    ensures fate == Ignored <==> !Wanted(s, c, i)
    decreases i, 1
  {
    if !Wanted(s, c, i) then Ignored
    else if Taken(s, c, i, ClassOf(s, i)) >= c.maxPerFaultClass then Full
    else if BindingFor(c.bindings, ClassOf(s, i), s.functions[i]) == None then Untested
    else if NoUniqueContext(s, i) then NoContext
    else Emitted
  }

  /** The lines among the first `n` with a fate, in order. */
  ghost function Lines(s: Scanned, c: Config, n: nat, fate: Fate): seq<nat>
    requires WellScanned(s) && n <= |s.operators|
  {
    if n == 0 then [] else Lines(s, c, n - 1, fate) + When(FateOf(s, c, n - 1) == fate, n - 1)
  }

  ghost function WantedLines(s: Scanned, c: Config, n: nat): seq<nat> {
    if n == 0 then [] else WantedLines(s, c, n - 1) + When(Wanted(s, c, n - 1), n - 1)
  }

  lemma {:induction false} LinesAre(s: Scanned, c: Config, n: nat, fate: Fate)
    requires WellScanned(s) && n <= |s.operators|
    ensures forall i: nat :: i in Lines(s, c, n, fate) <==> i < n && FateOf(s, c, i) == fate
    ensures forall i, j :: 0 <= i < j < |Lines(s, c, n, fate)| ==> Lines(s, c, n, fate)[i] < Lines(s, c, n, fate)[j]
  {
    hide FateOf, WellScanned;
    if n > 0 {
      LinesAre(s, c, n - 1, fate);
      var before := Lines(s, c, n - 1, fate);
      assert forall i :: 0 <= i < |before| ==> before[i] in before;
    }
  }

  lemma {:induction false} TakenFits(s: Scanned, c: Config, n: nat, faultClass: Id)
    requires WellScanned(s) && n <= |s.operators|
    ensures Taken(s, c, n, faultClass) <= n && Taken(s, c, n, faultClass) <= c.maxPerFaultClass
  {
    hide WellScanned, BindingFor, NoUniqueContext;
    if n > 0 { TakenFits(s, c, n - 1, faultClass); }
  }

  /** Line `j` became a mutation of the class. */
  ghost predicate Used(s: Scanned, c: Config, j: nat, faultClass: Id)
    requires WellScanned(s)
  {
    j < |s.operators| && FateOf(s, c, j) == Emitted && ClassOf(s, j) == faultClass
  }

  /** How many mutations a class has had before a line: the number of earlier lines of the class that became one. */
  lemma {:induction false} TakenIsNumber(s: Scanned, c: Config, n: nat, faultClass: Id, earlier: set<nat>)
    requires WellScanned(s) && n <= |s.operators|
    requires forall j: nat :: j in earlier <==> j < n && Used(s, c, j, faultClass)
    ensures Taken(s, c, n, faultClass) == |earlier|
  {
    hide WellScanned, Used, Taken;
    if n == 0 {
      assert earlier == {};
      TakenNone(s, c, faultClass);
    } else {
      TakenNext(s, c, n, faultClass);
      ghost var before := earlier - {n - 1};
      assert forall j: nat :: j in before <==> j < n - 1 && Used(s, c, j, faultClass);
      TakenIsNumber(s, c, n - 1, faultClass, before);
      if n - 1 !in earlier { assert before == earlier; }
    }
  }

  lemma TakenNone(s: Scanned, c: Config, faultClass: Id)
    requires WellScanned(s)
    ensures Taken(s, c, 0, faultClass) == 0
  {
  }

  lemma TakenNext(s: Scanned, c: Config, n: nat, faultClass: Id)
    requires WellScanned(s) && 0 < n <= |s.operators|
    ensures Taken(s, c, n, faultClass)
         == Taken(s, c, n - 1, faultClass) + if Used(s, c, n - 1, faultClass) then 1 else 0
  {
    hide WellScanned, FateOf;
  }

  /** The class of line `i` is bound in the function of the line, or by the wildcard. */
  predicate IsBound(s: Scanned, c: Config, i: nat)
    requires i < |s.operators| && i < |s.functions| && s.operators[i].Some?
  {
    exists k :: 0 <= k < |c.bindings| && c.bindings[k].faultClass == ClassOf(s, i)
                && (c.bindings[k].function_ == s.functions[i] || c.bindings[k].function_ == "*")
  }

  /** The context of this radius is counted once. */
  ghost predicate CountedOnceAt(s: Scanned, i: nat, radius: nat)
    requires i < |SplitLines(s.source)|
  {
    SplitJoins(s.source);
    CountContext(s.source, SplitLines(s.source), i, radius) == 1
  }

  /** What decides the fate of a matched line, in this order: whether the earlier mutations of its class leave room,
      whether its class is bound, and whether some radius up to eight has a context that is counted once. */
  lemma FateMeans(s: Scanned, c: Config, i: nat, earlier: set<nat>)
    requires WellScanned(s) && i < |s.operators| && i < |s.functions| && i < |SplitLines(s.source)|
    requires s.operators[i].Some? && ClassOf(s, i) in c.requiredFaultClasses
    requires forall j: nat :: j in earlier <==> j < i && Used(s, c, j, ClassOf(s, i))
    ensures var full, bound := |earlier| >= c.maxPerFaultClass, IsBound(s, c, i);
            var unique := exists radius: nat :: radius <= 8 && CountedOnceAt(s, i, radius);
            && (FateOf(s, c, i) == Full <==> full)
            && (FateOf(s, c, i) == Untested <==> !full && !bound)
            && (FateOf(s, c, i) == NoContext <==> !full && bound && !unique)
            && (FateOf(s, c, i) == Emitted <==> !full && bound && unique)
  {
    hide WellScanned, BindingFor, CountContext, SplitLines, Taken, Used;
    TakenIsNumber(s, c, i, ClassOf(s, i), earlier);
    ExactBeforeWildcard(c.bindings, ClassOf(s, i), s.functions[i]);
    SomeUniqueIff(s, i);
    hide NoUniqueContext, CountedOnceAt;
  }

  lemma SomeUniqueIff(s: Scanned, i: nat)
    requires i < |SplitLines(s.source)|
    ensures (exists radius: nat :: radius <= 8 && CountedOnceAt(s, i, radius)) <==> !NoUniqueContext(s, i)
  {
    hide SplitLines, CountContext;
    SplitJoins(s.source);
    if !NoUniqueContext(s, i) {
      var radius: nat :| radius <= MAX_RADIUS && CountContext(s.source, SplitLines(s.source), i, radius) == 1;
      assert CountedOnceAt(s, i, radius);
    }
    forall radius: nat | radius <= 8 && CountedOnceAt(s, i, radius) ensures !NoUniqueContext(s, i) {
      assert CountContext(s.source, SplitLines(s.source), i, radius) == 1;
    }
  }

  ghost predicate HasUntested(s: Scanned, c: Config, n: nat, faultClass: Id)
    requires WellScanned(s) && n <= |s.operators|
  {
    exists i: nat :: i < n && FateOf(s, c, i) == Untested && ClassOf(s, i) == faultClass
  }

  ghost predicate LinesOf(generated: seq<Mutation>, lines: seq<nat>) {
    |generated| == |lines| && forall i :: 0 <= i < |lines| ==> generated[i].line == lines[i]
  }

  /** The lists hold exactly the lines of each fate, in order; the counts are those of the mutations. */
  ghost predicate AllDecided(s: Scanned, c: Config, n: nat, h: Harvest)
    requires WellScanned(s) && n <= |s.operators|
  {
    && h.discovered == WantedLines(s, c, n)
    && h.ambiguous == Lines(s, c, n, NoContext)
    && LinesOf(h.generated, Lines(s, c, n, Emitted))
    && (forall faultClass :: faultClass in h.unboundClasses <==> HasUntested(s, c, n, faultClass))
    && (forall faultClass :: CountClass(h.generated, faultClass) == Taken(s, c, n, faultClass))
  }

  /** Every mutation is genuine, lines ascend, and no class has more than its limit. */
  ghost predicate AllGenuine(s: Scanned, c: Config, n: nat, h: Harvest)
    requires WellScanned(s)
  {
    && (forall i :: 0 <= i < |h.generated| ==> h.generated[i].line < n && Genuine(s, c, h.generated[i]))
    && (forall i, j :: 0 <= i < j < |h.generated| ==> h.generated[i].line < h.generated[j].line)
    && (forall faultClass :: CountClass(h.generated, faultClass) <= c.maxPerFaultClass)
    && (forall faultClass :: faultClass in h.perClassCount <==> faultClass in c.requiredFaultClasses)
    && (forall faultClass :: faultClass in h.perClassCount ==>
          h.perClassCount[faultClass] == CountClass(h.generated, faultClass))
  }

  /** Line `n` adds to the harvest what its fate says. */
  ghost predicate Adds(s: Scanned, c: Config, n: nat, h: Harvest, h': Harvest)
    requires WellScanned(s) && n < |s.operators|
  {
    var fate := FateOf(s, c, n);
    && h'.discovered == h.discovered + When(fate != Ignored, n)
    && h'.ambiguous == h.ambiguous + When(fate == NoContext, n)
    && h'.unboundClasses == h.unboundClasses + (if fate == Untested then {ClassOf(s, n)} else {})
    && (if fate == Emitted then
          && |h'.generated| > 0 && h'.generated == h.generated + [h'.generated[|h'.generated| - 1]]
          && h'.generated[|h'.generated| - 1].line == n && h'.generated[|h'.generated| - 1].faultClass == ClassOf(s, n)
        else h'.generated == h.generated)
  }

  lemma DecideOneMore(s: Scanned, c: Config, n: nat, h: Harvest, h': Harvest)
    requires WellScanned(s) && n < |s.operators| && AllDecided(s, c, n, h) && Adds(s, c, n, h, h')
    ensures AllDecided(s, c, n + 1, h')
  {
    hide WellScanned, HasUntested, FateOf;
    forall faultClass ensures faultClass in h'.unboundClasses <==> HasUntested(s, c, n + 1, faultClass) {
      UntestedOneMore(s, c, n, faultClass);
    }
    if FateOf(s, c, n) == Emitted {
      var g := h'.generated[|h'.generated| - 1];
      forall faultClass ensures CountClass(h'.generated, faultClass) == Taken(s, c, n + 1, faultClass) {
        CountNext(h.generated, g, faultClass);
      }
      hide CountClass, Taken;
      LinesNext(h.generated, g, Lines(s, c, n, Emitted));
    }
  }

  lemma CountNext(generated: seq<Mutation>, g: Mutation, faultClass: Id)
    ensures CountClass(generated + [g], faultClass)
         == CountClass(generated, faultClass) + if g.faultClass == faultClass then 1 else 0
  {
    assert (generated + [g])[..|generated|] == generated;
  }

  lemma LinesNext(generated: seq<Mutation>, g: Mutation, lines: seq<nat>)
    requires LinesOf(generated, lines)
    ensures LinesOf(generated + [g], lines + [g.line])
  {
  }

  lemma UntestedOneMore(s: Scanned, c: Config, n: nat, faultClass: Id)
    requires WellScanned(s) && n < |s.operators|
    ensures HasUntested(s, c, n + 1, faultClass) <==>
            HasUntested(s, c, n, faultClass) || (FateOf(s, c, n) == Untested && ClassOf(s, n) == faultClass)
  {
    hide WellScanned, FateOf;
  }

  lemma AddMutation(s: Scanned, c: Config, n: nat, h: Harvest, h': Harvest, g: Mutation)
    requires WellScanned(s) && AllGenuine(s, c, n, h) && Genuine(s, c, g) && g.line == n
    requires g.faultClass in h.perClassCount && h.perClassCount[g.faultClass] < c.maxPerFaultClass
    requires h'.generated == h.generated + [g]
    requires h'.perClassCount == h.perClassCount[g.faultClass := h.perClassCount[g.faultClass] + 1]
    ensures AllGenuine(s, c, n + 1, h')
  {
    hide Genuine, WellScanned;
    forall faultClass
      ensures CountClass(h'.generated, faultClass)
           == CountClass(h.generated, faultClass) + (if g.faultClass == faultClass then 1 else 0)
    {
      CountNext(h.generated, g, faultClass);
    }
    hide CountClass;
  }

  lemma KeepMutations(s: Scanned, c: Config, n: nat, h: Harvest, h': Harvest)
    requires WellScanned(s) && AllGenuine(s, c, n, h)
    requires h'.generated == h.generated && h'.perClassCount == h.perClassCount
    ensures AllGenuine(s, c, n + 1, h')
  {
    hide Genuine, WellScanned, CountClass;
  }

  /** The loop over the lines. */
  method Generate(s: Scanned, c: Config) returns (h: Harvest)
    requires WellScanned(s)
    ensures AllDecided(s, c, |s.operators|, h) && AllGenuine(s, c, |s.operators|, h)
  {
    hide AllDecided, AllGenuine, Genuine, FateOf, Adds, CountClass, SplitLines;
    var lines := SplitLines(s.source);
    h := Harvest([], [], [], {}, map x | x in c.requiredFaultClasses :: 0);
    NothingCollected(s, c, h);
    for n := 0 to |s.operators|
      invariant AllDecided(s, c, n, h) && AllGenuine(s, c, n, h)
    {
      if s.operators[n].Some? && s.operators[n].value.faultClass in c.requiredFaultClasses {
        h := TryLine(s, c, lines, n, h);
      } else {
        IgnoredAdds(s, c, n, h);
        DecideOneMore(s, c, n, h, h);
        KeepMutations(s, c, n, h, h);
      }
    }
  }

  lemma IgnoredAdds(s: Scanned, c: Config, n: nat, h: Harvest)
    requires WellScanned(s) && n < |s.operators| && !Wanted(s, c, n)
    ensures Adds(s, c, n, h, h)
  {
    hide WellScanned;
  }

  lemma NothingCollected(s: Scanned, c: Config, h: Harvest)
    requires WellScanned(s) && h == Harvest([], [], [], {}, map x | x in c.requiredFaultClasses :: 0)
    ensures AllDecided(s, c, 0, h) && AllGenuine(s, c, 0, h)
  {
    EmptyCounts();
    hide Genuine, CountClass, SplitLines, WellScanned;
  }

  lemma EmptyCounts()
    ensures forall faultClass :: CountClass([], faultClass) == 0
  {
  }

  lemma WithinLimit(s: Scanned, c: Config, n: nat, h: Harvest, faultClass: Id)
    requires WellScanned(s) && AllGenuine(s, c, n, h) && faultClass in c.requiredFaultClasses
    ensures faultClass in h.perClassCount
            && h.perClassCount[faultClass] == CountClass(h.generated, faultClass) <= c.maxPerFaultClass
  {
    hide Genuine, CountClass, WellScanned;
  }

  /** What the tests of the loop say about the fate of a matched line. */
  lemma FateFound(s: Scanned, c: Config, n: nat, h: Harvest, lines: seq<string>)
    requires WellScanned(s) && Wanted(s, c, n) && AllDecided(s, c, n, h) && AllGenuine(s, c, n, h)
    requires lines == SplitLines(s.source) && forall line :: line in lines ==> line != ""
    ensures var full := h.perClassCount[ClassOf(s, n)] >= c.maxPerFaultClass;
            var bound := BindingFor(c.bindings, ClassOf(s, n), s.functions[n]).Some?;
            var unique := exists radius :: 0 <= radius <= MAX_RADIUS && CountContext(s.source, lines, n, radius) == 1;
            FateOf(s, c, n) == if full then Full else if !bound then Untested
                               else if !unique then NoContext else Emitted
  {
    hide CountClass, BindingFor, CountContext, SplitLines, Genuine, LinesOf, Lines, WantedLines, HasUntested;
    assert h.perClassCount[ClassOf(s, n)] == Taken(s, c, n, ClassOf(s, n));
  }

  /** One matched line: counted out, unbound, ambiguous, or mutated. */
  method TryLine(s: Scanned, c: Config, lines: seq<string>, n: nat, h: Harvest) returns (h': Harvest)
    requires WellScanned(s) && lines == SplitLines(s.source) && Wanted(s, c, n)
    requires AllDecided(s, c, n, h) && AllGenuine(s, c, n, h)
    ensures AllDecided(s, c, n + 1, h') && AllGenuine(s, c, n + 1, h')
  {
    hide AllDecided, AllGenuine, Genuine, FateOf, SplitLines, BindingFor, CountClass,
         CountContext, ContextAt, CommentReplacement;
    var operator := s.operators[n].value;
    WithinLimit(s, c, n, h, operator.faultClass);
    SplitJoins(s.source);
    FateFound(s, c, n, h, lines);
    h' := h.(discovered := h.discovered + [n]);
    var binding := BindingFor(c.bindings, operator.faultClass, s.functions[n]);
    var anchored := None;
    if h.perClassCount[operator.faultClass] >= c.maxPerFaultClass {
    } else if binding == None {
      h' := h'.(unboundClasses := h.unboundClasses + {operator.faultClass});
    } else {
      anchored := UniqueContextMutation(s.source, lines, n, CommentReplacement(lines[n], operator.id));
      if anchored == None {
        h' := h'.(ambiguous := h.ambiguous + [n]);
      }
    }
    if anchored.Some? {
      var g := Mutation(n, operator.faultClass, anchored.value, binding.value.matchPath, binding.value.matchTest);
      MakeGenuine(s, c, lines, g);
      h' := h'.(generated := h.generated + [g],
                perClassCount := h.perClassCount[operator.faultClass := h.perClassCount[operator.faultClass] + 1]);
      AddMutation(s, c, n, h, h', g);
    } else {
      KeepMutations(s, c, n, h, h');
    }
    DecideOneMore(s, c, n, h, h');
  }

  lemma MakeGenuine(s: Scanned, c: Config, lines: seq<string>, g: Mutation)
    requires WellScanned(s) && Wanted(s, c, g.line) && g.faultClass == s.operators[g.line].value.faultClass
    requires var b := BindingFor(c.bindings, g.faultClass, s.functions[g.line]);
             b.Some? && g.matchPath == b.value.matchPath && g.matchTest == b.value.matchTest
    requires lines == SplitLines(s.source) && forall line :: line in lines ==> line != ""
    requires exists radius :: LeastUnique(s.source, lines, g.line, radius)
               && g.context == ContextAt(lines, g.line, radius,
                                      CommentReplacement(lines[g.line], s.operators[g.line].value.id))
    ensures Genuine(s, c, g)
  {
    hide BindingFor, LeastUnique, ContextAt, CommentReplacement, SplitLines;
    var radius :| LeastUnique(s.source, lines, g.line, radius)
      && g.context == ContextAt(lines, g.line, radius, CommentReplacement(lines[g.line], s.operators[g.line].value.id));
    assert UniqueAt(s, g.line, radius, g.context);
  }

  // ------------------------------------------------- what a generated mutation does

  /** Every generated mutation is accepted by the exact splice on the same source, changes the text
      of its context, and replaces exactly its line if and only if the first occurrence of the
      context is the context itself. */
  lemma GeneratedMutationApplies(s: Scanned, c: Config, g: Mutation) returns (radius: nat)
    requires WellScanned(s) && Genuine(s, c, g)
    ensures g.context.pattern != "" && Count(s.source, g.context.pattern) == 1
    ensures g.context.pattern != g.context.replacement
    ensures UniqueAt(s, g.line, radius, g.context)
    ensures var lines := SplitLines(s.source);
            var comment := CommentReplacement(lines[g.line], s.operators[g.line].value.id);
            Mutated(s.source, g.context) == WithLine(lines, g.line, comment)
            <==> Find(s.source, g.context.pattern, 0) == ContextOffset(lines, g.line, radius)
  {
    hide Find, Mutated, WithLine, ContextOffset, CommentReplacement, SplitLines, CountFrom, Join, BindingFor;
    SplitJoins(s.source);
    var lines := SplitLines(s.source);
    radius :| UniqueAt(s, g.line, radius, g.context);
    HitsTargetIff(lines, g.line, radius, s.operators[g.line].value.id);
    var k := CommentDiffers(lines, g.line, radius, s.operators[g.line].value.id);
  }

  // ------------------------------------------------------- the harvest is determined

  lemma SameMutation(s: Scanned, c: Config, g: Mutation, g': Mutation)
    requires WellScanned(s) && Genuine(s, c, g) && Genuine(s, c, g') && g.line == g'.line
    ensures g == g'
  {
    hide BindingFor, CountContext, ContextAt, CommentReplacement, SplitLines;
    SplitJoins(s.source);
    var radius :| UniqueAt(s, g.line, radius, g.context);
    var radius' :| UniqueAt(s, g.line, radius', g'.context);
    LeastIsOne(s.source, SplitLines(s.source), g.line, radius, radius');
  }

  lemma LeastIsOne(source: string, lines: seq<string>, target: nat, a: nat, b: nat)
    requires target < |lines| && forall line :: line in lines ==> line != ""
    requires LeastUnique(source, lines, target, a) && LeastUnique(source, lines, target, b)
    ensures a == b
  {
    hide CountContext;
  }

  /** Source, operators and configuration leave one harvest. */
  lemma HarvestIsDetermined(s: Scanned, c: Config, h: Harvest, h': Harvest)
    requires WellScanned(s)
    requires AllDecided(s, c, |s.operators|, h) && AllGenuine(s, c, |s.operators|, h)
    requires AllDecided(s, c, |s.operators|, h') && AllGenuine(s, c, |s.operators|, h')
    ensures h == h'
  {
    hide WellScanned, Genuine, FateOf, CountClass, Taken, HasUntested, Lines, WantedLines;
    forall i | 0 <= i < |h.generated| ensures h.generated[i] == h'.generated[i] {
      SameMutation(s, c, h.generated[i], h'.generated[i]);
    }
    assert h.unboundClasses == h'.unboundClasses;
    assert h.perClassCount == h'.perClassCount;
  }
}
