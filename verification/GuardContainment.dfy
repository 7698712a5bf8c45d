/** What it means for a path to lie within a root, in terms of drives and cleaned components. */
module GuardContainment {
  import opened GuardPaths
  import opened Slashes
  import Text

  // -------------------------------------------------------------------- texts as pieces

  predicate Trimmed(s: string) {
    s == "/" || (s != "" && s[|s| - 1] != '/')
  }

  /** The components of a rendered path; a leading slash leaves an empty first one. */
  function Pieces(s: string): seq<string> {
    SplitSlash(TrimSlashes(s))
  }

  lemma TrimOnce(s: string)
    requires s != "" && s[|s| - 1] != '/'
    ensures TrimSlashes(s) == s && TrimSlashes(s + "/") == s && TrimSlashes("/") == ""
  {
    assert (s + "/")[..|s|] == s;
  }

  lemma PiecesJoin(s: string)
    requires Trimmed(s)
    ensures SlashFree(Pieces(s)) && JoinSlash(Pieces(s)) == if s == "/" then "" else s
    ensures Pieces(s) == SplitSlash(if s == "/" then "" else s)
  {
    SplitJoin(TrimSlashes(s));
    hide SplitSlash, JoinSlash;
    if s == "/" { assert TrimSlashes("/") == ""; } else { TrimOnce(s); }
  }

  lemma StartsAtIff(b: string, c: string)
    requires Trimmed(b) && Trimmed(c)
    ensures StartsAt(b, c) <==> Pieces(b) <= Pieces(c)
  {
    hide SplitSlash, JoinSlash;
    PiecesJoin(b);
    PiecesJoin(c);
    if b == "/" { assert TrimSlashes("/") == ""; } else { TrimOnce(b); }
    hide TrimSlashes, Pieces;
    PrefixOfParts(Pieces(c), Pieces(b));
    assert "" + "/" == "/";
    if c == "/" { TopOnly(Pieces(b), Pieces(c)); }
  }

  /** Only the top itself starts the top. */
  lemma TopOnly(b: seq<string>, c: seq<string>)
    requires b != [] && c != [] && SlashFree(c) && JoinSlash(c) == ""
    ensures b <= c <==> b == c
  {
    hide SplitSlash;
    JoinSplit(c);
    assert SplitSlash("") == [""];
  }

  lemma MarkerIff(s: string)
    requires Trimmed(s)
    ensures MARKER <= s <==> |Pieces(s)| >= 2 && Pieces(s)[0] == "!escape!"
  {
    hide SplitSlash, JoinSlash;
    PiecesJoin(s);
    hide Pieces;
    SinglePart("!escape!");
    assert "!escape!" + "/" == MARKER;
    PrefixOfParts(Pieces(s), ["!escape!"]);
  }

  lemma SinglePart(part: string)
    ensures JoinSlash([part]) == part
    ensures '/' !in part ==> SplitSlash(part) == [part]
  {
    if '/' !in part { JoinSplit([part]); }
  }

  /** A lower-case drive letter before further components. */
  predicate Rooted(pieces: seq<string>) {
    |pieces| >= 2 && |pieces[0]| == 2 && 'a' <= pieces[0][0] <= 'z' && pieces[0][1] == ':'
  }

  lemma RootedIff(s: string)
    requires Trimmed(s)
    ensures DriveRooted(s) <==> Rooted(Pieces(s))
  {
    hide SplitSlash, JoinSlash;
    PiecesJoin(s);
    hide Pieces;
    if DriveRooted(s) {
      assert s[..2] + "/" == s[..3];
      SinglePart(s[..2]);
      PrefixOfParts(Pieces(s), [s[..2]]);
    }
    if Rooted(Pieces(s)) {
      var drive := Pieces(s)[0];
      SinglePart(drive);
      PrefixOfParts(Pieces(s), [drive]);
      assert drive + "/" <= s;
    }
  }

  // ------------------------------------------------------------------------ case folding

  /** What the proofs need of the Unicode mappings: lower case keeps the colon of a drive, folding keeps
      slashes, colons and lower-case letters, and makes no further slash out of anything. */
  ghost predicate Regular(rules: CaseRules) {
    && (forall s :: |s| == 2 && s[1] == ':' ==> var low := rules.lower(s); low != "" && low[|low| - 1] == ':')
    && (forall c :: 'a' <= c <= 'z' || c == ':' || c == '/' ==> rules.fold(c) == [c])
    && (forall c :: c != '/' ==> rules.fold(c) != "" && '/' !in rules.fold(c))
  }

  function Folded(fold: char -> string, parts: seq<string>): (folded: seq<string>)
    ensures |folded| == |parts|
    ensures forall i :: 0 <= i < |parts| ==> folded[i] == FoldText(fold, parts[i])
  {
    seq(|parts|, i requires 0 <= i < |parts| => FoldText(fold, parts[i]))
  }

  lemma {:induction false} FoldJoins(fold: char -> string, s: string, t: string)
    ensures FoldText(fold, s + t) == FoldText(fold, s) + FoldText(fold, t)
  {
    if t == "" {
      assert s + t == s;
    } else {
      FoldJoins(fold, s, t[..|t| - 1]);
      assert (s + t)[..|s + t| - 1] == s + t[..|t| - 1];
    }
  }

  lemma {:induction false} FoldSlashFree(rules: CaseRules, s: string)
    requires Regular(rules) && '/' !in s
    ensures '/' !in FoldText(rules.fold, s)
  {
    if s != "" { FoldSlashFree(rules, s[..|s| - 1]); }
  }

  lemma FoldedSlashFree(rules: CaseRules, parts: seq<string>)
    requires Regular(rules) && SlashFree(parts)
    ensures SlashFree(Folded(rules.fold, parts))
  {
    hide FoldText, Regular;
    forall i | 0 <= i < |parts| ensures '/' !in Folded(rules.fold, parts)[i] { FoldSlashFree(rules, parts[i]); }
  }

  lemma FoldSlash(fold: char -> string, s: string, t: string)
    requires fold('/') == "/"
    ensures FoldText(fold, s + "/" + t) == FoldText(fold, s) + "/" + FoldText(fold, t)
  {
    assert FoldText(fold, "/") == "/" by { assert "/"[..0] == ""; }
    hide FoldText;
    FoldJoins(fold, s + "/", t);
    FoldJoins(fold, s, "/");
  }

  lemma {:induction false} FoldParts(fold: char -> string, parts: seq<string>)
    requires fold('/') == "/" && parts != []
    ensures JoinSlash(Folded(fold, parts)) == FoldText(fold, JoinSlash(parts))
  {
    hide FoldText;
    if |parts| > 1 {
      FoldParts(fold, parts[1..]);
      assert Folded(fold, parts)[1..] == Folded(fold, parts[1..]);
      FoldSlash(fold, parts[0], JoinSlash(parts[1..]));
    }
  }

  /** Folding a drive-rooted text folds its pieces. */
  lemma FoldPieces(rules: CaseRules, s: string)
    requires Regular(rules) && Trimmed(s) && s != "/"
    ensures Trimmed(FoldText(rules.fold, s)) && FoldText(rules.fold, s) != "/"
    ensures Pieces(FoldText(rules.fold, s)) == Folded(rules.fold, Pieces(s))
  {
    hide SplitSlash, JoinSlash;
    var text := FoldText(rules.fold, s);
    assert text == FoldText(rules.fold, s[..|s| - 1]) + rules.fold(s[|s| - 1]);
    PiecesJoin(s);
    PiecesJoin(text);
    FoldParts(rules.fold, Pieces(s));
    FoldedSlashFree(rules, Pieces(s));
    JoinSplit(Folded(rules.fold, Pieces(s)));
  }

  // ------------------------------------------------------------------- paths as segments

  function Components(value: string): seq<string> {
    SplitSlash(Rest(value))
  }

  predicate Absolute(value: string) {
    StartsAbsolute(Rest(value))
  }

  function Parts(value: string): seq<string> {
    Cleaned(Components(value)).parts
  }

  /** The drive and the cleaned components. Without a drive, an absolute path has an empty first segment, and
      a relative one without components is the segment `.`. With a drive a leading slash only separates:
      without components it is lost, and without the slash the first component stays glued to the drive. */
  function Segments(value: string, rules: CaseRules): seq<string> {
    var drive, parts := Drive(value, rules), Parts(value);
    if parts == [] then (if drive == "" && !Absolute(value) then ["."] else SplitSlash(drive))
    else if Absolute(value) then SplitSlash(drive) + parts
    else SplitSlash(drive + parts[0]) + parts[1..]
  }

  /** The path climbs above its start, or spells out the marker of one that does. */
  predicate Marked(value: string, rules: CaseRules) {
    || Climbs(Components(value))
    || (|Segments(value, rules)| >= 2 && Segments(value, rules)[0] == "!escape!")
  }

  lemma {:induction false} JoinedNames(parts: seq<string>)
    requires parts != [] && Names(parts)
    ensures JoinSlash(parts) != "" && JoinSlash(parts)[|JoinSlash(parts)| - 1] != '/' && SlashFree(parts)
  {
    if |parts| > 1 { JoinedNames(parts[1..]); }
  }

  lemma AbsoluteSegments(drive: string, parts: seq<string>)
    requires parts != [] && Names(parts)
    ensures SplitSlash(drive + "/" + JoinSlash(parts)) == SplitSlash(drive) + parts
  {
    hide SplitSlash, JoinSlash;
    JoinedNames(parts);
    SplitJoin(drive);
    JoinTogether(SplitSlash(drive), parts);
    JoinSplit(SplitSlash(drive) + parts);
  }

  lemma RelativeSegments(drive: string, parts: seq<string>)
    requires parts != [] && Names(parts)
    ensures SplitSlash(drive + JoinSlash(parts)) == SplitSlash(drive + parts[0]) + parts[1..]
  {
    hide SplitSlash, JoinSlash;
    JoinedNames(parts);
    SplitJoin(drive + parts[0]);
    GluedText(drive, SplitSlash(drive + parts[0]), parts);
    JoinSplit(SplitSlash(drive + parts[0]) + parts[1..]);
  }

  lemma GluedText(drive: string, glued: seq<string>, parts: seq<string>)
    requires parts != [] && glued != [] && JoinSlash(glued) == drive + parts[0]
    ensures JoinSlash(glued + parts[1..]) == drive + JoinSlash(parts)
  {
    if |parts| == 1 {
      assert glued + parts[1..] == glued;
    } else {
      var rest := JoinSlash(parts[1..]);
      assert JoinSlash(parts) == parts[0] + "/" + rest;
      hide JoinSlash;
      JoinTogether(glued, parts[1..]);
      assert drive + (parts[0] + "/" + rest) == drive + parts[0] + "/" + rest;
    }
  }

  lemma LastOf(s: string, t: string)
    requires t != "" && t[|t| - 1] != '/'
    ensures Trimmed(s + t) && TrimSlashes(s + t) == s + t && s + t != ""
  {
    TrimOnce(s + t);
  }

  /** The normalized text of a path that does not climb is its segments. */
  lemma NormalizedSegments(value: string, rules: CaseRules)
    requires Regular(rules) && !Climbs(Components(value))
    ensures Trimmed(Normalized(value, rules)) && Pieces(Normalized(value, rules)) == Segments(value, rules)
  {
    hide Raw, SplitSlash, Climbs, JoinSlash, TrimSlashes;
    SplitJoin(Rest(value));
    EscapedIffClimbs(Components(value));
    var drive, parts, absolute := Drive(value, rules), Parts(value), Absolute(value);
    assert Prefix(value, rules) == drive + if absolute then "/" else "";
    if parts == [] {
      TopText(value, rules);
    } else {
      JoinedNames(parts);
      if absolute { AbsoluteSegments(drive, parts); } else { RelativeSegments(drive, parts); }
      LastOf(Prefix(value, rules), JoinSlash(parts));
      assert Normalized(value, rules) == Prefix(value, rules) + JoinSlash(parts);
      assert Prefix(value, rules) + JoinSlash(parts) == drive + (if absolute then "/" else "") + JoinSlash(parts);
      assert drive + "" == drive;
    }
  }

  lemma TopText(value: string, rules: CaseRules)
    requires Regular(rules) && Parts(value) == [] && !Cleaned(Components(value)).escaped
    ensures Trimmed(Normalized(value, rules)) && Pieces(Normalized(value, rules)) == Segments(value, rules)
  {
    hide Raw, SplitSlash, JoinSlash, Cleaned;
    var drive, prefix := Drive(value, rules), Prefix(value, rules);
    assert prefix + "" == prefix;
    if drive == "" {
      assert prefix == "/" || prefix == "";
      assert TrimSlashes("/") == "" && TrimSlashes("") == "" && TrimSlashes(".") == ".";
      SinglePart(".");
      assert Normalized(value, rules) == if Absolute(value) then "/" else ".";
    } else {
      TrimOnce(drive);
      assert prefix == drive || prefix == drive + "/";
      assert Normalized(value, rules) == drive;
    }
  }

  lemma ClimbingText(value: string, rules: CaseRules)
    requires Climbs(Components(value))
    ensures MARKER <= Normalized(value, rules)
  {
    hide Raw, SplitSlash, Climbs;
    SplitJoin(Rest(value));
    EscapedIffClimbs(Components(value));
  }

  lemma MarkedIff(value: string, rules: CaseRules)
    requires Regular(rules)
    ensures MARKER <= Normalized(value, rules) <==> Marked(value, rules)
  {
    hide Raw, SplitSlash, Climbs, Normalized, Segments, Regular, Pieces;
    if Climbs(Components(value)) {
      ClimbingText(value, rules);
    } else {
      NormalizedSegments(value, rules);
      MarkerIff(Normalized(value, rules));
    }
  }

  // ------------------------------------------------------------- what containment means

  /** The segments of the root start those of the path, up to case when both are below a drive. */
  predicate Inside(path: seq<string>, root: seq<string>, rules: CaseRules) {
    if Rooted(path) && Rooted(root) then Folded(rules.fold, root) <= Folded(rules.fold, path) else root <= path
  }

  /** Containment, for all paths. */
  lemma WithinIff(path: string, root: string, rules: CaseRules)
    requires Regular(rules)
    ensures Within(path, root, rules) <==>
            && !Marked(path, rules) && !Marked(root, rules)
            && Inside(Segments(path, rules), Segments(root, rules), rules)
  {
    hide Raw, SplitSlash, Climbs, Normalized, Segments, Regular, Pieces, StartsAt, FoldText, DriveRooted, Rooted;
    MarkedIff(path, rules);
    MarkedIff(root, rules);
    if !Marked(path, rules) && !Marked(root, rules) {
      var c, b := Normalized(path, rules), Normalized(root, rules);
      NormalizedSegments(path, rules);
      NormalizedSegments(root, rules);
      RootedIff(c);
      RootedIff(b);
      if DriveRooted(c) && DriveRooted(b) {
        NoSlash(c);
        NoSlash(b);
        FoldPieces(rules, c);
        FoldPieces(rules, b);
        StartsAtIff(FoldText(rules.fold, b), FoldText(rules.fold, c));
      } else {
        StartsAtIff(b, c);
      }
    }
  }

  lemma NoSlash(s: string)
    requires DriveRooted(s)
    ensures s != "/"
  {
  }

  lemma DriveStays(rules: CaseRules, drive: string)
    requires Regular(rules) && |drive| == 2 && 'a' <= drive[0] <= 'z' && drive[1] == ':'
    ensures FoldText(rules.fold, drive) == drive
  {
    assert drive[..1][..0] == "";
    assert FoldText(rules.fold, drive[..1]) == [drive[0]];
  }

  lemma InsideIsTransitive(a: seq<string>, b: seq<string>, c: seq<string>, rules: CaseRules)
    requires Regular(rules) && c != [] && Inside(a, b, rules) && Inside(b, c, rules)
    ensures Inside(a, c, rules)
  {
    hide FoldText, Regular;
    if Rooted(b) && !Rooted(c) {
      // then the root is a bare drive, which folding leaves alone
      assert Rooted(a) && c == [b[0]];
      DriveStays(rules, a[0]);
      DriveStays(rules, b[0]);
      assert Folded(rules.fold, b)[0] == Folded(rules.fold, a)[0];
    }
  }

  /** Hence containment is reflexive on unmarked paths, and transitive. */
  lemma WithinIsAnOrder(a: string, b: string, c: string, rules: CaseRules)
    requires Regular(rules)
    ensures Within(a, a, rules) <==> !Marked(a, rules)
    ensures Within(a, b, rules) && Within(b, c, rules) ==> Within(a, c, rules)
  {
    assert Segments(c, rules) != [];
    hide Raw, Climbs, Segments, Marked, Within, Regular;
    WithinIff(a, a, rules);
    WithinIff(a, b, rules);
    WithinIff(b, c, rules);
    WithinIff(a, c, rules);
    if Within(a, b, rules) && Within(b, c, rules) {
      InsideIsTransitive(Segments(a, rules), Segments(b, rules), Segments(c, rules), rules);
    }
  }

  // ------------------------------------------------------------- paths without a drive

  function Spelled(absolute: bool, parts: seq<string>): seq<string> {
    if parts == [] then [if absolute then "" else "."] else if absolute then [""] + parts else parts
  }

  lemma SegmentsWithoutDrive(value: string, rules: CaseRules)
    requires !HasDrive(Raw(value)) && !Climbs(Components(value))
    ensures Names(Parts(value)) && Segments(value, rules) == Spelled(Absolute(value), Parts(value))
  {
    hide Raw, Climbs;
    var parts := Parts(value);
    SplitJoin(Rest(value));
    EscapedIffClimbs(Components(value));
    assert SplitSlash("") == [""];
    if parts != [] {
      SinglePart(parts[0]);
      assert "" + parts[0] == parts[0] && [parts[0]] + parts[1..] == parts;
    }
  }

  lemma SpelledPrefix(a: bool, p: seq<string>, b: bool, r: seq<string>)
    requires Names(p) && Names(r)
    ensures Spelled(b, r) <= Spelled(a, p) <==> a == b && r <= p && (r == [] && !b ==> p == [])
  {
    assert ([""] + p)[1..] == p && ([""] + r)[1..] == r;
    var x, y := Spelled(b, r), Spelled(a, p);
    if x <= y {
      assert x[0] == y[0];
      if a && b && r != [] { PrefixTail(x, y); }
    }
  }

  lemma PrefixTail(r: seq<string>, p: seq<string>)
    requires r != [] && r <= p
    ensures r[1..] <= p[1..]
  {
  }

  /** For paths without a drive: both absolute or both relative, and the parts of the root start those of the
      path, the root `.` holding only itself. */
  lemma WithoutDrivesIff(path: string, root: string, rules: CaseRules)
    requires Regular(rules) && !HasDrive(Raw(path)) && !HasDrive(Raw(root))
    requires !(Rooted(Segments(path, rules)) && Rooted(Segments(root, rules)))
    ensures Within(path, root, rules) <==>
            && !Marked(path, rules) && !Marked(root, rules)
            && Absolute(path) == Absolute(root) && Parts(root) <= Parts(path)
            && (Parts(root) == [] && !Absolute(root) ==> Parts(path) == [])
  {
    hide Raw, Climbs, Segments, Within, Regular, Names, Spelled, Cleaned;
    WithinIff(path, root, rules);
    if !Marked(path, rules) && !Marked(root, rules) {
      SegmentsWithoutDrive(path, rules);
      SegmentsWithoutDrive(root, rules);
      SpelledPrefix(Absolute(path), Parts(path), Absolute(root), Parts(root));
    }
  }

  // ------------------------------------------------------------------ surprising cases

  /** Nothing to trim, no backslash, and a stack of names. */
  lemma SpelledOut(value: string, parts: seq<string>)
    requires value != "" && !Text.IsSpace(value[0]) && !Text.IsSpace(value[|value| - 1]) && '\\' !in value
    requires !HasDrive(value) && parts != [] && Names(parts) && value == JoinSlash(parts)
    ensures !HasDrive(Raw(value)) && Parts(value) == parts && !Absolute(value) && !Climbs(Components(value))
  {
    RawPlain(value);
    JoinSplit(parts);
    NamesStay(parts);
    JoinedNames(parts);
    hide Raw, SplitSlash, Climbs, Cleaned, JoinSlash;
    EscapedIffClimbs(parts);
  }

  lemma RawPlain(value: string)
    requires value != "" && !Text.IsSpace(value[0]) && !Text.IsSpace(value[|value| - 1]) && '\\' !in value
    ensures Raw(value) == value
  {
    hide Text.IsSpace;
    assert value[Text.Indent(value)..] == value;
    assert TrimRight(value) == value;
  }

  lemma DotCleans()
    ensures Raw(".") == "." && Parts(".") == [] && !Absolute(".") && !Climbs(Components("."))
  {
    RawPlain(".");
    SinglePart(".");
    hide Raw, SplitSlash, Climbs;
    assert Cleaned(["."]) == Stack([], false);
    EscapedIffClimbs(["."]);
  }

  /** The root `.` holds itself, but not the relative path `a`. */
  lemma DotHoldsOnlyItself(rules: CaseRules)
    requires Regular(rules)
    ensures Within(".", ".", rules) && !Within("a", ".", rules)
  {
    hide SplitSlash, Climbs, Cleaned, Within, Raw, Regular;
    SinglePart("a");
    hide JoinSlash;
    SpelledOut("a", ["a"]);
    DotCleans();
    SegmentsWithoutDrive("a", rules);
    SegmentsWithoutDrive(".", rules);
    WithinIff("a", ".", rules);
    WithinIff(".", ".", rules);
  }

  /** A relative path that spells out the marker is not within itself. */
  lemma SpelledMarkerIsOutside(rules: CaseRules)
    requires Regular(rules)
    ensures !Within("!escape!/a", "!escape!/a", rules)
  {
    hide SplitSlash, Climbs, Cleaned, Within, Raw, Regular;
    var value := "!escape!/a";
    assert value[0] == '!' && value[|value| - 1] == 'a';
    assert JoinSlash(["!escape!", "a"]) == value;
    hide JoinSlash;
    SpelledOut(value, ["!escape!", "a"]);
    SegmentsWithoutDrive(value, rules);
    WithinIsAnOrder(value, value, value, rules);
  }

  /** A bare drive, which names a directory of its own on Windows, is taken for the top of the drive: it holds
      the paths from the top, and not those relative to it. */
  lemma BareDriveIsTop(rules: CaseRules)
    requires Regular(rules) && rules.lower("c:") == "c:"
    ensures Within("c:/a", "c:", rules) && Within("c:/", "c:", rules) && Within("c:", "c:/", rules)
    ensures !Within("c:a", "c:", rules)
  {
    hide *;
    BareDriveSegments(rules);
    WithinIff("c:/a", "c:", rules);
    WithinIff("c:/", "c:", rules);
    WithinIff("c:", "c:/", rules);
    WithinIff("c:a", "c:", rules);
    BareDriveInside(rules);
  }

  lemma BareDriveInside(rules: CaseRules)
    ensures Inside(["c:", "a"], ["c:"], rules) && Inside(["c:"], ["c:"], rules) && !Inside(["c:a"], ["c:"], rules)
  {
  }

  lemma BareDriveSegments(rules: CaseRules)
    requires rules.lower("c:") == "c:"
    ensures Segments("c:", rules) == ["c:"] && !Marked("c:", rules)
    ensures Segments("c:/", rules) == ["c:"] && !Marked("c:/", rules)
    ensures Segments("c:/a", rules) == ["c:", "a"] && !Marked("c:/a", rules)
    ensures Segments("c:a", rules) == ["c:a"] && !Marked("c:a", rules)
  {
    hide Segments, Marked, Cleaned, JoinSlash;
    SmallStacks();
    DriveSegments("c:", [""], [], rules);
    DriveSegments("c:/", ["", ""], [], rules);
    DriveSegments("c:/a", ["", "a"], ["a"], rules);
    DriveSegments("c:a", ["a"], ["a"], rules);
  }

  lemma SmallStacks()
    ensures JoinSlash([""]) == "" && Cleaned([""]) == Stack([], false)
    ensures JoinSlash(["a"]) == "a" && Cleaned(["a"]) == Stack(["a"], false)
    ensures JoinSlash(["", ""]) == "/" && Cleaned(["", ""]) == Stack([], false)
    ensures JoinSlash(["", "a"]) == "/a" && Cleaned(["", "a"]) == Stack(["a"], false)
  {
    assert ["", ""][..1] == [""] && ["", "a"][..1] == [""];
  }

  lemma DriveCleans(value: string, components: seq<string>, parts: seq<string>, rules: CaseRules)
    requires components != [] && SlashFree(components) && value == "c:" + JoinSlash(components)
    requires !Text.IsSpace(value[|value| - 1]) && '\\' !in value && Cleaned(components) == Stack(parts, false)
    ensures Drive(value, rules) == rules.lower("c:") && Rest(value) == JoinSlash(components)
    ensures Parts(value) == parts && !Climbs(Components(value))
  {
    RawPlain(value);
    assert value[..2] == "c:" && value[2..] == JoinSlash(components);
    hide Raw, Climbs, SplitSlash, JoinSlash, Cleaned;
    JoinSplit(components);
    EscapedIffClimbs(components);
  }

  lemma DriveSegments(value: string, components: seq<string>, parts: seq<string>, rules: CaseRules)
    requires rules.lower("c:") == "c:" && SlashFree(parts) && |parts| <= 1
    requires components != [] && SlashFree(components) && value == "c:" + JoinSlash(components)
    requires !Text.IsSpace(value[|value| - 1]) && '\\' !in value && Cleaned(components) == Stack(parts, false)
    ensures Segments(value, rules)
         == if parts == [] then ["c:"]
            else if StartsAbsolute(JoinSlash(components)) then ["c:", parts[0]] else ["c:" + parts[0]]
    ensures !Marked(value, rules)
  {
    DriveCleans(value, components, parts, rules);
    hide Climbs, Raw, SplitSlash, JoinSlash, Cleaned, Parts, Components, Drive, Rest;
    SinglePart("c:");
    if parts != [] {
      SinglePart("c:" + parts[0]);
      assert ["c:"] + parts == ["c:", parts[0]] && ["c:" + parts[0]] + [] == ["c:" + parts[0]] && parts[1..] == [];
    }
  }
}
