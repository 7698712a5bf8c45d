/** How paths may be spelled: blanks around them and the kind of slash do not matter, and what a path spelled out of
    a drive and components contains. */
module GuardSpelling {
  import opened GuardPaths
  import opened GuardContainment
  import opened Slashes
  import Text

  predicate Blank(s: string) {
    forall i :: 0 <= i < |s| ==> Text.IsSpace(s[i])
  }

  /** Nothing to trim. */
  predicate Tight(s: string) {
    s == "" || (!Text.IsSpace(s[0]) && !Text.IsSpace(s[|s| - 1]))
  }

  /** `t` is `s` with every backslash written as a slash. */
  predicate Slashed(s: string, t: string) {
    |t| == |s| && forall i :: 0 <= i < |s| ==> t[i] == if s[i] == '\\' then '/' else s[i]
  }

  // ---------------------------------------------------------------------- what is read

  lemma {:induction false} TrimRightDrops(s: string, post: string)
    requires Blank(post)
    ensures TrimRight(s + post) == TrimRight(s)
  {
    hide Text.IsSpace;
    if post == "" {
      assert s + post == s;
    } else {
      var n := |post| - 1;
      TrimRightDrops(s, post[..n]);
      assert (s + post)[..|s + post| - 1] == s + post[..n];
      assert (s + post)[|s + post| - 1] == post[n];
    }
  }

  lemma {:induction false} IndentOf(pre: string, s: string)
    requires Blank(pre)
    ensures Text.Indent(pre + s) == |pre| + Text.Indent(s)
  {
    hide Text.IsSpace;
    if pre == "" {
      assert pre + s == s;
    } else {
      IndentOf(pre[1..], s);
      assert (pre + s)[1..] == pre[1..] + s;
    }
  }

  lemma TightStays(s: string)
    requires Tight(s)
    ensures Text.Indent(s) == 0 && TrimRight(s) == s
  {
  }

  lemma EmptyStays()
    ensures Text.Indent("") == 0 && TrimRight("") == ""
  {
  }

  lemma TrimmedIs(pre: string, core: string, post: string)
    requires Blank(pre) && Blank(post) && Tight(core)
    ensures var s := pre + core + post; TrimRight(s[Text.Indent(s)..]) == core
  {
    hide Text.IsSpace, Text.Indent, TrimRight;
    var s := pre + core + post;
    assert s == pre + (core + post);
    IndentOf(pre, core + post);
    if core == "" {
      assert core + post == post && post + "" == post;
      IndentOf(post, "");
      EmptyStays();
      assert s[Text.Indent(s)..] == "";
    } else {
      FirstStays(core, post);
      assert s[Text.Indent(s)..] == core + post;
      TrimRightDrops(core, post);
      TightStays(core);
    }
  }

  /** What is read of a path: the text between its outer blanks, with slashes for backslashes. */
  lemma RawIs(pre: string, core: string, post: string)
    requires Blank(pre) && Blank(post) && Tight(core)
    ensures Slashed(core, Raw(pre + core + post))
  {
    hide Text.IsSpace, Text.Indent, TrimRight;
    TrimmedIs(pre, core, post);
  }

  lemma FirstStays(core: string, post: string)
    requires core != "" && !Text.IsSpace(core[0])
    ensures Text.Indent(core + post) == 0
  {
  }

  lemma {:induction false} Outer(s: string) returns (pre: string, core: string, post: string)
    ensures s == pre + core + post && Blank(pre) && Blank(post) && Tight(core)
  {
    hide Text.IsSpace;
    if s != "" && Text.IsSpace(s[0]) {
      pre, core, post := Outer(s[1..]);
      pre := [s[0]] + pre;
    } else if s != "" && Text.IsSpace(s[|s| - 1]) {
      pre, core, post := Outer(s[..|s| - 1]);
      post := post + [s[|s| - 1]];
    } else {
      pre, core, post := "", s, "";
    }
  }

  lemma SlashIsNoBlank()
    ensures !Text.IsSpace('/') && !Text.IsSpace('\\')
  {
  }

  lemma SlashesRead(s: string, t: string)
    requires Slashed(s, t)
    ensures Raw(t) == Raw(s)
  {
    hide Raw, Text.IsSpace;
    SlashIsNoBlank();
    var pre, core, post := Outer(s);
    var n, m := |pre|, |pre| + |core|;
    assert forall i :: 0 <= i < n ==> s[i] == pre[i];
    assert forall i :: 0 <= i < |core| ==> s[n + i] == core[i];
    assert forall i :: 0 <= i < |post| ==> s[m + i] == post[i];
    assert t[..n] == pre && t[m..] == post;
    assert t == pre + t[n..m] + post;
    RawIs(pre, core, post);
    RawIs(pre, t[n..m], post);
  }

  lemma BlanksDropped(pre: string, s: string, post: string)
    requires Blank(pre) && Blank(post)
    ensures Raw(pre + s + post) == Raw(s)
  {
    hide Raw, Text.IsSpace;
    var a, core, b := Outer(s);
    assert pre + s + post == (pre + a) + core + (b + post);
    RawIs(a, core, b);
    RawIs(pre + a, core, b + post);
  }

  lemma ReadAlike(p: string, p': string, r: string, r': string, rules: CaseRules)
    requires Raw(p) == Raw(p') && Raw(r) == Raw(r')
    ensures Within(p, r, rules) == Within(p', r', rules)
  {
    hide Raw, Cleaned, SplitSlash, Render;
    assert Normalized(p, rules) == Normalized(p', rules) && Normalized(r, rules) == Normalized(r', rules);
    hide Normalized;
  }

  /** Backslashes separate components as slashes do. */
  lemma BackslashesAreSlashes(p: string, p': string, r: string, r': string, rules: CaseRules)
    requires Slashed(p, p') && Slashed(r, r')
    ensures Within(p, r, rules) == Within(p', r', rules)
  {
    hide *;
    SlashesRead(p, p');
    SlashesRead(r, r');
    ReadAlike(p, p', r, r', rules);
  }

  /** Blanks around a path or a root do not matter. */
  lemma BlanksDoNotMatter(a: string, p: string, b: string, c: string, r: string, d: string, rules: CaseRules)
    requires Blank(a) && Blank(b) && Blank(c) && Blank(d)
    ensures Within(a + p + b, c + r + d, rules) == Within(p, r, rules)
  {
    hide *;
    BlanksDropped(a, p, b);
    BlanksDropped(c, r, d);
    ReadAlike(a + p + b, p, c + r + d, r, rules);
  }

  // ---------------------------------------------------------------- spelled-out paths

  predicate NoBackslash(parts: seq<string>) {
    forall i :: 0 <= i < |parts| ==> '\\' !in parts[i]
  }

  /** Components a path may be spelled with: names and dots. */
  predicate Spellable(parts: seq<string>) {
    parts != [] && SlashFree(parts) && NoBackslash(parts) && forall i :: 0 <= i < |parts| ==> parts[i] != ""
  }

  predicate IsDrive(drive: string) {
    |drive| == 2 && drive[1] == ':' && drive[0] != '/' && drive[0] != '\\'
  }

  function Spell(drive: string, absolute: bool, parts: seq<string>): string
    requires parts != []
  {
    drive + (if absolute then "/" else "") + JoinSlash(parts)
  }

  /** A path with or without a drive, without outer blanks, and without one that looks like a drive. */
  predicate Plain(drive: string, absolute: bool, parts: seq<string>) {
    && Spellable(parts) && Tight(Spell(drive, absolute, parts))
    && (IsDrive(drive) || (drive == "" && !HasDrive(Spell(drive, absolute, parts))))
  }

  lemma {:induction false} JoinedPlain(parts: seq<string>)
    requires Spellable(parts)
    ensures '\\' !in JoinSlash(parts) && JoinSlash(parts) != "" && JoinSlash(parts)[0] != '/'
  {
    if |parts| > 1 { JoinedPlain(parts[1..]); }
  }

  lemma SpelledRaw(drive: string, absolute: bool, parts: seq<string>)
    requires Plain(drive, absolute, parts)
    ensures Raw(Spell(drive, absolute, parts)) == Spell(drive, absolute, parts)
  {
    hide Raw, Text.IsSpace, JoinSlash;
    var text := Spell(drive, absolute, parts);
    JoinedPlain(parts);
    RawIs("", text, "");
    assert "" + text + "" == text;
    assert '\\' !in text;
  }

  /** How a spelled path is taken apart. */
  lemma SpelledApart(drive: string, absolute: bool, parts: seq<string>, rules: CaseRules)
    requires Plain(drive, absolute, parts)
    ensures var t := Spell(drive, absolute, parts);
            && Drive(t, rules) == (if drive == "" then "" else rules.lower(drive))
            && Absolute(t) == absolute && Components(t) == if absolute then [""] + parts else parts
  {
    hide Raw, Text.IsSpace, SplitSlash;
    var t, joined := Spell(drive, absolute, parts), JoinSlash(parts);
    SpelledRaw(drive, absolute, parts);
    JoinedPlain(parts);
    JoinSplit(parts);
    JoinTogether([""], parts);
    JoinSplit([""] + parts);
    hide JoinSlash;
    if drive != "" { assert t[..2] == drive && t[2..] == (if absolute then "/" else "") + joined; }
    assert "" + "/" + joined == "/" + joined && "" + joined == joined;
  }

  /** The segments of a path spelled with names. */
  function SpelledAs(drive: string, absolute: bool, names: seq<string>, rules: CaseRules): seq<string>
    requires names != []
  {
    if drive == "" then (if absolute then [""] + names else names)
    else if absolute then [rules.lower(drive)] + names
    else [rules.lower(drive) + names[0]] + names[1..]
  }

  predicate SpelledMarker(segments: seq<string>) {
    |segments| >= 2 && segments[0] == "!escape!"
  }

  predicate SlashFreeDrive(drive: string, rules: CaseRules) {
    drive != "" ==> '/' !in rules.lower(drive)
  }

  lemma SpelledSegments(drive: string, absolute: bool, names: seq<string>, rules: CaseRules)
    requires Plain(drive, absolute, names) && Names(names) && SlashFreeDrive(drive, rules)
    ensures var t := Spell(drive, absolute, names);
            Segments(t, rules) == SpelledAs(drive, absolute, names, rules) && !Climbs(Components(t))
  {
    hide Raw, Text.IsSpace, HasDrive, Climbs, SplitSlash, JoinSlash, Cleaned, Drive, Rest, Tight, Names;
    var t := Spell(drive, absolute, names);
    SpelledApart(drive, absolute, names, rules);
    SpelledClean(absolute, names);
    NoSlashIn(names);
    if drive == "" {
      SinglePart("");
      SinglePart(names[0]);
      assert "" + names[0] == names[0] && [names[0]] + names[1..] == names;
    } else {
      SinglePart(rules.lower(drive));
      SinglePart(rules.lower(drive) + names[0]);
    }
  }

  lemma NoSlashIn(names: seq<string>)
    requires names != [] && Names(names)
    ensures '/' !in names[0]
  {
  }

  lemma SpelledClean(absolute: bool, names: seq<string>)
    requires Spellable(names) && Names(names)
    ensures var components := if absolute then [""] + names else names;
            Cleaned(components) == Stack(names, false) && !Climbs(components)
  {
    hide Climbs, Cleaned;
    var components := if absolute then [""] + names else names;
    NamesStay(names);
    CleaningRewrites([], "a", names, "");
    assert [] + [""] + names == [""] + names && [] + names == names;
    hide Names;
    EscapedIffClimbs(components);
  }

  /** Containment of spelled-out paths, with names for components: neither spells out the marker, and the root's
      drive and names start the path's, up to case when both lie below a drive. */
  lemma SpelledWithinIff(drive: string, absolute: bool, names: seq<string>,
                         drive': string, absolute': bool, names': seq<string>, rules: CaseRules)
    requires Regular(rules) && SlashFreeDrive(drive, rules) && SlashFreeDrive(drive', rules)
    requires Plain(drive, absolute, names) && Names(names) && Plain(drive', absolute', names') && Names(names')
    ensures var path, root := SpelledAs(drive, absolute, names, rules), SpelledAs(drive', absolute', names', rules);
            Within(Spell(drive, absolute, names), Spell(drive', absolute', names'), rules) <==>
            !SpelledMarker(path) && !SpelledMarker(root) && Inside(path, root, rules)
  {
    assert names != [] && names' != [];
    hide Within, Segments, Regular, Plain, Names, Climbs, SpelledAs, Spell, Inside;
    SpelledSegments(drive, absolute, names, rules);
    SpelledSegments(drive', absolute', names', rules);
    WithinIff(Spell(drive, absolute, names), Spell(drive', absolute', names'), rules);
  }

  /** The drive letter is read in any case. */
  lemma DriveCaseIgnored(drive: string, other: string, absolute: bool, names: seq<string>, root: string,
                         rules: CaseRules)
    requires Regular(rules) && rules.lower(drive) == rules.lower(other) && '/' !in rules.lower(drive)
    requires IsDrive(drive) && IsDrive(other) && Plain(drive, absolute, names) && Plain(other, absolute, names)
    requires Names(names)
    ensures Within(Spell(drive, absolute, names), root, rules) <==> Within(Spell(other, absolute, names), root, rules)
  {
    assert names != [];
    hide Within, Segments, Regular, Names, Climbs, Spell, Inside, Plain;
    SpelledSegments(drive, absolute, names, rules);
    SpelledSegments(other, absolute, names, rules);
    WithinIff(Spell(drive, absolute, names), root, rules);
    WithinIff(Spell(other, absolute, names), root, rules);
  }

  // --------------------------------------------------------------- climbing in disguise

  const CLIMBING: seq<string> := ["srv", "a", "..", "..", "etc"]

  lemma ClimbingText()
    ensures Spell("", true, CLIMBING) == "/srv/a/../../etc" && Plain("", true, CLIMBING)
  {
    ClimbingJoined();
    hide JoinSlash, Text.IsSpace;
    assert !Text.IsSpace('/') && !Text.IsSpace('c') by { NoBlankEnds(); }
    assert "" + "/" + "srv/a/../../etc" == "/srv/a/../../etc";
  }

  lemma NoBlankEnds()
    ensures !Text.IsSpace('/') && !Text.IsSpace('c')
  {
  }

  lemma ClimbingJoined()
    ensures JoinSlash(CLIMBING) == "srv/a/../../etc"
  {
    assert CLIMBING[1..][1..] == ["..", "..", "etc"];
    assert JoinSlash(["..", "..", "etc"]) == "../../etc";
  }

  lemma ClimbedClean()
    ensures Cleaned([""] + CLIMBING) == Stack(["etc"], false)
  {
    hide Cleaned;
    CleaningRewrites(["", "srv"], "a", ["..", "etc"], "");
    CleaningRewrites([""], "srv", ["etc"], "");
    CleaningRewrites([], "a", ["etc"], "");
    NamesStay(["etc"]);
    assert [""] + CLIMBING == ["", "srv"] + ["a", ".."] + ["..", "etc"];
    assert ["", "srv"] + ["..", "etc"] == [""] + ["srv", ".."] + ["etc"];
    assert [] + [""] + ["etc"] == [""] + ["etc"] && [] + ["etc"] == ["etc"];
  }

  lemma ClimbedSegments(rules: CaseRules)
    ensures Segments(Spell("", true, CLIMBING), rules) == ["", "etc"]
    ensures !Climbs(Components(Spell("", true, CLIMBING)))
  {
    hide Climbs, Raw, Cleaned, Spell, Plain, Drive, Rest;
    ClimbingText();
    SpelledApart("", true, CLIMBING, rules);
    ClimbedClean();
    SlashFreeClimbing();
    EscapedIffClimbs([""] + CLIMBING);
    SinglePart("");
  }

  lemma SlashFreeClimbing()
    ensures SlashFree([""] + CLIMBING)
  {
  }

  lemma ClimbingRead(path: string)
    requires path == "/srv/a\\..\\..\\etc"
    ensures Slashed(path, "/srv/a/../../etc")
  {
  }

  lemma RootText()
    ensures Spell("", true, ["srv"]) == "/srv" && Plain("", true, ["srv"]) && Names(["srv"])
    ensures Slashed("/srv", "/srv")
  {
    assert JoinSlash(["srv"]) == "srv";
  }

  /** Climbing with backslashes leaves the root as climbing with slashes does. */
  lemma BackslashesClimb(rules: CaseRules)
    requires Regular(rules)
    ensures !Within("/srv/a\\..\\..\\etc", "/srv", rules)
  {
    var path, read := "/srv/a\\..\\..\\etc", Spell("", true, CLIMBING);
    hide *;
    ClimbingText();
    ClimbingRead(path);
    RootText();
    BackslashesAreSlashes(path, read, "/srv", "/srv", rules);
    ClimbedSegments(rules);
    NoDrive(rules);
    SpelledSegments("", true, ["srv"], rules);
    WithinIff(read, "/srv", rules);
    EtcIsOutside(rules);
  }

  lemma NoDrive(rules: CaseRules)
    ensures SlashFreeDrive("", rules) && SpelledAs("", true, ["srv"], rules) == ["", "srv"]
  {
  }

  lemma EtcIsOutside(rules: CaseRules)
    ensures !Inside(["", "etc"], ["", "srv"], rules)
  {
    assert ["", "etc"][1] != ["", "srv"][1];
  }
}
