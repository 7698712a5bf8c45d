/** The action guard's lexical path rules: normalizing a path without touching a file system, and deciding
    whether a path lies within an allowed root. What containment means is in GuardContainment. */
module GuardPaths {
  import opened Slashes
  import Text

  /** Two Unicode mappings: lower case for drive letters, and case folding, which goes character by character. */
  datatype CaseRules = CaseRules(lower: string -> string, fold: char -> string)

  function FoldText(fold: char -> string, s: string): string {
    if s == "" then "" else FoldText(fold, s[..|s| - 1]) + fold(s[|s| - 1])
  }

  // ------------------------------------------------------------------- text pieces

  function TrimRight(s: string): string {
    if s != "" && Text.IsSpace(s[|s| - 1]) then TrimRight(s[..|s| - 1]) else s
  }

  function TrimSlashes(s: string): string {
    if s != "" && s[|s| - 1] == '/' then TrimSlashes(s[..|s| - 1]) else s
  }

  /** The trimmed path with forward slashes only. */
  function Raw(value: string): string {
    var trimmed := TrimRight(value[Text.Indent(value)..]);
    seq(|trimmed|, i requires 0 <= i < |trimmed| => if trimmed[i] == '\\' then '/' else trimmed[i])
  }

  predicate StartsAbsolute(s: string) {
    s != "" && s[0] == '/'
  }

  predicate HasDrive(raw: string) {
    |raw| >= 2 && raw[1] == ':'
  }

  // -------------------------------------------------------------------- the stack

  /** The component stack, and whether a `..` ever found nothing to remove. */
  datatype Stack = Stack(parts: seq<string>, escaped: bool)

  function Push(st: Stack, part: string): Stack {
    if part == "" || part == "." then st
    else if part == ".." then
      if st.parts != [] && st.parts[|st.parts| - 1] != ".." then st.(parts := st.parts[..|st.parts| - 1])
      else Stack(st.parts + [part], true)
    else st.(parts := st.parts + [part])
  }

  function Cleaned(components: seq<string>): Stack {
    if components == [] then Stack([], false)
    else Push(Cleaned(components[..|components| - 1]), components[|components| - 1])
  }

  const MARKER := "!escape!/"

  function Render(prefix: string, st: Stack): string {
    var text := TrimSlashes(prefix + if st.parts == [] then "" else JoinSlash(st.parts));
    (if st.escaped then MARKER else "") + (if text != "" then text else if prefix != "" then prefix else ".")
  }

  function Drive(value: string, rules: CaseRules): string {
    if HasDrive(Raw(value)) then rules.lower(Raw(value)[..2]) else ""
  }

  function Rest(value: string): string {
    if HasDrive(Raw(value)) then Raw(value)[2..] else Raw(value)
  }

  function Prefix(value: string, rules: CaseRules): string {
    Drive(value, rules) + if StartsAbsolute(Rest(value)) then "/" else ""
  }

  function Normalized(value: string, rules: CaseRules): string {
    Render(Prefix(value, rules), Cleaned(SplitSlash(Rest(value))))
  }

  method NormalizePath(value: string, rules: CaseRules) returns (normalized: string)
    ensures normalized == Normalized(value, rules)
  {
    hide Raw, TrimSlashes, SplitSlash;
    var raw := Raw(value);
    var drive := "";
    if HasDrive(raw) {
      drive, raw := rules.lower(raw[..2]), raw[2..];
    }
    var absolute := StartsAbsolute(raw);
    var components := SplitSlash(raw);
    var parts: seq<string>, escaped := [], false;
    for n := 0 to |components|
      invariant Stack(parts, escaped) == Cleaned(components[..n])
    {
      var part := components[n];
      var next := n + 1;
      assert components[..next][..n] == components[..n];
      if part == "" || part == "." {
      } else if part == ".." {
        if parts != [] && parts[|parts| - 1] != ".." {
          parts := parts[..|parts| - 1];
        } else {
          escaped, parts := true, parts + [".."];
        }
      } else {
        parts := parts + [part];
      }
    }
    assert components[..|components|] == components;
    var prefix := drive + if absolute then "/" else "";
    var text := TrimSlashes(prefix + if parts == [] then "" else JoinSlash(parts));
    normalized := (if escaped then MARKER else "") +
      (if text != "" then text else if prefix != "" then prefix else ".");
  }

  predicate DriveRooted(s: string) {
    |s| >= 3 && 'a' <= s[0] <= 'z' && s[1] == ':' && s[2] == '/'
  }

  predicate StartsAt(b: string, c: string) {
    c == b || TrimSlashes(b) + "/" <= c
  }

  /** Whether a path lies within a root. */
  predicate Within(path: string, root: string, rules: CaseRules) {
    var candidate, boundary := Normalized(path, rules), Normalized(root, rules);
    if MARKER <= candidate || MARKER <= boundary then false
    else
      var folds := DriveRooted(candidate) && DriveRooted(boundary);
      var c := if folds then FoldText(rules.fold, candidate) else candidate;
      var b := if folds then FoldText(rules.fold, boundary) else boundary;
      StartsAt(b, c)
  }

  // ----------------------------------------------------------------------- escapes

  function Level(part: string): int {
    if part == "" || part == "." then 0 else if part == ".." then -1 else 1
  }

  /** Names minus `..` steps. */
  function Net(components: seq<string>): int {
    if components == [] then 0
    else Net(components[..|components| - 1]) + Level(components[|components| - 1])
  }

  /** Some prefix has more `..` than names. */
  predicate Climbs(components: seq<string>) {
    exists n :: 0 <= n <= |components| && Net(components[..n]) < 0
  }

  lemma ClimbsStep(components: seq<string>)
    requires components != []
    ensures Climbs(components) <==> Climbs(components[..|components| - 1]) || Net(components) < 0
  {
    hide Net;
    var n := |components|;
    var before := components[..n - 1];
    assert components[..n] == components;
    forall i | 0 <= i < n ensures components[..i] == before[..i] {}
    if Climbs(before) {
      var i :| 0 <= i <= n - 1 && Net(before[..i]) < 0;
      assert Net(components[..i]) < 0;
    }
    if Climbs(components) {
      var i :| 0 <= i <= n && Net(components[..i]) < 0;
      if i < n { assert Net(before[..i]) < 0; }
    }
  }

  predicate Names(parts: seq<string>) {
    forall i :: 0 <= i < |parts| ==> parts[i] != "" && parts[i] != "." && parts[i] != ".." && '/' !in parts[i]
  }

  /** The stack reports an escape exactly when the components climb above the start. Otherwise it holds
      names only, as many as the components leave. */
  lemma {:induction false} EscapedIffClimbs(components: seq<string>)
    requires SlashFree(components)
    ensures Cleaned(components).escaped <==> Climbs(components)
    ensures !Climbs(components) ==> Names(Cleaned(components).parts) && |Cleaned(components).parts| == Net(components)
  {
    if components != [] {
      EscapedIffClimbs(components[..|components| - 1]);
      ClimbsStep(components);
      hide Climbs;
    }
  }

  lemma {:induction false} SameStackSameRest(a: seq<string>, b: seq<string>, rest: seq<string>)
    requires Cleaned(a) == Cleaned(b)
    ensures Cleaned(a + rest) == Cleaned(b + rest)
  {
    if rest == [] {
      assert a + rest == a && b + rest == b;
    } else {
      var n := |rest| - 1;
      SameStackSameRest(a, b, rest[..n]);
      assert (a + rest)[..|a + rest| - 1] == a + rest[..n] && (b + rest)[..|b + rest| - 1] == b + rest[..n];
    }
  }

  /** What cleaning means, as rewriting: a name and the `..` after it cancel wherever they stand, empty
      and `.` components drop out, and a list of names stays as it is. */
  lemma CleaningRewrites(before: seq<string>, name: string, after: seq<string>, dot: string)
    requires Level(name) == 1 && Level(dot) == 0
    ensures Cleaned(before + [name, ".."] + after) == Cleaned(before + after)
    ensures Cleaned(before + [dot] + after) == Cleaned(before + after)
  {
    var one, two := before + [name], before + [name, ".."];
    assert two[..|two| - 1] == one && one[..|one| - 1] == before;
    SameStackSameRest(two, before, after);
    assert (before + [dot])[..|before|] == before;
    SameStackSameRest(before + [dot], before, after);
  }

  lemma {:induction false} NamesStay(parts: seq<string>)
    requires Names(parts)
    ensures Cleaned(parts) == Stack(parts, false)
  {
    if parts != [] {
      NamesStay(parts[..|parts| - 1]);
      assert parts == parts[..|parts| - 1] + [parts[|parts| - 1]];
    }
  }
}
