/** Texts divided by slashes: Python's `split("/")` and `"/".join`. */
module Slashes {
  function SplitSlash(s: string): (parts: seq<string>)
    ensures parts != []
  {
    if s == "" then [""]
    else
      var rest := SplitSlash(s[1..]);
      if s[0] == '/' then [""] + rest else [[s[0]] + rest[0]] + rest[1..]
  }

  function JoinSlash(parts: seq<string>): string
    requires parts != []
  {
    if |parts| == 1 then parts[0] else parts[0] + "/" + JoinSlash(parts[1..])
  }

  lemma {:induction false} SplitJoin(s: string)
    ensures JoinSlash(SplitSlash(s)) == s
    ensures SlashFree(SplitSlash(s))
  {
    if s != "" {
      SplitJoin(s[1..]);
      assert s == [s[0]] + s[1..];
    }
  }

  predicate SlashFree(parts: seq<string>) {
    forall i :: 0 <= i < |parts| ==> '/' !in parts[i]
  }

  lemma {:induction false} JoinSplit(parts: seq<string>)
    requires parts != [] && SlashFree(parts)
    ensures SplitSlash(JoinSlash(parts)) == parts
    decreases |parts|, |parts[0]|
  {
    var s := JoinSlash(parts);
    if parts[0] == "" {
      if |parts| > 1 {
        JoinSplit(parts[1..]);
        assert s == "/" + JoinSlash(parts[1..]);
        assert s[1..] == JoinSlash(parts[1..]);
      }
    } else {
      var head, shorter := parts[0], parts[0 := parts[0][1..]];
      assert head[0] in head;
      JoinSplit(shorter);
      assert shorter[1..] == parts[1..];
      assert head == [head[0]] + head[1..];
      assert s == [head[0]] + JoinSlash(shorter);
      assert s[1..] == JoinSlash(shorter);
      assert parts == [[head[0]] + shorter[0]] + shorter[1..];
    }
  }

  /** The first part is the text up to the first slash. */
  lemma {:induction false} FirstPart(s: string)
    ensures SplitSlash(s)[0] <= s
    ensures '/' !in SplitSlash(s)[0]
    ensures |SplitSlash(s)[0]| < |s| ==> s[|SplitSlash(s)[0]|] == '/'
  {
    if s != "" && s[0] != '/' { FirstPart(s[1..]); }
  }

  lemma {:induction false} JoinTogether(a: seq<string>, b: seq<string>)
    requires a != [] && b != []
    ensures JoinSlash(a + b) == JoinSlash(a) + "/" + JoinSlash(b)
  {
    if |a| == 1 {
      assert (a + b)[1..] == b;
    } else {
      JoinTogether(a[1..], b);
      assert (a + b)[1..] == a[1..] + b;
    }
  }

  lemma PrefixJoins(a: seq<string>, b: seq<string>)
    requires b != [] && b < a
    ensures JoinSlash(b) + "/" <= JoinSlash(a)
  {
    assert a == b + a[|b|..];
    JoinTogether(b, a[|b|..]);
  }

  lemma PrefixSplits(a: seq<string>, b: seq<string>)
    requires a != [] && b != [] && SlashFree(a) && SlashFree(b)
    requires JoinSlash(b) + "/" <= JoinSlash(a)
    ensures b < a
  {
    hide JoinSlash, SplitSlash;
    var s, t := JoinSlash(a), JoinSlash(b) + "/";
    var tail := SplitSlash(s[|t|..]);
    SplitJoin(s[|t|..]);
    JoinTogether(b, tail);
    assert s == t + s[|t|..];
    JoinSplit(a);
    JoinSplit(b + tail);
  }

  /** One text starts with another and a slash exactly when its parts start with the other's. */
  lemma PrefixOfParts(a: seq<string>, b: seq<string>)
    requires a != [] && b != [] && SlashFree(a) && SlashFree(b)
    ensures JoinSlash(b) + "/" <= JoinSlash(a) <==> b < a
    ensures JoinSlash(a) == JoinSlash(b) <==> b == a
  {
    hide JoinSlash, SplitSlash;
    JoinSplit(a);
    JoinSplit(b);
    if b < a { PrefixJoins(a, b); }
    if JoinSlash(b) + "/" <= JoinSlash(a) { PrefixSplits(a, b); }
  }
}
