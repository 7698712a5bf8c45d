/** JSON Pointer edits: token escaping after section 4 of RFC 6901, pointer resolution, and the add,
    replace and remove operations on a document. */
module JsonPointer {
  import opened Slashes

  // --------------------------------------------------------------- token escaping

  /** Left-to-right replacement of the two characters `a b` by `c`. */
  function ReplacePair(s: string, a: char, b: char, c: char): string {
    if |s| >= 2 && s[0] == a && s[1] == b then [c] + ReplacePair(s[2..], a, b, c)
    else if s == "" then ""
    else [s[0]] + ReplacePair(s[1..], a, b, c)
  }

  /** First `~1` becomes `/`, then `~0` becomes `~`. */
  function Unescape(token: string): string {
    ReplacePair(ReplacePair(token, '~', '1', '/'), '~', '0', '~')
  }

  function EscapeChar(c: char): string {
    if c == '~' then "~0" else if c == '/' then "~1" else [c]
  }

  function Escape(text: string): string {
    if text == "" then "" else EscapeChar(text[0]) + Escape(text[1..])
  }

  /** No stray `~`: each is followed by 0 or 1. */
  predicate WellEscaped(s: string) {
    forall i :: 0 <= i < |s| && s[i] == '~' ==> i + 1 < |s| && s[i + 1] in {'0', '1'}
  }

  predicate ValidToken(s: string) {
    WellEscaped(s) && '/' !in s
  }

  lemma PairStep(c: char, s: string, b: char, r: char)
    requires c != '~'
    ensures ReplacePair([c] + s, '~', b, r) == [c] + ReplacePair(s, '~', b, r)
  {
    assert ([c] + s)[1..] == s;
  }

  lemma PairHit(s: string, b: char, r: char)
    ensures ReplacePair(['~', b] + s, '~', b, r) == [r] + ReplacePair(s, '~', b, r)
  {
    assert (['~', b] + s)[2..] == s;
  }

  lemma PairMiss(s: string, x: char, b: char, r: char)
    requires x != b && x != '~'
    ensures ReplacePair(['~', x] + s, '~', b, r) == ['~', x] + ReplacePair(s, '~', b, r)
  {
    assert (['~', x] + s)[1..] == [x] + s;
    PairStep(x, s, b, r);
  }

  /** How unescaping works through a token whose head is an escape, or an ordinary character. */
  lemma UnescapeHead(s: string, c: char)
    ensures Unescape("~1" + s) == "/" + Unescape(s)
    ensures Unescape("~0" + s) == "~" + Unescape(s)
    ensures c != '~' ==> Unescape([c] + s) == [c] + Unescape(s)
  {
    var inner := ReplacePair(s, '~', '1', '/');
    PairHit(s, '1', '/');
    PairStep('/', inner, '0', '~');
    PairMiss(s, '0', '1', '/');
    PairHit(inner, '0', '~');
    if c != '~' {
      PairStep(c, s, '1', '/');
      PairStep(c, inner, '0', '~');
    }
  }

  /** Unescaping undoes escaping, for every text. */
  lemma {:induction false} UnescapeEscape(text: string)
    ensures Unescape(Escape(text)) == text
  {
    if text != "" {
      hide Unescape, Escape;
      UnescapeEscape(text[1..]);
      UnescapeHead(Escape(text[1..]), text[0]);
      EscapeStep(text);
      assert text == [text[0]] + text[1..];
    }
  }

  lemma {:induction false} EscapedIsValid(text: string)
    ensures ValidToken(Escape(text))
  {
    if text != "" { EscapedIsValid(text[1..]); }
  }

  lemma EscapeStep(text: string)
    requires text != ""
    ensures Escape(text) == EscapeChar(text[0]) + Escape(text[1..])
  {
  }

  /** Escaping undoes unescaping, for every valid token. */
  lemma {:induction false} EscapeUnescape(token: string)
    requires ValidToken(token)
    ensures Escape(Unescape(token)) == token
  {
    if token == "" {
    } else if token[0] == '~' {
      var rest := token[2..];
      assert token == ['~', token[1]] + rest;
      EscapeUnescape(rest);
      UnescapeHead(rest, ' ');
      EscapeCons(if token[1] == '1' then '/' else '~', Unescape(rest));
    } else {
      var rest := token[1..];
      assert token == [token[0]] + rest;
      EscapeUnescape(rest);
      UnescapeHead(rest, token[0]);
      EscapeCons(token[0], Unescape(rest));
    }
  }

  lemma EscapeCons(c: char, s: string)
    ensures Escape([c] + s) == EscapeChar(c) + Escape(s)
  {
    assert ([c] + s)[1..] == s;
  }

  // ---------------------------------------------------------------------- pointers

  predicate ValidPointer(p: string) {
    p != "" && p[0] == '/' && WellEscaped(p)
  }

  function UnescapeAll(parts: seq<string>): (ts: seq<string>)
    ensures |ts| == |parts|
  {
    seq(|parts|, i requires 0 <= i < |parts| => Unescape(parts[i]))
  }

  function EscapeAll(ts: seq<string>): (parts: seq<string>)
    ensures |parts| == |ts|
  {
    seq(|ts|, i requires 0 <= i < |ts| => Escape(ts[i]))
  }

  function Tokens(pointer: string): seq<string>
    requires pointer != ""
  {
    UnescapeAll(SplitSlash(pointer[1..]))
  }

  function ToPointer(ts: seq<string>): string
    requires ts != []
  {
    "/" + JoinSlash(EscapeAll(ts))
  }

  lemma {:induction false} PartsWellEscaped(s: string)
    requires WellEscaped(s)
    ensures forall i :: 0 <= i < |SplitSlash(s)| ==> ValidToken(SplitSlash(s)[i])
  {
    if s != "" {
      var t := s[1..];
      PartsWellEscaped(t);
      FirstPart(t);
      var rest := SplitSlash(t);
      if s[0] != '/' {
        assert ValidToken([s[0]] + rest[0]);
      }
    }
  }

  /** Every nonempty list of tokens, of any texts, is what its pointer is read back as. */
  lemma TokensOfPointer(ts: seq<string>)
    requires ts != []
    ensures ValidPointer(ToPointer(ts)) && Tokens(ToPointer(ts)) == ts
  {
    var parts := EscapeAll(ts);
    forall i | 0 <= i < |ts| ensures ValidToken(parts[i]) && Unescape(parts[i]) == ts[i] {
      UnescapeEscape(ts[i]);
      EscapedIsValid(ts[i]);
    }
    JoinSplit(parts);
    JoinWellEscaped(parts);
    assert ToPointer(ts)[1..] == JoinSlash(parts);
  }

  lemma {:induction false} JoinWellEscaped(parts: seq<string>)
    requires parts != [] && forall i :: 0 <= i < |parts| ==> ValidToken(parts[i])
    ensures WellEscaped(JoinSlash(parts))
  {
    if |parts| > 1 {
      JoinWellEscaped(parts[1..]);
      var a, b := parts[0], JoinSlash(parts[1..]);
      var s := JoinSlash(parts);
      assert s == a + "/" + b;
      forall i | 0 <= i < |s| && s[i] == '~' ensures i + 1 < |s| && s[i + 1] in {'0', '1'} {
        if i < |a| { assert a[i] == '~'; } else { assert b[i - |a| - 1] == '~'; }
      }
    }
  }

  /** Every valid pointer is the pointer of its tokens. */
  lemma PointerOfTokens(pointer: string)
    requires ValidPointer(pointer)
    ensures Tokens(pointer) != [] && ToPointer(Tokens(pointer)) == pointer
  {
    var body := pointer[1..];
    assert WellEscaped(body) by {
      forall i | 0 <= i < |body| && body[i] == '~' ensures i + 1 < |body| && body[i + 1] in {'0', '1'} {
        assert pointer[i + 1] == '~';
      }
    }
    var parts := SplitSlash(body);
    PartsWellEscaped(body);
    forall i | 0 <= i < |parts| ensures Escape(Unescape(parts[i])) == parts[i] { EscapeUnescape(parts[i]); }
    assert EscapeAll(Tokens(pointer)) == parts;
    SplitJoin(body);
  }
}
