/** The edits of a JSON document: following a pointer to the member or element it names, and the add,
    replace and remove operations there (close to sections 4.1 to 4.3 of RFC 6902; adding an existing
    member is refused). */
module JsonEdits {
  import opened Ordering
  import JsonPointer
  import Text

  datatype Json = Scalar(text: string) | Arr(items: seq<Json>) | Obj(fields: map<string, Json>)

  datatype Refusal = NoSuchMember | NotAnIndex | NotConvertible | OutOfRange | NotAContainer | AlreadyThere

  datatype Result<T> = Ok(value: T) | Refused(why: Refusal)

  /** One step down a document, and a position in it: the steps from the root. */
  datatype Key = Field(name: string) | Index(i: nat)

  datatype Edit = Add(value: Json) | Replace(value: Json) | Remove

  // -------------------------------------------------------------------- positions

  predicate Holds(v: Json, k: Key) {
    match v
    case Scalar(_) => false
    case Arr(items) => k.Index? && k.i < |items|
    case Obj(fields) => k.Field? && k.name in fields
  }

  function Child(v: Json, k: Key): Json
    requires Holds(v, k)
  {
    if v.Arr? then v.items[k.i] else v.fields[k.name]
  }

  function WithChild(v: Json, k: Key, child: Json): Json
    requires Holds(v, k)
  {
    if v.Arr? then Arr(v.items[k.i := child]) else Obj(v.fields[k.name := child])
  }

  function At(doc: Json, path: seq<Key>): Option<Json> {
    if path == [] then Some(doc)
    else if Holds(doc, path[0]) then At(Child(doc, path[0]), path[1..])
    else None
  }

  // ------------------------------------------------------------ following a pointer

  /** What the runtime knows about digits: which characters count as one, and the value of those it can
      convert. Some, such as superscripts, count but cannot be converted. */
  datatype DigitRules = DigitRules(isDigit: char -> bool, value: char -> Option<nat>)

  predicate Digits(s: string, u: DigitRules) {
    s != "" && forall i :: 0 <= i < |s| ==> u.isDigit(s[i])
  }

  function Number(s: string, u: DigitRules): Option<nat> {
    if s == "" then Some(0)
    else
      var high, low := Number(s[..|s| - 1], u), u.value(s[|s| - 1]);
      if high.Some? && low.Some? then Some(high.value * 10 + low.value) else None
  }

  /** What a token means in a container; the member or element itself need not exist. */
  function KeyIn(v: Json, token: string, u: DigitRules): Result<Key> {
    match v
    case Scalar(_) => Refused(NotAContainer)
    case Arr(_) =>
      if !Digits(token, u) then Refused(NotAnIndex)
      else
        var i := Number(token, u);
        if i.Some? then Ok(Index(i.value)) else Refused(NotConvertible)
    case Obj(_) => Ok(Field(token))
  }

  /** Rules on which the ASCII digits are digits with their values. */
  predicate Standard(u: DigitRules) {
    forall d :: 0 <= d < 10 ==> u.isDigit("0123456789"[d]) && u.value("0123456789"[d]) == Some(d)
  }

  /** The decimal text of a number names that index. */
  lemma {:induction false} IndexToken(items: seq<Json>, n: nat, u: DigitRules)
    requires Standard(u)
    ensures KeyIn(Arr(items), Text.Decimal(n), u) == Ok(Index(n))
  {
    var last := "0123456789"[n % 10];
    if n < 10 {
      assert Text.Decimal(n) == "" + [last];
      NumberNext("", last, u);
    } else {
      IndexToken(items, n / 10, u);
      NumberNext(Text.Decimal(n / 10), last, u);
    }
  }

  lemma NumberNext(s: string, c: char, u: DigitRules)
    ensures Number(s + [c], u).Some? <==> Number(s, u).Some? && u.value(c).Some?
    ensures Number(s + [c], u).Some? ==> Number(s + [c], u).value == Number(s, u).value * 10 + u.value(c).value
  {
    assert (s + [c])[..|s|] == s;
  }

  /** The step a token takes: the key must be there. */
  function StepTo(v: Json, token: string, u: DigitRules): (r: Result<Key>)
    ensures r.Ok? ==> Holds(v, r.value)
  {
    var k := KeyIn(v, token, u);
    if k.Ok? && !Holds(v, k.value) then Refused(if v.Arr? then OutOfRange else NoSuchMember) else k
  }

  /** The position a list of tokens names. */
  function Locate(doc: Json, tokens: seq<string>, u: DigitRules): (r: Result<seq<Key>>)
    requires tokens != []
    ensures r.Ok? ==> |r.value| == |tokens|
  {
    if |tokens| == 1 then
      var k := KeyIn(doc, tokens[0], u);
      if k.Ok? then Ok([k.value]) else Refused(k.why)
    else
      var k := StepTo(doc, tokens[0], u);
      if k.Refused? then Refused(k.why)
      else
        var rest := Locate(Child(doc, k.value), tokens[1..], u);
        if rest.Ok? then Ok([k.value] + rest.value) else rest
  }

  lemma {:induction false} AtOneMore(doc: Json, path: seq<Key>, v: Json, k: Key)
    requires At(doc, path) == Some(v) && Holds(v, k)
    ensures At(doc, path + [k]) == Some(Child(v, k))
  {
    if path == [] {
      assert At(Child(v, k), []) == Some(Child(v, k));
    } else {
      AtOneMore(Child(doc, path[0]), path[1..], v, k);
      assert (path + [k])[1..] == path[1..] + [k];
    }
  }

  /** The cursor stands at `here`, the position `path`, with the tokens from `n` on still to follow. */
  ghost predicate Following(doc: Json, tokens: seq<string>, n: nat, path: seq<Key>, here: Json, u: DigitRules) {
    && n < |tokens|
    && At(doc, path) == Some(here)
    && var rest := Locate(here, tokens[n..], u);
       Locate(doc, tokens, u) == (if rest.Ok? then Ok(path + rest.value) else rest)
  }

  lemma FollowOne(doc: Json, tokens: seq<string>, n: nat, path: seq<Key>, here: Json, u: DigitRules)
    requires n + 1 < |tokens| && Following(doc, tokens, n, path, here, u)
    ensures var k := StepTo(here, tokens[n], u);
            if k.Ok? then Following(doc, tokens, n + 1, path + [k.value], Child(here, k.value), u)
            else Locate(doc, tokens, u) == Refused(k.why)
  {
    var k := StepTo(here, tokens[n], u);
    assert tokens[n..][1..] == tokens[n + 1..] && |tokens[n..]| > 1;
    if k.Ok? {
      AtOneMore(doc, path, here, k.value);
      var rest := Locate(Child(here, k.value), tokens[n + 1..], u);
      if rest.Ok? {
        assert path + ([k.value] + rest.value) == (path + [k.value]) + rest.value;
      }
    }
  }

  /** The container a pointer leads to, and the key in it; `path` is where the container is. */
  method ContainerAndKey(doc: Json, pointer: string, u: DigitRules)
    returns (path: seq<Key>, found: Result<(Json, Key)>)
    requires pointer != ""
    ensures var place := Locate(doc, JsonPointer.Tokens(pointer), u);
            if found.Ok? then place == Ok(path + [found.value.1]) && At(doc, path) == Some(found.value.0)
            else place == Refused(found.why)
  {
    hide Locate, At;
    var tokens := JsonPointer.Tokens(pointer);
    path := [];
    var here := doc;
    FollowNone(doc, tokens, u);
    var n := 0;
    while n + 1 < |tokens|
      invariant Following(doc, tokens, n, path, here, u)
    {
      FollowOne(doc, tokens, n, path, here, u);
      var k := StepTo(here, tokens[n], u);
      if k.Refused? {
        return path, Refused(k.why);
      }
      path, here, n := path + [k.value], Child(here, k.value), n + 1;
    }
    LastToken(here, tokens, u);
    var last := KeyIn(here, tokens[n], u);
    return path, if last.Ok? then Ok((here, last.value)) else Refused(last.why);
  }

  lemma FollowNone(doc: Json, tokens: seq<string>, u: DigitRules)
    requires tokens != []
    ensures Following(doc, tokens, 0, [], doc, u)
  {
    assert tokens[0..] == tokens;
    var rest := Locate(doc, tokens, u);
    if rest.Ok? { assert [] + rest.value == rest.value; }
  }

  lemma LastToken(here: Json, tokens: seq<string>, u: DigitRules)
    requires tokens != []
    ensures var last := KeyIn(here, tokens[|tokens| - 1], u);
            Locate(here, tokens[|tokens| - 1..], u) == (if last.Ok? then Ok([last.value]) else Refused(last.why))
  {
  }

  // ------------------------------------------------------------------------- edits

  /** The edit of one container. */
  function EditContainer(c: Json, k: Key, e: Edit): Result<Json> {
    match c
    case Scalar(_) => Refused(NotAContainer)
    case Arr(items) =>
      if k.Field? then Refused(NotAnIndex)
      else if e.Add? then
        if k.i <= |items| then Ok(Arr(items[..k.i] + [e.value] + items[k.i..])) else Refused(OutOfRange)
      else if k.i >= |items| then Refused(OutOfRange)
      else if e.Replace? then Ok(Arr(items[k.i := e.value]))
      else Ok(Arr(items[..k.i] + items[k.i + 1..]))
    case Obj(fields) =>
      if k.Index? then Refused(NoSuchMember)
      else if e.Add? then
        if k.name in fields then Refused(AlreadyThere) else Ok(Obj(fields[k.name := e.value]))
      else if k.name !in fields then Refused(NoSuchMember)
      else if e.Replace? then Ok(Obj(fields[k.name := e.value]))
      else Ok(Obj(fields - {k.name}))
  }

  /** The document after an edit at a position. */
  function EditAt(doc: Json, path: seq<Key>, e: Edit): Result<Json>
    requires path != []
  {
    if |path| == 1 then EditContainer(doc, path[0], e)
    else if !Holds(doc, path[0]) then Refused(NoSuchMember)
    else
      var child := EditAt(Child(doc, path[0]), path[1..], e);
      if child.Ok? then Ok(WithChild(doc, path[0], child.value)) else child
  }

  /** The document after an operation: a pointer and an edit there. */
  function Apply(doc: Json, pointer: string, e: Edit, u: DigitRules): Result<Json>
    requires pointer != ""
  {
    var place := Locate(doc, JsonPointer.Tokens(pointer), u);
    if place.Ok? then EditAt(doc, place.value, e) else Refused(place.why)
  }

  /** The document with the container at `path` exchanged. */
  function Graft(doc: Json, path: seq<Key>, c: Json): Json
    requires At(doc, path).Some?
  {
    if path == [] then c else WithChild(doc, path[0], Graft(Child(doc, path[0]), path[1..], c))
  }

  lemma {:induction false} EditIsGraft(doc: Json, path: seq<Key>, c: Json, k: Key, e: Edit)
    requires At(doc, path) == Some(c)
    ensures var edited := EditContainer(c, k, e);
            EditAt(doc, path + [k], e) == if edited.Ok? then Ok(Graft(doc, path, edited.value)) else edited
  {
    if path != [] {
      assert (path + [k])[1..] == path[1..] + [k];
      EditIsGraft(Child(doc, path[0]), path[1..], c, k, e);
    }
  }

  /** The operation as it is carried out: find the container, then change it alone. */
  method ApplyOperation(doc: Json, pointer: string, e: Edit, u: DigitRules) returns (r: Result<Json>)
    requires pointer != ""
    ensures r == Apply(doc, pointer, e, u)
  {
    var path, found := ContainerAndKey(doc, pointer, u);
    if found.Refused? {
      return Refused(found.why);
    }
    var (container, key) := found.value;
    var edited := EditContainer(container, key, e);
    EditIsGraft(doc, path, container, key, e);
    r := if edited.Ok? then Ok(Graft(doc, path, edited.value)) else edited;
  }

  // -------------------------------------------------------- pointers that spell positions

  /** Every step of the path starts from a container of its kind: an object for a member, an array for an index. */
  ghost predicate Leads(doc: Json, path: seq<Key>) {
    && path != []
    && forall i :: 0 <= i < |path| ==>
         var here := At(doc, path[..i]);
         here.Some? && if path[i].Field? then here.value.Obj? else here.value.Arr?
  }

  /** The token that spells a step: the name of a member, or an index in decimal digits. */
  function TokenOf(k: Key): string {
    match k
    case Field(name) => name
    case Index(i) => Text.Decimal(i)
  }

  function TokensOf(path: seq<Key>): (tokens: seq<string>)
    ensures |tokens| == |path|
  {
    seq(|path|, i requires 0 <= i < |path| => TokenOf(path[i]))
  }

  lemma LeadsTail(doc: Json, path: seq<Key>)
    requires Leads(doc, path)
    ensures if path[0].Field? then doc.Obj? else doc.Arr?
    ensures |path| > 1 ==> Holds(doc, path[0]) && Leads(Child(doc, path[0]), path[1..])
  {
    assert path[..0] == [];
    assert At(doc, path[..0]) == Some(doc);
    if |path| > 1 {
      assert path[..1] == [path[0]] && At(doc, path[..1]).Some?;
      forall i | 0 <= i < |path| - 1
        ensures At(Child(doc, path[0]), path[1..][..i]) == At(doc, path[..i + 1])
      {
        assert path[..i + 1][1..] == path[1..][..i];
      }
    }
  }

  lemma LeadsOn(doc: Json, path: seq<Key>)
    requires path != [] && if path[0].Field? then doc.Obj? else doc.Arr?
    requires |path| > 1 ==> Holds(doc, path[0]) && Leads(Child(doc, path[0]), path[1..])
    ensures Leads(doc, path)
  {
    assert path[..0] == [];
    forall i | 1 <= i < |path| ensures At(doc, path[..i]) == At(Child(doc, path[0]), path[1..][..i - 1]) {
      assert path[..i][1..] == path[1..][..i - 1];
    }
  }

  /** The token reads as the step: it is the member's name, or digits that make the index. */
  predicate Reads(token: string, k: Key, u: DigitRules) {
    match k
    case Field(name) => token == name
    case Index(i) => Digits(token, u) && Number(token, u) == Some(i)
  }

  lemma KeyReads(v: Json, token: string, k: Key, u: DigitRules)
    ensures KeyIn(v, token, u) == Ok(k) <==> (if k.Field? then v.Obj? else v.Arr?) && Reads(token, k, u)
  {
  }

  /** The tokens name a position exactly when they read as its steps and every step starts from a container of
      its kind. */
  lemma {:induction false} LocateIff(doc: Json, tokens: seq<string>, path: seq<Key>, u: DigitRules)
    requires tokens != []
    ensures Locate(doc, tokens, u) == Ok(path) <==>
            && |path| == |tokens| && Leads(doc, path)
            && forall i :: 0 <= i < |tokens| ==> Reads(tokens[i], path[i], u)
  {
    hide Leads, KeyIn, Reads;
    if |path| == |tokens| {
      KeyReads(doc, tokens[0], path[0], u);
      if |tokens| == 1 {
        assert path == [path[0]];
        if Leads(doc, path) { LeadsTail(doc, path); }
        if KeyIn(doc, tokens[0], u) == Ok(path[0]) { LeadsOn(doc, path); }
      } else {
        assert path == [path[0]] + path[1..];
        if Holds(doc, path[0]) { LocateIff(Child(doc, path[0]), tokens[1..], path[1..], u); }
        if Leads(doc, path) { LeadsTail(doc, path); }
        if Locate(doc, tokens, u) == Ok(path) { LeadsOn(doc, path); }
        assert forall i :: 1 <= i < |tokens| ==> tokens[i] == tokens[1..][i - 1] && path[i] == path[1..][i - 1];
      }
    }
  }

  lemma SpelledReads(k: Key, u: DigitRules)
    requires Standard(u)
    ensures Reads(TokenOf(k), k, u)
  {
    if k.Index? { IndexToken([], k.i, u); }
  }

  /** An operation edits the position its pointer spells. */
  lemma PointerEditsItsPosition(doc: Json, path: seq<Key>, e: Edit, u: DigitRules)
    requires Leads(doc, path) && Standard(u)
    ensures path != [] && Apply(doc, JsonPointer.ToPointer(TokensOf(path)), e, u) == EditAt(doc, path, e)
  {
    var tokens := TokensOf(path);
    hide Locate, Standard, EditAt, Reads;
    JsonPointer.TokensOfPointer(tokens);
    forall i | 0 <= i < |path| ensures Reads(tokens[i], path[i], u) { SpelledReads(path[i], u); }
    LocateIff(doc, tokens, path, u);
    hide Leads;
  }

  /** Why an edit is refused where its pointer leads: an index past the list, a member to add that is there, or
      one to replace or remove that is not. */
  lemma {:induction false} RefusalSays(doc: Json, path: seq<Key>, e: Edit)
    requires Leads(doc, path) && EditAt(doc, path, e).Refused?
    ensures EditAt(doc, path, e).why
         == if path[|path| - 1].Index? then OutOfRange else if e.Add? then AlreadyThere else NoSuchMember
  {
    LeadsTail(doc, path);
    hide Leads;
    if |path| > 1 { RefusalSays(Child(doc, path[0]), path[1..], e); }
  }

  // -------------------------------------------------------------------- the theorems

  /** Where the element at position `q` is after the edit. */
  function Moved(path: seq<Key>, e: Edit, q: seq<Key>): (r: seq<Key>)
    requires path != []
    ensures |r| == |q|
  {
    var n := |path| - 1;
    if e.Replace? || path[n].Field? || |q| <= n || q[..n] != path[..n] || q[n].Field? then q
    else if e.Add? && path[n].i <= q[n].i then q[n := Index(q[n].i + 1)]
    else if e.Remove? && path[n].i < q[n].i then q[n := Index((q[n].i - 1) as nat)]
    else q
  }

  /** Neither position is inside the other. */
  predicate Apart(path: seq<Key>, q: seq<Key>) {
    exists i :: 0 <= i < |path| && i < |q| && path[i] != q[i]
  }

  lemma {:induction false} AcceptedIff(doc: Json, path: seq<Key>, e: Edit)
    requires path != []
    ensures EditAt(doc, path, e).Ok? <==>
            match At(doc, path[..|path| - 1])
            case None => false
            case Some(c) =>
              var k := path[|path| - 1];
              if e.Add? then (c.Arr? && k.Index? && k.i <= |c.items|) || (c.Obj? && k.Field? && !Holds(c, k))
              else Holds(c, k)
  {
    if |path| > 1 {
      assert path[..|path| - 1][1..] == path[1..][..|path| - 2];
      if Holds(doc, path[0]) { AcceptedIff(Child(doc, path[0]), path[1..], e); }
    }
  }

  /** What was written is read back; a removed member is gone. */
  lemma {:induction false} ReadBack(doc: Json, path: seq<Key>, e: Edit)
    requires path != [] && EditAt(doc, path, e).Ok?
    ensures var after := EditAt(doc, path, e).value;
            if e.Remove? then path[|path| - 1].Field? ==> At(after, path) == None else At(after, path) == Some(e.value)
  {
    if |path| > 1 {
      ReadBack(Child(doc, path[0]), path[1..], e);
    } else {
      assert path[1..] == [];
    }
  }

  /** Everything apart from the edited position is where `Moved` says, unchanged; nothing else appears
      there. When an element is inserted this includes the element that was at its index. */
  lemma {:induction false} Frame(doc: Json, path: seq<Key>, e: Edit, q: seq<Key>)
    requires path != [] && EditAt(doc, path, e).Ok?
    requires Apart(path, q) || (e.Add? && path[|path| - 1].Index? && path <= q)
    ensures At(EditAt(doc, path, e).value, Moved(path, e, q)) == At(doc, q)
  {
    var after := EditAt(doc, path, e).value;
    var r := Moved(path, e, q);
    if |path| == 1 {
      FrameHere(doc, path, e, q);
    } else if q[0] != path[0] {
      if |q| >= |path| { assert q[..|path| - 1][0] != path[..|path| - 1][0]; }
    } else {
      if Apart(path, q) { ApartTail(path, q); }
      Frame(Child(doc, path[0]), path[1..], e, q[1..]);
      MovedTail(path, e, q);
    }
  }

  lemma ApartTail(path: seq<Key>, q: seq<Key>)
    requires path != [] && q != [] && path[0] == q[0] && Apart(path, q)
    ensures Apart(path[1..], q[1..])
  {
    var i :| 0 <= i < |path| && i < |q| && path[i] != q[i];
    assert path[1..][i - 1] != q[1..][i - 1];
  }

  lemma MovedTail(path: seq<Key>, e: Edit, q: seq<Key>)
    requires |path| > 1 && q != [] && q[0] == path[0]
    ensures Moved(path, e, q)[0] == q[0] && Moved(path, e, q)[1..] == Moved(path[1..], e, q[1..])
  {
    var n := |path| - 1;
    if |q| > n {
      assert q[..n] == [q[0]] + q[1..][..n - 1];
      assert path[..n] == [path[0]] + path[1..][..n - 1];
    }
  }

  lemma FrameHere(doc: Json, path: seq<Key>, e: Edit, q: seq<Key>)
    requires |path| == 1 && EditAt(doc, path, e).Ok?
    requires Apart(path, q) || (e.Add? && path[|path| - 1].Index? && path <= q)
    ensures At(EditAt(doc, path, e).value, Moved(path, e, q)) == At(doc, q)
  {
    assert q[..0] == path[..0];
    assert Moved(path, e, q)[1..] == q[1..];
    FrameContainer(doc, path[0], e, q[0], Moved(path, e, q)[0]);
  }

  lemma FrameContainer(c: Json, k: Key, e: Edit, j: Key, moved: Key)
    requires EditContainer(c, k, e).Ok? && (j != k || e.Add?)
    requires c.Obj? && e.Add? ==> j != k
    requires moved == (if e.Replace? || k.Field? || j.Field? then j
                       else if e.Add? && k.i <= j.i then Index(j.i + 1)
                       else if e.Remove? && k.i < j.i then Index((j.i - 1) as nat)
                       else j)
    ensures var after := EditContainer(c, k, e).value;
            Holds(after, moved) == Holds(c, j) && (Holds(c, j) ==> Child(after, moved) == Child(c, j))
  {
  }

  lemma WithChildLaws(v: Json, k: Key, a: Json, b: Json)
    requires Holds(v, k)
    ensures Holds(WithChild(v, k, a), k) && Child(WithChild(v, k, a), k) == a
    ensures WithChild(WithChild(v, k, a), k, b) == WithChild(v, k, b)
    ensures WithChild(v, k, Child(v, k)) == v
  {
    if v.Arr? {
      assert v.items[k.i := a][k.i := b] == v.items[k.i := b];
      assert v.items[k.i := v.items[k.i]] == v.items;
    } else {
      assert v.fields[k.name := a][k.name := b] == v.fields[k.name := b];
      assert v.fields[k.name := v.fields[k.name]] == v.fields;
    }
  }

  lemma ContainerLaws(c: Json, k: Key, v: Json, w: Json)
    ensures var added := EditContainer(c, k, Add(v));
            added.Ok? ==> EditContainer(added.value, k, Remove) == Ok(c)
    ensures var removed := EditContainer(c, k, Remove);
            removed.Ok? ==> Holds(c, k) && EditContainer(removed.value, k, Add(Child(c, k))) == Ok(c)
    ensures var replaced := EditContainer(c, k, Replace(v));
            replaced.Ok? ==> && EditContainer(replaced.value, k, Replace(w)) == EditContainer(c, k, Replace(w))
                             && Holds(c, k) && EditContainer(c, k, Replace(Child(c, k))) == Ok(c)
  {
    if c.Arr? && k.Index? {
      if k.i <= |c.items| {
        var items := c.items[..k.i] + [v] + c.items[k.i..];
        assert items[..k.i] + items[k.i + 1..] == c.items;
      }
      if k.i < |c.items| {
        var items := c.items[..k.i] + c.items[k.i + 1..];
        assert items[..k.i] + [c.items[k.i]] + items[k.i..] == c.items;
        WithChildLaws(c, k, v, w);
      }
    } else if c.Obj? && k.Field? {
      if k.name in c.fields {
        assert (c.fields - {k.name})[k.name := c.fields[k.name]] == c.fields;
        WithChildLaws(c, k, v, w);
      } else {
        assert c.fields[k.name := v] - {k.name} == c.fields;
      }
    }
  }

  /** Removing what was added restores the document. */
  lemma {:induction false} RemoveUndoesAdd(doc: Json, path: seq<Key>, v: Json)
    requires path != [] && EditAt(doc, path, Add(v)).Ok?
    ensures EditAt(EditAt(doc, path, Add(v)).value, path, Remove) == Ok(doc)
  {
    if |path| == 1 {
      ContainerLaws(doc, path[0], v, v);
    } else {
      var child := Child(doc, path[0]);
      RemoveUndoesAdd(child, path[1..], v);
      WithChildLaws(doc, path[0], EditAt(child, path[1..], Add(v)).value, child);
    }
  }

  /** Adding back what was removed restores the document. */
  lemma {:induction false} AddUndoesRemove(doc: Json, path: seq<Key>)
    requires path != [] && EditAt(doc, path, Remove).Ok?
    ensures At(doc, path).Some?
    ensures EditAt(EditAt(doc, path, Remove).value, path, Add(At(doc, path).value)) == Ok(doc)
  {
    if |path| == 1 {
      ContainerLaws(doc, path[0], doc, doc);
      assert path[1..] == [];
    } else {
      var child := Child(doc, path[0]);
      AddUndoesRemove(child, path[1..]);
      WithChildLaws(doc, path[0], EditAt(child, path[1..], Remove).value, child);
    }
  }

  /** The last replacement wins; replacing by the old value changes nothing. */
  lemma {:induction false} LastReplaceWins(doc: Json, path: seq<Key>, v: Json, w: Json)
    requires path != [] && EditAt(doc, path, Replace(v)).Ok?
    ensures EditAt(EditAt(doc, path, Replace(v)).value, path, Replace(w)) == EditAt(doc, path, Replace(w))
    ensures At(doc, path).Some? && EditAt(doc, path, Replace(At(doc, path).value)) == Ok(doc)
  {
    if |path| == 1 {
      ContainerLaws(doc, path[0], v, w);
      assert path[1..] == [];
    } else {
      var child := Child(doc, path[0]);
      LastReplaceWins(child, path[1..], v, w);
      var a, b := EditAt(child, path[1..], Replace(v)).value, EditAt(child, path[1..], Replace(w));
      WithChildLaws(doc, path[0], a, if b.Ok? then b.value else child);
    }
  }

  /** After an edit its own tokens still name the same position. */
  lemma {:induction false} LocateAfter(doc: Json, tokens: seq<string>, e: Edit, u: DigitRules)
    requires tokens != [] && Locate(doc, tokens, u).Ok?
    requires EditAt(doc, Locate(doc, tokens, u).value, e).Ok?
    ensures Locate(EditAt(doc, Locate(doc, tokens, u).value, e).value, tokens, u) == Locate(doc, tokens, u)
  {
    if |tokens| > 1 {
      var path := Locate(doc, tokens, u).value;
      var k := StepTo(doc, tokens[0], u).value;
      assert path[1..] == Locate(Child(doc, k), tokens[1..], u).value;
      LocateAfter(Child(doc, k), tokens[1..], e, u);
    }
  }

  /** At the level of whole operations: an accepted operation reads back, and its opposite with the same
      pointer restores the document. */
  lemma OperationsUndo(doc: Json, pointer: string, e: Edit, u: DigitRules)
    requires pointer != "" && Apply(doc, pointer, e, u).Ok?
    ensures var after, path := Apply(doc, pointer, e, u).value, Locate(doc, JsonPointer.Tokens(pointer), u).value;
            match e
            case Add(v) => At(after, path) == Some(v) && Apply(after, pointer, Remove, u) == Ok(doc)
            case Replace(v) =>
              At(after, path) == Some(v) && At(doc, path).Some?
              && Apply(after, pointer, Replace(At(doc, path).value), u) == Ok(doc)
            case Remove => At(doc, path).Some? && Apply(after, pointer, Add(At(doc, path).value), u) == Ok(doc)
  {
    hide JsonPointer.Tokens;
    var tokens := JsonPointer.Tokens(pointer);
    var path := Locate(doc, tokens, u).value;
    LocateAfter(doc, tokens, e, u);
    ReadBack(doc, path, e);
    match e
    case Add(v) => RemoveUndoesAdd(doc, path, v);
    case Remove => AddUndoesRemove(doc, path);
    case Replace(v) => LastReplaceWins(doc, path, v, v);
                       LastReplaceWins(doc, path, v, At(doc, path).value);
  }
}
