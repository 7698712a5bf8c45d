/** Text order, stable sorting and small collection helpers shared by the verifiers. */
module Ordering {

  type Id = string

  datatype Option<+T> = None | Some(value: T)

  function Get<K, V>(m: map<K, V>, k: K): Option<V> {
    if k in m then Some(m[k]) else None
  }

  /** A list of one entry when the condition holds. */
  function When<T>(condition: bool, x: T): seq<T> {
    if condition then [x] else []
  }

  ghost function MapSeq<S, T>(f: S -> T, xs: seq<S>): (ys: seq<T>)
    ensures |ys| == |xs| && forall i :: 0 <= i < |xs| ==> ys[i] == f(xs[i])
  {
    seq(|xs|, i requires 0 <= i < |xs| => f(xs[i]))
  }

  // ---------------------------------------------------------------- text order

  /** Code-point order on text: the first difference decides, a prefix comes first. */
  predicate Le(a: string, b: string) {
    a == [] || (b != [] && (a[0] < b[0] || (a[0] == b[0] && Le(a[1..], b[1..]))))
  }

  predicate Lt(a: string, b: string) {
    Le(a, b) && a != b
  }

  /** The texts agree up to a place where the first is smaller. */
  predicate SmallerFirst(a: string, b: string) {
    exists i :: 0 <= i < |a| && i < |b| && a[..i] == b[..i] && a[i] < b[i]
  }

  /** In other words: `a` is a prefix of `b`, or smaller at their first difference. */
  lemma {:induction false} LeIff(a: string, b: string)
    ensures Le(a, b) <==> a <= b || SmallerFirst(a, b)
  {
    hide SmallerFirst;
    if a != [] && b != [] {
      LeIff(a[1..], b[1..]);
      if a[0] == b[0] { SmallerLater(a, b); } else { SmallerNow(a, b); }
      assert a == [a[0]] + a[1..] && b == [b[0]] + b[1..];
    } else {
      NoneSmaller(a, b);
    }
  }

  lemma NoneSmaller(a: string, b: string)
    requires a == [] || b == []
    ensures !SmallerFirst(a, b)
  {
  }

  lemma SmallerNow(a: string, b: string)
    requires a != [] && b != [] && a[0] != b[0]
    ensures SmallerFirst(a, b) <==> a[0] < b[0]
  {
    assert a[..0] == b[..0];
    forall i | 0 < i < |a| && i < |b| ensures a[..i] != b[..i] {
      assert a[..i][0] == a[0] && b[..i][0] == b[0];
    }
  }

  lemma SmallerLater(a: string, b: string)
    requires a != [] && b != [] && a[0] == b[0]
    ensures SmallerFirst(a, b) <==> SmallerFirst(a[1..], b[1..])
  {
    if i :| 0 <= i < |a| && i < |b| && a[..i] == b[..i] && a[i] < b[i] {
      assert a[1..][..i - 1] == a[..i][1..] && b[1..][..i - 1] == b[..i][1..];
    }
    if i :| 0 <= i < |a| - 1 && i < |b| - 1 && a[1..][..i] == b[1..][..i] && a[1..][i] < b[1..][i] {
      assert a[..i + 1] == [a[0]] + a[1..][..i] && b[..i + 1] == [b[0]] + b[1..][..i];
    }
  }

  lemma {:induction false} LeTotal(a: string, b: string)
    ensures Le(a, b) || Le(b, a)
  {
    if a != [] && b != [] {
      LeTotal(a[1..], b[1..]);
    }
  }

  lemma {:induction false} LeAntisymmetric(a: string, b: string)
    requires Le(a, b) && Le(b, a)
    ensures a == b
  {
    if a != [] {
      LeAntisymmetric(a[1..], b[1..]);
      assert a == [a[0]] + a[1..] && b == [b[0]] + b[1..];
    }
  }

  lemma {:induction false} LeTransitive(a: string, b: string, c: string)
    requires Le(a, b) && Le(b, c)
    ensures Le(a, c)
  {
    if a != [] && a[0] == b[0] == c[0] {
      LeTransitive(a[1..], b[1..], c[1..]);
    }
  }

  lemma LeReflexive(a: string)
    ensures Le(a, a)
  {
    LeTotal(a, a);
  }

  // ------------------------------------------------------------------- sorting

  ghost predicate TotalPreorder<T(!new)>(le: (T, T) -> bool) {
    && (forall x, y :: le(x, y) || le(y, x))
    && (forall x, y, z :: le(x, y) && le(y, z) ==> le(x, z))
  }

  ghost predicate SortedBy<T>(xs: seq<T>, le: (T, T) -> bool) {
    forall i, j :: 0 <= i < j < |xs| ==> le(xs[i], xs[j])
  }

  function Insert<T>(x: T, xs: seq<T>, le: (T, T) -> bool): seq<T> {
    if xs == [] || le(x, xs[0]) then [x] + xs else [xs[0]] + Insert(x, xs[1..], le)
  }

  /** Stable sort by a key order, as the list sort of the original does. */
  function Sort<T>(xs: seq<T>, le: (T, T) -> bool): seq<T> {
    if xs == [] then [] else Insert(xs[0], Sort(xs[1..], le), le)
  }

  lemma {:induction false} InsertSorts<T(!new)>(x: T, xs: seq<T>, le: (T, T) -> bool)
    requires TotalPreorder(le) && SortedBy(xs, le)
    ensures SortedBy(Insert(x, xs, le), le)
  {
    InsertKeeps(x, xs, le);
    if xs != [] && !le(x, xs[0]) {
      var rest := Insert(x, xs[1..], le);
      InsertSorts(x, xs[1..], le);
      InsertKeeps(x, xs[1..], le);
      hide TotalPreorder;
      forall j | 0 <= j < |rest|
        ensures rest[j] == x || rest[j] in xs[1..]
      {
        assert rest[j] in multiset(rest);
      }
    }
  }

  lemma {:induction false} InsertKeeps<T>(x: T, xs: seq<T>, le: (T, T) -> bool)
    ensures multiset(Insert(x, xs, le)) == multiset{x} + multiset(xs)
  {
    if xs != [] && !le(x, xs[0]) {
      InsertKeeps(x, xs[1..], le);
      assert xs == [xs[0]] + xs[1..];
    }
  }

  lemma {:induction false} SortKeeps<T>(xs: seq<T>, le: (T, T) -> bool)
    ensures multiset(Sort(xs, le)) == multiset(xs)
    ensures |Sort(xs, le)| == |xs|
    ensures forall x :: x in Sort(xs, le) <==> x in xs
  {
    if xs != [] {
      SortKeeps(xs[1..], le);
      InsertKeeps(xs[0], Sort(xs[1..], le), le);
      assert xs == [xs[0]] + xs[1..];
    }
    hide *;
    SameElements(Sort(xs, le), xs);
  }

  lemma SameElements<T>(xs: seq<T>, ys: seq<T>)
    requires multiset(xs) == multiset(ys)
    ensures |xs| == |ys| && forall x :: x in xs <==> x in ys
  {
    assert |multiset(xs)| == |multiset(ys)|;
    forall x ensures x in xs <==> x in ys {
      assert x in xs <==> x in multiset(xs);
      assert x in ys <==> x in multiset(ys);
    }
  }

  lemma {:induction false} SortSorts<T(!new)>(xs: seq<T>, le: (T, T) -> bool)
    requires TotalPreorder(le)
    ensures SortedBy(Sort(xs, le), le)
  {
    if xs != [] {
      SortSorts(xs[1..], le);
      InsertSorts(xs[0], Sort(xs[1..], le), le);
    }
  }

  ghost predicate AllDifferent<T>(xs: seq<T>) {
    forall i, j :: 0 <= i < j < |xs| ==> xs[i] != xs[j]
  }

  /** Sorting a list without repetitions leaves none. */
  lemma StaysDifferent<T>(xs: seq<T>, ys: seq<T>)
    requires AllDifferent(xs) && multiset(xs) == multiset(ys)
    ensures AllDifferent(ys)
  {
    forall i, j | 0 <= i < j < |ys| ensures ys[i] != ys[j] {
      OnceOnly(xs, ys[i]);
      Twice(ys, i, j);
    }
  }

  lemma Twice<T>(xs: seq<T>, i: nat, j: nat)
    requires i < j < |xs|
    ensures xs[i] == xs[j] ==> multiset(xs)[xs[i]] >= 2
  {
    assert xs == xs[..i] + [xs[i]] + xs[i + 1..j] + [xs[j]] + xs[j + 1..];
  }

  lemma {:induction false} OnceOnly<T>(xs: seq<T>, x: T)
    requires AllDifferent(xs)
    ensures multiset(xs)[x] <= 1
  {
    if xs != [] {
      OnceOnly(xs[1..], x);
      assert xs == [xs[0]] + xs[1..];
      if xs[0] == x { assert x !in xs[1..]; }
    }
  }

  lemma TextOrderIsTotal()
    ensures TotalPreorder(Le)
  {
    forall a, b ensures Le(a, b) || Le(b, a) { LeTotal(a, b); }
    forall a, b, c | Le(a, b) && Le(b, c) ensures Le(a, c) { LeTransitive(a, b, c); }
  }

  /** Lists of texts compared entry by entry, as tuples are. */
  predicate ListLe(a: seq<string>, b: seq<string>) {
    a == [] || (b != [] && (if a[0] == b[0] then ListLe(a[1..], b[1..]) else Le(a[0], b[0])))
  }

  /** The lists agree up to a place where the entry of the first comes before. */
  predicate EarlierFirst(a: seq<string>, b: seq<string>) {
    exists i :: 0 <= i < |a| && i < |b| && a[..i] == b[..i] && Lt(a[i], b[i])
  }

  /** In other words: `a` is a prefix of `b`, or earlier at their first difference. */
  lemma {:induction false} ListLeIff(a: seq<string>, b: seq<string>)
    ensures ListLe(a, b) <==> a <= b || EarlierFirst(a, b)
  {
    hide EarlierFirst, Le;
    if a != [] && b != [] {
      ListLeIff(a[1..], b[1..]);
      if a[0] == b[0] { EarlierLater(a, b); } else { EarlierNow(a, b); }
      assert a == [a[0]] + a[1..] && b == [b[0]] + b[1..];
    } else {
      NoneEarlier(a, b);
    }
  }

  lemma NoneEarlier(a: seq<string>, b: seq<string>)
    requires a == [] || b == []
    ensures !EarlierFirst(a, b)
  {
  }

  lemma EarlierNow(a: seq<string>, b: seq<string>)
    requires a != [] && b != [] && a[0] != b[0]
    ensures EarlierFirst(a, b) <==> Le(a[0], b[0])
  {
    hide Le;
    assert a[..0] == b[..0];
    forall i | 0 < i < |a| && i < |b| ensures a[..i] != b[..i] {
      assert a[..i][0] == a[0] && b[..i][0] == b[0];
    }
  }

  lemma EarlierLater(a: seq<string>, b: seq<string>)
    requires a != [] && b != [] && a[0] == b[0]
    ensures EarlierFirst(a, b) <==> EarlierFirst(a[1..], b[1..])
  {
    hide Le;
    if i :| 0 <= i < |a| && i < |b| && a[..i] == b[..i] && Lt(a[i], b[i]) {
      assert a[1..][..i - 1] == a[..i][1..] && b[1..][..i - 1] == b[..i][1..];
    }
    if i :| 0 <= i < |a| - 1 && i < |b| - 1 && a[1..][..i] == b[1..][..i] && Lt(a[1..][i], b[1..][i]) {
      assert a[..i + 1] == [a[0]] + a[1..][..i] && b[..i + 1] == [b[0]] + b[1..][..i];
    }
  }

  lemma {:induction false} ListLeTotal(a: seq<string>, b: seq<string>)
    ensures ListLe(a, b) || ListLe(b, a)
  {
    hide Le;
    if a != [] && b != [] {
      if a[0] == b[0] { ListLeTotal(a[1..], b[1..]); } else { LeTotal(a[0], b[0]); }
    }
  }

  lemma {:induction false} ListLeTransitive(a: seq<string>, b: seq<string>, c: seq<string>)
    requires ListLe(a, b) && ListLe(b, c)
    ensures ListLe(a, c)
  {
    hide Le;
    if a != [] {
      if a[0] == b[0] && b[0] == c[0] {
        ListLeTransitive(a[1..], b[1..], c[1..]);
      } else if a[0] != b[0] && b[0] != c[0] {
        LeTransitive(a[0], b[0], c[0]);
        if a[0] == c[0] { LeAntisymmetric(a[0], b[0]); }
      }
    }
  }

  // ------------------------------------------------------------- sorted id sets

  ghost predicate Ascending(xs: seq<Id>) {
    forall i, j :: 0 <= i < j < |xs| ==> Lt(xs[i], xs[j])
  }

  ghost predicate Least(m: Id, s: set<Id>) {
    m in s && forall x :: x in s ==> Le(m, x)
  }

  lemma {:induction false} LeastExists(s: set<Id>)
    requires s != {}
    ensures exists m :: Least(m, s)
  {
    hide *;
    var y :| y in s;
    LeReflexive(y);
    var rest := s - {y};
    if rest == {} {
      LeastOfOne(y, s);
    } else {
      LeastExists(rest);
      var m :| Least(m, rest);
      LeastOfMore(m, y, s);
    }
  }

  lemma LeastOfOne(y: Id, s: set<Id>)
    requires y in s && s - {y} == {} && Le(y, y)
    ensures Least(y, s)
  {
    hide Le;
    forall x | x in s ensures x == y { assert x == y || x in s - {y}; }
  }

  lemma LeastOfMore(m: Id, y: Id, s: set<Id>)
    requires y in s && Least(m, s - {y}) && Le(y, y)
    ensures Least(m, s) || Least(y, s)
  {
    hide Le;
    LeTotal(m, y);
    forall x | x in s && x != y && Le(y, m) ensures Le(y, x) { LeTransitive(y, m, x); }
  }

  lemma LeastIsUnique(s: set<Id>)
    ensures forall m, n :: m in s && n in s && Le(m, n) && Le(n, m) ==> m == n
  {
    forall m, n | m in s && n in s && Le(m, n) && Le(n, m) ensures m == n { LeAntisymmetric(m, n); }
  }

  /** The elements of a set in ascending order, each once. */
  function SortedIds(s: set<Id>): (xs: seq<Id>)
    ensures Ascending(xs)
    ensures forall x :: x in xs <==> x in s
    ensures |xs| == |s|
  {
    if s == {} then []
    else
      assert exists m :: m in s && forall x :: x in s ==> Le(m, x) by { LeastExists(s); }
      LeastIsUnique(s);
      var m :| m in s && forall x :: x in s ==> Le(m, x);
      var rest := SortedIds(s - {m});
      [m] + rest
  }

  /** Strictly ordered lists with the same members are equal. */
  lemma {:induction false} StrictListIsUnique<T(!new)>(xs: seq<T>, ys: seq<T>, lt: (T, T) -> bool)
    requires forall a, b :: !(lt(a, b) && lt(b, a))
    requires forall i, j :: 0 <= i < j < |xs| ==> lt(xs[i], xs[j])
    requires forall i, j :: 0 <= i < j < |ys| ==> lt(ys[i], ys[j])
    requires forall x :: x in xs <==> x in ys
    ensures xs == ys
  {
    if xs == [] {
      if ys != [] { HasMember(ys); }
    } else {
      assert xs[0] in ys && ys[0] in xs;
      var i :| 0 <= i < |ys| && ys[i] == xs[0];
      var j :| 0 <= j < |xs| && xs[j] == ys[0];
      assert i == 0 || j == 0;
      forall x ensures x in xs[1..] <==> x in ys[1..] {
        TailMembers(xs, lt, x);
        TailMembers(ys, lt, x);
      }
      StrictListIsUnique(xs[1..], ys[1..], lt);
    }
  }

  lemma HasMember<T>(xs: seq<T>)
    requires xs != []
    ensures exists x :: x in xs
  {
    assert xs[0] in xs;
  }

  lemma TailMembers<T(!new)>(xs: seq<T>, lt: (T, T) -> bool, x: T)
    requires xs != [] && forall a, b :: !(lt(a, b) && lt(b, a))
    requires forall i, j :: 0 <= i < j < |xs| ==> lt(xs[i], xs[j])
    ensures x in xs[1..] <==> x in xs && x != xs[0]
  {
    if x in xs[1..] {
      var i :| 1 <= i < |xs| && xs[i] == x;
      assert lt(xs[0], xs[i]);
    }
  }

  lemma TextStrictOrder()
    ensures forall a, b :: !(Lt(a, b) && Lt(b, a))
  {
    forall a, b ensures !(Lt(a, b) && Lt(b, a)) {
      if Le(a, b) && Le(b, a) { LeAntisymmetric(a, b); }
    }
  }

  lemma TakeMore<T>(xs: seq<T>, k: nat)
    requires k < |xs|
    ensures xs[..k + 1] == xs[..k] + [xs[k]]
    ensures xs[k] in xs
  {
  }

  lemma TakeAll<T>(xs: seq<T>)
    ensures xs[..|xs|] == xs
  {
  }

  lemma {:induction false} SubsetSize<T>(a: set<T>, b: set<T>)
    requires a <= b
    ensures |a| <= |b|
  {
    if a != {} {
      var x :| x in a;
      SubsetSize(a - {x}, b - {x});
    }
  }

  /** A sequence without repetitions over a finite universe is no longer than the universe. */
  lemma {:induction false} DistinctFit<T>(xs: seq<T>, universe: set<T>)
    requires forall i, j :: 0 <= i < j < |xs| ==> xs[i] != xs[j]
    requires forall x :: x in xs ==> x in universe
    ensures |xs| <= |universe|
  {
    if xs != [] {
      forall x | x in xs[1..] ensures x in universe - {xs[0]} { }
      DistinctFit(xs[1..], universe - {xs[0]});
    }
  }

  lemma {:induction false} Covered<T>(universe: set<T>, xs: seq<T>)
    requires forall x :: x in universe ==> x in xs
    ensures |universe| <= |xs|
  {
    if xs == [] {
      assert universe == {};
    } else {
      var rest := universe - {xs[0]};
      forall x | x in rest ensures x in xs[1..] { assert x in xs; }
      Covered(rest, xs[1..]);
      assert universe <= rest + {xs[0]};
      SubsetSize(universe, rest + {xs[0]});
    }
  }

  lemma RepeatCovers<T>(universe: set<T>, xs: seq<T>, i: nat, j: nat)
    requires i < j < |xs| && forall x :: x in universe ==> x in xs
    ensures xs[i] == xs[j] ==> |universe| < |xs|
  {
    var shorter := xs[..j] + xs[j + 1..];
    if xs[i] == xs[j] {
      forall x | x in universe ensures x in shorter {
        var k :| 0 <= k < |xs| && xs[k] == x;
        assert if k < j then shorter[k] == x else if k > j then shorter[k - 1] == x else shorter[i] == x;
      }
      Covered(universe, shorter);
    }
  }

  /** A list that covers as many elements as it is long repeats none. */
  lemma FullListIsDifferent<T>(universe: set<T>, xs: seq<T>)
    requires |xs| <= |universe| && forall x :: x in universe ==> x in xs
    ensures AllDifferent(xs)
  {
    forall i, j | 0 <= i < j < |xs| ensures xs[i] != xs[j] { RepeatCovers(universe, xs, i, j); }
  }

  /** A list has as many entries as elements exactly when it repeats none. */
  lemma UniqueIff<T>(xs: seq<T>)
    ensures |xs| == |set x | x in xs| <==> AllDifferent(xs)
  {
    var elements := set x | x in xs;
    Covered(elements, xs);
    if AllDifferent(xs) { DistinctFit(xs, elements); }
    if |xs| <= |elements| { FullListIsDifferent(elements, xs); }
  }
}
