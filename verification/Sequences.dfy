/**
  The few list operations of the Python runtime that the components share: the
  filtering comprehension, `sum`, `sorted` (which is stable), and the ordering of
  strings. Each comes with the laws the component proofs use.
 */
module Sequences {

  /** `[x for x in s if keep(x)]` */
  function Filter<T>(s: seq<T>, keep: T -> bool): (r: seq<T>)
    ensures |r| <= |s|
    ensures forall x :: x in r ==> x in s && keep(x)
    ensures forall x :: x in s && keep(x) ==> x in r
  {
    if s == [] then []
    else (if keep(s[0]) then [s[0]] else []) + Filter(s[1..], keep)
  }

  lemma {:induction false} FilterConcat<T>(a: seq<T>, b: seq<T>, keep: T -> bool)
    ensures Filter(a + b, keep) == Filter(a, keep) + Filter(b, keep)
  {
    if a == [] {
      assert a + b == b;
    } else {
      assert (a + b)[1..] == a[1..] + b;
      FilterConcat(a[1..], b, keep);
    }
  }

  lemma FilterSingle<T>(x: T, keep: T -> bool)
    ensures Filter([x], keep) == if keep(x) then [x] else []
  {
    assert [x][1..] == [];
  }

  lemma {:induction false} FilterAll<T>(s: seq<T>, keep: T -> bool)
    requires forall x :: x in s ==> keep(x)
    ensures Filter(s, keep) == s
  {
    if s != [] {
      assert s == [s[0]] + s[1..];
      FilterAll(s[1..], keep);
    }
  }

  /** Filtering depends on the multiset of the elements only. */
  lemma {:induction false} FilterMultiset<T>(s: seq<T>, keep: T -> bool)
    ensures forall x :: multiset(Filter(s, keep))[x] == if keep(x) then multiset(s)[x] else 0
  {
    if s != [] {
      assert s == [s[0]] + s[1..];
      FilterMultiset(s[1..], keep);
    }
  }

  /** Where the kept elements stand. */
  ghost function Positions<T>(s: seq<T>, keep: T -> bool): set<int> { set k | 0 <= k < |s| && keep(s[k]) }

  lemma PositionsStep<T>(s: seq<T>, x: T, keep: T -> bool)
    ensures |Positions(s + [x], keep)| == |Positions(s, keep)| + if keep(x) then 1 else 0
  {
    assert Positions(s + [x], keep) == Positions(s, keep) + if keep(x) then {|s|} else {};
  }

  /** A filtered list is as long as there are positions of kept elements. */
  lemma {:induction false} FilterCount<T>(s: seq<T>, keep: T -> bool)
    ensures |Filter(s, keep)| == |Positions(s, keep)|
  {
    hide Filter;
    if s == [] {
      assert Positions(s, keep) == {};
    } else {
      var init, x := s[..|s| - 1], s[|s| - 1];
      FilterCount(init, keep);
      FilterConcat(init, [x], keep);
      FilterSingle(x, keep);
      PositionsStep(init, x, keep);
      assert s == init + [x];
    }
  }

  function Both<T>(p: T -> bool, q: T -> bool): T -> bool { x => p(x) && q(x) }

  lemma {:induction false} FilterBoth<T>(s: seq<T>, p: T -> bool, q: T -> bool)
    ensures Filter(Filter(s, p), q) == Filter(s, Both(p, q))
  {
    hide Filter;
    if s != [] {
      var x, rest := s[0], s[1..];
      assert s == [x] + rest;
      FilterBoth(rest, p, q);
      FilterCons(x, rest, p);
      FilterCons(x, rest, Both(p, q));
      FilterCons(x, Filter(rest, p), q);
      assert Filter(s, p) == if p(x) then [x] + Filter(rest, p) else Filter(rest, p);
    }
  }

  /** `[f(x) for x in s]` */
  function Map<S, T>(s: seq<S>, f: S -> T): (r: seq<T>)
    ensures |r| == |s|
    ensures forall i :: 0 <= i < |s| ==> r[i] == f(s[i])
  {
    if s == [] then [] else [f(s[0])] + Map(s[1..], f)
  }

  lemma {:induction false} MapConcat<S, T>(a: seq<S>, b: seq<S>, f: S -> T)
    ensures Map(a + b, f) == Map(a, f) + Map(b, f)
  {
    if a == [] {
      assert a + b == b;
    } else {
      assert (a + b)[1..] == a[1..] + b;
      MapConcat(a[1..], b, f);
    }
  }

  function SumInt(s: seq<int>): int {
    if s == [] then 0 else s[0] + SumInt(s[1..])
  }

  function SumReal(s: seq<real>): real {
    if s == [] then 0.0 else s[0] + SumReal(s[1..])
  }

  lemma {:induction false} SumIntConcat(a: seq<int>, b: seq<int>)
    ensures SumInt(a + b) == SumInt(a) + SumInt(b)
  {
    if a == [] {
      assert a + b == b;
    } else {
      assert (a + b)[1..] == a[1..] + b;
      SumIntConcat(a[1..], b);
    }
  }

  lemma {:induction false} SumRealConcat(a: seq<real>, b: seq<real>)
    ensures SumReal(a + b) == SumReal(a) + SumReal(b)
  {
    if a == [] {
      assert a + b == b;
    } else {
      assert (a + b)[1..] == a[1..] + b;
      SumRealConcat(a[1..], b);
    }
  }

  /** Every element of the first list has a position in the second. */
  lemma SplitAt<T>(x: T, s: seq<T>) returns (a: seq<T>, b: seq<T>)
    requires x in s
    ensures s == a + [x] + b
    ensures multiset(a + b) == multiset(s) - multiset{x}
  {
    var i :| 0 <= i < |s| && s[i] == x;
    a, b := s[..i], s[i + 1..];
    assert s == a + [x] + b;
    assert multiset(s) == multiset(a) + multiset{x} + multiset(b);
    assert multiset(a + b) == multiset(a) + multiset(b);
  }

  lemma {:induction false} SumRealMultiset(s: seq<real>, t: seq<real>)
    requires multiset(s) == multiset(t)
    ensures SumReal(s) == SumReal(t)
    decreases |s|
  {
    if s == [] {
      assert |multiset(t)| == 0;
    } else {
      assert s[0] in multiset(s);
      var a, b := SplitAt(s[0], t);
      assert s == [s[0]] + s[1..];
      assert multiset(s[1..]) == multiset(s) - multiset{s[0]};
      SumRealMultiset(s[1..], a + b);
      SumRealConcat(a, b);
      SumRealConcat(a + [s[0]], b);
      SumRealConcat(a, [s[0]]);
    }
  }

  lemma {:induction false} SumIntMultiset(s: seq<int>, t: seq<int>)
    requires multiset(s) == multiset(t)
    ensures SumInt(s) == SumInt(t)
    decreases |s|
  {
    if s == [] {
      assert |multiset(t)| == 0;
    } else {
      assert s[0] in multiset(s);
      var a, b := SplitAt(s[0], t);
      assert s == [s[0]] + s[1..];
      assert multiset(s[1..]) == multiset(s) - multiset{s[0]};
      SumIntMultiset(s[1..], a + b);
      SumIntConcat(a, b);
      SumIntConcat(a + [s[0]], b);
      SumIntConcat(a, [s[0]]);
    }
  }

  lemma {:induction false} MapMultiset<S, T>(s: seq<S>, t: seq<S>, f: S -> T)
    requires multiset(s) == multiset(t)
    ensures multiset(Map(s, f)) == multiset(Map(t, f))
    decreases |s|
  {
    if s == [] {
      assert |multiset(t)| == 0;
    } else {
      hide Map;
      var x := s[0];
      assert x in multiset(s);
      var a, b := SplitAt(x, t);
      assert s == [x] + s[1..];
      TailMultiset(s);
      MapMultiset(s[1..], a + b, f);
      MapConcat([x], s[1..], f);
      MapConcat(a, b, f);
      MapConcat(a + [x], b, f);
      MapConcat(a, [x], f);
    }
  }

  // ---------------------------------------------------------------- sorting

  ghost predicate TotalPreorder<T(!new)>(le: (T, T) -> bool) {
    && (forall a, b :: le(a, b) || le(b, a))
    && (forall a, b, c :: le(a, b) && le(b, c) ==> le(a, c))
  }

  ghost predicate Ordered<T>(s: seq<T>, le: (T, T) -> bool) {
    forall i, j :: 0 <= i < j < |s| ==> le(s[i], s[j])
  }

  function Insert<T>(x: T, s: seq<T>, le: (T, T) -> bool): (r: seq<T>)
    ensures |r| == |s| + 1
  {
    if s == [] || le(x, s[0]) then [x] + s else [s[0]] + Insert(x, s[1..], le)
  }

  /** `sorted(s)` for the order `le`: equal elements keep their input order. */
  function StableSort<T>(s: seq<T>, le: (T, T) -> bool): (r: seq<T>)
    ensures |r| == |s|
  {
    if s == [] then [] else Insert(s[0], StableSort(s[1..], le), le)
  }

  lemma {:induction false} InsertMultiset<T>(x: T, s: seq<T>, le: (T, T) -> bool)
    ensures multiset(Insert(x, s, le)) == multiset{x} + multiset(s)
  {
    if s == [] || le(x, s[0]) {
    } else {
      assert s == [s[0]] + s[1..];
      InsertMultiset(x, s[1..], le);
    }
  }

  lemma {:induction false} SortMultiset<T>(s: seq<T>, le: (T, T) -> bool)
    ensures multiset(StableSort(s, le)) == multiset(s)
  {
    if s != [] {
      assert s == [s[0]] + s[1..];
      SortMultiset(s[1..], le);
      InsertMultiset(s[0], StableSort(s[1..], le), le);
    }
  }

  lemma {:induction false} InsertOrdered<T(!new)>(x: T, s: seq<T>, le: (T, T) -> bool)
    requires TotalPreorder(le) && Ordered(s, le)
    ensures Ordered(Insert(x, s, le), le)
  {
    if s == [] {
    } else if le(x, s[0]) {
      forall j | 0 <= j < |s| ensures le(x, s[j]) {
        assert j == 0 || le(s[0], s[j]);
      }
    } else {
      InsertOrdered(x, s[1..], le);
      InsertMultiset(x, s[1..], le);
      var r := Insert(x, s[1..], le);
      forall j | 0 <= j < |r| ensures le(s[0], r[j]) {
        assert r[j] in multiset(r);
        if r[j] != x {
          assert r[j] in multiset(s[1..]);
          var k :| 0 <= k < |s[1..]| && s[1..][k] == r[j];
          assert s[k + 1] == r[j];
        }
      }
    }
  }

  lemma {:induction false} SortOrdered<T(!new)>(s: seq<T>, le: (T, T) -> bool)
    requires TotalPreorder(le)
    ensures Ordered(StableSort(s, le), le)
  {
    if s != [] {
      SortOrdered(s[1..], le);
      InsertOrdered(s[0], StableSort(s[1..], le), le);
    }
  }

  lemma FilterReordered<T>(s: seq<T>, t: seq<T>, keep: T -> bool)
    requires multiset(s) == multiset(t)
    ensures multiset(Filter(s, keep)) == multiset(Filter(t, keep))
  {
    hide Filter;
    FilterMultiset(s, keep);
    FilterMultiset(t, keep);
  }

  lemma InsertStep<T>(x: T, s: seq<T>, le: (T, T) -> bool)
    ensures Insert(x, s, le) == if s == [] || le(x, s[0]) then [x] + s else [s[0]] + Insert(x, s[1..], le)
  {
  }

  lemma FilterCons<T>(x: T, s: seq<T>, keep: T -> bool)
    ensures Filter([x] + s, keep) == (if keep(x) then [x] else []) + Filter(s, keep)
  {
    assert ([x] + s)[1..] == s;
  }

  /** Inserting `x` before an element that does not precede it changes nothing else. */
  lemma {:induction false} InsertFiltered<T(!new)>(x: T, s: seq<T>, le: (T, T) -> bool, keep: T -> bool)
    requires forall a, b :: keep(a) && keep(b) ==> le(a, b)
    ensures Filter(Insert(x, s, le), keep) == (if keep(x) then [x] else []) + Filter(s, keep)
  {
    hide Filter, Insert;
    InsertStep(x, s, le);
    if s == [] || le(x, s[0]) {
      FilterCons(x, s, keep);
    } else {
      assert !(keep(x) && keep(s[0]));
      InsertFiltered(x, s[1..], le, keep);
      FilterCons(s[0], Insert(x, s[1..], le), keep);
      FilterCons(s[0], s[1..], keep);
      assert s == [s[0]] + s[1..];
    }
  }

  /** Stability: elements that the order does not separate stay in input order. */
  lemma {:induction false} SortStable<T(!new)>(s: seq<T>, le: (T, T) -> bool, keep: T -> bool)
    requires forall a, b :: keep(a) && keep(b) ==> le(a, b)
    ensures Filter(StableSort(s, le), keep) == Filter(s, keep)
  {
    if s != [] {
      SortStable(s[1..], le, keep);
      InsertFiltered(s[0], StableSort(s[1..], le), le, keep);
    }
  }

  lemma HeadLeast<T>(s: seq<T>, x: T, le: (T, T) -> bool)
    requires x in multiset(s) && Ordered(s, le) && forall a :: a in s ==> le(a, a)
    ensures le(s[0], x)
  {
    var j :| 0 <= j < |s| && s[j] == x;
    assert j == 0 || le(s[0], s[j]);
  }

  lemma OrderedTail<T>(s: seq<T>, le: (T, T) -> bool)
    requires s != [] && Ordered(s, le)
    ensures Ordered(s[1..], le)
  {
  }

  /** An antisymmetric order leaves only one way to arrange a multiset. */
  lemma {:induction false} OrderedUnique<T(!new)>(s: seq<T>, t: seq<T>, le: (T, T) -> bool)
    requires (forall a :: le(a, a)) && (forall a, b :: le(a, b) && le(b, a) ==> a == b)
    requires Ordered(s, le) && Ordered(t, le) && multiset(s) == multiset(t)
    ensures s == t
    decreases |s|
  {
    hide Ordered;
    if s == [] {
      assert |multiset(t)| == 0;
    } else {
      assert |t| == |multiset(t)| == |multiset(s)| == |s|;
      SameHead(s, t, le);
      TailMultiset(s);
      TailMultiset(t);
      OrderedTail(s, le);
      OrderedTail(t, le);
      OrderedUnique(s[1..], t[1..], le);
      assert s == [s[0]] + s[1..] && t == [t[0]] + t[1..];
    }
  }

  lemma TailMultiset<T>(s: seq<T>)
    requires s != []
    ensures multiset(s[1..]) == multiset(s) - multiset{s[0]}
  {
    assert s == [s[0]] + s[1..];
  }

  lemma SameHead<T(!new)>(s: seq<T>, t: seq<T>, le: (T, T) -> bool)
    requires s != [] && t != [] && Ordered(s, le) && Ordered(t, le) && multiset(s) == multiset(t)
    requires (forall a :: le(a, a)) && (forall a, b :: le(a, b) && le(b, a) ==> a == b)
    ensures s[0] == t[0]
  {
    hide Ordered;
    assert t[0] in multiset(t) && s[0] in multiset(s);
    HeadLeast(s, t[0], le);
    HeadLeast(t, s[0], le);
  }

  /** Sorting a list and then one whose elements all come after it is sorting them one after the other. */
  lemma {:induction false} SortAppend<T(!new)>(s: seq<T>, t: seq<T>, le: (T, T) -> bool)
    requires forall x, y :: x in s && y in t ==> le(x, y)
    ensures StableSort(s + t, le) == StableSort(s, le) + StableSort(t, le)
  {
    hide StableSort, Insert;
    SortStep(s + t, le);
    SortStep(s, le);
    if s == [] {
      assert s + t == t;
    } else {
      assert (s + t)[1..] == s[1..] + t && s[0] in s;
      SortAppend(s[1..], t, le);
      SortMultiset(t, le);
      forall y | y in StableSort(t, le) ensures y in t {
        assert y in multiset(StableSort(t, le));
      }
      InsertAppend(s[0], StableSort(s[1..], le), StableSort(t, le), le);
    }
  }

  lemma SortStep<T>(s: seq<T>, le: (T, T) -> bool)
    ensures StableSort(s, le) == if s == [] then [] else Insert(s[0], StableSort(s[1..], le), le)
  {
  }

  lemma {:induction false} InsertAppend<T>(x: T, s: seq<T>, t: seq<T>, le: (T, T) -> bool)
    requires forall y :: y in t ==> le(x, y)
    ensures Insert(x, s + t, le) == Insert(x, s, le) + t
  {
    hide Insert;
    InsertStep(x, s + t, le);
    InsertStep(x, s, le);
    if s == [] {
      assert s + t == t && [x] + s == [x];
    } else if le(x, s[0]) {
      assert ([x] + s) + t == [x] + (s + t);
    } else {
      var rest := Insert(x, s[1..], le);
      assert (s + t)[1..] == s[1..] + t;
      InsertAppend(x, s[1..], t, le);
      assert ([s[0]] + rest) + t == [s[0]] + (rest + t);
    }
  }

  /** A total order in which different elements can be told apart. */
  ghost predicate TotalOrder<T(!new)>(le: (T, T) -> bool) {
    TotalPreorder(le) && forall a, b :: le(a, b) && le(b, a) ==> a == b
  }

  ghost predicate BelowAll<T>(x: T, s: set<T>, le: (T, T) -> bool) {
    forall y :: y in s ==> le(x, y)
  }

  lemma {:induction false} LeastExists<T(!new)>(s: set<T>, le: (T, T) -> bool) returns (m: T)
    requires s != {} && TotalOrder(le)
    ensures m in s && BelowAll(m, s, le)
  {
    hide TotalOrder;
    m :| m in s;
    var rest := s - {m};
    assert s == {m} + rest;
    if rest == {} {
      BelowMore(m, m, rest, le);
    } else {
      var n := LeastExists(rest, le);
      BelowMore(m, n, rest, le);
      if !le(m, n) {
        m := n;
      }
    }
  }

  /** Of `x` and the least of `s` the smaller one is below both. */
  lemma BelowMore<T(!new)>(x: T, n: T, s: set<T>, le: (T, T) -> bool)
    requires TotalOrder(le) && BelowAll(n, s, le)
    ensures BelowAll(if le(x, n) then x else n, {x} + s, le)
  {
    assert le(x, x) && (le(x, n) || le(n, x));
    if le(x, n) {
      forall y | y in s ensures le(x, y) {
        assert le(x, n) && le(n, y);
      }
    }
  }

  lemma HasLeast<T(!new)>(s: set<T>, le: (T, T) -> bool)
    requires s != {} && TotalOrder(le)
    ensures exists x :: x in s && BelowAll(x, s, le)
  {
    hide TotalOrder;
    var m := LeastExists(s, le);
  }

  /** `sorted(s)` for a set */
  function SortedSet<T(!new, ==)>(s: set<T>, le: (T, T) -> bool): (r: seq<T>)
    requires TotalOrder(le)
    ensures Ordered(r, le) && |r| == |s| && forall x :: x in r <==> x in s
  {
    if s == {} then []
    else
      HasLeast(s, le);
      var x :| x in s && forall y :: y in s ==> le(x, y);
      [x] + SortedSet(s - {x}, le)
  }

  // -------------------------------------------------------------- extreme values

  /** `min(f(x) for x in s)` */
  function Least<T>(s: seq<T>, f: T -> int): (t: int)
    requires s != []
    ensures (exists x :: x in s && f(x) == t) && forall x :: x in s ==> t <= f(x)
  {
    if |s| == 1 then f(s[0])
    else
      assert s == [s[0]] + s[1..];
      var t := Least(s[1..], f);
      if f(s[0]) < t then f(s[0]) else t
  }

  /** `max(f(x) for x in s)` */
  function Greatest<T>(s: seq<T>, f: T -> int): (t: int)
    requires s != []
    ensures (exists x :: x in s && f(x) == t) && forall x :: x in s ==> f(x) <= t
  {
    if |s| == 1 then f(s[0])
    else
      assert s == [s[0]] + s[1..];
      var t := Greatest(s[1..], f);
      if f(s[0]) > t then f(s[0]) else t
  }

  /** The lists one after the other. */
  function Concat<T>(lists: seq<seq<T>>): seq<T> {
    if lists == [] then [] else Concat(lists[..|lists| - 1]) + lists[|lists| - 1]
  }

  // ----------------------------------------------------------------- containment

  lemma SameMembers<T>(s: seq<T>, t: seq<T>)
    requires multiset(s) == multiset(t)
    ensures |s| == |t| && forall x :: x in s <==> x in t
  {
    assert |multiset(s)| == |s| && |multiset(t)| == |t|;
    forall x ensures x in s <==> x in t {
      assert x in s <==> x in multiset(s);
      assert x in t <==> x in multiset(t);
    }
  }

  lemma MultisetSize<T>(a: multiset<T>, b: multiset<T>)
    requires a <= b
    ensures |a| <= |b|
  {
    assert b == a + (b - a);
  }

  lemma SetSize<T>(a: set<T>, b: set<T>)
    requires a <= b
    ensures |a| <= |b|
  {
    assert b == a + (b - a);
  }

  lemma Contained<T>(a: seq<T>, b: seq<T>)
    requires multiset(a) <= multiset(b)
    ensures forall x :: x in a ==> x in b
    ensures |a| <= |b|
    ensures a != [] ==> b != []
  {
    forall x | x in a ensures x in b {
      assert multiset(a)[x] > 0;
    }
    assert |multiset(a)| == |a| && |multiset(b)| == |b|;
    MultisetSize(multiset(a), multiset(b));
  }

  lemma {:induction false} DistinctMultiset<T>(s: seq<T>)
    requires forall i, j :: 0 <= i < j < |s| ==> s[i] != s[j]
    ensures forall x :: multiset(s)[x] == if x in s then 1 else 0
  {
    if s != [] {
      assert s == [s[0]] + s[1..];
      DistinctMultiset(s[1..]);
    }
  }

  // ---------------------------------------------------------------- strings

  /** Python's ordering of strings: lexicographic by code point. */
  predicate StringLe(a: string, b: string) {
    if a == [] then true
    else if b == [] then false
    else if a[0] != b[0] then a[0] < b[0]
    else StringLe(a[1..], b[1..])
  }

  lemma {:induction false} StringLeTotal(a: string, b: string)
    ensures StringLe(a, b) || StringLe(b, a)
  {
    if a != [] && b != [] {
      StringLeTotal(a[1..], b[1..]);
    }
  }

  lemma {:induction false} StringLeTransitive(a: string, b: string, c: string)
    requires StringLe(a, b) && StringLe(b, c)
    ensures StringLe(a, c)
  {
    if a != [] && a[0] == b[0] && b[0] == c[0] {
      StringLeTransitive(a[1..], b[1..], c[1..]);
    }
  }

  lemma {:induction false} StringLeAntisymmetric(a: string, b: string)
    requires StringLe(a, b) && StringLe(b, a)
    ensures a == b
  {
    if a != [] && b != [] {
      StringLeAntisymmetric(a[1..], b[1..]);
      assert a == [a[0]] + a[1..] && b == [b[0]] + b[1..];
    }
  }

  lemma StringLeIsTotalOrder()
    ensures TotalPreorder(StringLe)
    ensures forall a, b :: StringLe(a, b) && StringLe(b, a) ==> a == b
  {
    forall a, b ensures StringLe(a, b) || StringLe(b, a) {
      StringLeTotal(a, b);
    }
    forall a, b, c | StringLe(a, b) && StringLe(b, c) ensures StringLe(a, c) {
      StringLeTransitive(a, b, c);
    }
    forall a, b | StringLe(a, b) && StringLe(b, a) ensures a == b {
      StringLeAntisymmetric(a, b);
    }
  }

  /** `a` is a proper prefix of `b`, or has the smaller character where they first differ. */
  ghost predicate Before(a: string, b: string, k: nat) {
    && k <= |a| && k < |b| && a[..k] == b[..k]
    && (k == |a| || a[k] < b[k])
  }

  lemma {:induction false} StringLeMeaning(a: string, b: string)
    ensures StringLe(a, b) <==> a == b || exists k: nat :: Before(a, b, k)
  {
    if a == [] && b != [] {
      assert Before(a, b, 0);
    } else if a != [] && b != [] && a[0] != b[0] {
      if a[0] < b[0] {
        assert Before(a, b, 0);
      }
    } else if a != [] && b != [] {
      StringLeMeaning(a[1..], b[1..]);
      assert a == [a[0]] + a[1..] && b == [b[0]] + b[1..];
      if k: nat :| Before(a[1..], b[1..], k) {
        assert a[..k + 1] == [a[0]] + a[1..][..k] && b[..k + 1] == [b[0]] + b[1..][..k];
        assert Before(a, b, k + 1);
      }
      if k: nat :| Before(a, b, k) {
        assert k > 0;
        assert a[1..][..k - 1] == a[..k][1..] && b[1..][..k - 1] == b[..k][1..];
        assert Before(a[1..], b[1..], k - 1);
      }
    }
  }

  /** Sorting strings forgets the input order altogether. */
  lemma SortStringsCanonical(s: seq<string>, t: seq<string>)
    requires multiset(s) == multiset(t)
    ensures StableSort(s, StringLe) == StableSort(t, StringLe)
  {
    StringLeIsTotalOrder();
    SortOrdered(s, StringLe);
    SortOrdered(t, StringLe);
    SortMultiset(s, StringLe);
    SortMultiset(t, StringLe);
    OrderedUnique(StableSort(s, StringLe), StableSort(t, StringLe), StringLe);
  }
}
