/** The stable sort of the standard library, as insertion, and what sorting determines. */
module Sorting {
  /** A strict weak order: what a comparison function gives. */
  ghost predicate IsOrder<T(!new)>(less: (T, T) -> bool) {
    && (forall a, b :: less(a, b) ==> !less(b, a))
    && (forall a, b, c :: !less(b, a) && !less(c, b) ==> !less(c, a))
  }

  ghost predicate Sorted<T>(s: seq<T>, less: (T, T) -> bool) {
    forall i, j :: 0 <= i < j < |s| ==> !less(s[j], s[i])
  }

  function Insert<T>(x: T, s: seq<T>, less: (T, T) -> bool): seq<T> {
    if s == [] then [x]
    else if less(x, s[0]) then [x] + s
    else [s[0]] + Insert(x, s[1..], less)
  }

  /** `sort_by`: each element goes after those not greater, so equal elements keep their order. */
  function SortBy<T>(s: seq<T>, less: (T, T) -> bool): seq<T> {
    if s == [] then [] else Insert(s[|s| - 1], SortBy(s[..|s| - 1], less), less)
  }

  lemma {:induction false} InsertElements<T>(x: T, s: seq<T>, less: (T, T) -> bool)
    ensures multiset(Insert(x, s, less)) == multiset(s) + multiset{x}
  {
    if s != [] {
      assert s == [s[0]] + s[1..];
      InsertElements(x, s[1..], less);
    }
  }

  lemma {:induction false} SortByElements<T>(s: seq<T>, less: (T, T) -> bool)
    ensures multiset(SortBy(s, less)) == multiset(s)
    ensures |SortBy(s, less)| == |s|
  {
    if s != [] {
      var n := |s| - 1;
      SortByElements(s[..n], less);
      InsertElements(s[n], SortBy(s[..n], less), less);
      assert s == s[..n] + [s[n]];
    }
    assert |multiset(SortBy(s, less))| == |multiset(s)|;
  }

  /** Everything an insertion puts behind `x0` is what was there, or the inserted element. */
  lemma {:induction false} InsertMember<T>(x: T, s: seq<T>, less: (T, T) -> bool, y: T)
    requires y in Insert(x, s, less)
    ensures y == x || y in s
  {
    InsertElements(x, s, less);
    assert y in multiset(Insert(x, s, less));
    assert y in multiset(s) + multiset{x};
  }

  lemma {:induction false} InsertSorted<T(!new)>(x: T, s: seq<T>, less: (T, T) -> bool)
    requires IsOrder(less) && Sorted(s, less)
    ensures Sorted(Insert(x, s, less), less)
  {
    if s != [] {
      if less(x, s[0]) {
        forall j | 0 <= j < |s| ensures !less(s[j], x) {
          assert !less(s[0], x);
          if j > 0 { assert !less(s[j], s[0]); }
        }
      } else {
        InsertSorted(x, s[1..], less);
        var t := Insert(x, s[1..], less);
        forall j | 0 <= j < |t| ensures !less(t[j], s[0]) {
          InsertMember(x, s[1..], less, t[j]);
        }
      }
    }
  }

  lemma {:induction false} SortBySorted<T(!new)>(s: seq<T>, less: (T, T) -> bool)
    requires IsOrder(less)
    ensures Sorted(SortBy(s, less), less)
  {
    if s != [] {
      SortBySorted(s[..|s| - 1], less);
      InsertSorted(s[|s| - 1], SortBy(s[..|s| - 1], less), less);
    }
  }

  /** Different elements are never equal under the order. */
  ghost predicate Distinguishes<T>(s: seq<T>, less: (T, T) -> bool) {
    forall a, b :: a in s && b in s ==> a == b || less(a, b) || less(b, a)
  }

  lemma LeastFirst<T(!new)>(a: seq<T>, x: T, less: (T, T) -> bool)
    requires IsOrder(less) && Sorted(a, less) && x in a
    ensures !less(x, a[0])
  {
    var j :| 0 <= j < |a| && a[j] == x;
    if j > 0 { assert !less(a[j], a[0]); }
  }

  lemma SameElement<T>(a: seq<T>, b: seq<T>, x: T)
    requires multiset(a) == multiset(b) && x in a
    ensures x in b
  {
    assert x in multiset(a);
  }

  lemma {:induction false} SortedUnique<T(!new)>(a: seq<T>, b: seq<T>, less: (T, T) -> bool)
    requires IsOrder(less) && Sorted(a, less) && Sorted(b, less)
    requires multiset(a) == multiset(b) && Distinguishes(a, less)
    ensures a == b
  {
    SameLength(a, b);
    if a != [] {
      SameHead(a, b, less);
      SameTailElements(a, b);
      TailKeeps(a, less);
      TailKeeps(b, less);
      SortedUnique(a[1..], b[1..], less);
      Rejoin(a);
      Rejoin(b);
    }
  }

  lemma SameLength<T>(a: seq<T>, b: seq<T>)
    requires multiset(a) == multiset(b)
    ensures |a| == |b|
  {
    assert |a| == |multiset(a)| && |b| == |multiset(b)|;
  }

  lemma Rejoin<T>(a: seq<T>)
    requires a != []
    ensures a == [a[0]] + a[1..]
  {
  }

  lemma SameTailElements<T>(a: seq<T>, b: seq<T>)
    requires a != [] && b != [] && a[0] == b[0] && multiset(a) == multiset(b)
    ensures multiset(a[1..]) == multiset(b[1..])
  {
    TailElements(a);
    TailElements(b);
  }

  lemma SameHead<T(!new)>(a: seq<T>, b: seq<T>, less: (T, T) -> bool)
    requires IsOrder(less) && Sorted(a, less) && Sorted(b, less) && a != [] && b != []
    requires multiset(a) == multiset(b) && Distinguishes(a, less)
    ensures a[0] == b[0]
  {
    SameElement(a, b, a[0]);
    SameElement(b, a, b[0]);
    LeastFirst(a, b[0], less);
    LeastFirst(b, a[0], less);
  }

  lemma TailElements<T>(a: seq<T>)
    requires a != []
    ensures multiset(a[1..]) == multiset(a) - multiset{a[0]}
  {
    assert a == [a[0]] + a[1..];
  }

  lemma TailKeeps<T>(a: seq<T>, less: (T, T) -> bool)
    requires a != []
    ensures Distinguishes(a, less) ==> Distinguishes(a[1..], less)
    ensures Sorted(a, less) ==> Sorted(a[1..], less)
  {
  }

  /** Sorting forgets the order of its input wherever the order tells all elements apart. */
  lemma SortByDetermined<T(!new)>(s: seq<T>, t: seq<T>, less: (T, T) -> bool)
    requires IsOrder(less) && multiset(s) == multiset(t) && Distinguishes(s, less)
    ensures SortBy(s, less) == SortBy(t, less)
  {
    var a, b := SortBy(s, less), SortBy(t, less);
    SortByElements(s, less);
    SortByElements(t, less);
    SortBySorted(s, less);
    SortBySorted(t, less);
    forall x, y | x in a && y in a ensures x == y || less(x, y) || less(y, x) {
      assert x in multiset(a) && y in multiset(a);
      assert x in s && y in s;
    }
    SortedUnique(a, b, less);
  }

  // ----- Stability -----

  predicate Same<T>(less: (T, T) -> bool, a: T, b: T) {
    !less(a, b) && !less(b, a)
  }

  /** The elements equal to `k` under the order, in their order. */
  function Peers<T>(s: seq<T>, k: T, less: (T, T) -> bool): seq<T> {
    if s == [] then []
    else (if Same(less, s[0], k) then [s[0]] else []) + Peers(s[1..], k, less)
  }

  lemma {:induction false} NoPeersAbove<T(!new)>(s: seq<T>, k: T, less: (T, T) -> bool)
    requires forall j :: 0 <= j < |s| ==> less(k, s[j])
    ensures Peers(s, k, less) == []
  {
    if s != [] { NoPeersAbove(s[1..], k, less); }
  }

  lemma {:induction false} InsertPeers<T(!new)>(x: T, s: seq<T>, k: T, less: (T, T) -> bool)
    requires IsOrder(less) && Sorted(s, less)
    ensures Peers(Insert(x, s, less), k, less) == Peers(s, k, less) + if Same(less, x, k) then [x] else []
  {
    if s == [] {
      assert [x][1..] == [];
    } else if less(x, s[0]) {
      assert ([x] + s)[1..] == s;
      if Same(less, x, k) {
        forall j | 0 <= j < |s| ensures less(k, s[j]) {
          if j > 0 { assert !less(s[j], s[0]); }
        }
        NoPeersAbove(s, k, less);
      }
    } else {
      InsertPeers(x, s[1..], k, less);
      var r := Insert(x, s, less);
      assert r[0] == s[0] && r[1..] == Insert(x, s[1..], less);
    }
  }

  lemma {:induction false} PeersAppend<T>(s: seq<T>, x: T, k: T, less: (T, T) -> bool)
    ensures Peers(s + [x], k, less) == Peers(s, k, less) + if Same(less, x, k) then [x] else []
  {
    if s == [] {
      assert s + [x] == [x] && [x][1..] == [];
    } else {
      var t := s + [x];
      assert t[0] == s[0] && t[1..] == s[1..] + [x];
      PeersAppend(s[1..], x, k, less);
      var a := if Same(less, s[0], k) then [s[0]] else [];
      assert Peers(t, k, less) == a + Peers(t[1..], k, less);
    }
  }

  /** Sorting keeps equal elements in their input order. */
  lemma {:induction false} SortByStable<T(!new)>(s: seq<T>, k: T, less: (T, T) -> bool)
    requires IsOrder(less)
    ensures Peers(SortBy(s, less), k, less) == Peers(s, k, less)
  {
    if s != [] {
      var n := |s| - 1;
      SortByStable(s[..n], k, less);
      SortBySorted(s[..n], less);
      InsertPeers(s[n], SortBy(s[..n], less), k, less);
      PeersAppend(s[..n], s[n], k, less);
      assert s == s[..n] + [s[n]];
    }
  }

  ghost predicate SortsAlike<T(!new)>(s: seq<T>, t: seq<T>, less: (T, T) -> bool) {
    multiset(t) == multiset(s) ==> SortBy(t, less) == SortBy(s, less)
  }

  /** So the sorted result is determined by the elements alone if and only if the order tells all of
      them apart. */
  lemma DeterminedExactly<T(!new)>(s: seq<T>, less: (T, T) -> bool)
    requires IsOrder(less)
    ensures (forall t :: SortsAlike(s, t, less)) <==> Distinguishes(s, less)
  {
    if Distinguishes(s, less) {
      forall t ensures SortsAlike(s, t, less) {
        if multiset(t) == multiset(s) { SortByDetermined(s, t, less); }
      }
    } else {
      var t := Misordered(s, less);
      assert !SortsAlike(s, t, less);
    }
  }

  lemma Misordered<T(!new)>(s: seq<T>, less: (T, T) -> bool) returns (t: seq<T>)
    requires IsOrder(less) && !Distinguishes(s, less)
    ensures multiset(t) == multiset(s) && SortBy(t, less) != SortBy(s, less)
  {
    var a, b :| a in s && b in s && a != b && Same(less, a, b);
    var rest := TwoInFront(s, a, b);
    OrderOfPeersShows(a, b, rest, less);
    t := if SortBy([a, b] + rest, less) != SortBy(s, less) then [a, b] + rest else [b, a] + rest;
  }

  lemma TwoInFront<T>(s: seq<T>, a: T, b: T) returns (rest: seq<T>)
    requires a in s && b in s && a != b
    ensures multiset([a, b] + rest) == multiset(s) && multiset([b, a] + rest) == multiset(s)
  {
    var one := Removed(s, a);
    RemovedElements(s, a);
    assert b in multiset(one);
    RemovedElements(one, b);
    rest := Removed(one, b);
    PutBack(s, one, rest, a, b);
  }

  lemma PutBack<T>(s: seq<T>, one: seq<T>, rest: seq<T>, a: T, b: T)
    requires a in s && multiset(one) == multiset(s) - multiset{a}
    requires b in one && multiset(rest) == multiset(one) - multiset{b}
    ensures multiset([a, b] + rest) == multiset(s) && multiset([b, a] + rest) == multiset(s)
  {
    assert a in multiset(s) && b in multiset(one);
    TwoBack(multiset(s), a, b);
    PairElements(a, b, rest);
    PairElements(b, a, rest);
  }

  lemma TwoBack<T>(m: multiset<T>, a: T, b: T)
    requires a in m && b in m - multiset{a}
    ensures multiset{a, b} + (m - multiset{a} - multiset{b}) == m
  {
  }

  lemma PairElements<T>(a: T, b: T, rest: seq<T>)
    ensures multiset([a, b] + rest) == multiset{a, b} + multiset(rest)
  {
  }

  lemma OrderOfPeersShows<T(!new)>(a: T, b: T, rest: seq<T>, less: (T, T) -> bool)
    requires IsOrder(less) && Same(less, a, b) && a != b
    ensures SortBy([a, b] + rest, less) != SortBy([b, a] + rest, less)
  {
    SortByStable([a, b] + rest, a, less);
    SortByStable([b, a] + rest, a, less);
    PeersOfTwo(a, b, rest, less);
    PeersOfTwo(b, a, rest, less);
    var p := Peers(rest, a, less);
    assert ([a, b] + p)[0] != ([b, a] + p)[0];
  }

  lemma PeersOfTwo<T(!new)>(a: T, b: T, rest: seq<T>, less: (T, T) -> bool)
    requires IsOrder(less) && Same(less, a, b)
    ensures forall k :: k == a || k == b ==> Peers([a, b] + rest, k, less) == [a, b] + Peers(rest, k, less)
  {
    var t := [a, b] + rest;
    assert t[1..] == [b] + rest && t[1..][1..] == rest;
  }

  function Removed<T(==)>(s: seq<T>, x: T): seq<T> {
    if s == [] then [] else if s[0] == x then s[1..] else [s[0]] + Removed(s[1..], x)
  }

  lemma {:induction false} RemovedElements<T>(s: seq<T>, x: T)
    requires x in s
    ensures multiset(Removed(s, x)) == multiset(s) - multiset{x}
  {
    assert s == [s[0]] + s[1..];
    if s[0] != x { RemovedElements(s[1..], x); }
  }

  // ----- Sorting by one key after another -----

  /** By the first order, and by the second where the first says nothing. */
  function Lex<T>(first: (T, T) -> bool, second: (T, T) -> bool): (T, T) -> bool {
    (a, b) => first(a, b) || (Same(first, a, b) && second(a, b))
  }

  lemma LexIsOrder<T(!new)>(first: (T, T) -> bool, second: (T, T) -> bool)
    requires IsOrder(first) && IsOrder(second)
    ensures IsOrder(Lex(first, second))
  {
    var lex := Lex(first, second);
    forall a, b, c | !lex(b, a) && !lex(c, b) ensures !lex(c, a) {
      assert !first(b, a) && !first(c, b);
    }
  }

  /** An element that is last in the second order goes behind its peers in the first. */
  lemma {:induction false} InsertLex<T(!new)>(x: T, s: seq<T>, first: (T, T) -> bool, second: (T, T) -> bool)
    requires IsOrder(first) && IsOrder(second) && Sorted(s, Lex(first, second))
    requires forall j :: 0 <= j < |s| ==> !second(x, s[j])
    ensures Sorted(Insert(x, s, first), Lex(first, second))
  {
    var lex := Lex(first, second);
    if s != [] {
      if first(x, s[0]) {
        forall j | 0 <= j < |s| ensures !lex(s[j], x) {
          if j > 0 { assert !lex(s[j], s[0]); }
        }
      } else {
        TailKeeps(s, lex);
        InsertLex(x, s[1..], first, second);
        var t := Insert(x, s[1..], first);
        forall j | 0 <= j < |t| ensures !lex(t[j], s[0]) {
          InsertMember(x, s[1..], first, t[j]);
        }
      }
    }
  }

  /** Sorting what is sorted by the second order by the first gives what is sorted by both. */
  lemma {:induction false} SortByLex<T(!new)>(s: seq<T>, first: (T, T) -> bool, second: (T, T) -> bool)
    requires IsOrder(first) && IsOrder(second) && Sorted(s, second)
    ensures Sorted(SortBy(s, first), Lex(first, second))
  {
    if s != [] {
      var n := |s| - 1;
      SortByLex(s[..n], first, second);
      var t := SortBy(s[..n], first);
      SortByElements(s[..n], first);
      forall j | 0 <= j < |t| ensures !second(s[n], t[j]) {
        assert t[j] in multiset(t);
        assert t[j] in s[..n];
      }
      InsertLex(s[n], t, first, second);
    }
  }

  /** Two sequences sorted by one order that tells their elements apart are equal if their elements are. */
  lemma SortedIsSortBy<T(!new)>(s: seq<T>, t: seq<T>, less: (T, T) -> bool)
    requires IsOrder(less) && Sorted(s, less) && multiset(s) == multiset(t) && Distinguishes(t, less)
    ensures s == SortBy(t, less)
  {
    var b := SortBy(t, less);
    SortByElements(t, less);
    SortBySorted(t, less);
    forall x, y | x in s && y in s ensures x == y || less(x, y) || less(y, x) {
      assert x in multiset(s) && y in multiset(s);
      assert x in t && y in t;
    }
    SortedUnique(s, b, less);
  }

  // ----- Sorting what is read off the elements -----

  function Mapped<S, T>(s: seq<S>, f: S -> T): seq<T> {
    if s == [] then [] else [f(s[0])] + Mapped(s[1..], f)
  }

  lemma {:induction false} MappedAppend<S, T>(s: seq<S>, x: S, f: S -> T)
    ensures Mapped(s + [x], f) == Mapped(s, f) + [f(x)]
  {
    if s == [] {
      assert s + [x] == [x] && [x][1..] == [];
    } else {
      assert (s + [x])[1..] == s[1..] + [x];
      MappedAppend(s[1..], x, f);
    }
  }

  lemma {:induction false} MappedLength<S, T>(s: seq<S>, f: S -> T)
    ensures |Mapped(s, f)| == |s|
  {
    if s != [] { MappedLength(s[1..], f); }
  }

  ghost predicate Reflects<S(!new), T(!new)>(f: S -> T, lessS: (S, S) -> bool, less: (T, T) -> bool) {
    forall a, b :: lessS(a, b) <==> less(f(a), f(b))
  }

  lemma {:induction false} InsertMapped<S(!new), T(!new)>(x: S, s: seq<S>, f: S -> T, lessS: (S, S) -> bool, less: (T, T) -> bool)
    requires Reflects(f, lessS, less)
    ensures Mapped(Insert(x, s, lessS), f) == Insert(f(x), Mapped(s, f), less)
  {
    if s != [] {
      assert Mapped(s, f)[1..] == Mapped(s[1..], f);
      if lessS(x, s[0]) {
        assert ([x] + s)[1..] == s;
      } else {
        InsertMapped(x, s[1..], f, lessS, less);
        assert ([s[0]] + Insert(x, s[1..], lessS))[1..] == Insert(x, s[1..], lessS);
      }
    } else {
      assert [x][1..] == [];
    }
  }

  lemma {:induction false} SortByMapped<S(!new), T(!new)>(s: seq<S>, f: S -> T, lessS: (S, S) -> bool, less: (T, T) -> bool)
    requires Reflects(f, lessS, less)
    ensures Mapped(SortBy(s, lessS), f) == SortBy(Mapped(s, f), less)
  {
    if s != [] {
      var n := |s| - 1;
      SortByMapped(s[..n], f, lessS, less);
      InsertMapped(s[n], SortBy(s[..n], lessS), f, lessS, less);
      assert s == s[..n] + [s[n]];
      MappedAppend(s[..n], s[n], f);
      var m := Mapped(s, f);
      assert m[..|m| - 1] == Mapped(s[..n], f) && m[|m| - 1] == f(s[n]);
    }
  }
}
