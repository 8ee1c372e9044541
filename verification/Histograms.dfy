/** Counting maps, and the ranked lists printed from them. */
module Histograms {
  import opened Text
  import opened Sorting

  type Counts = map<string, nat>

  /** `*m.entry(key).or_default() += 1`. */
  function Bump(m: Counts, key: string): Counts {
    m[key := (if key in m then m[key] else 0) + 1]
  }

  /** The map counts the occurrences of each key, and has no other entries. */
  ghost predicate IsHistogram(m: Counts, keys: seq<string>) {
    && (forall k :: k in m <==> k in keys)
    && forall k :: k in m ==> m[k] == multiset(keys)[k]
  }

  lemma BumpCounts(m: Counts, keys: seq<string>, key: string)
    requires IsHistogram(m, keys)
    ensures IsHistogram(Bump(m, key), keys + [key])
  {
    forall k ensures multiset(keys + [key])[k] == multiset(keys)[k] + if k == key then 1 else 0 {}
    assert key !in keys ==> multiset(keys)[key] == 0;
  }

  // ----- The total of a histogram -----

  ghost function Total(m: Counts): nat
    decreases |m|
  {
    if m == map[] then 0
    else
      var k :| k in m;
      assert |m - {k}| < |m| by { Shrinks(m, k); }
      m[k] + Total(m - {k})
  }

  lemma Shrinks(m: Counts, k: string)
    requires k in m
    ensures |m - {k}| == |m| - 1
  {
    assert (m - {k}).Keys == m.Keys - {k};
    assert |m.Keys| == |m| && |(m - {k}).Keys| == |m - {k}|;
  }

  lemma CountedFirst(m: Counts) returns (j: string)
    requires m != map[]
    ensures j in m && Total(m) == m[j] + Total(m - {j})
  {
    assert exists k :: k in m && Total(m) == m[k] + Total(m - {k});
    j :| j in m && Total(m) == m[j] + Total(m - {j});
  }

  lemma MinusTwo(m: Counts, j: string, k: string)
    requires j in m && k in m && j != k
    ensures k in m - {j} && (m - {j})[k] == m[k] && j in m - {k} && (m - {k})[j] == m[j]
    ensures m - {j} - {k} == m - {k} - {j}
    ensures |m - {j}| < |m| && |m - {k}| < |m|
  {
    Shrinks(m, j);
    Shrinks(m, k);
  }

  /** The total does not depend on which key is counted first. */
  lemma {:induction false} TotalWithout(m: Counts, k: string)
    requires k in m
    ensures Total(m) == m[k] + Total(m - {k})
    decreases |m|
  {
    var j := CountedFirst(m);
    if j != k {
      MinusTwo(m, j, k);
      TotalWithout(m - {j}, k);
      TotalWithout(m - {k}, j);
    }
  }

  lemma TotalBump(m: Counts, key: string)
    ensures Total(Bump(m, key)) == Total(m) + 1
  {
    var b := Bump(m, key);
    TotalWithout(b, key);
    if key in m {
      TotalWithout(m, key);
      assert b - {key} == m - {key};
    } else {
      assert b - {key} == m;
    }
  }

  /** The counts of a histogram add up to the number of keys counted. */
  lemma {:induction false} HistogramTotal(m: Counts, keys: seq<string>)
    requires IsHistogram(m, keys)
    ensures Total(m) == |keys|
  {
    if keys == [] {
      assert m == map[];
    } else {
      var init, last := keys[..|keys| - 1], keys[|keys| - 1];
      var m0 := CountsOf(init);
      TallyCounts(init);
      BumpCounts(m0, init, last);
      assert keys == init + [last];
      SameHistogram(m, Bump(m0, last), keys);
      HistogramTotal(m0, init);
      TotalBump(m0, last);
    }
  }

  function CountsOf(keys: seq<string>): Counts {
    if keys == [] then map[] else Bump(CountsOf(keys[..|keys| - 1]), keys[|keys| - 1])
  }

  lemma {:induction false} TallyCounts(keys: seq<string>)
    ensures IsHistogram(CountsOf(keys), keys)
  {
    if keys != [] {
      var init := keys[..|keys| - 1];
      TallyCounts(init);
      BumpCounts(CountsOf(init), init, keys[|keys| - 1]);
      assert keys == init + [keys[|keys| - 1]];
    }
  }

  lemma SameHistogram(m: Counts, m': Counts, keys: seq<string>)
    requires IsHistogram(m, keys) && IsHistogram(m', keys)
    ensures m == m'
  {
    assert forall k :: k in m <==> k in m';
  }

  // ----- Ranking -----

  datatype Row = Row(name: string, count: nat)

  /** Highest count first, then by name. */
  predicate Outranks(a: Row, b: Row) {
    a.count > b.count || (a.count == b.count && Less(a.name, b.name))
  }

  const OUTRANKS: (Row, Row) -> bool := (a, b) => Outranks(a, b)

  lemma OutranksIsOrder()
    ensures IsOrder(OUTRANKS)
  {
    forall a: Row, b: Row | OUTRANKS(a, b) ensures !OUTRANKS(b, a) {
      LessTrichotomy(a.name, b.name);
    }
    forall a: Row, b: Row, c: Row | !OUTRANKS(b, a) && !OUTRANKS(c, b) ensures !OUTRANKS(c, a) {
      LessTrichotomy(a.name, b.name);
      LessTrichotomy(b.name, c.name);
      LessTrichotomy(a.name, c.name);
      if Less(c.name, a.name) && Less(a.name, b.name) { LessTransitive(c.name, a.name, b.name); }
      if Less(c.name, a.name) && Less(b.name, c.name) { LessTransitive(b.name, c.name, a.name); }
    }
  }

  /** The rows are the entries of the map, each once: a row comes before those of smaller count, and
      among equal counts before those whose names are greater. */
  ghost predicate Ranks(rows: seq<Row>, m: Counts) {
    && (forall i, j :: 0 <= i < j < |rows| ==>
          rows[i].count >= rows[j].count
          && (rows[i].count == rows[j].count ==> Less(rows[i].name, rows[j].name)))
    && forall r :: r in rows <==> r.name in m && m[r.name] == r.count
  }

  /** `into_iter().collect()` in whatever order, then `sort_by`. */
  method Rank(m: Counts) returns (rows: seq<Row>)
    ensures Ranks(rows, m)
  {
    var keys := m.Keys;
    var collected: seq<Row> := [];
    while keys != {}
      invariant keys <= m.Keys
      invariant forall r :: r in collected <==> r.name in m && r.name !in keys && m[r.name] == r.count
      invariant forall i, j :: 0 <= i < j < |collected| ==> collected[i].name != collected[j].name
      decreases |keys|
    {
      var k :| k in keys;
      collected := collected + [Row(k, m[k])];
      keys := keys - {k};
    }
    rows := SortBy(collected, OUTRANKS);
    SortedRows(collected, m);
  }

  lemma SortedRows(collected: seq<Row>, m: Counts)
    requires forall r :: r in collected <==> r.name in m && m[r.name] == r.count
    requires forall i, j :: 0 <= i < j < |collected| ==> collected[i].name != collected[j].name
    ensures Ranks(SortBy(collected, OUTRANKS), m)
  {
    var rows := SortBy(collected, OUTRANKS);
    OutranksIsOrder();
    SortByElements(collected, OUTRANKS);
    SortBySorted(collected, OUTRANKS);
    forall r ensures r in rows <==> r in collected {
      assert r in multiset(rows) <==> r in multiset(collected);
    }
    forall i, j | 0 <= i < j < |rows| ensures Outranks(rows[i], rows[j]) {
      DistinctRows(collected, rows, i, j);
      assert !OUTRANKS(rows[j], rows[i]);
      LessTrichotomy(rows[i].name, rows[j].name);
    }
  }

  /** Rearranging rows with different names leaves their names different. */
  lemma DistinctRows(collected: seq<Row>, rows: seq<Row>, i: nat, j: nat)
    requires multiset(collected) == multiset(rows) && i < j < |rows|
    requires forall i, j :: 0 <= i < j < |collected| ==> collected[i].name != collected[j].name
    ensures rows[i].name != rows[j].name
  {
    var a, b := rows[i], rows[j];
    assert a in multiset(collected) && b in multiset(collected);
    var x :| 0 <= x < |collected| && collected[x] == a;
    var y :| 0 <= y < |collected| && collected[y] == b;
    if a == b {
      TwiceIn(rows, i, j);
      OnceIn(collected, x);
    }
  }

  lemma TwiceIn<T>(s: seq<T>, i: nat, j: nat)
    requires i < j < |s| && s[i] == s[j]
    ensures multiset(s)[s[i]] >= 2
  {
    assert s == s[..i] + [s[i]] + s[i + 1..j] + [s[j]] + s[j + 1..];
  }

  lemma OnceIn(s: seq<Row>, x: nat)
    requires x < |s| && forall i, j :: 0 <= i < j < |s| ==> s[i].name != s[j].name
    ensures multiset(s)[s[x]] == 1
  {
    var r := s[x];
    assert s == s[..x] + [r] + s[x + 1..];
    assert r !in s[..x] && r !in s[x + 1..];
  }

  /** The ranking of a map is determined by the map. */
  lemma {:induction false} RanksUnique(rows: seq<Row>, rows': seq<Row>, m: Counts)
    requires Ranks(rows, m) && Ranks(rows', m)
    ensures rows == rows'
  {
    OutranksIsOrder();
    RowsDistinct(rows);
    RowsDistinct(rows');
    forall r ensures multiset(rows)[r] == multiset(rows')[r] {
      assert r in rows <==> r in rows';
    }
    assert multiset(rows) == multiset(rows');
    forall a, b | a in rows && b in rows ensures a == b || OUTRANKS(a, b) || OUTRANKS(b, a) {
      LessTrichotomy(a.name, b.name);
    }
    assert Sorted(rows, OUTRANKS) && Sorted(rows', OUTRANKS) by {
      forall i, j | 0 <= i < j < |rows| ensures !OUTRANKS(rows[j], rows[i]) { assert OUTRANKS(rows[i], rows[j]); }
      forall i, j | 0 <= i < j < |rows'| ensures !OUTRANKS(rows'[j], rows'[i]) { assert OUTRANKS(rows'[i], rows'[j]); }
    }
    SortedUnique(rows, rows', OUTRANKS);
  }

  lemma {:induction false} RowsDistinct(rows: seq<Row>)
    requires forall i, j :: 0 <= i < j < |rows| ==> Outranks(rows[i], rows[j])
    ensures forall r :: multiset(rows)[r] == if r in rows then 1 else 0
  {
    if rows != [] {
      var n := |rows| - 1;
      RowsDistinct(rows[..n]);
      LessTrichotomy(rows[n].name, rows[n].name);
      assert rows == rows[..n] + [rows[n]];
    }
  }

  /** No row cut off outranks one that is kept. */
  lemma CutKeepsTop(rows: seq<Row>, m: Counts, keep: nat)
    requires Ranks(rows, m) && keep <= |rows|
    ensures forall i, j :: 0 <= i < keep <= j < |rows| ==>
              rows[i].count >= rows[j].count
              && (rows[i].count == rows[j].count ==> Less(rows[i].name, rows[j].name) && rows[i].name != rows[j].name)
  {
    forall i, j | 0 <= i < keep <= j < |rows| && rows[i].count == rows[j].count ensures rows[i].name != rows[j].name {
      LessTrichotomy(rows[i].name, rows[j].name);
    }
  }
}
