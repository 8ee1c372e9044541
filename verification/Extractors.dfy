/** Extraction of every `flag value` pair from the argument vector. The program does it in two
    ways, restarting from the front or with one running index; both are one left-to-right scan. */
module Extractors {
  import opened Wrappers
  import opened Bounds
  import opened Text
  import opened TokenVector

  /** The outcome of a scan: the values taken, the tokens left, and whether every flag had a value. */
  datatype Scan = Scan(values: seq<string>, rest: seq<string>, ok: bool)

  function ScanFlag(s: seq<string>, flag: string): Scan {
    if s == [] then Scan([], [], true)
    else if s[0] != flag then
      var r := ScanFlag(s[1..], flag);
      r.(rest := [s[0]] + r.rest)
    else if |s| == 1 then Scan([], s, false)
    else
      var r := ScanFlag(s[2..], flag);
      r.(values := [s[1]] + r.values)
  }

  lemma {:induction false} ScanPast(a: seq<string>, b: seq<string>, flag: string)
    requires flag !in a
    ensures ScanFlag(a + b, flag) == ScanFlag(b, flag).(rest := a + ScanFlag(b, flag).rest)
  {
    if a == [] {
      assert a + b == b;
    } else {
      assert (a + b)[1..] == a[1..] + b;
      ScanPast(a[1..], b, flag);
    }
  }

  /** One pair found behind tokens that are not the flag is taken out and the scan goes on. */
  lemma ScanTakesPair(s: seq<string>, p: nat, flag: string)
    requires p + 1 < |s| && s[p] == flag && flag !in s[..p]
    ensures var left := s[..p] + s[p + 2..];
            ScanFlag(s, flag) == ScanFlag(left, flag).(values := [s[p + 1]] + ScanFlag(left, flag).values)
  {
    assert s == s[..p] + s[p..];
    ScanPast(s[..p], s[p..], flag);
    ScanPast(s[..p], s[p + 2..], flag);
    assert s[p..][2..] == s[p + 2..];
  }

  lemma ScanDangling(s: seq<string>, p: nat, flag: string)
    requires p + 1 == |s| && s[p] == flag && flag !in s[..p]
    ensures ScanFlag(s, flag) == Scan([], s, false)
  {
    assert s == s[..p] + s[p..];
    ScanPast(s[..p], s[p..], flag);
  }

  lemma ScanNone(s: seq<string>, flag: string)
    requires flag !in s
    ensures ScanFlag(s, flag) == Scan([], s, true)
  {
    assert s == s + [];
    ScanPast(s, [], flag);
  }

  // ----- The two implementations -----

  ghost predicate FirstAt(s: seq<string>, flag: string, p: Option<nat>) {
    if p.None? then flag !in s else p.value < |s| && s[p.value] == flag && flag !in s[..p.value]
  }

  /** The scan of the whole vector, given the values already taken and the tokens still there. */
  ghost predicate Continues(scan: Scan, taken: seq<string>, s: seq<string>, flag: string) {
    scan == ScanFlag(s, flag).(values := taken + ScanFlag(s, flag).values)
  }

  lemma ContinuesWithPair(scan: Scan, taken: seq<string>, s: seq<string>, p: nat, flag: string)
    requires p + 1 < |s| && s[p] == flag && flag !in s[..p] && Continues(scan, taken, s, flag)
    ensures Continues(scan, taken + [s[p + 1]], s[..p] + s[p + 2..], flag)
  {
    ScanTakesPair(s, p, flag);
    var more := ScanFlag(s[..p] + s[p + 2..], flag).values;
    assert taken + ([s[p + 1]] + more) == taken + [s[p + 1]] + more;
  }

  lemma ContinuesToEnd(scan: Scan, taken: seq<string>, s: seq<string>, flag: string)
    requires flag !in s && Continues(scan, taken, s, flag)
    ensures scan == Scan(taken, s, true)
  {
    ScanNone(s, flag);
    assert taken + [] == taken;
  }

  lemma ContinuesToDangling(scan: Scan, taken: seq<string>, s: seq<string>, p: nat, flag: string)
    requires p + 1 == |s| && s[p] == flag && flag !in s[..p] && Continues(scan, taken, s, flag)
    ensures scan == Scan(taken, s, false)
  {
    ScanDangling(s, p, flag);
    assert taken + [] == taken;
  }

  /** One running index: the position only moves past tokens that stay. */
  method TakeRepeatedStringValues(args: Tokens, flag: string) returns (r: Result<seq<string>, string>)
    requires args.Valid()
    modifies args`len, args.data
    ensures args.Valid()
    ensures var scan := ScanFlag(old(args.View()), flag);
            && args.View() == scan.rest
            && r == if scan.ok then Ok(scan.values) else Err(flag)
  {
    ghost var scan := ScanFlag(args.View(), flag);
    var values := [];
    var i := 0;
    while i < args.len
      invariant args.Valid() && args.data == old(args.data)
      invariant 0 <= i <= args.len && flag !in args.View()[..i]
      invariant Continues(scan, values, args.View(), flag)
      decreases args.len - i
    {
      ghost var was := args.View();
      if args.data[i] == flag {
        if i + 1 >= args.len {
          ContinuesToDangling(scan, values, was, i, flag);
          return Err(flag);
        }
        ContinuesWithPair(scan, values, was, i, flag);
        var value := args.RemoveTwice(i);
        values := values + [value];
      } else {
        i := i + 1;
      }
    }
    assert args.View()[..i] == args.View();
    ContinuesToEnd(scan, values, args.View(), flag);
    return Ok(values);
  }

  /** Restarting from the front: find the first occurrence, take the pair out, look again. */
  method ExtractRepeatedPathFlags(args: Tokens, flag: string) returns (r: Result<seq<string>, string>)
    requires args.Valid()
    modifies args`len, args.data
    ensures args.Valid()
    ensures var scan := ScanFlag(old(args.View()), flag);
            && args.View() == scan.rest
            && r == if scan.ok then Ok(scan.values) else Err(flag)
  {
    ghost var scan := ScanFlag(args.View(), flag);
    var paths := [];
    var position: Option<nat> := args.Position(flag);
    while position.Some?
      invariant args.Valid() && args.data == old(args.data)
      invariant FirstAt(args.View(), flag, position)
      invariant Continues(scan, paths, args.View(), flag)
      decreases args.len
    {
      if position.value + 1 >= args.len {
        ContinuesToDangling(scan, paths, args.View(), position.value, flag);
        return Err(flag);
      }
      ContinuesWithPair(scan, paths, args.View(), position.value, flag);
      var value := args.RemovePair(position.value);
      paths := paths + [value];
      position := args.Position(flag);
    }
    ContinuesToEnd(scan, paths, args.View(), flag);
    return Ok(paths);
  }

  // ----- What the scan means -----

  ghost predicate Subsequence(a: seq<string>, b: seq<string>) {
    if a == [] then true
    else if b == [] then false
    else (a[0] == b[0] && Subsequence(a[1..], b[1..])) || Subsequence(a, b[1..])
  }

  /** The scan loses nothing: twice the values and the rest make up the vector, and on success no
      occurrence of the flag is left behind. */
  lemma {:induction false} ScanLengths(s: seq<string>, flag: string)
    ensures var r := ScanFlag(s, flag);
            2 * |r.values| + |r.rest| == |s| && (r.ok <==> flag !in r.rest)
  {
    if s == [] {
    } else if s[0] != flag {
      ScanLengths(s[1..], flag);
    } else if |s| > 1 {
      ScanLengths(s[2..], flag);
    }
  }

  function Occurrences(s: seq<string>, t: string): nat {
    if s == [] then 0 else (if s[0] == t then 1 else 0) + Occurrences(s[1..], t)
  }

  lemma OccurrencesCons(x: string, s: seq<string>, t: string)
    ensures Occurrences([x] + s, t) == (if x == t then 1 else 0) + Occurrences(s, t)
  {
    assert ([x] + s)[1..] == s;
  }

  /** Every token is accounted for: it is a value, it stays, or it is one of the flags taken. */
  lemma {:induction false} ScanCounts(s: seq<string>, flag: string, t: string)
    ensures var r := ScanFlag(s, flag);
            Occurrences(s, t) ==
            Occurrences(r.values, t) + Occurrences(r.rest, t) + if t == flag then |r.values| else 0
  {
    if s == [] {
    } else if s[0] != flag {
      ScanCounts(s[1..], flag, t);
      OccurrencesCons(s[0], ScanFlag(s[1..], flag).rest, t);
    } else if |s| > 1 {
      ScanCounts(s[2..], flag, t);
      OccurrencesCons(s[1], ScanFlag(s[2..], flag).values, t);
      assert s[1..][1..] == s[2..];
    }
  }

  /** Values and remaining tokens keep their order. */
  lemma {:induction false} ScanKeepsOrder(s: seq<string>, flag: string)
    ensures Subsequence(ScanFlag(s, flag).values, s)
    ensures Subsequence(ScanFlag(s, flag).rest, s)
  {
    var r := ScanFlag(s, flag);
    if s == [] {
    } else if s[0] != flag {
      ScanKeepsOrder(s[1..], flag);
      assert r.rest[1..] == ScanFlag(s[1..], flag).rest;
    } else if |s| > 1 {
      ScanKeepsOrder(s[2..], flag);
      assert s[1..][1..] == s[2..];
      assert r.values[1..] == ScanFlag(s[2..], flag).values;
      assert Subsequence(r.values, s[1..]) && Subsequence(r.rest, s[1..]);
    } else {
      SubsequenceOfItself(s);
    }
  }

  lemma {:induction false} SubsequenceOfItself(s: seq<string>)
    ensures Subsequence(s, s)
  {
    if s != [] { SubsequenceOfItself(s[1..]); }
  }

  /** The number of flag tokens that end the vector. */
  function TrailingRun(s: seq<string>, flag: string): nat {
    if s == [] || s[|s| - 1] != flag then 0 else 1 + TrailingRun(s[..|s| - 1], flag)
  }

  lemma {:induction false} TrailingRunCons(x: string, s: seq<string>, flag: string)
    ensures TrailingRun(s, flag) <= |s|
    ensures TrailingRun([x] + s, flag) ==
            TrailingRun(s, flag) + if TrailingRun(s, flag) == |s| && x == flag then 1 else 0
  {
    if s != [] {
      assert ([x] + s)[..|s|] == [x] + s[..|s| - 1];
      TrailingRunCons(x, s[..|s| - 1], flag);
    }
  }

  /** In front of a tail, a pair that starts with the flag does not change the parity of its run. */
  lemma TrailingRunPair(x: string, s: seq<string>, flag: string)
    ensures TrailingRun([flag, x] + s, flag) % 2 == TrailingRun(s, flag) % 2
  {
    assert [flag, x] + s == [flag] + ([x] + s);
    TrailingRunCons(x, s, flag);
    TrailingRunCons(flag, [x] + s, flag);
  }

  /** Extraction fails exactly when the run of flag tokens at the end has odd length: the flags of
      an even run are taken two at a time, each odd one naming the next as its value. */
  lemma {:induction false} FailsIffOddTrailingRun(s: seq<string>, flag: string)
    ensures ScanFlag(s, flag).ok <==> TrailingRun(s, flag) % 2 == 0
  {
    if s == [] {
    } else if s[0] != flag {
      FailsIffOddTrailingRun(s[1..], flag);
      assert s == [s[0]] + s[1..];
      TrailingRunCons(s[0], s[1..], flag);
    } else if |s| > 1 {
      FailsIffOddTrailingRun(s[2..], flag);
      assert s == [flag, s[1]] + s[2..];
      TrailingRunPair(s[1], s[2..], flag);
    }
  }

  // ----- Archive ids -----


  /** `str::parse::<i64>`: an optional sign and digits, within range. */
  function ParseI64(s: string): Option<int> {
    if |s| > 1 && s[0] == '-' then
      var n := ParseDigits(s[1..], 0, I64_MAX + 1);
      if n.Some? then Some(-(n.value as int)) else None
    else
      var n := ParseUnsigned(s, I64_MAX);
      if n.Some? then Some(n.value as int) else None
  }

  /** Exactly which texts are integers of the type: digits behind an optional sign, within range. */
  lemma ParseI64Exactly(s: string)
    ensures ParseI64(s) ==
            if |s| > 1 && s[0] == '-' then
              (if AllDigits(s[1..]) && NatOf(s[1..]) <= 0x8000_0000_0000_0000 then Some(-(NatOf(s[1..]) as int)) else None)
            else
              var body := if |s| > 1 && s[0] == '+' then s[1..] else s;
              if body != "" && AllDigits(body) && NatOf(body) <= 0x7FFF_FFFF_FFFF_FFFF then Some(NatOf(body) as int) else None
  {
    if |s| > 1 && s[0] == '-' {
      ParseDigitsValue(s[1..], "", I64_MAX + 1);
      assert "" + s[1..] == s[1..];
    } else {
      ParseUnsignedValue(s, I64_MAX);
    }
  }

  /** Printed integers of the type read back, negative ones included. */
  lemma ParseI64Printed(n: nat)
    ensures n <= 0x7FFF_FFFF_FFFF_FFFF ==> ParseI64(Decimal(n)) == Some(n)
    ensures 0 < n <= 0x8000_0000_0000_0000 ==> ParseI64("-" + Decimal(n)) == Some(-(n as int))
  {
    var d := Decimal(n);
    assert IsDigit(d[0]);
    if n <= I64_MAX { ParsePrinted(n, I64_MAX); }
    ParseDigitsValue(d, "", I64_MAX + 1);
    assert "" + d == d && ("-" + d)[1..] == d;
  }

  datatype IdError = MissingValue | NotAnId(value: string)

  /** What the ids of a scan are: all its values, read as numbers; or the first value that is not
      a number; or, with every value a number, the flag that has none. */
  ghost predicate IdsOf(scan: Scan, r: Result<seq<int>, IdError>) {
    match r
    case Ok(ids) => scan.ok && Reads(scan.values, ids)
    case Err(MissingValue) => !scan.ok && exists ids :: Reads(scan.values, ids)
    case Err(NotAnId(v)) => exists taken, ids, more :: BadAfter(scan, v, taken, ids, more)
  }

  ghost predicate BadAfter(scan: Scan, v: string, taken: seq<string>, ids: seq<int>, more: seq<string>) {
    scan.values == taken + [v] + more && Reads(taken, ids) && ParseI64(v) == None
  }

  ghost predicate Reads(values: seq<string>, ids: seq<int>) {
    |values| == |ids| && forall k :: 0 <= k < |ids| ==> ParseI64(values[k]) == Some(ids[k])
  }

  lemma ReadsAppend(values: seq<string>, ids: seq<int>, value: string, id: int)
    requires Reads(values, ids) && ParseI64(value) == Some(id)
    ensures Reads(values + [value], ids + [id])
  {
  }

  lemma DanglingAfterIds(scan: Scan, ids: seq<int>)
    requires !scan.ok && Reads(scan.values, ids)
    ensures IdsOf(scan, Err(MissingValue))
  {
  }

  lemma FirstBadValue(scan: Scan, taken: seq<string>, ids: seq<int>, value: string, s: seq<string>, flag: string)
    requires Continues(scan, taken + [value], s, flag) && Reads(taken, ids) && ParseI64(value) == None
    ensures IdsOf(scan, Err(NotAnId(value)))
  {
    var more := ScanFlag(s, flag).values;
    assert BadAfter(scan, value, taken, ids, more);
  }

  /** Takes the first pair out; the scan continues with one value more. */
  method TakeValue(args: Tokens, p: nat, ghost scan: Scan, ghost taken: seq<string>, flag: string) returns (value: string)
    requires args.Valid() && p + 1 < args.len
    requires FirstAt(args.View(), flag, Some(p)) && Continues(scan, taken, args.View(), flag)
    modifies args`len, args.data
    ensures args.Valid() && args.len == old(args.len) - 2
    ensures Continues(scan, taken + [value], args.View(), flag)
  {
    ContinuesWithPair(scan, taken, args.View(), p, flag);
    value := args.RemovePair(p);
  }

  /** As the path extractor, but each value must be an archive id; the first that is not stops it. */
  method ExtractRepeatedIdFlags(args: Tokens) returns (r: Result<seq<int>, IdError>)
    requires args.Valid()
    modifies args`len, args.data
    ensures args.Valid()
    ensures var scan := ScanFlag(old(args.View()), "--id");
            IdsOf(scan, r) && (r.Ok? ==> args.View() == scan.rest)
  {
    ghost var scan := ScanFlag(args.View(), "--id");
    ghost var taken := [];
    var ids := [];
    var position: Option<nat> := args.Position("--id");
    while position.Some?
      invariant args.Valid() && args.data == old(args.data)
      invariant FirstAt(args.View(), "--id", position)
      invariant Continues(scan, taken, args.View(), "--id")
      invariant Reads(taken, ids)
      decreases args.len
    {
      if position.value + 1 >= args.len {
        ContinuesToDangling(scan, taken, args.View(), position.value, "--id");
        DanglingAfterIds(scan, ids);
        return Err(MissingValue);
      }
      var value := TakeValue(args, position.value, scan, taken, "--id");
      var id := ParseI64(value);
      if id == None {
        FirstBadValue(scan, taken, ids, value, args.View(), "--id");
        return Err(NotAnId(value));
      }
      ReadsAppend(taken, ids, value, id.value);
      ids := ids + [id.value];
      taken := taken + [value];
      position := args.Position("--id");
    }
    ContinuesToEnd(scan, taken, args.View(), "--id");
    assert IdsOf(scan, Ok(ids));
    return Ok(ids);
  }
}
