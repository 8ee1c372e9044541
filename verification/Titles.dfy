/** Title normalisation and the wrong-game guard that compares normalised titles. */
module Titles {
  import opened Bounds
  import opened Text

  predicate IsOpener(c: char) {
    c == '(' || c == '['
  }

  predicate IsCloser(c: char) {
    c == ')' || c == ']'
  }

  /** The Unicode tables: which characters are alphanumeric and how each is lower-cased. */
  datatype Tables = Tables(alphanumeric: char -> bool, lower: char -> string)

  // ----- The reference: what is outside every group -----

  /** Openers minus closers. */
  function Balance(s: string): int {
    if s == [] then 0
    else Balance(s[..|s| - 1]) + var c := s[|s| - 1]; if IsOpener(c) then 1 else if IsCloser(c) then -1 else 0
  }

  /** Position `i` is inside a group: some opener before it has not been closed since. */
  ghost predicate InsideGroup(s: string, i: nat)
    requires i <= |s|
  {
    exists j :: Opens(s, j, i)
  }

  ghost predicate Opens(s: string, j: int, i: nat)
    requires i <= |s|
  {
    0 <= j < i && forall k :: j < k <= i ==> Balance(s[j..k]) > 0
  }

  /** How many groups enclose the end of `s`; a closer with nothing to close is ignored. */
  function Depth(s: string): nat {
    if s == [] then 0
    else
      var d := Depth(s[..|s| - 1]);
      var c := s[|s| - 1];
      if IsOpener(c) then d + 1 else if IsCloser(c) then (if d > 0 then d - 1 else 0) else d
  }

  /** The deepest nesting anywhere in `s`. */
  function Nesting(s: string): (n: nat)
    ensures n >= Depth(s)
  {
    if s == [] then 0
    else
      var n := Nesting(s[..|s| - 1]);
      if Depth(s) > n then Depth(s) else n
  }

  /** The characters outside every group. */
  ghost function Outside(s: string): string {
    if s == [] then ""
    else
      var n := |s| - 1;
      Outside(s[..n]) +
      if IsOpener(s[n]) || IsCloser(s[n]) || InsideGroup(s, n) then "" else [s[n]]
  }

  /** Alphanumeric characters, lower-cased. */
  function Fold(s: string, t: Tables): string {
    if s == [] then ""
    else Fold(s[..|s| - 1], t) + var c := s[|s| - 1]; if t.alphanumeric(c) then t.lower(c) else ""
  }

  ghost function Reference(s: string, t: Tables): string {
    Fold(Outside(s), t)
  }

  // ----- The program -----

  /** The 8-bit nesting counter after `s`. */
  function Counter(s: string): (d: nat)
    ensures d <= U8_MAX
  {
    if s == [] then 0
    else
      var d := Counter(s[..|s| - 1]);
      var c := s[|s| - 1];
      if IsOpener(c) then (if d < U8_MAX then d + 1 else U8_MAX)
      else if IsCloser(c) then (if d > 0 then d - 1 else 0)
      else d
  }

  /** The characters met while the counter is zero. */
  function WithoutMarkers(s: string): string {
    if s == [] then ""
    else
      var n := |s| - 1;
      WithoutMarkers(s[..n]) +
      if IsOpener(s[n]) || IsCloser(s[n]) || Counter(s[..n]) > 0 then "" else [s[n]]
  }

  function Normalized(s: string, t: Tables): string {
    Fold(WithoutMarkers(s), t)
  }

  /** `normalize_cli_title`: the loop with the saturating counter, then the filter chain. */
  method NormalizeCliTitle(value: string, t: Tables) returns (r: string)
    ensures r == Normalized(value, t)
  {
    var withoutMarkers := "";
    var depth: nat := 0;
    for i := 0 to |value|
      invariant depth == Counter(value[..i])
      invariant withoutMarkers == WithoutMarkers(value[..i])
    {
      assert value[..i + 1][..i] == value[..i];
      var c := value[i];
      if IsOpener(c) {
        depth := if depth == U8_MAX then U8_MAX else depth + 1;
      } else if IsCloser(c) {
        depth := if depth == 0 then 0 else depth - 1;
      } else if depth == 0 {
        withoutMarkers := withoutMarkers + [c];
      }
    }
    assert value[..|value|] == value;
    r := Fold(withoutMarkers, t);
  }

  // ----- Counter, depth and groups -----

  lemma {:induction false} BalanceConcat(a: string, b: string)
    ensures Balance(a + b) == Balance(a) + Balance(b)
  {
    if b == [] {
      assert a + b == a;
    } else {
      assert (a + b)[..|a + b| - 1] == a + b[..|b| - 1];
      BalanceConcat(a, b[..|b| - 1]);
    }
  }

  /** The depth is at least the balance of every suffix. */
  lemma {:induction false} DepthAbove(s: string, j: nat)
    requires j <= |s|
    ensures Depth(s) >= Balance(s[j..])
    decreases |s|
  {
    if j < |s| {
      var n := |s| - 1;
      DepthAbove(s[..n], j);
      assert s[j..][..n - j] == s[..n][j..];
    }
  }

  /** Where the depth is positive, the last opener at depth zero has not been closed since. */
  lemma {:induction false} DepthOpens(s: string) returns (j: nat)
    requires Depth(s) > 0
    ensures j < |s| && Opens(s, j, |s|) && Balance(s[j..]) == Depth(s)
  {
    var n := |s| - 1;
    if Depth(s[..n]) == 0 {
      j := n;
      assert s[n..] == [s[n]] && [s[n]][..0] == [];
    } else {
      j := DepthOpens(s[..n]);
      assert s[j..][..n - j] == s[..n][j..];
      forall k | j < k <= |s| ensures Balance(s[j..k]) > 0 {
        if k <= n { assert s[j..k] == s[..n][j..k]; } else { assert s[j..k] == s[j..]; }
      }
    }
  }

  /** A position is inside a group exactly where the depth before it is positive. */
  lemma InsideIsDeep(s: string, i: nat)
    requires i <= |s|
    ensures InsideGroup(s, i) <==> Depth(s[..i]) > 0
  {
    if Depth(s[..i]) > 0 {
      var j := DepthOpens(s[..i]);
      forall k | j < k <= i ensures s[j..k] == s[..i][j..k] {}
      assert Opens(s, j, i);
    } else if InsideGroup(s, i) {
      var j :| Opens(s, j, i);
      assert s[j..i] == s[..i][j..];
      DepthAbove(s[..i], j);
    }
  }

  /** Up to 255 nested groups the 8-bit counter is the depth. */
  lemma {:induction false} CounterIsDepth(s: string)
    requires Nesting(s) <= 255
    ensures Counter(s) == Depth(s)
  {
    if s != [] { CounterIsDepth(s[..|s| - 1]); }
  }

  /** Up to 255 nested groups the loop keeps exactly the characters outside every group. */
  lemma {:induction false} MarkersAreGroups(s: string)
    requires Nesting(s) <= 255
    ensures WithoutMarkers(s) == Outside(s)
  {
    if s != [] {
      var n := |s| - 1;
      MarkersAreGroups(s[..n]);
      CounterIsDepth(s[..n]);
      InsideIsDeep(s, n);
    }
  }

  /** Up to 255 nested groups, normalisation folds exactly what is outside every group. */
  lemma NormalizedIsReference(s: string, t: Tables)
    requires Nesting(s) <= 255
    ensures Normalized(s, t) == Reference(s, t)
  {
    MarkersAreGroups(s);
  }

  // ----- Where the 8-bit counter stops being enough -----

  function Repeat(c: char, n: nat): (s: string)
    ensures |s| == n
  {
    if n == 0 then "" else Repeat(c, n - 1) + [c]
  }

  /** Titles of brackets alone have nothing outside their groups. */
  lemma {:induction false} OnlyBrackets(s: string)
    requires forall i :: 0 <= i < |s| ==> IsOpener(s[i]) || IsCloser(s[i])
    ensures WithoutMarkers(s) == "" && Outside(s) == ""
  {
    if s != [] { OnlyBrackets(s[..|s| - 1]); }
  }

  lemma {:induction false} RepeatIs(c: char, n: nat)
    ensures forall i :: 0 <= i < n ==> Repeat(c, n)[i] == c
  {
    if n > 0 { RepeatIs(c, n - 1); }
  }

  /** What one more bracket does to the reference's depth and nesting. */
  lemma DepthAfter(s: string, c: char)
    ensures Depth(s + [c]) == if IsOpener(c) then Depth(s) + 1
                              else if IsCloser(c) then (if Depth(s) > 0 then Depth(s) - 1 else 0)
                              else Depth(s)
    ensures Nesting(s + [c]) == if Depth(s + [c]) > Nesting(s) then Depth(s + [c]) else Nesting(s)
  {
    assert (s + [c])[..|s|] == s;
  }

  lemma {:induction false} OpenersDepth(n: nat)
    ensures Depth(Repeat('(', n)) == n && Nesting(Repeat('(', n)) == n
  {
    if n > 0 {
      OpenersDepth(n - 1);
      DepthAfter(Repeat('(', n - 1), '(');
    }
  }

  lemma {:induction false} OpenersCounter(n: nat)
    ensures Counter(Repeat('(', n)) == if n < U8_MAX then n else U8_MAX
  {
    if n > 0 {
      OpenersCounter(n - 1);
      CodeAfter(Repeat('(', n - 1), '(');
    }
  }

  lemma ClosersSnoc(n: nat, m: nat)
    requires m > 0
    ensures Repeat('(', n) + Repeat(')', m) == Repeat('(', n) + Repeat(')', m - 1) + [')']
  {
  }

  /** `n` openers and then `m` closers: the reference. */
  lemma {:induction false} ClosedDepth(n: nat, m: nat)
    requires m <= n
    ensures var s := Repeat('(', n) + Repeat(')', m); Depth(s) == n - m && Nesting(s) == n
  {
    if m == 0 {
      OpenersDepth(n);
      assert Repeat('(', n) + Repeat(')', 0) == Repeat('(', n);
    } else {
      ClosedDepth(n, m - 1);
      ClosersSnoc(n, m);
      DepthAfter(Repeat('(', n) + Repeat(')', m - 1), ')');
    }
  }

  /** And the program's counter. */
  lemma {:induction false} ClosedCounter(n: nat, m: nat)
    ensures Counter(Repeat('(', n) + Repeat(')', m)) ==
            var c := if n < U8_MAX then n else U8_MAX; if m < c then c - m else 0
  {
    if m == 0 {
      OpenersCounter(n);
      assert Repeat('(', n) + Repeat(')', 0) == Repeat('(', n);
    } else {
      ClosedCounter(n, m - 1);
      ClosersSnoc(n, m);
      CodeAfter(Repeat('(', n) + Repeat(')', m - 1), ')');
    }
  }

  lemma OpenersClosed(n: nat, m: nat)
    requires m <= n
    ensures var s := Repeat('(', n) + Repeat(')', m); WithoutMarkers(s) == "" && Outside(s) == ""
  {
    RepeatIs('(', n);
    RepeatIs(')', m);
    OnlyBrackets(Repeat('(', n) + Repeat(')', m));
  }

  ghost predicate AgreesAt(nesting: nat, t: Tables) {
    forall s :: Nesting(s) == nesting ==> Normalized(s, t) == Reference(s, t)
  }

  /** The bound is exact: at every nesting up to 255 all titles agree with the reference, and at
      every nesting beyond some title does not. */
  lemma CounterBound(nesting: nat, t: Tables)
    requires t.alphanumeric('a') && t.lower('a') != ""
    ensures AgreesAt(nesting, t) <==> nesting <= 255
  {
    if nesting <= U8_MAX {
      forall s | Nesting(s) == nesting ensures Normalized(s, t) == Reference(s, t) {
        NormalizedIsReference(s, t);
      }
    } else {
      var title := CountedWrongly(nesting, t);
      assert Normalized(title, t) != Reference(title, t);
    }
  }

  /** A letter after more openers than the counter can count and just as many closers as it counts. */
  lemma CountedWrongly(nesting: nat, t: Tables) returns (title: string)
    requires nesting > 255 && t.alphanumeric('a') && t.lower('a') != ""
    ensures Nesting(title) == nesting && Normalized(title, t) != Reference(title, t)
  {
    var s := Repeat('(', nesting) + Repeat(')', U8_MAX);
    OpenersClosed(nesting, U8_MAX);
    ClosedDepth(nesting, U8_MAX);
    ClosedCounter(nesting, U8_MAX);
    LetterAfter(s, 'a', t);
    title := s + ['a'];
  }

  lemma LetterAfter(s: string, c: char, t: Tables)
    requires !IsOpener(c) && !IsCloser(c) && t.alphanumeric(c)
    requires Counter(s) == 0 && Depth(s) > 0 && WithoutMarkers(s) == "" && Outside(s) == ""
    ensures Nesting(s + [c]) == Nesting(s)
    ensures Normalized(s + [c], t) == t.lower(c) && Reference(s + [c], t) == ""
  {
    assert (s + [c])[..|s|] == s;
    InsideIsDeep(s + [c], |s|);
    CodeAfter(s, c);
    FoldOne(c, t);
  }

  lemma FoldOne(c: char, t: Tables)
    requires t.alphanumeric(c)
    ensures Fold([c], t) == t.lower(c)
  {
    assert [c][..0] == "";
    assert "" + t.lower(c) == t.lower(c);
  }

  /** What one more character does to the program's counter and output. */
  lemma CodeAfter(s: string, c: char)
    ensures Counter(s + [c]) ==
            if IsOpener(c) then (if Counter(s) < U8_MAX then Counter(s) + 1 else U8_MAX)
            else if IsCloser(c) then (if Counter(s) > 0 then Counter(s) - 1 else 0)
            else Counter(s)
    ensures WithoutMarkers(s + [c]) ==
            WithoutMarkers(s) + if IsOpener(c) || IsCloser(c) || Counter(s) > 0 then "" else [c]
  {
    assert (s + [c])[..|s|] == s;
  }

  // ----- Groups do not count -----

  /** One bracket group: opened by its first character and closed only by its last. */
  ghost predicate IsGroup(g: string) {
    g != [] && IsOpener(g[0]) && Balance(g) == 0 && forall k :: 0 < k < |g| ==> Balance(g[..k]) > 0
  }

  /** Inside a group no closer is stray. */
  lemma {:induction false} GroupDepth(g: string, k: nat)
    requires IsGroup(g) && k <= |g|
    ensures 0 <= Balance(g[..k]) == Depth(g[..k]) <= Nesting(g)
  {
    DepthWithin(g, k);
    if k > 0 {
      GroupDepth(g, k - 1);
      assert g[..k][..k - 1] == g[..k - 1];
      assert k == |g| ==> g[..k] == g;
    }
  }

  lemma {:induction false} GroupPrefix(a: string, g: string, k: nat)
    requires IsGroup(g) && k <= |g| && Counter(a) + Nesting(g) <= 255
    ensures Counter(a + g[..k]) == Counter(a) + Balance(g[..k])
    ensures WithoutMarkers(a + g[..k]) == WithoutMarkers(a)
  {
    if k == 0 {
      assert a + g[..0] == a;
    } else {
      GroupPrefix(a, g, k - 1);
      GroupDepth(g, k - 1);
      GroupDepth(g, k);
      assert g[..k] == g[..k - 1] + [g[k - 1]];
      BalanceConcat(g[..k - 1], [g[k - 1]]);
      assert a + g[..k] == (a + g[..k - 1]) + [g[k - 1]];
      CodeAfter(a + g[..k - 1], g[k - 1]);
      assert g[..0] == "";
    }
  }

  lemma {:induction false} DepthWithin(s: string, k: nat)
    requires k <= |s|
    ensures Depth(s[..k]) <= Nesting(s)
  {
    if k < |s| {
      DepthWithin(s[..|s| - 1], k);
      assert s[..|s| - 1][..k] == s[..k];
    } else {
      assert s[..k] == s;
    }
  }

  lemma LastApart(a: string, b: string)
    requires b != ""
    ensures a + b == a + b[..|b| - 1] + [b[|b| - 1]]
  {
  }

  lemma SameAfter(a: string, a': string, c: char)
    requires Counter(a) == Counter(a') && WithoutMarkers(a) == WithoutMarkers(a')
    ensures Counter(a + [c]) == Counter(a' + [c]) && WithoutMarkers(a + [c]) == WithoutMarkers(a' + [c])
  {
    CodeAfter(a, c);
    CodeAfter(a', c);
  }

  lemma {:induction false} SameFrom(a: string, a': string, b: string)
    requires Counter(a) == Counter(a') && WithoutMarkers(a) == WithoutMarkers(a')
    ensures Counter(a + b) == Counter(a' + b) && WithoutMarkers(a + b) == WithoutMarkers(a' + b)
  {
    if b == [] {
      assert a + b == a && a' + b == a';
    } else {
      var init, c := b[..|b| - 1], b[|b| - 1];
      SameFrom(a, a', init);
      SameAfter(a + init, a' + init, c);
      LastApart(a, b);
      LastApart(a', b);
    }
  }

  /** A bracket group put anywhere in a title, nested or not, leaves its normal form unchanged. */
  lemma GroupsDoNotCount(a: string, g: string, b: string, t: Tables)
    requires IsGroup(g) && Counter(a) + Nesting(g) <= 255
    ensures Normalized(a + g + b, t) == Normalized(a + b, t)
  {
    GroupPrefix(a, g, |g|);
    assert g[..|g|] == g;
    SameFrom(a + g, a, b);
  }

  /** No character of the text is one of the four brackets. */
  predicate HasNoBracket(s: string) {
    forall i :: 0 <= i < |s| ==> s[i] != '(' && s[i] != '[' && s[i] != ')' && s[i] != ']'
  }

  lemma {:induction false} PlainText(s: string)
    requires HasNoBracket(s)
    ensures Balance(s) == 0 && Nesting(s) == 0 && Depth(s) == 0 && Counter(s) == 0 && WithoutMarkers(s) == s
  {
    if s != [] {
      PlainText(s[..|s| - 1]);
      assert s == s[..|s| - 1] + [s[|s| - 1]];
    }
  }

  /** A text without round and square brackets is folded whole. */
  lemma PlainTitle(s: string, t: Tables)
    requires HasNoBracket(s)
    ensures Normalized(s, t) == Fold(s, t)
  {
    PlainText(s);
  }

  lemma {:induction false} OpenedText(c: char, x: string)
    requires (c == '(' || c == '[') && HasNoBracket(x)
    ensures Balance([c] + x) == 1 && Depth([c] + x) == 1 && Nesting([c] + x) == 1
  {
    var s := [c] + x;
    if x == [] {
      assert s == [c] && s[..0] == [];
    } else {
      OpenedText(c, x[..|x| - 1]);
      assert s[..|s| - 1] == [c] + x[..|x| - 1];
    }
  }

  lemma BracketedIsGroup(open: char, x: string, close: char)
    requires (open == '(' || open == '[') && (close == ')' || close == ']') && HasNoBracket(x)
    ensures IsGroup([open] + x + [close]) && Nesting([open] + x + [close]) == 1
  {
    var g := [open] + x + [close];
    OpenedText(open, x);
    assert g[..|g| - 1] == [open] + x;
    forall k | 0 < k < |g| ensures Balance(g[..k]) > 0 {
      assert g[..k] == [open] + x[..k - 1];
      OpenedText(open, x[..k - 1]);
    }
  }

  /** Text between a round or square bracket and the next closing one, of either kind, does not count,
      wherever fewer than 255 groups are open. */
  lemma BracketedTextDoesNotCount(a: string, open: char, x: string, close: char, b: string, t: Tables)
    requires (open == '(' || open == '[') && (close == ')' || close == ']') && HasNoBracket(x)
    requires Counter(a) < 255
    ensures Normalized(a + ([open] + x + [close]) + b, t) == Normalized(a + b, t)
  {
    BracketedIsGroup(open, x, close);
    GroupsDoNotCount(a, [open] + x + [close], b, t);
  }

  // ----- Idempotence -----

  ghost predicate Bracketless(s: string) {
    forall i :: 0 <= i < |s| ==> !IsOpener(s[i]) && !IsCloser(s[i])
  }

  /** Lower-casing makes no brackets, which holds of Unicode. */
  ghost predicate MakesNoBrackets(t: Tables) {
    forall c :: t.alphanumeric(c) ==> Bracketless(t.lower(c))
  }

  /** What a character is lower-cased to is kept as it is when it is folded again. */
  predicate Refolds(c: char, t: Tables) {
    Fold(t.lower(c), t) == t.lower(c)
  }

  ghost predicate AllRefold(t: Tables) {
    forall c :: t.alphanumeric(c) && !IsOpener(c) && !IsCloser(c) ==> Refolds(c, t)
  }

  lemma {:induction false} KeptAreNotBrackets(s: string)
    ensures Bracketless(WithoutMarkers(s))
  {
    if s != [] { KeptAreNotBrackets(s[..|s| - 1]); }
  }

  lemma {:induction false} NothingToRemove(s: string)
    requires Bracketless(s)
    ensures Counter(s) == 0 && WithoutMarkers(s) == s
  {
    if s != [] {
      NothingToRemove(s[..|s| - 1]);
      assert s == s[..|s| - 1] + [s[|s| - 1]];
    }
  }

  lemma {:induction false} FoldConcat(a: string, b: string, t: Tables)
    ensures Fold(a + b, t) == Fold(a, t) + Fold(b, t)
  {
    if b == [] {
      assert a + b == a;
    } else {
      assert (a + b)[..|a + b| - 1] == a + b[..|b| - 1];
      FoldConcat(a, b[..|b| - 1], t);
    }
  }

  lemma {:induction false} FoldBracketless(s: string, t: Tables)
    requires MakesNoBrackets(t)
    ensures Bracketless(Fold(s, t))
  {
    if s != [] { FoldBracketless(s[..|s| - 1], t); }
  }

  lemma {:induction false} FoldTwice(s: string, t: Tables)
    requires AllRefold(t) && Bracketless(s)
    ensures Fold(Fold(s, t), t) == Fold(s, t)
  {
    if s != [] {
      var init, c := s[..|s| - 1], s[|s| - 1];
      FoldTwice(init, t);
      FoldConcat(Fold(init, t), if t.alphanumeric(c) then t.lower(c) else "", t);
    }
  }

  ghost predicate NormalizesOnce(s: string, t: Tables) {
    Normalized(Normalized(s, t), t) == Normalized(s, t)
  }

  lemma NormalizedTwice(s: string, t: Tables)
    requires MakesNoBrackets(t) && AllRefold(t)
    ensures NormalizesOnce(s, t)
  {
    KeptAreNotBrackets(s);
    FoldBracketless(WithoutMarkers(s), t);
    NothingToRemove(Normalized(s, t));
    FoldTwice(WithoutMarkers(s), t);
  }

  lemma OneCharacter(c: char, t: Tables)
    requires MakesNoBrackets(t) && t.alphanumeric(c) && !IsOpener(c) && !IsCloser(c)
    ensures NormalizesOnce([c], t) <==> Refolds(c, t)
  {
    NothingToRemove([c]);
    FoldOne(c, t);
    NothingToRemove(t.lower(c));
  }

  /** Normalising twice is normalising once, for every title, if and only if every alphanumeric
      character is lower-cased to characters that fold to themselves. */
  lemma NormalizedTwiceExactly(t: Tables)
    requires MakesNoBrackets(t)
    ensures (forall s :: NormalizesOnce(s, t)) <==> AllRefold(t)
  {
    if AllRefold(t) {
      forall s ensures NormalizesOnce(s, t) { NormalizedTwice(s, t); }
    } else {
      var c :| t.alphanumeric(c) && !IsOpener(c) && !IsCloser(c) && !Refolds(c, t);
      OneCharacter(c, t);
      assert !NormalizesOnce([c], t);
    }
  }

  const ASCII := Tables(c => IsAsciiAlphanumeric(c), c => [AsciiLower(c)])

  lemma AsciiNormalizesOnce()
    ensures MakesNoBrackets(ASCII) && AllRefold(ASCII)
  {
    forall c | IsAsciiAlphanumeric(c) ensures Refolds(c, ASCII) {
      FoldOne(AsciiLower(c), ASCII);
    }
  }

  /** A character lower-cased to a letter and a mark that is not alphanumeric, as Unicode does with the
      dotted capital I: its normal form keeps the mark and loses it when normalised again. */
  lemma MarkIsLost(c: char, letter: char, mark: char, t: Tables)
    requires t.alphanumeric(c) && t.lower(c) == [letter, mark] && Bracketless([c, letter, mark])
    requires t.alphanumeric(letter) && t.lower(letter) == [letter] && !t.alphanumeric(mark)
    ensures Normalized([c], t) == [letter, mark] && Normalized([letter, mark], t) == [letter]
  {
    var s := [c, letter, mark];
    assert !IsOpener(s[0]) && !IsCloser(s[0]) && !IsOpener(s[1]) && !IsCloser(s[1]) && !IsOpener(s[2]) && !IsCloser(s[2]);
    NothingToRemove([c]);
    FoldOne(c, t);
    NothingToRemove([letter, mark]);
    FoldOne(letter, t);
    assert [letter, mark][..1] == [letter];
  }

  // ----- The wrong-game guard -----

  /** The guard refuses a supplied title that normalises to something else than the game's name. */
  predicate Refuses(title: string, game: string, t: Tables) {
    Normalized(title, t) != "" && Normalized(title, t) != Normalized(game, t)
  }

  /** A bracket group added anywhere to either side leaves the verdict unchanged. */
  lemma GuardIgnoresGroups(a: string, g: string, b: string, game: string, t: Tables)
    requires IsGroup(g) && Counter(a) + Nesting(g) <= 255
    ensures Refuses(a + g + b, game, t) == Refuses(a + b, game, t)
    ensures Refuses(game, a + g + b, t) == Refuses(game, a + b, t)
  {
    GroupsDoNotCount(a, g, b, t);
  }

  /** A title may be replaced by its own normal form, on either side and for every game, exactly when
      that normal form is normal. */
  lemma GuardSeesNormalForms(a: string, t: Tables)
    ensures (forall game :: Refuses(game, Normalized(a, t), t) == Refuses(game, a, t)
                            && Refuses(Normalized(a, t), game, t) == Refuses(a, game, t))
            <==> NormalizesOnce(a, t)
  {
    if !NormalizesOnce(a, t) {
      assert Normalized("", t) == "";
      assert Refuses(a, Normalized(a, t), t) != Refuses(a, a, t);
    }
  }

  /** Up to 255 nested groups the guard compares what lies outside the groups. */
  lemma GuardComparesOutside(title: string, game: string, t: Tables)
    requires Nesting(title) <= 255 && Nesting(game) <= 255
    ensures Refuses(title, game, t) <==> Reference(title, t) != "" && Reference(title, t) != Reference(game, t)
  {
    NormalizedIsReference(title, t);
    NormalizedIsReference(game, t);
  }

  /** Character `i` is alphanumeric and stands outside every group. */
  ghost predicate CountsAt(s: string, i: nat, t: Tables) {
    i < |s| && t.alphanumeric(s[i]) && !IsOpener(s[i]) && !IsCloser(s[i]) && !InsideGroup(s, i)
  }

  lemma CountsInPrefix(s: string, n: nat, i: nat, t: Tables)
    requires i < n <= |s|
    ensures CountsAt(s[..n], i, t) <==> CountsAt(s, i, t)
  {
    assert s[..n][..i] == s[..i];
    InsideIsDeep(s, i);
    InsideIsDeep(s[..n], i);
  }

  lemma {:induction false} ReferenceEmpty(s: string, t: Tables)
    requires forall c :: t.alphanumeric(c) ==> t.lower(c) != ""
    ensures Reference(s, t) == "" <==> forall i :: !CountsAt(s, i, t)
  {
    if s != [] {
      var n := |s| - 1;
      ReferenceEmpty(s[..n], t);
      ReferenceAfter(s, t);
      forall i: nat | i < n ensures CountsAt(s[..n], i, t) <==> CountsAt(s, i, t) { CountsInPrefix(s, n, i, t); }
    }
  }

  lemma ReferenceAfter(s: string, t: Tables)
    requires s != []
    ensures var n := |s| - 1;
            Reference(s, t) == Reference(s[..n], t) + if CountsAt(s, n, t) then t.lower(s[n]) else ""
  {
    var n := |s| - 1;
    var out := Outside(s[..n]);
    assert out + "" == out && (out + [s[n]])[..|out|] == out;
    assert Fold(out, t) + "" == Fold(out, t);
  }

  /** The guard accepts a title for every game exactly when no alphanumeric character of it stands
      outside the groups. */
  lemma AcceptedForEveryGame(title: string, t: Tables)
    requires Nesting(title) <= 255 && forall c :: t.alphanumeric(c) ==> t.lower(c) != ""
    ensures (forall game :: !Refuses(title, game, t)) <==> forall i :: !CountsAt(title, i, t)
  {
    NormalizedIsReference(title, t);
    ReferenceEmpty(title, t);
    GuardIsEquivalence(title, "", "", t);
  }

  /** Acceptance is a preorder, and symmetric for titles that have a normal form: among those it is
      an equivalence. A title without one is accepted for every game, and no other title is. */
  lemma GuardIsEquivalence(a: string, b: string, c: string, t: Tables)
    ensures !Refuses(a, a, t)
    ensures !Refuses(a, b, t) && !Refuses(b, c, t) ==> !Refuses(a, c, t)
    ensures Normalized(a, t) != "" && !Refuses(a, b, t) ==> !Refuses(b, a, t)
    ensures (forall game :: !Refuses(a, game, t)) <==> Normalized(a, t) == ""
  {
    assert Normalized("", t) == "";
    if Normalized(a, t) != "" { assert Refuses(a, "", t); }
  }
}
