/** String facilities the program takes from its standard library: the order on strings, trimming,
    ASCII case folding, decimal printing and the overflow-checked integer parser.

    Strings are sequences of Unicode scalar values; the byte order of UTF-8 is their order. */
module Text {
  import opened Wrappers

  // ----- Order -----

  predicate Less(a: string, b: string) {
    if b == [] then false
    else if a == [] then true
    else a[0] < b[0] || (a[0] == b[0] && Less(a[1..], b[1..]))
  }

  lemma {:induction false} LessTrichotomy(a: string, b: string)
    ensures a == b || Less(a, b) || Less(b, a)
    ensures !(Less(a, b) && Less(b, a))
    ensures a == b ==> !Less(a, b)
  {
    if a != [] && b != [] {
      LessTrichotomy(a[1..], b[1..]);
      assert a == [a[0]] + a[1..] && b == [b[0]] + b[1..];
    }
  }

  /** Where two strings first differ, the smaller character decides, and a string is smaller than what
      continues it. */
  ghost predicate LessAt(a: string, b: string, k: nat) {
    k <= |a| && k < |b| && a[..k] == b[..k] && (k == |a| || a[k] < b[k])
  }

  lemma LessExactly(a: string, b: string)
    ensures Less(a, b) <==> exists k: nat :: LessAt(a, b, k)
  {
    if Less(a, b) {
      var k := LessSomewhere(a, b);
    } else {
      forall k: nat ensures !LessAt(a, b, k) {
        if LessAt(a, b, k) { SomewhereLess(a, b, k); }
      }
    }
  }

  lemma {:induction false} LessSomewhere(a: string, b: string) returns (k: nat)
    requires Less(a, b)
    ensures LessAt(a, b, k)
  {
    k := 0;
    if a != [] && a[0] == b[0] {
      var j := LessSomewhere(a[1..], b[1..]);
      k := j + 1;
      assert a[..k] == [a[0]] + a[1..][..j] && b[..k] == [b[0]] + b[1..][..j];
    }
  }

  lemma {:induction false} SomewhereLess(a: string, b: string, k: nat)
    requires LessAt(a, b, k)
    ensures Less(a, b)
  {
    if k > 0 {
      assert a[0] == a[..k][0] == b[..k][0] == b[0];
      assert a[1..][..k - 1] == a[..k][1..] && b[1..][..k - 1] == b[..k][1..];
      SomewhereLess(a[1..], b[1..], k - 1);
    }
  }

  lemma {:induction false} LessTransitive(a: string, b: string, c: string)
    requires Less(a, b) && Less(b, c)
    ensures Less(a, c)
  {
    if a != [] && a[0] == b[0] == c[0] {
      LessTransitive(a[1..], b[1..], c[1..]);
    }
  }

  /** Fields of equal width are compared left to right. */
  lemma {:induction false} LessConcat(a: string, b: string, u: string, v: string)
    requires |a| == |b|
    ensures Less(a + u, b + v) <==> Less(a, b) || (a == b && Less(u, v))
  {
    if a == [] {
      assert a + u == u && b + v == v;
    } else {
      assert (a + u)[1..] == a[1..] + u && (b + v)[1..] == b[1..] + v;
      LessConcat(a[1..], b[1..], u, v);
      assert a == [a[0]] + a[1..] && b == [b[0]] + b[1..];
    }
  }

  // ----- Decimal numbers -----

  predicate IsDigit(c: char) {
    '0' <= c <= '9'
  }

  predicate AllDigits(s: string) {
    forall i :: 0 <= i < |s| ==> IsDigit(s[i])
  }

  function DigitValue(c: char): (v: nat)
    requires IsDigit(c)
    ensures v <= 9
  {
    c as int - '0' as int
  }

  function DigitChar(v: nat): (c: char)
    requires v <= 9
    ensures IsDigit(c) && DigitValue(c) == v
  {
    ('0' as int + v) as char
  }

  /** The number a string of digits denotes. */
  function NatOf(s: string): nat
    requires AllDigits(s)
  {
    if s == [] then 0 else 10 * NatOf(s[..|s| - 1]) + DigitValue(s[|s| - 1])
  }

  function Decimal(n: nat): (s: string)
    ensures s != [] && AllDigits(s) && NatOf(s) == n
  {
    if n < 10 then [DigitChar(n)]
    else
      var init := Decimal(n / 10);
      var s := init + [DigitChar(n % 10)];
      assert s[..|s| - 1] == init;
      s
  }

  function Zeros(k: nat): (s: string)
    ensures |s| == k && forall i :: 0 <= i < k ==> s[i] == '0'
  {
    seq(k, _ => '0')
  }

  /** The `{n:0width}` format: at least `width` digits, filled with zeros on the left. */
  function Padded(n: nat, width: nat): (s: string)
    ensures AllDigits(s) && |s| >= width && s != []
  {
    var d := Decimal(n);
    if |d| >= width then d else Zeros(width - |d|) + d
  }

  lemma {:induction false} NatOfZeros(k: nat, s: string)
    requires AllDigits(s)
    ensures AllDigits(Zeros(k) + s) && NatOf(Zeros(k) + s) == NatOf(s)
  {
    var t := Zeros(k) + s;
    if s != [] {
      NatOfZeros(k, s[..|s| - 1]);
      assert t[..|t| - 1] == Zeros(k) + s[..|s| - 1];
    } else if k > 0 {
      NatOfZeros(k - 1, []);
      assert t[..k - 1] == Zeros(k - 1) + [];
    }
  }

  lemma NatOfPadded(n: nat, width: nat)
    ensures NatOf(Padded(n, width)) == n
  {
    var d := Decimal(n);
    if |d| < width { NatOfZeros(width - |d|, d); }
  }

  function Pow10(k: nat): (p: nat)
    ensures p >= 1
  {
    if k == 0 then 1 else 10 * Pow10(k - 1)
  }

  lemma {:induction false} NatOfBounded(s: string)
    requires AllDigits(s)
    ensures NatOf(s) < Pow10(|s|)
  {
    if s != [] { NatOfBounded(s[..|s| - 1]); }
  }

  lemma {:induction false} DecimalWidth(n: nat, k: nat)
    requires k >= 1
    ensures |Decimal(n)| <= k <==> n < Pow10(k)
  {
    if n >= 10 && k > 1 {
      DecimalWidth(n / 10, k - 1);
    }
  }

  lemma PaddedWidth(n: nat, width: nat)
    requires width >= 1 && n < Pow10(width)
    ensures |Padded(n, width)| == width
  {
    DecimalWidth(n, width);
  }

  /** Digit strings of equal length are ordered as strings exactly as the numbers they denote. */
  lemma {:induction false} DigitOrder(a: string, b: string)
    requires |a| == |b| && AllDigits(a) && AllDigits(b)
    ensures Less(a, b) <==> NatOf(a) < NatOf(b)
    ensures a == b <==> NatOf(a) == NatOf(b)
  {
    if a != [] {
      var a', b' := a[..|a| - 1], b[..|b| - 1];
      DigitOrder(a', b');
      assert a == a' + [a[|a| - 1]] && b == b' + [b[|b| - 1]];
      LessConcat(a', b', [a[|a| - 1]], [b[|b| - 1]]);
    }
  }

  /** The digit loop of the integer parser: multiply, add, and give up on a bad character or on a
      value above `max`. */
  function ParseDigits(s: string, acc: nat, max: nat): Option<nat> {
    if s == [] then Some(acc)
    else if !IsDigit(s[0]) || acc * 10 > max || acc * 10 + DigitValue(s[0]) > max then None
    else ParseDigits(s[1..], acc * 10 + DigitValue(s[0]), max)
  }

  /** `str::parse` for an unsigned type whose largest value is `max`: one optional `+`. */
  function ParseUnsigned(s: string, max: nat): Option<nat> {
    var body := if |s| > 1 && s[0] == '+' then s[1..] else s;
    if body == [] then None else ParseDigits(body, 0, max)
  }

  /** Checking for overflow at every digit loses nothing: the loop fails exactly when some
      character is not a digit or the whole number is too large. */
  lemma {:induction false} ParseDigitsValue(s: string, pre: string, max: nat)
    requires AllDigits(pre) && NatOf(pre) <= max
    ensures ParseDigits(s, NatOf(pre), max) ==
            if AllDigits(s) && NatOf(pre + s) <= max then Some(NatOf(pre + s)) else None
  {
    if s == [] {
      assert pre + s == pre;
    } else if IsDigit(s[0]) {
      var next := pre + [s[0]];
      assert next[..|next| - 1] == pre;
      assert next + s[1..] == pre + s;
      if NatOf(next) <= max {
        ParseDigitsValue(s[1..], next, max);
        assert AllDigits(s) <==> AllDigits(s[1..]);
      } else if AllDigits(s) {
        NatOfPrefix(next, s[1..]);
      }
    }
  }

  lemma {:induction false} NatOfPrefix(a: string, b: string)
    requires AllDigits(a) && AllDigits(b)
    ensures NatOf(a + b) >= NatOf(a)
  {
    if b == [] {
      assert a + b == a;
    } else {
      NatOfPrefix(a, b[..|b| - 1]);
      assert (a + b)[..|a + b| - 1] == a + b[..|b| - 1];
    }
  }

  /** The parser accepts exactly the digit strings, with an optional `+`, whose value fits. */
  lemma ParseUnsignedValue(s: string, max: nat)
    ensures var body := if |s| > 1 && s[0] == '+' then s[1..] else s;
            ParseUnsigned(s, max) ==
            if body != [] && AllDigits(body) && NatOf(body) <= max then Some(NatOf(body)) else None
  {
    var body := if |s| > 1 && s[0] == '+' then s[1..] else s;
    ParseDigitsValue(body, "", max);
    assert "" + body == body;
  }

  /** Reading back a printed number gives the number. */
  lemma ParsePrinted(n: nat, max: nat)
    requires n <= max
    ensures ParseUnsigned(Decimal(n), max) == Some(n)
  {
    assert IsDigit(Decimal(n)[0]);
    ParseUnsignedValue(Decimal(n), max);
  }

  // ----- White space and case -----

  /** The Unicode White_Space property. */
  predicate IsWhitespace(c: char) {
    var u := c as int;
    9 <= u <= 13 || u == 0x20 || u == 0x85 || u == 0xA0 || u == 0x1680 || 0x2000 <= u <= 0x200A
    || u == 0x2028 || u == 0x2029 || u == 0x202F || u == 0x205F || u == 0x3000
  }

  function TrimStart(s: string): (t: string)
    ensures |t| <= |s| && t == s[|s| - |t|..]
    ensures t != [] ==> !IsWhitespace(t[0])
  {
    if s != [] && IsWhitespace(s[0]) then TrimStart(s[1..]) else s
  }

  function TrimEnd(s: string): (t: string)
    ensures |t| <= |s| && t == s[..|t|]
    ensures t != [] ==> !IsWhitespace(t[|t| - 1])
  {
    if s != [] && IsWhitespace(s[|s| - 1]) then TrimEnd(s[..|s| - 1]) else s
  }

  function Trim(s: string): string {
    TrimEnd(TrimStart(s))
  }

  predicate AllWhitespace(s: string) {
    forall i :: 0 <= i < |s| ==> IsWhitespace(s[i])
  }

  /** Trimming removes exactly the surrounding white space. */
  lemma TrimAround(before: string, core: string, after: string)
    requires AllWhitespace(before) && AllWhitespace(after)
    requires core != [] && !IsWhitespace(core[0]) && !IsWhitespace(core[|core| - 1])
    ensures Trim(before + core + after) == core
  {
    assert before + core + after == before + (core + after);
    TrimStartDrops(before, core + after);
    TrimEndDrops(core, after);
  }

  lemma {:induction false} TrimStartDrops(before: string, rest: string)
    requires AllWhitespace(before) && rest != [] && !IsWhitespace(rest[0])
    ensures TrimStart(before + rest) == rest
  {
    if before == [] {
      assert before + rest == rest;
    } else {
      TrimStartDrops(before[1..], rest);
      assert (before + rest)[1..] == before[1..] + rest;
    }
  }

  lemma {:induction false} TrimEndDrops(rest: string, after: string)
    requires AllWhitespace(after) && rest != [] && !IsWhitespace(rest[|rest| - 1])
    ensures TrimEnd(rest + after) == rest
  {
    if after == [] {
      assert rest + after == rest;
    } else {
      var n := |after| - 1;
      TrimEndDrops(rest, after[..n]);
      assert (rest + after)[..|rest| + n] == rest + after[..n];
    }
  }

  predicate IsAsciiUpper(c: char) {
    'A' <= c <= 'Z'
  }

  predicate IsAsciiAlphanumeric(c: char) {
    'a' <= c <= 'z' || IsAsciiUpper(c) || IsDigit(c)
  }

  function AsciiLower(c: char): char {
    if IsAsciiUpper(c) then (c as int + 32) as char else c
  }

  function AsciiLowercase(s: string): (t: string)
    ensures |t| == |s|
  {
    if s == [] then [] else [AsciiLower(s[0])] + AsciiLowercase(s[1..])
  }

  lemma {:induction false} LowercaseAt(s: string)
    ensures forall i :: 0 <= i < |s| ==> AsciiLowercase(s)[i] == AsciiLower(s[i])
  {
    if s != [] { LowercaseAt(s[1..]); }
  }

  /** Only the 26 capital letters of ASCII change, each into its small letter. */
  lemma LowercaseIs(s: string, t: string)
    requires |s| == |t|
    ensures AsciiLowercase(s) == t <==>
            forall i :: 0 <= i < |s| ==> t[i] as int == if 'A' <= s[i] <= 'Z' then s[i] as int + 32 else s[i] as int
  {
    LowercaseAt(s);
    if AsciiLowercase(s) != t { var i :| 0 <= i < |s| && AsciiLowercase(s)[i] != t[i]; }
  }

  predicate EqIgnoreAsciiCase(a: string, b: string) {
    AsciiLowercase(a) == AsciiLowercase(b)
  }

  /** A printed number, whatever white space surrounds it, is trimmed to itself. */
  lemma TrimPrinted(before: string, n: nat, after: string)
    requires AllWhitespace(before) && AllWhitespace(after)
    ensures Trim(before + Decimal(n) + after) == Decimal(n)
  {
    var d := Decimal(n);
    assert IsDigit(d[0]) && IsDigit(d[|d| - 1]);
    TrimAround(before, d, after);
  }
}
