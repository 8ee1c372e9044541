/** The source id derived from a DAT path. */
module Slugs {
  import opened Text
  import opened Paths

  /** The maximal runs of ASCII letters and digits, lower-cased. */
  function Words(s: string): (ws: seq<string>)
    ensures s != "" && IsAsciiAlphanumeric(s[|s| - 1]) ==> ws != []
    ensures ws == [] ==> forall i :: 0 <= i < |s| ==> !IsAsciiAlphanumeric(s[i])
    ensures forall w :: w in ws ==> IsWord(w)
  {
    if s == [] then []
    else
      var n := |s| - 1;
      var ws := Words(s[..n]);
      if !IsAsciiAlphanumeric(s[n]) then ws
      else if n > 0 && IsAsciiAlphanumeric(s[n - 1]) then ExtendLast(ws, AsciiLower(s[n]))
      else ws + [[AsciiLower(s[n])]]
  }

  function ExtendLast(ws: seq<string>, c: char): (r: seq<string>)
    requires ws != [] && IsWordChar(c) && forall w :: w in ws ==> IsWord(w)
    ensures r != [] && forall w :: w in r ==> IsWord(w)
  {
    var last := ws[|ws| - 1] + [c];
    assert IsWord(ws[|ws| - 1]) && IsWord(last);
    ws[..|ws| - 1] + [last]
  }

  predicate IsWordChar(c: char) {
    'a' <= c <= 'z' || IsDigit(c)
  }

  predicate IsWord(w: string) {
    w != "" && forall i :: 0 <= i < |w| ==> IsWordChar(w[i])
  }

  /** The words with one hyphen between neighbours. */
  function Join(ws: seq<string>): string {
    if ws == [] then ""
    else if |ws| == 1 then ws[0]
    else Join(ws[..|ws| - 1]) + "-" + ws[|ws| - 1]
  }

  function SlugOf(path: string): string {
    var stem := FileStem(path);
    var ws := Words(if stem.Some? then stem.value else "dat");
    if ws == [] then "dat" else Join(ws)
  }

  // ----- The loop -----

  function Lead(s: string): string {
    if s != "" && !IsAsciiAlphanumeric(s[0]) then "-" else ""
  }

  function Trail(s: string): string {
    if Words(s) != [] && !IsAsciiAlphanumeric(s[|s| - 1]) then "-" else ""
  }

  /** What the loop has written after `s`: a hyphen for what precedes the first word, the joined
      words, and a hyphen for what follows the last. */
  function Output(s: string): string {
    Lead(s) + Join(Words(s)) + Trail(s)
  }

  function TrimHyphensStart(s: string): (t: string)
    ensures |t| <= |s|
  {
    if s != "" && s[0] == '-' then TrimHyphensStart(s[1..]) else s
  }

  function TrimHyphensEnd(s: string): string {
    if s != "" && s[|s| - 1] == '-' then TrimHyphensEnd(s[..|s| - 1]) else s
  }

  function TrimHyphens(s: string): string {
    TrimHyphensEnd(TrimHyphensStart(s))
  }

  /** `slug`: one pass with a look back at the output, then trimming. */
  method Slug(path: string) returns (r: string)
    ensures r == SlugOf(path)
  {
    var name := FileStem(path);
    var stem := if name.Some? then name.value else "dat";
    var out := "";
    for i := 0 to |stem|
      invariant out == Output(stem[..i])
    {
      OutputAfter(stem, i);
      if IsAsciiAlphanumeric(stem[i]) {
        out := out + [AsciiLower(stem[i])];
      } else if out == "" || out[|out| - 1] != '-' {
        out := out + "-";
      }
    }
    assert stem[..|stem|] == stem;
    TrimmedOutput(stem);
    var trimmed := TrimHyphens(out);
    r := if trimmed == "" then "dat" else trimmed;
  }

  lemma {:induction false} JoinEnds(ws: seq<string>)
    requires ws != [] && forall w :: w in ws ==> IsWord(w)
    ensures var j := Join(ws); j != "" && IsWordChar(j[0]) && IsWordChar(j[|j| - 1])
  {
    if |ws| > 1 { JoinEnds(ws[..|ws| - 1]); }
    assert IsWord(ws[|ws| - 1]);
  }

  lemma JoinExtend(ws: seq<string>, c: char)
    requires ws != [] && IsWordChar(c) && forall w :: w in ws ==> IsWord(w)
    ensures Join(ExtendLast(ws, c)) == Join(ws) + [c]
  {
    var more := ExtendLast(ws, c);
    assert more[..|more| - 1] == ws[..|ws| - 1];
  }

  lemma JoinAppend(ws: seq<string>, w: string)
    ensures Join(ws + [w]) == Join(ws) + (if ws == [] then "" else "-") + w
  {
    assert (ws + [w])[..|ws|] == ws;
  }

  lemma WordsSnoc(p: string, c: char)
    ensures Words(p + [c]) ==
            if !IsAsciiAlphanumeric(c) then Words(p)
            else if p != "" && IsAsciiAlphanumeric(p[|p| - 1]) then ExtendLast(Words(p), AsciiLower(c))
            else Words(p) + [[AsciiLower(c)]]
  {
    assert (p + [c])[..|p|] == p;
  }

  lemma LeadSnoc(p: string, c: char)
    ensures Lead(p + [c]) == if p != "" then Lead(p) else if IsAsciiAlphanumeric(c) then "" else "-"
  {
  }

  lemma OutputAfterOther(p: string, c: char)
    requires !IsAsciiAlphanumeric(c)
    ensures Output(p + [c]) == if Output(p) == "" || Output(p)[|Output(p)| - 1] != '-' then Output(p) + "-" else Output(p)
  {
    var ws, j := Words(p), Join(Words(p));
    WordsSnoc(p, c);
    LeadSnoc(p, c);
    if ws == [] {
      assert Output(p) == Lead(p) && Output(p + [c]) == "-";
    } else {
      JoinEnds(ws);
      assert Output(p + [c]) == Lead(p) + j + "-";
      if Trail(p) == "" {
        assert Output(p) == Lead(p) + j && Output(p)[|Output(p)| - 1] == j[|j| - 1];
      }
    }
  }

  lemma JoinAfterAlphanumeric(p: string, c: char)
    requires IsAsciiAlphanumeric(c)
    ensures Join(Words(p + [c])) == Join(Words(p)) + Trail(p) + [AsciiLower(c)]
  {
    var ws := Words(p);
    WordsSnoc(p, c);
    if p != "" && IsAsciiAlphanumeric(p[|p| - 1]) {
      JoinExtend(ws, AsciiLower(c));
    } else {
      JoinAppend(ws, [AsciiLower(c)]);
    }
  }

  lemma EndsAfterAlphanumeric(p: string, c: char)
    requires IsAsciiAlphanumeric(c)
    ensures Lead(p + [c]) == Lead(p) && Trail(p + [c]) == ""
  {
    LeadSnoc(p, c);
  }

  lemma Regroup(a: string, b: string, c: string, d: string)
    ensures a + (b + c + d) + "" == a + b + c + d
  {
  }

  lemma OutputAfterAlphanumeric(p: string, c: char)
    requires IsAsciiAlphanumeric(c)
    ensures Output(p + [c]) == Output(p) + [AsciiLower(c)]
  {
    JoinAfterAlphanumeric(p, c);
    EndsAfterAlphanumeric(p, c);
    Regroup(Lead(p), Join(Words(p)), Trail(p), [AsciiLower(c)]);
  }

  /** One step of the loop. */
  lemma OutputAfter(s: string, i: nat)
    requires i < |s|
    ensures var out := Output(s[..i]);
            Output(s[..i + 1]) ==
            if IsAsciiAlphanumeric(s[i]) then out + [AsciiLower(s[i])]
            else if out == "" || out[|out| - 1] != '-' then out + "-" else out
  {
    assert s[..i + 1] == s[..i] + [s[i]];
    if IsAsciiAlphanumeric(s[i]) {
      OutputAfterAlphanumeric(s[..i], s[i]);
    } else {
      OutputAfterOther(s[..i], s[i]);
    }
  }

  lemma TrimmedOutput(s: string)
    ensures TrimHyphens(Output(s)) == Join(Words(s))
    ensures Join(Words(s)) == "" <==> Words(s) == []
  {
    var ws := Words(s);
    if ws != [] {
      JoinEnds(ws);
      TrimAroundWords(Lead(s), Join(ws), Trail(s));
    }
  }

  lemma TrimAroundWords(lead: string, core: string, trail: string)
    requires (lead == "" || lead == "-") && (trail == "" || trail == "-")
    requires core != "" && core[0] != '-' && core[|core| - 1] != '-'
    ensures TrimHyphens(lead + core + trail) == core
  {
    var rest := core + trail;
    assert lead + core + trail == lead + rest;
    if lead == "-" { assert (lead + rest)[1..] == rest; } else { assert lead + rest == rest; }
    assert TrimHyphensStart(rest) == rest && TrimHyphensEnd(core) == core;
    if trail == "-" { assert rest[..|rest| - 1] == core; } else { assert rest == core; }
  }

  // ----- The letters of a slug -----

  /** The ASCII letters and digits of a text, capitals as small letters. */
  function Letters(s: string): string {
    if s == "" then ""
    else
      var c := s[|s| - 1];
      Letters(s[..|s| - 1]) +
      if 'a' <= c <= 'z' || '0' <= c <= '9' then [c]
      else if 'A' <= c <= 'Z' then [(c as int + 32) as char]
      else ""
  }

  lemma {:induction false} LettersConcat(a: string, b: string)
    ensures Letters(a + b) == Letters(a) + Letters(b)
  {
    if b == "" {
      assert a + b == a;
    } else {
      assert (a + b)[..|a + b| - 1] == a + b[..|b| - 1];
      LettersConcat(a, b[..|b| - 1]);
    }
  }

  lemma {:induction false} WordIsLetters(w: string)
    requires forall i :: 0 <= i < |w| ==> IsWordChar(w[i])
    ensures Letters(w) == w
  {
    if w != "" {
      WordIsLetters(w[..|w| - 1]);
      assert w == w[..|w| - 1] + [w[|w| - 1]];
    }
  }

  /** Joining adds hyphens only. */
  lemma JoinLetters(ws: seq<string>, w: string)
    requires IsWord(w)
    ensures Letters(Join(ws + [w])) == Letters(Join(ws)) + w
  {
    WordIsLetters(w);
    var all := ws + [w];
    assert all[..|all| - 1] == ws;
    if ws == [] {
      assert Letters("") + w == w;
    } else {
      LettersConcat(Join(ws) + "-", w);
      LettersConcat(Join(ws), "-");
      assert Letters("-") == "";
    }
  }

  lemma LetterAfter(s: string, c: char)
    ensures Letters(s + [c]) == Letters(s) + if IsAsciiAlphanumeric(c) then [AsciiLower(c)] else ""
  {
    assert (s + [c])[..|s|] == s;
  }

  /** The words have the letters and digits of the text, in order, none lost and none added. */
  lemma {:induction false} WordsLetters(s: string)
    ensures Letters(Join(Words(s))) == Letters(s)
  {
    if s != "" {
      var n := |s| - 1;
      WordsLetters(s[..n]);
      assert s == s[..n] + [s[n]];
      LetterAfter(s[..n], s[n]);
      WordsGrow(s);
    }
  }

  lemma WordsGrow(s: string)
    requires s != ""
    ensures var n := |s| - 1;
            Letters(Join(Words(s))) ==
            Letters(Join(Words(s[..n]))) + if IsAsciiAlphanumeric(s[n]) then [AsciiLower(s[n])] else ""
  {
    var n := |s| - 1;
    if IsAsciiAlphanumeric(s[n]) {
      if n > 0 && IsAsciiAlphanumeric(s[n - 1]) { WordGrows(s); } else { WordBegins(s); }
    }
  }

  lemma WordGrows(s: string)
    requires |s| > 1 && IsAsciiAlphanumeric(s[|s| - 1]) && IsAsciiAlphanumeric(s[|s| - 2])
    ensures Letters(Join(Words(s))) == Letters(Join(Words(s[..|s| - 1]))) + [AsciiLower(s[|s| - 1])]
  {
    var ws := Words(s[..|s| - 1]);
    assert Words(s) == ExtendLast(ws, AsciiLower(s[|s| - 1]));
    LastGrows(ws, AsciiLower(s[|s| - 1]));
  }

  lemma WordBegins(s: string)
    requires s != "" && IsAsciiAlphanumeric(s[|s| - 1]) && (|s| > 1 ==> !IsAsciiAlphanumeric(s[|s| - 2]))
    ensures Letters(Join(Words(s))) == Letters(Join(Words(s[..|s| - 1]))) + [AsciiLower(s[|s| - 1])]
  {
    var w := [AsciiLower(s[|s| - 1])];
    assert IsWord(w) && Words(s) == Words(s[..|s| - 1]) + [w];
    JoinLetters(Words(s[..|s| - 1]), w);
  }

  lemma LastGrows(ws: seq<string>, c: char)
    requires ws != [] && IsWordChar(c) && forall w :: w in ws ==> IsWord(w)
    ensures Letters(Join(ExtendLast(ws, c))) == Letters(Join(ws)) + [c]
  {
    var init, last := ws[..|ws| - 1], ws[|ws| - 1];
    assert IsWord(last) && IsWord(last + [c]);
    assert ws == init + [last] && ExtendLast(ws, c) == init + [last + [c]];
    JoinLetters(init, last);
    JoinLetters(init, last + [c]);
    assert Letters(Join(init)) + (last + [c]) == Letters(Join(init)) + last + [c];
  }

  /** Without its hyphens a slug is the letters and digits of the file's stem, or "dat" if it has none. */
  lemma SlugLetters(path: string)
    ensures var stem := FileStem(path);
            var letters := Letters(if stem.Some? then stem.value else "dat");
            if letters == "" then SlugOf(path) == "dat" else Letters(SlugOf(path)) == letters
  {
    var stem := FileStem(path);
    var s := if stem.Some? then stem.value else "dat";
    WordsLetters(s);
    if Words(s) == [] { NoLetters(s); } else { SomeLetters(s); }
  }

  lemma {:induction false} NoLetters(s: string)
    requires forall i :: 0 <= i < |s| ==> !IsAsciiAlphanumeric(s[i])
    ensures Letters(s) == ""
  {
    if s != "" { NoLetters(s[..|s| - 1]); }
  }

  lemma SomeLetters(s: string)
    requires Words(s) != []
    ensures Letters(Join(Words(s))) != ""
  {
    var ws := Words(s);
    var init, last := ws[..|ws| - 1], ws[|ws| - 1];
    assert IsWord(last) && ws == init + [last];
    JoinLetters(init, last);
  }

  // ----- The shape of a slug -----

  /** Lower-case letters, digits and single inner hyphens. */
  ghost predicate IsSlug(s: string) {
    s != "" && s[|s| - 1] != '-' && IsSlugPrefix(s)
  }

  ghost predicate IsSlugPrefix(s: string) {
    && (forall i :: 0 <= i < |s| ==> IsWordChar(s[i]) || s[i] == '-')
    && (s != "" ==> s[0] != '-')
    && forall i :: 0 < i < |s| ==> !(s[i - 1] == '-' && s[i] == '-')
  }

  lemma {:induction false} JoinIsSlug(ws: seq<string>)
    requires ws != [] && forall w :: w in ws ==> IsWord(w)
    ensures IsSlug(Join(ws))
  {
    assert IsWord(ws[|ws| - 1]);
    if |ws| > 1 {
      var init, w := Join(ws[..|ws| - 1]), ws[|ws| - 1];
      JoinIsSlug(ws[..|ws| - 1]);
      var j := Join(ws);
      assert forall i :: 0 <= i < |j| ==>
        j[i] == if i < |init| then init[i] else if i == |init| then '-' else w[i - |init| - 1];
    }
  }

  lemma DatIsSlug()
    ensures IsSlug("dat")
  {
  }

  /** Every path gives a slug. */
  lemma SlugShape(path: string)
    ensures IsSlug(SlugOf(path))
  {
    var stem := FileStem(path);
    var ws := Words(if stem.Some? then stem.value else "dat");
    if ws != [] { JoinIsSlug(ws); } else { DatIsSlug(); }
  }

  lemma InitIsSlugPrefix(s: string)
    requires IsSlugPrefix(s) && s != ""
    ensures var init, c := s[..|s| - 1], s[|s| - 1];
            && IsSlugPrefix(init)
            && if IsAsciiAlphanumeric(c) then AsciiLower(c) == c
               else c == '-' && init != "" && init[|init| - 1] != '-'
  {
  }

  /** In slug shape, a text is its own words joined. */
  lemma {:induction false} SlugPrefixIsJoined(s: string)
    requires IsSlugPrefix(s)
    ensures s == Output(s)
  {
    if s != "" {
      var init, c := s[..|s| - 1], s[|s| - 1];
      InitIsSlugPrefix(s);
      SlugPrefixIsJoined(init);
      if IsAsciiAlphanumeric(c) { OutputAfterAlphanumeric(init, c); } else { OutputAfterOther(init, c); }
      assert s == init + [c];
    }
  }

  lemma SlugIsJoined(s: string)
    requires IsSlug(s)
    ensures Words(s) != [] && Join(Words(s)) == s
  {
    SlugPrefixIsJoined(s);
    assert IsWordChar(s[0]) && IsWordChar(s[|s| - 1]);
    assert Lead(s) == "" && Trail(s) == "";
  }

  /** The slugs are exactly the texts the derivation leaves alone. */
  lemma FixedExactlyBySlugs(s: string)
    ensures SlugOf(s) == s <==> IsSlug(s)
  {
    SlugShape(s);
    if IsSlug(s) {
      NoSeparators(s);
      PlainName(s);
      SlugIsJoined(s);
    }
  }

  lemma NoSeparators(s: string)
    requires IsSlug(s)
    ensures '/' !in s && '.' !in s
  {
  }

  /** A slug taken as a path gives itself, for every path. */
  lemma SlugTwice(path: string)
    ensures SlugOf(SlugOf(path)) == SlugOf(path)
  {
    SlugShape(path);
    FixedExactlyBySlugs(SlugOf(path));
  }
}
