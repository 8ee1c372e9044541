/** Command lines of any shape: every accepted one is a rearrangement of well-formed groups. */
module SetupVectors {
  import opened Wrappers
  import opened TokenVector
  import opened SetupOptions
  import opened SetupLaws

  // ----- What one extraction takes -----

  /** The tokens of `s` are those of the groups and of `rest`. */
  ghost predicate Accounts(s: seq<string>, gs: seq<Group>, rest: seq<string>) {
    AllWellFormed(gs) && multiset(s) == multiset(Flatten(gs) + rest)
  }

  /** Switches and pairs under the given names. */
  ghost predicate Under(gs: seq<Group>, names: set<string>) {
    forall g :: g in gs ==> !g.Positional? && Name(g) in names
  }

  function PairOf(key: string, value: Option<string>): seq<Group> {
    if value.Some? then [Pair(key, value.value)] else []
  }

  function Copies(name: string, n: nat): (gs: seq<Group>)
    ensures Under(gs, {name}) && forall x :: Switch(x) in gs <==> x == name && n > 0
  {
    if n == 0 then [] else [Switch(name)] + Copies(name, n - 1)
  }

  lemma {:induction false} ConcatValues(a: seq<Group>, b: seq<Group>, key: string)
    ensures Values(a + b, key) == Values(a, key) + Values(b, key)
  {
    if a == [] {
      assert a + b == b;
    } else {
      assert (a + b)[1..] == a[1..] + b;
      ConcatValues(a[1..], b, key);
    }
  }

  lemma {:induction false} ConcatTokens(a: seq<Group>, b: seq<Group>)
    ensures Flatten(a + b) == Flatten(a) + Flatten(b)
  {
    if a == [] {
      assert a + b == b;
    } else {
      assert (a + b)[1..] == a[1..] + b;
      ConcatTokens(a[1..], b);
    }
  }

  lemma {:induction false} ConcatPositionals(a: seq<Group>, b: seq<Group>)
    ensures Positionals(a + b) == Positionals(a) + Positionals(b)
  {
    if a == [] {
      assert a + b == b;
    } else {
      assert (a + b)[1..] == a[1..] + b;
      ConcatPositionals(a[1..], b);
    }
  }

  lemma {:induction false} NotUnder(gs: seq<Group>, names: set<string>, key: string)
    requires Under(gs, names)
    ensures Positionals(gs) == []
    ensures key !in names ==> Values(gs, key) == [] && Switch(key) !in gs
  {
    if gs != [] {
      assert gs[0] in gs;
      NotUnder(gs[1..], names, key);
    }
  }

  /** What is accounted for in two steps is accounted for. */
  lemma AccountsChain(s: seq<string>, a: seq<Group>, m: seq<string>, b: seq<Group>, rest: seq<string>)
    requires Accounts(s, a, m) && Accounts(m, b, rest)
    ensures Accounts(s, a + b, rest)
    ensures forall x :: x in rest ==> x in m
  {
    ConcatTokens(a, b);
    assert multiset(Flatten(a) + m) == multiset(Flatten(a)) + multiset(m);
    assert multiset(Flatten(b) + rest) == multiset(Flatten(b)) + multiset(rest);
    assert multiset(Flatten(a + b) + rest) == multiset(Flatten(a)) + multiset(Flatten(b)) + multiset(rest);
    forall x | x in rest ensures x in m { assert x in multiset(m); }
  }

  lemma {:induction false} ExtractAccounts(s: seq<string>, key: string)
    requires ExtractValue(s, key).Ok?
    ensures var (value, rest) := ExtractValue(s, key).value;
            multiset(s) == multiset(Taken(key, value) + rest)
  {
    if s != [] {
      var x, t := s[0], s[1..];
      assert s == [x] + t;
      if x == key {
        assert s == [key, s[1]] + s[2..];
      } else {
        ExtractAccounts(t, key);
        var (value, rest) := ExtractValue(t, key).value;
        PutBehind(x, Taken(key, value), rest);
      }
    }
  }

  function Taken(key: string, value: Option<string>): seq<string> {
    if value.Some? then [key, value.value] else []
  }

  lemma PutBehind(x: string, taken: seq<string>, rest: seq<string>)
    ensures multiset(taken + ([x] + rest)) == multiset([x]) + multiset(taken + rest)
  {
  }

  lemma {:induction false} ValueIsNoOption(s: seq<string>, key: string)
    requires ExtractValue(s, key).Ok? && ExtractValue(s, key).value.0.Some?
    ensures !("--" <= ExtractValue(s, key).value.0.value)
  {
    if s[0] != key { ValueIsNoOption(s[1..], key); }
  }

  lemma KeyPiece(s: seq<string>, key: string)
    requires IsKey(key) && ExtractValue(s, key).Ok?
    ensures var (value, rest) := ExtractValue(s, key).value;
            && Accounts(s, PairOf(key, value), rest) && Under(PairOf(key, value), {key})
            && Values(PairOf(key, value), key) == Optional(value) && key !in rest
  {
    ExtractAccounts(s, key);
    var value := ExtractValue(s, key).value.0;
    if value.Some? { ValueIsNoOption(s, key); }
    if value.Some? { assert Flatten(PairOf(key, value)) == [key, value.value]; }
  }

  lemma {:induction false} CopiesCount(name: string, n: nat)
    requires IsSwitch(name)
    ensures AllWellFormed(Copies(name, n)) && multiset(Flatten(Copies(name, n))) == multiset{}[name := n]
  {
    if n > 0 {
      CopiesCount(name, n - 1);
      var c := Copies(name, n - 1);
      assert Copies(name, n)[1..] == c;
      assert Flatten(Copies(name, n)) == [name] + Flatten(c);
    }
  }

  lemma {:induction false} WithoutCount(s: seq<string>, name: string)
    ensures multiset(Without(s, name)) == multiset(s)[name := 0]
  {
    if s != [] {
      assert s == [s[0]] + s[1..];
      WithoutCount(s[1..], name);
    }
  }

  lemma SwitchPiece(s: seq<string>, name: string)
    requires IsSwitch(name)
    ensures Accounts(s, Copies(name, multiset(s)[name]), Without(s, name))
  {
    CopiesCount(name, multiset(s)[name]);
    WithoutCount(s, name);
  }

  // ----- The parts of the parser -----

  /** A part of the parser took these groups, all under these names, and left no such name behind. */
  ghost predicate Took(s: seq<string>, gs: seq<Group>, rest: seq<string>, names: set<string>) {
    && Accounts(s, gs, rest) && Under(gs, names)
    && (forall x :: x in names ==> x !in rest) && (forall x :: x in rest ==> x in s)
  }

  lemma TookChain(s: seq<string>, a: seq<Group>, m: seq<string>, b: seq<Group>, rest: seq<string>,
                  names: set<string>, names': set<string>)
    requires Took(s, a, m, names) && Took(m, b, rest, names')
    ensures Took(s, a + b, rest, names + names')
  {
    AccountsChain(s, a, m, b, rest);
  }

  lemma KeyTook(s: seq<string>, key: string, value: Option<string>, rest: seq<string>) returns (gs: seq<Group>)
    requires IsKey(key) && ExtractValue(s, key) == Ok((value, rest))
    ensures Took(s, gs, rest, {key}) && Values(gs, key) == Optional(value)
  {
    gs := PairOf(key, value);
    KeyPiece(s, key);
    forall x | x in rest ensures x in s { assert x in multiset(s); }
  }

  lemma SwitchTook(s: seq<string>, name: string) returns (gs: seq<Group>)
    requires IsSwitch(name)
    ensures Took(s, gs, Without(s, name), {name}) && (Switch(name) in gs <==> name in s)
  {
    gs := Copies(name, multiset(s)[name]);
    SwitchPiece(s, name);
    forall x | x in Without(s, name) ensures x in s { assert x in multiset(s); }
  }

  /** Four keys taken in turn. */
  lemma FourTaken(s0: seq<string>, s1: seq<string>, s2: seq<string>, s3: seq<string>, s4: seq<string>,
                  k1: string, v1: Option<string>, k2: string, v2: Option<string>,
                  k3: string, v3: Option<string>, k4: string, v4: Option<string>)
    returns (gs: seq<Group>)
    requires IsKey(k1) && IsKey(k2) && IsKey(k3) && IsKey(k4)
    requires k1 != k2 && k1 != k3 && k1 != k4 && k2 != k3 && k2 != k4 && k3 != k4
    requires ExtractValue(s0, k1) == Ok((v1, s1)) && ExtractValue(s1, k2) == Ok((v2, s2))
    requires ExtractValue(s2, k3) == Ok((v3, s3)) && ExtractValue(s3, k4) == Ok((v4, s4))
    ensures Took(s0, gs, s4, {k1, k2, k3, k4})
    ensures Values(gs, k1) == Optional(v1) && Values(gs, k2) == Optional(v2)
    ensures Values(gs, k3) == Optional(v3) && Values(gs, k4) == Optional(v4)
  {
    var a := TwoTaken(s0, s1, s2, k1, v1, k2, v2);
    var b := TwoTaken(s2, s3, s4, k3, v3, k4, v4);
    gs := a + b;
    TookChain(s0, a, s2, b, s4, {k1, k2}, {k3, k4});
    assert {k1, k2} + {k3, k4} == {k1, k2, k3, k4};
    PairsRead(a, b, k1, k2, k3, k4);
  }

  lemma PairsRead(a: seq<Group>, b: seq<Group>, k1: string, k2: string, k3: string, k4: string)
    requires Under(a, {k1, k2}) && Under(b, {k3, k4})
    requires k1 != k3 && k1 != k4 && k2 != k3 && k2 != k4
    ensures Values(a + b, k1) == Values(a, k1) && Values(a + b, k2) == Values(a, k2)
    ensures Values(a + b, k3) == Values(b, k3) && Values(a + b, k4) == Values(b, k4)
  {
    Apart(a, b, {k1, k2}, {k3, k4}, k1);
    Apart(a, b, {k1, k2}, {k3, k4}, k2);
    Apart(a, b, {k1, k2}, {k3, k4}, k3);
    Apart(a, b, {k1, k2}, {k3, k4}, k4);
  }

  lemma TwoTaken(s0: seq<string>, s1: seq<string>, s2: seq<string>,
                 k1: string, v1: Option<string>, k2: string, v2: Option<string>)
    returns (gs: seq<Group>)
    requires IsKey(k1) && IsKey(k2) && k1 != k2
    requires ExtractValue(s0, k1) == Ok((v1, s1)) && ExtractValue(s1, k2) == Ok((v2, s2))
    ensures Took(s0, gs, s2, {k1, k2})
    ensures Values(gs, k1) == Optional(v1) && Values(gs, k2) == Optional(v2)
  {
    var a := KeyTook(s0, k1, v1, s1);
    var b := KeyTook(s1, k2, v2, s2);
    gs := a + b;
    TookChain(s0, a, s1, b, s2, {k1}, {k2});
    assert {k1} + {k2} == {k1, k2};
    Apart(a, b, {k1}, {k2}, k1);
    Apart(a, b, {k1}, {k2}, k2);
  }

  /** Groups under different names do not disturb each other. */
  lemma Apart(a: seq<Group>, b: seq<Group>, names: set<string>, names': set<string>, name: string)
    requires Under(a, names) && Under(b, names')
    ensures name !in names' ==> Values(a + b, name) == Values(a, name) && (Switch(name) in a + b <==> Switch(name) in a)
    ensures name !in names ==> Values(a + b, name) == Values(b, name) && (Switch(name) in a + b <==> Switch(name) in b)
  {
    ConcatValues(a, b, name);
    NotUnder(a, names, name);
    NotUnder(b, names', name);
  }

  lemma TwoSwitched(s: seq<string>, a: string, b: string) returns (gs: seq<Group>)
    requires IsSwitch(a) && IsSwitch(b) && a != b
    ensures Took(s, gs, Without(Without(s, a), b), {a, b})
    ensures (Switch(a) in gs <==> a in s) && (Switch(b) in gs <==> b in Without(s, a))
  {
    var s1 := Without(s, a);
    var c := SwitchTook(s, a);
    var d := SwitchTook(s1, b);
    gs := c + d;
    TookChain(s, c, s1, d, Without(s1, b), {a}, {b});
    assert {a} + {b} == {a, b};
    Apart(c, d, {a}, {b}, a);
    Apart(c, d, {a}, {b}, b);
  }

  const EARLY: set<string> := {"--json", "--dry-run", "--yes", "--replace-different"}
  const TARGETS: set<string> := {"--profile", "--database", "--config", "--source"}
  const LATE: set<string> := {"--force-refresh", "--offline"}
  const STORAGE: set<string> := {"--cache-root", "--max-download-bytes"}

  lemma EarlySwitches(s: seq<string>) returns (gs: seq<Group>)
    ensures var (w, rest) := ParseSwitches(s); Took(s, gs, rest, EARLY) && SwitchesOf(gs) == w
  {
    var s2 := Without(Without(s, "--json"), "--dry-run");
    var a := TwoSwitched(s, "--json", "--dry-run");
    var b := TwoSwitched(s2, "--yes", "--replace-different");
    gs := a + b;
    var A, B := {"--json", "--dry-run"}, {"--yes", "--replace-different"};
    TookChain(s, a, s2, b, ParseSwitches(s).1, A, B);
    assert A + B == EARLY;
    Apart(a, b, A, B, "--json");
    Apart(a, b, A, B, "--dry-run");
    Apart(a, b, A, B, "--yes");
    Apart(a, b, A, B, "--replace-different");
  }

  lemma TargetGroups(s: seq<string>, env: Defaults) returns (gs: seq<Group>)
    requires ParseTargets(s, env).Ok?
    ensures var (t, rest) := ParseTargets(s, env).value; Took(s, gs, rest, TARGETS) && TargetsOf(gs, env) == Ok(t)
  {
    var (v1, s1) := ExtractValue(s, "--profile").value;
    var (v2, s2) := ExtractValue(s1, "--database").value;
    var (v3, s3) := ExtractValue(s2, "--config").value;
    var (v4, s4) := ExtractValue(s3, "--source").value;
    gs := FourTaken(s, s1, s2, s3, s4, "--profile", v1, "--database", v2, "--config", v3, "--source", v4);
  }

  lemma StorageGroups(s: seq<string>, env: Defaults) returns (gs: seq<Group>)
    requires ParseStorage(s, env).Ok?
    ensures var (root, size, rest) := ParseStorage(s, env).value;
            Took(s, gs, rest, STORAGE) && StorageOf(gs, env) == Ok((root, size))
  {
    var (v1, s1) := ExtractValue(s, "--cache-root").value;
    var (v2, s2) := ExtractValue(s1, "--max-download-bytes").value;
    gs := TwoTaken(s, s1, s2, "--cache-root", v1, "--max-download-bytes", v2);
  }

  /** The groups of the retrieval options; `--json` was read before them. */
  lemma RetrievalGroups(s: seq<string>, json: bool, env: Defaults) returns (gs: seq<Group>)
    requires ParseRetrieval(s, json, env).Ok?
    ensures var (r, rest) := ParseRetrieval(s, json, env).value;
            Took(s, gs, rest, LATE + ({"--expected-sha256"} + STORAGE)) && RetrievalReadOff(gs, env, r, json)
  {
    var a := TwoSwitched(s, "--force-refresh", "--offline");
    var s2 := Without(Without(s, "--force-refresh"), "--offline");
    var (sha, s3) := ExtractValue(s2, "--expected-sha256").value;
    var b := KeyTook(s2, "--expected-sha256", sha, s3);
    var c := StorageGroups(s3, env);
    var rest := ParseStorage(s3, env).value.2;
    TookChain(s2, b, s3, c, rest, {"--expected-sha256"}, STORAGE);
    TookChain(s, a, s2, b + c, rest, LATE, {"--expected-sha256"} + STORAGE);
    gs := a + (b + c);
    ReadOff(a, b, c, env, ParseRetrieval(s, json, env).value.0, json);
  }

  /** The groups mean these retrieval options, with `--json` read elsewhere. */
  ghost predicate RetrievalReadOff(gs: seq<Group>, env: Defaults, r: Retrieval, json: bool) {
    && Single(gs, "--expected-sha256") == Ok(r.expectedSha256) && StorageOf(gs, env) == Ok((r.cacheRoot, r.maxDownloadBytes))
    && (Switch("--force-refresh") in gs <==> r.forceRefresh) && (Switch("--offline") in gs <==> r.offline)
    && r.json == json
  }

  lemma SameStorage(gs: seq<Group>, hs: seq<Group>, env: Defaults)
    requires Values(gs, "--cache-root") == Values(hs, "--cache-root")
    requires Values(gs, "--max-download-bytes") == Values(hs, "--max-download-bytes")
    ensures StorageOf(gs, env) == StorageOf(hs, env)
  {
  }

  lemma ReadOff(a: seq<Group>, b: seq<Group>, c: seq<Group>, env: Defaults, r: Retrieval, json: bool)
    requires Under(a, LATE) && Under(b, {"--expected-sha256"}) && Under(c, STORAGE)
    requires Switch("--force-refresh") in a <==> r.forceRefresh
    requires Switch("--offline") in a <==> r.offline
    requires Values(b, "--expected-sha256") == Optional(r.expectedSha256) && r.json == json
    requires StorageOf(c, env) == Ok((r.cacheRoot, r.maxDownloadBytes))
    ensures RetrievalReadOff(a + (b + c), env, r, json)
  {
    var sha := {"--expected-sha256"};
    Apart(a, b + c, LATE, sha + STORAGE, "--force-refresh");
    Apart(a, b + c, LATE, sha + STORAGE, "--offline");
    Apart(a, b + c, LATE, sha + STORAGE, "--expected-sha256");
    Apart(a, b + c, LATE, sha + STORAGE, "--cache-root");
    Apart(a, b + c, LATE, sha + STORAGE, "--max-download-bytes");
    Apart(b, c, sha, STORAGE, "--expected-sha256");
    Apart(b, c, sha, STORAGE, "--cache-root");
    Apart(b, c, sha, STORAGE, "--max-download-bytes");
    SameStorage(a + (b + c), c, env);
  }

  function AsPositionals(tokens: seq<string>): (gs: seq<Group>)
    ensures forall g :: g in gs ==> g.Positional? && g.token in tokens
    ensures Flatten(gs) == tokens && Positionals(gs) == tokens
  {
    if tokens == [] then [] else [Positional(tokens[0])] + AsPositionals(tokens[1..])
  }

  lemma {:induction false} NoNames(gs: seq<Group>, name: string)
    requires forall g :: g in gs ==> g.Positional?
    ensures Values(gs, name) == [] && Switch(name) !in gs
  {
    if gs != [] {
      assert gs[0].Positional?;
      NoNames(gs[1..], name);
    }
  }

  // ----- The whole parser -----

  /** What the options are read from. */
  ghost predicate SameReadings(gs: seq<Group>, hs: seq<Group>) {
    forall name :: Values(gs, name) == Values(hs, name) && (Switch(name) in gs <==> Switch(name) in hs)
  }

  lemma TargetsAgree(gs: seq<Group>, hs: seq<Group>, env: Defaults)
    requires Values(gs, "--profile") == Values(hs, "--profile") && Values(gs, "--database") == Values(hs, "--database")
    requires Values(gs, "--config") == Values(hs, "--config") && Values(gs, "--source") == Values(hs, "--source")
    ensures TargetsOf(gs, env) == TargetsOf(hs, env)
  {
  }

  lemma RetrievalAgrees(gs: seq<Group>, hs: seq<Group>, env: Defaults)
    requires StorageOf(gs, env) == StorageOf(hs, env) && Single(gs, "--expected-sha256") == Single(hs, "--expected-sha256")
    requires Switch("--json") in gs <==> Switch("--json") in hs
    requires Switch("--force-refresh") in gs <==> Switch("--force-refresh") in hs
    requires Switch("--offline") in gs <==> Switch("--offline") in hs
    ensures RetrievalOf(gs, env) == RetrievalOf(hs, env)
  {
  }

  lemma ReadAlike(gs: seq<Group>, hs: seq<Group>, name: string)
    requires SameReadings(gs, hs)
    ensures Values(gs, name) == Values(hs, name) && (Switch(name) in gs <==> Switch(name) in hs)
  {
  }

  lemma SwitchesDecide(gs: seq<Group>, hs: seq<Group>)
    requires SameReadings(gs, hs)
    ensures SwitchesOf(gs) == SwitchesOf(hs)
  {
  }

  lemma TargetsDecide(gs: seq<Group>, hs: seq<Group>, env: Defaults)
    requires SameReadings(gs, hs)
    ensures TargetsOf(gs, env) == TargetsOf(hs, env)
  {
    ReadAlike(gs, hs, "--profile");
    ReadAlike(gs, hs, "--database");
    ReadAlike(gs, hs, "--config");
    ReadAlike(gs, hs, "--source");
    TargetsAgree(gs, hs, env);
  }

  lemma StorageDecides(gs: seq<Group>, hs: seq<Group>, env: Defaults)
    requires SameReadings(gs, hs)
    ensures StorageOf(gs, env) == StorageOf(hs, env)
  {
    ReadAlike(gs, hs, "--cache-root");
    ReadAlike(gs, hs, "--max-download-bytes");
    SameStorage(gs, hs, env);
  }

  lemma SingleAlike(gs: seq<Group>, hs: seq<Group>, key: string)
    requires SameReadings(gs, hs)
    ensures Single(gs, key) == Single(hs, key)
  {
  }

  lemma SwitchAlike(gs: seq<Group>, hs: seq<Group>, name: string)
    requires SameReadings(gs, hs)
    ensures Switch(name) in gs <==> Switch(name) in hs
  {
  }

  lemma RetrievalDecides(gs: seq<Group>, hs: seq<Group>, env: Defaults)
    requires SameReadings(gs, hs)
    ensures RetrievalOf(gs, env) == RetrievalOf(hs, env)
  {
    StorageDecides(gs, hs, env);
    SingleAlike(gs, hs, "--expected-sha256");
    SwitchAlike(gs, hs, "--json");
    SwitchAlike(gs, hs, "--force-refresh");
    SwitchAlike(gs, hs, "--offline");
    RetrievalAgrees(gs, hs, env);
  }

  lemma PositionalsAppended(gs: seq<Group>, tokens: seq<string>, env: Defaults)
    requires Positionals(gs) == []
    ensures SameReadings(gs + AsPositionals(tokens), gs)
    ensures Positionals(gs + AsPositionals(tokens)) == tokens
    ensures Flatten(gs + AsPositionals(tokens)) == Flatten(gs) + tokens
  {
    var q := AsPositionals(tokens);
    forall name
      ensures Values(gs + q, name) == Values(gs, name) && (Switch(name) in gs + q <==> Switch(name) in gs)
    {
      ConcatValues(gs, q, name);
      NoNames(q, name);
    }
    ConcatTokens(gs, q);
    ConcatPositionals(gs, q);
  }

  const RETRIEVAL: set<string> := LATE + ({"--expected-sha256"} + STORAGE)

  lemma SwitchesFrom(w: seq<Group>, t: seq<Group>, r: seq<Group>)
    requires Under(w, EARLY) && Under(t, TARGETS) && Under(r, RETRIEVAL)
    ensures SwitchesOf(w + (t + r)) == SwitchesOf(w)
  {
    Apart(w, t + r, EARLY, TARGETS + RETRIEVAL, "--json");
    Apart(w, t + r, EARLY, TARGETS + RETRIEVAL, "--dry-run");
    Apart(w, t + r, EARLY, TARGETS + RETRIEVAL, "--yes");
    Apart(w, t + r, EARLY, TARGETS + RETRIEVAL, "--replace-different");
  }

  lemma MiddleOnly(w: seq<Group>, t: seq<Group>, r: seq<Group>, key: string)
    requires Under(w, EARLY) && Under(t, TARGETS) && Under(r, RETRIEVAL)
    requires key in TARGETS && key !in EARLY && key !in RETRIEVAL
    ensures Values(w + (t + r), key) == Values(t, key)
  {
    Apart(w, t + r, EARLY, TARGETS + RETRIEVAL, key);
    Apart(t, r, TARGETS, RETRIEVAL, key);
  }

  lemma LastOnly(w: seq<Group>, t: seq<Group>, r: seq<Group>, name: string)
    requires Under(w, EARLY) && Under(t, TARGETS) && Under(r, RETRIEVAL)
    requires name in RETRIEVAL && name !in EARLY && name !in TARGETS
    ensures Values(w + (t + r), name) == Values(r, name)
    ensures Switch(name) in w + (t + r) <==> Switch(name) in r
  {
    Apart(w, t + r, EARLY, TARGETS + RETRIEVAL, name);
    Apart(t, r, TARGETS, RETRIEVAL, name);
  }

  lemma TargetsFrom(w: seq<Group>, t: seq<Group>, r: seq<Group>, env: Defaults)
    requires Under(w, EARLY) && Under(t, TARGETS) && Under(r, RETRIEVAL)
    ensures TargetsOf(w + (t + r), env) == TargetsOf(t, env)
  {
    MiddleOnly(w, t, r, "--profile");
    MiddleOnly(w, t, r, "--database");
    MiddleOnly(w, t, r, "--config");
    MiddleOnly(w, t, r, "--source");
  }

  lemma StorageFrom(w: seq<Group>, t: seq<Group>, r: seq<Group>, env: Defaults)
    requires Under(w, EARLY) && Under(t, TARGETS) && Under(r, RETRIEVAL)
    ensures StorageOf(w + (t + r), env) == StorageOf(r, env)
  {
    LastOnly(w, t, r, "--cache-root");
    LastOnly(w, t, r, "--max-download-bytes");
    SameStorage(w + (t + r), r, env);
  }

  lemma RetrievalFrom(w: seq<Group>, t: seq<Group>, r: seq<Group>, env: Defaults, v: Retrieval)
    requires Under(w, EARLY) && Under(t, TARGETS) && Under(r, RETRIEVAL)
    requires RetrievalReadOff(r, env, v, Switch("--json") in w)
    ensures RetrievalOf(w + (t + r), env) == Ok(v)
  {
    var gs := w + (t + r);
    SwitchesFrom(w, t, r);
    LastOnly(w, t, r, "--force-refresh");
    LastOnly(w, t, r, "--offline");
    LastOnly(w, t, r, "--expected-sha256");
    StorageFrom(w, t, r, env);
    assert SwitchesOf(gs).json == SwitchesOf(w).json;
  }

  lemma NamesAreSwitchesAndKeys(name: string)
    ensures IsSwitch(name) || IsKey(name) <==> name in EARLY + (TARGETS + RETRIEVAL)
  {
  }

  /** Every accepted command line, whatever its shape, is a rearrangement of well-formed groups that
      parses to the same options. */
  lemma AcceptedRearranges(args: seq<string>, env: Defaults) returns (gs: seq<Group>)
    requires Parse(args, env).Ok?
    ensures AllWellFormed(gs) && multiset(Flatten(gs)) == multiset(args)
    ensures Parse(Flatten(gs), env) == Parse(args, env)
  {
    var (v, s1) := ParseSwitches(args);
    var (t, s2) := ParseTargets(s1, env).value;
    var (r, rest) := ParseRetrieval(s2, v.json, env).value;
    var a := EarlySwitches(args);
    var b := TargetGroups(s1, env);
    var c := RetrievalGroups(s2, v.json, env);
    TookChain(s1, b, s2, c, rest, TARGETS, RETRIEVAL);
    TookChain(args, a, s1, b + c, rest, EARLY, TARGETS + RETRIEVAL);
    gs := a + (b + c) + AsPositionals(rest);
    Gathered(args, a, b, c, rest, env, t, r);
    ParseIsMeaning(gs, env);
  }

  lemma Gathered(args: seq<string>, a: seq<Group>, b: seq<Group>, c: seq<Group>, rest: seq<string>, env: Defaults,
                 t: Targets, r: Retrieval)
    requires Under(a, EARLY) && Under(b, TARGETS) && Under(c, RETRIEVAL)
    requires Took(args, a + (b + c), rest, EARLY + (TARGETS + RETRIEVAL))
    requires TargetsOf(b, env) == Ok(t) && RetrievalReadOff(c, env, r, Switch("--json") in a)
    ensures var gs := a + (b + c) + AsPositionals(rest);
            && AllWellFormed(gs) && multiset(Flatten(gs)) == multiset(args)
            && Meaning(gs, env) == Assemble(SwitchesOf(a), t, r, rest)
  {
    var x := a + (b + c);
    SwitchesFrom(a, b, c);
    TargetsFrom(a, b, c, env);
    RetrievalFrom(a, b, c, env, r);
    NotUnder(x, EARLY + (TARGETS + RETRIEVAL), "");
    PositionalsAppended(x, rest, env);
    var gs := x + AsPositionals(rest);
    SwitchesDecide(gs, x);
    TargetsDecide(gs, x, env);
    RetrievalDecides(gs, x, env);
    forall g | g in AsPositionals(rest) ensures WellFormed(g) { NamesAreSwitchesAndKeys(g.token); }
  }

  // ----- What follows for every command line -----

  lemma {:induction false} KeyTokens(gs: seq<Group>, key: string)
    requires AllWellFormed(gs) && IsKey(key)
    ensures multiset(Flatten(gs))[key] == |Values(gs, key)|
  {
    if gs != [] {
      NameIsOwn(gs[0], key);
      assert OwnKey(gs[0], key);
      KeyTokens(gs[1..], key);
    }
  }

  /** A key that occurs twice is refused, wherever its occurrences stand and whatever else is given. */
  lemma RepeatedKeyRefused(args: seq<string>, key: string, env: Defaults)
    requires IsKey(key) && multiset(args)[key] > 1
    ensures Parse(args, env).Err?
  {
    if Parse(args, env).Ok? {
      var gs := AcceptedRearranges(args, env);
      KeyTokens(gs, key);
      ParseAcceptsExactly(gs, env);
    }
  }

  /** A value is what was written or, where its key was not written, the default. */
  ghost predicate WrittenOrDefault(written: bool, value: string, default: Option<string>) {
    if written then !("--" <= value) else Some(value) == default
  }

  lemma {:induction false} ValueWritten(gs: seq<Group>, key: string, v: string)
    requires AllWellFormed(gs) && v in Values(gs, key)
    ensures !("--" <= v)
  {
    assert WellFormed(gs[0]);
    if gs[0] != Pair(key, v) { ValueWritten(gs[1..], key, v); }
  }

  lemma {:induction false} PositionalWritten(gs: seq<Group>, token: string)
    requires AllWellFormed(gs) && token in Positionals(gs)
    ensures !IsSwitch(token) && !IsKey(token)
  {
    assert WellFormed(gs[0]);
    if gs[0] != Positional(token) { PositionalWritten(gs[1..], token); }
  }

  lemma OptionalWritten(gs: seq<Group>, key: string, v: Option<string>)
    requires AllWellFormed(gs) && Optional(v) == Values(gs, key)
    ensures v.Some? ==> !("--" <= v.value)
  {
    if v.Some? { ValueWritten(gs, key, v.value); }
  }

  lemma GivenWritten(args: seq<string>, gs: seq<Group>, key: string, v: string, default: Option<string>)
    requires AllWellFormed(gs) && IsKey(key) && multiset(Flatten(gs)) == multiset(args)
    requires [v] == Given(Values(gs, key), default)
    ensures WrittenOrDefault(key in args, v, default)
  {
    KeyTokens(gs, key);
    assert key in args <==> multiset(args)[key] > 0;
    if Values(gs, key) != [] { ValueWritten(gs, key, v); }
  }

  /** What every accepted command line yields, whatever its shape: no id or path read from it looks like
      an option, the catalogue path is never an option name, and the database and the cache root are the
      defaults where they were not written. */
  lemma ParsedValues(args: seq<string>, env: Defaults)
    requires Parse(args, env).Ok?
    ensures var o := Parse(args, env).value;
            && Coherent(o) && env.cacheRoot.Some?
            && (o.profileId.Some? ==> !("--" <= o.profileId.value))
            && (o.configurationPath.Some? ==> !("--" <= o.configurationPath.value))
            && (o.sourceId.Some? ==> !("--" <= o.sourceId.value))
            && !IsSwitch(o.cataloguePath) && !IsKey(o.cataloguePath)
            && WrittenOrDefault("--database" in args, o.databasePath, env.database)
            && (o.sourceId.Some? ==>
                  WrittenOrDefault("--cache-root" in args, o.retrieval.value.cacheRoot, env.cacheRoot))
  {
    var o := Parse(args, env).value;
    var gs := AcceptedRearranges(args, env);
    ParsedFields(gs, env, o);
    ReadValues(args, gs, env, o);
    ReadPaths(args, gs, env, o);
  }

  lemma ReadValues(args: seq<string>, gs: seq<Group>, env: Defaults, o: Options)
    requires AllWellFormed(gs) && multiset(Flatten(gs)) == multiset(args) && Reads(gs, env, o)
    ensures o.profileId.Some? ==> !("--" <= o.profileId.value)
    ensures o.configurationPath.Some? ==> !("--" <= o.configurationPath.value)
    ensures o.sourceId.Some? ==> !("--" <= o.sourceId.value)
  {
    OptionalWritten(gs, "--profile", o.profileId);
    OptionalWritten(gs, "--config", o.configurationPath);
    OptionalWritten(gs, "--source", o.sourceId);
  }

  lemma ReadPaths(args: seq<string>, gs: seq<Group>, env: Defaults, o: Options)
    requires AllWellFormed(gs) && multiset(Flatten(gs)) == multiset(args) && Reads(gs, env, o)
    ensures !IsSwitch(o.cataloguePath) && !IsKey(o.cataloguePath)
    ensures WrittenOrDefault("--database" in args, o.databasePath, env.database)
    ensures o.sourceId.Some? ==>
              WrittenOrDefault("--cache-root" in args, o.retrieval.value.cacheRoot, env.cacheRoot)
  {
    GivenWritten(args, gs, "--database", o.databasePath, env.database);
    if o.sourceId.Some? {
      GivenWritten(args, gs, "--cache-root", o.retrieval.value.cacheRoot, env.cacheRoot);
      NameKinds("");
    } else {
      PositionalWritten(gs, o.cataloguePath);
    }
  }
}
