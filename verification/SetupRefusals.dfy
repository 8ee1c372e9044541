/** Which tokens are refused as values, character by character. */
module SetupRefusals {
  import opened Wrappers
  import opened TokenVector
  import opened SetupOptions
  import opened SetupLaws
  import opened SetupVectors
  import opened SetupSwitches

  // ----- What begins with two hyphens is no value -----

  /** The key stands in front of the token `t`, with nothing but switches between them. */
  ghost predicate InFrontOf(s: seq<string>, key: string, t: string) {
    exists p, m, q :: InFrontAt(s, key, t, p, m, q)
  }

  ghost predicate InFrontAt(s: seq<string>, key: string, t: string, p: seq<string>, m: seq<string>, q: seq<string>) {
    s == p + ([key] + m + [t]) + q && forall x :: x in m ==> IsSwitch(x)
  }

  /** A token that begins with two hyphens and is none of the program's names. */
  predicate IsUnknownOption(t: string) {
    "--" <= t && !IsKey(t) && !IsSwitch(t)
  }

  /** Taking a switch out leaves the key in front of the token. */
  lemma SwitchLeaves(s: seq<string>, name: string, key: string, t: string)
    requires InFrontOf(s, key, t) && name != key && name != t
    ensures InFrontOf(Without(s, name), key, t)
  {
    var p, m, q :| InFrontAt(s, key, t, p, m, q);
    WithoutMiddle(p, m, q, name, key, t);
    WithoutCount(m, name);
    forall x | x in Without(m, name) ensures IsSwitch(x) {
      assert x in multiset(Without(m, name));
      assert x in multiset(m);
    }
    assert InFrontAt(Without(s, name), key, t, Without(p, name), Without(m, name), Without(q, name));
  }

  lemma WithoutMiddle(p: seq<string>, m: seq<string>, q: seq<string>, name: string, key: string, t: string)
    requires name != key && name != t
    ensures Without(p + ([key] + m + [t]) + q, name) ==
            Without(p, name) + ([key] + Without(m, name) + [t]) + Without(q, name)
  {
    WithoutConcat(p + ([key] + m + [t]), q, name);
    WithoutConcat(p, [key] + m + [t], name);
    WithoutConcat([key] + m, [t], name);
    WithoutConcat([key], m, name);
    WithoutAbsent([key], name);
    WithoutAbsent([t], name);
  }

  /** The key itself cannot be extracted, and another key leaves it in front of the token. */
  lemma KeyLeaves(s: seq<string>, other: string, key: string, t: string)
    requires InFrontOf(s, key, t) && IsKey(key) && IsUnknownOption(t) && IsKey(other) && ExtractValue(s, other).Ok?
    ensures other != key && InFrontOf(ExtractValue(s, other).value.1, key, t)
  {
    var p, m, q :| InFrontAt(s, key, t, p, m, q);
    NameKinds(key);
    NotSwitch(m, other);
    if other == key {
      NoValueThere(p, m, q, key, t);
    } else {
      var middle := [key] + m + [t];
      if Behind(p, other) {
        NoValueBefore(p, middle, q, other);
      } else {
        ExtractAround(p, middle, q, other);
        var (_, p', q') := Around(p, q, other).value;
        assert InFrontAt(ExtractValue(s, other).value.1, key, t, p', m, q');
      }
    }
  }

  lemma NotSwitch(m: seq<string>, key: string)
    requires IsKey(key) && forall x :: x in m ==> IsSwitch(x)
    ensures key !in m
  {
    NameKinds(key);
  }

  /** What follows a key that is in front of an option begins with two hyphens. */
  lemma NoValueThere(p: seq<string>, m: seq<string>, q: seq<string>, key: string, t: string)
    requires "--" <= t && forall x :: x in m ==> IsSwitch(x)
    ensures ExtractValue(p + ([key] + m + [t]) + q, key).Err?
  {
    var after := m + [t] + q;
    assert p + ([key] + m + [t]) + q == p + ([key] + after);
    if key in p {
      TwiceRefused(p, [key] + after, key);
    } else {
      KeyAt(p, after, key);
      if m != [] { NameKinds(m[0]); }
    }
  }

  lemma NoValueBefore(p: seq<string>, middle: seq<string>, q: seq<string>, key: string)
    requires Behind(p, key) && middle != [] && "--" <= middle[0]
    ensures ExtractValue(p + middle + q, key).Err?
  {
    var init := p[..|p| - 1];
    assert p == init + [key];
    assert p + middle + q == init + ([key] + (middle + q));
    if key in init {
      TwiceRefused(init, [key] + (middle + q), key);
    } else {
      KeyAt(init, middle + q, key);
    }
  }

  lemma SwitchesLeave(s: seq<string>, key: string, t: string)
    requires InFrontOf(s, key, t) && IsKey(key) && IsUnknownOption(t)
    ensures InFrontOf(Kept(s), key, t)
  {
    NameKinds(key);
    var s1 := Without(s, "--json");
    var s2 := Without(s1, "--dry-run");
    var s3 := Without(s2, "--yes");
    SwitchLeaves(s, "--json", key, t);
    SwitchLeaves(s1, "--dry-run", key, t);
    SwitchLeaves(s2, "--yes", key, t);
    SwitchLeaves(s3, "--replace-different", key, t);
  }

  lemma TargetsLeave(s: seq<string>, env: Defaults, key: string, t: string)
    requires InFrontOf(s, key, t) && IsKey(key) && IsUnknownOption(t) && ParseTargets(s, env).Ok?
    ensures key !in TARGETS && InFrontOf(ParseTargets(s, env).value.1, key, t)
  {
    var s1 := ExtractValue(s, "--profile").value.1;
    var s2 := ExtractValue(s1, "--database").value.1;
    var s3 := ExtractValue(s2, "--config").value.1;
    KeyLeaves(s, "--profile", key, t);
    KeyLeaves(s1, "--database", key, t);
    KeyLeaves(s2, "--config", key, t);
    KeyLeaves(s3, "--source", key, t);
  }

  lemma StorageLeaves(s: seq<string>, env: Defaults, key: string, t: string)
    requires InFrontOf(s, key, t) && IsKey(key) && IsUnknownOption(t) && ParseStorage(s, env).Ok?
    ensures key !in STORAGE
  {
    KeyLeaves(s, "--cache-root", key, t);
    KeyLeaves(ExtractValue(s, "--cache-root").value.1, "--max-download-bytes", key, t);
  }

  lemma RetrievalLeaves(s: seq<string>, json: bool, env: Defaults, key: string, t: string)
    requires InFrontOf(s, key, t) && IsKey(key) && IsUnknownOption(t) && ParseRetrieval(s, json, env).Ok?
    ensures key != "--expected-sha256" && key !in STORAGE
  {
    NameKinds(key);
    var s1 := Without(s, "--force-refresh");
    var s2 := Without(s1, "--offline");
    SwitchLeaves(s, "--force-refresh", key, t);
    SwitchLeaves(s1, "--offline", key, t);
    KeyLeaves(s2, "--expected-sha256", key, t);
    StorageLeaves(ExtractValue(s2, "--expected-sha256").value.1, env, key, t);
  }

  /** Whatever else is given, a key is refused in front of an unknown token that begins with two hyphens,
      as it would be of a misspelt switch, even with switches between them. */
  lemma UnknownOptionIsNoValue(p: seq<string>, key: string, m: seq<string>, t: string, q: seq<string>, env: Defaults)
    requires IsKey(key) && (forall x :: x in m ==> IsSwitch(x))
    requires "--" <= t && !IsKey(t) && !IsSwitch(t)
    ensures Parse(p + ([key] + m + [t]) + q, env).Err?
  {
    var s := p + ([key] + m + [t]) + q;
    assert InFrontAt(s, key, t, p, m, q);
    if Parse(s, env).Ok? {
      SwitchesLeave(s, key, t);
      TargetsLeave(Kept(s), env, key, t);
      RetrievalLeaves(ParseTargets(Kept(s), env).value.1, ParseSwitches(s).0.json, env, key, t);
    }
  }

  // ----- And everything else is one -----

  function ProfileAndPath(value: string, path: string): seq<Group> {
    [Pair("--profile", value)] + [Positional(path)]
  }

  lemma TwoRead(value: string, path: string, key: string)
    ensures Values(ProfileAndPath(value, path), key) == if key == "--profile" then [value] else []
  {
    ConcatValues([Pair("--profile", value)], [Positional(path)], key);
  }

  lemma TwoTokens(value: string, path: string)
    ensures Flatten(ProfileAndPath(value, path)) == ["--profile", value, path]
    ensures Positionals(ProfileAndPath(value, path)) == [path]
  {
    ConcatTokens([Pair("--profile", value)], [Positional(path)]);
    ConcatPositionals([Pair("--profile", value)], [Positional(path)]);
  }

  lemma TwoOnce(value: string, path: string)
    ensures forall key :: Once(ProfileAndPath(value, path), key)
  {
    forall key ensures Once(ProfileAndPath(value, path), key) { TwoRead(value, path, key); }
  }

  /** A token after `--profile` is the profile id if and only if it does not begin with two hyphens. */
  lemma ValueIsRead(value: string, path: string, env: Defaults)
    requires !IsSwitch(path) && !IsKey(path) && env.database.Some? && env.cacheRoot.Some?
    ensures var r := Parse(["--profile", value, path], env);
            r.Ok? && r.value.profileId == Some(value) <==> !(|value| >= 2 && value[0] == '-' && value[1] == '-')
  {
    var r := Parse(["--profile", value, path], env);
    if !("--" <= value) {
      ValueAccepted(value, path, env);
    } else if r.Ok? {
      ParsedValues(["--profile", value, path], env);
    }
  }

  lemma ValueAccepted(value: string, path: string, env: Defaults)
    requires !("--" <= value) && !IsSwitch(path) && !IsKey(path) && env.database.Some? && env.cacheRoot.Some?
    ensures var r := Parse(["--profile", value, path], env); r.Ok? && r.value.profileId == Some(value)
  {
    assert IsKey("--profile");
    TwoOnce(value, path);
    TwoTokens(value, path);
    TwoRead(value, path, "--profile");
    TwoRead(value, path, "--source");
    TwoRead(value, path, "--expected-sha256");
    TwoRead(value, path, "--max-download-bytes");
    LocalAccepted(ProfileAndPath(value, path), env, value, path);
  }
}
