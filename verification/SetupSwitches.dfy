/** Where a switch may stand on a command line. */
module SetupSwitches {
  import opened Wrappers
  import opened TokenVector
  import opened SetupOptions
  import opened SetupLaws
  import opened SetupVectors

  // ----- Moving a token past extracted switches -----

  /** A switch and what is taken out with it are the same wherever it stands. */
  lemma SameTaken(a: seq<string>, name: string, b: seq<string>)
    ensures Without(a + [name] + b, name) == Without([name] + a + b, name)
    ensures name in a + [name] + b && name in [name] + a + b
  {
    OwnTaken(a, name, b);
    OwnTaken([], name, a + b);
    WithoutConcat(a, b, name);
    assert [name] + a + b == [] + [name] + (a + b);
  }

  lemma OwnTaken(a: seq<string>, name: string, b: seq<string>)
    ensures Without(a + [name] + b, name) == Without(a, name) + Without(b, name)
  {
    OneTaken(name);
    WithoutConcat(a, [name], name);
    WithoutConcat(a + [name], b, name);
    assert Without(a, name) + [] == Without(a, name);
  }

  lemma OneTaken(name: string)
    ensures Without([name], name) == []
  {
  }

  lemma TakenApart(a: seq<string>, m: seq<string>, b: seq<string>, name: string)
    ensures Without(a + m + b, name) == Without(a, name) + Without(m, name) + Without(b, name)
  {
    WithoutConcat(a + m, b, name);
    WithoutConcat(a, m, name);
  }

  /** And when another is taken out, it stays where it stands. */
  lemma OtherTaken(a: seq<string>, name: string, b: seq<string>, other: string)
    requires other != name
    ensures Without(a + [name] + b, other) == Without(a, other) + [name] + Without(b, other)
    ensures Without([name] + a + b, other) == [name] + Without(a, other) + Without(b, other)
    ensures other in a + [name] + b <==> other in [name] + a + b
  {
    TakenApart(a, [name], b, other);
    TakenApart([name], a, b, other);
    WithoutAbsent([name], other);
  }

  datatype Stripped = Stripped(first: bool, second: bool, third: bool, fourth: bool, rest: seq<string>)

  /** Four names looked for and taken out in turn. */
  function Strip(s: seq<string>, t1: string, t2: string, t3: string, t4: string): Stripped {
    var s1 := Without(s, t1);
    var s2 := Without(s1, t2);
    var s3 := Without(s2, t3);
    Stripped(t1 in s, t2 in s1, t3 in s2, t4 in s3, Without(s3, t4))
  }

  lemma SwitchesAreStripped(s: seq<string>)
    ensures var x := Strip(s, "--json", "--dry-run", "--yes", "--replace-different");
            ParseSwitches(s) == (Switches(x.first, x.second, x.third, x.fourth), x.rest)
  {
  }

  /** One of four names moved to the front before they are taken out: nothing changes. */
  lemma StripSame(a: seq<string>, name: string, b: seq<string>, t1: string, t2: string, t3: string, t4: string)
    requires name in {t1, t2, t3, t4}
    ensures Strip(a + [name] + b, t1, t2, t3, t4) == Strip([name] + a + b, t1, t2, t3, t4)
  {
    var a, b := a, b;
    if name != t1 {
      OtherTaken(a, name, b, t1);
      a, b := Without(a, t1), Without(b, t1);
      if name != t2 {
        OtherTaken(a, name, b, t2);
        a, b := Without(a, t2), Without(b, t2);
        if name != t3 { OtherTaken(a, name, b, t3); a, b := Without(a, t3), Without(b, t3); }
      }
    }
    SameTaken(a, name, b);
  }

  /** Another token moves in what is left, and the same names are found. */
  lemma StripMoved(a: seq<string>, name: string, b: seq<string>, t1: string, t2: string, t3: string, t4: string)
    requires name !in {t1, t2, t3, t4}
    ensures var x, y := Strip(a + [name] + b, t1, t2, t3, t4), Strip([name] + a + b, t1, t2, t3, t4);
            var ra, rb := Strip(a, t1, t2, t3, t4).rest, Strip(b, t1, t2, t3, t4).rest;
            x.rest == ra + [name] + rb && y == x.(rest := [name] + ra + rb)
  {
    OtherTaken(a, name, b, t1);
    var a1, b1 := Without(a, t1), Without(b, t1);
    OtherTaken(a1, name, b1, t2);
    var a2, b2 := Without(a1, t2), Without(b1, t2);
    OtherTaken(a2, name, b2, t3);
    OtherTaken(Without(a2, t3), name, Without(b2, t3), t4);
  }

  /** The tokens left once the four switches that are read first are gone. */
  function Kept(s: seq<string>): seq<string> {
    ParseSwitches(s).1
  }

  lemma SwitchesAlike(a: seq<string>, name: string, b: seq<string>)
    requires name !in EARLY
    ensures var x, y := ParseSwitches(a + [name] + b), ParseSwitches([name] + a + b);
            x.0 == y.0 && x.1 == Kept(a) + [name] + Kept(b) && y.1 == [name] + Kept(a) + Kept(b)
  {
    StripMoved(a, name, b, "--json", "--dry-run", "--yes", "--replace-different");
    SwitchesAreStripped(a);
    SwitchesAreStripped(b);
    SwitchesAreStripped(a + [name] + b);
    SwitchesAreStripped([name] + a + b);
  }

  lemma EarlyAlike(a: seq<string>, name: string, b: seq<string>)
    requires name in EARLY
    ensures ParseSwitches(a + [name] + b) == ParseSwitches([name] + a + b)
  {
    StripSame(a, name, b, "--json", "--dry-run", "--yes", "--replace-different");
    SwitchesAreStripped(a + [name] + b);
    SwitchesAreStripped([name] + a + b);
  }

  lemma ParseFromSwitches(s: seq<string>, t: seq<string>, env: Defaults)
    requires ParseSwitches(s) == ParseSwitches(t)
    ensures Parse(s, env) == Parse(t, env)
  {
  }

  /** `--json`, `--dry-run`, `--yes` and `--replace-different` may stand anywhere, even between a key and
      its value: in front of everything they mean the same, and the errors are the same. */
  lemma SwitchAnywhere(a: seq<string>, name: string, b: seq<string>, env: Defaults)
    requires name in EARLY
    ensures Parse(a + [name] + b, env) == Parse([name] + a + b, env)
  {
    EarlyAlike(a, name, b);
    ParseFromSwitches(a + [name] + b, [name] + a + b, env);
  }

  // ----- Moving a token past extracted values -----

  predicate Behind(a: seq<string>, key: string) {
    a != [] && a[|a| - 1] == key
  }

  /** The extraction of a key from a vector cut in two: its value, and what is left of both parts. */
  function Around(a: seq<string>, b: seq<string>, key: string): Result<(Option<string>, seq<string>, seq<string>), ParseError> {
    if key in a then
      if key in b then Err(OnlyOnce(key))
      else
        match ExtractValue(a, key)
        case Ok((value, rest)) => Ok((value, rest, b))
        case Err(error) => Err(error)
    else
      match ExtractValue(b, key)
      case Ok((value, rest)) => Ok((value, a, rest))
      case Err(error) => Err(error)
  }

  lemma {:induction false} ExtractInFront(a: seq<string>, t: seq<string>, key: string)
    requires key in a && !Behind(a, key)
    ensures ExtractValue(a + t, key) ==
            if key in t then Err(OnlyOnce(key))
            else
              match ExtractValue(a, key)
              case Ok((value, rest)) => Ok((value, rest + t))
              case Err(error) => Err(error)
  {
    var s := a + t;
    assert s[0] == a[0] && s[1..] == a[1..] + t;
    if a[0] == key {
      assert s[1] == a[1] && s[2..] == a[2..] + t;
    } else {
      ExtractInFront(a[1..], t, key);
      var r := ExtractValue(a[1..], key);
      if r.Ok? { assert [a[0]] + (r.value.1 + t) == [a[0]] + r.value.1 + t; }
    }
  }

  lemma ExtractAround(a: seq<string>, m: seq<string>, b: seq<string>, key: string)
    requires key !in m && !Behind(a, key)
    ensures var r := Around(a, b, key);
            ExtractValue(a + m + b, key) ==
            if r.Err? then Err(r.error) else Ok((r.value.0, r.value.1 + m + r.value.2))
  {
    if key in a {
      assert a + m + b == a + (m + b);
      ExtractInFront(a, m + b, key);
      var r := ExtractValue(a, key);
      if r.Ok? { assert r.value.1 + (m + b) == r.value.1 + m + b; }
    } else {
      ExtractPast(a + m, b, key);
    }
  }

  /** And with the token in front. */
  lemma ExtractFront(a: seq<string>, m: seq<string>, b: seq<string>, key: string)
    requires key !in m && !Behind(a, key)
    ensures var r := Around(a, b, key);
            ExtractValue(m + a + b, key) ==
            if r.Err? then Err(r.error) else Ok((r.value.0, m + r.value.1 + r.value.2))
  {
    assert m + a + b == m + (a + [] + b);
    ExtractPast(m, a + [] + b, key);
    ExtractAround(a, [], b, key);
    var r := Around(a, b, key);
    if r.Ok? { assert m + (r.value.1 + [] + r.value.2) == m + r.value.1 + r.value.2; }
  }

  /** Behind a key, an option takes the place of the value. */
  predicate TakesPlace(a: seq<string>, b: seq<string>, key: string) {
    Behind(a, key) && key !in a[..|a| - 1] && key !in b && b != [] && !("--" <= b[0])
  }

  lemma KeyAt(a: seq<string>, t: seq<string>, key: string)
    requires key !in a
    ensures ExtractValue(a + ([key] + t), key) ==
            if key in t then Err(OnlyOnce(key))
            else if t == [] || "--" <= t[0] then Err(RequiresValue(key))
            else Ok((Some(t[0]), a + t[1..]))
  {
    ExtractPast(a, [key] + t, key);
    assert ([key] + t)[1..] == t && (t != [] ==> ([key] + t)[2..] == t[1..]);
  }

  lemma BehindOnce(init: seq<string>, name: string, b: seq<string>, key: string)
    requires key !in init && "--" <= name && name != key
    ensures ExtractValue(init + ([key] + ([name] + b)), key) ==
            if key in b then Err(OnlyOnce(key)) else Err(RequiresValue(key))
    ensures ExtractValue([name] + init + ([key] + b), key) ==
            if key in b then Err(OnlyOnce(key))
            else if b == [] || "--" <= b[0] then Err(RequiresValue(key))
            else Ok((Some(b[0]), [name] + init + b[1..]))
  {
    KeyAt(init, [name] + b, key);
    KeyAt([name] + init, b, key);
  }

  lemma BehindTwice(init: seq<string>, name: string, b: seq<string>, key: string)
    requires key in init
    ensures ExtractValue(init + ([key] + ([name] + b)), key) == Err(OnlyOnce(key))
    ensures ExtractValue([name] + init + ([key] + b), key) == Err(OnlyOnce(key))
  {
    TwiceRefused(init, [key] + ([name] + b), key);
    TwiceRefused([name] + init, [key] + b, key);
  }

  lemma ExtractBehind(a: seq<string>, name: string, b: seq<string>, key: string)
    requires Behind(a, key) && "--" <= name && name != key
    ensures var l, r := ExtractValue(a + [name] + b, key), ExtractValue([name] + a + b, key);
            if TakesPlace(a, b, key)
            then l == Err(RequiresValue(key)) && r == Ok((Some(b[0]), [name] + a[..|a| - 1] + b[1..]))
            else l.Err? && r == l
  {
    var init := a[..|a| - 1];
    assert a == init + [key];
    assert a + [name] + b == init + ([key] + ([name] + b));
    assert [name] + a + b == [name] + init + ([key] + b);
    if key in init { BehindTwice(init, name, b, key); } else { BehindOnce(init, name, b, key); }
  }

  lemma {:induction false} TwiceRefused(a: seq<string>, t: seq<string>, key: string)
    requires key in a && key in t
    ensures ExtractValue(a + t, key) == Err(OnlyOnce(key))
  {
    assert (a + t)[0] == a[0] && (a + t)[1..] == a[1..] + t;
    if a[0] != key { TwiceRefused(a[1..], t, key); }
  }

  // ----- Moving a token past several keys -----

  /** There is no database to read. */
  predicate Lacks(key: string, value: Option<string>, env: Defaults) {
    key == "--database" && value.None? && env.database.None?
  }

  function ExtractAll(s: seq<string>, keys: seq<string>, env: Defaults): Result<(seq<Option<string>>, seq<string>), ParseError>
    decreases |keys|
  {
    if keys == [] then Ok(([], s))
    else
      var (value, rest) :- ExtractValue(s, keys[0]);
      if Lacks(keys[0], value, env) then Err(NoDefaultDatabase)
      else
        var (values, last) :- ExtractAll(rest, keys[1..], env);
        Ok(([value] + values, last))
  }

  /** The key whose value an option standing between `a` and `b` keeps from being read, if any: once the
      pairs of the earlier keys are gone the option stands directly behind that key, which occurs
      nowhere else, and in front of a value. */
  function KeptFrom(a: seq<string>, b: seq<string>, keys: seq<string>, env: Defaults): Option<string>
    decreases |keys|
  {
    if keys == [] then None
    else if Behind(a, keys[0]) then (if TakesPlace(a, b, keys[0]) then Some(keys[0]) else None)
    else
      var r := Around(a, b, keys[0]);
      if r.Err? || Lacks(keys[0], r.value.0, env) then None
      else KeptFrom(r.value.1, r.value.2, keys[1..], env)
  }

  ghost predicate DifferentKeys(keys: seq<string>) {
    forall i, j :: 0 <= i < j < |keys| ==> keys[i] != keys[j]
  }

  lemma ExtractErrors(s: seq<string>, key: string)
    ensures ExtractValue(s, key).Err? ==>
              ExtractValue(s, key).error == OnlyOnce(key) || ExtractValue(s, key).error == RequiresValue(key)
  {
    if s != [] && s[0] != key { ExtractErrors(s[1..], key); }
  }

  lemma {:induction false} AllErrors(s: seq<string>, keys: seq<string>, env: Defaults, key: string)
    requires ExtractAll(s, keys, env) == Err(RequiresValue(key))
    ensures key in keys
    decreases |keys|
  {
    ExtractErrors(s, keys[0]);
    if key != keys[0] { AllErrors(ExtractValue(s, keys[0]).value.1, keys[1..], env, key); }
  }

  /** An option moved to the front: nothing changes but its place, unless it kept a key from its value,
      which is then refused and otherwise read. */
  lemma {:induction false} MovedPastKeys(a: seq<string>, name: string, b: seq<string>, keys: seq<string>, env: Defaults)
    returns (a': seq<string>, b': seq<string>)
    requires "--" <= name && name !in keys && DifferentKeys(keys)
    ensures var l, r := ExtractAll(a + [name] + b, keys, env), ExtractAll([name] + a + b, keys, env);
            match KeptFrom(a, b, keys, env)
            case Some(key) => key in keys && l == Err(RequiresValue(key)) && r != l
            case None =>
              if l.Err? then r == l
              else l.value.1 == a' + [name] + b' && r == Ok((l.value.0, [name] + a' + b'))
    decreases |keys|
  {
    a', b' := a, b;
    if keys != [] {
      var key := keys[0];
      if Behind(a, key) {
        ExtractBehind(a, name, b, key);
        if TakesPlace(a, b, key) { ReadOtherwise(a, name, b, keys, env); }
      } else {
        ExtractAround(a, [name], b, key);
        ExtractFront(a, [name], b, key);
        var r := Around(a, b, key);
        if r.Ok? && !Lacks(key, r.value.0, env) {
          a', b' := MovedPastKeys(r.value.1, name, r.value.2, keys[1..], env);
        }
      }
    }
  }

  lemma ReadOtherwise(a: seq<string>, name: string, b: seq<string>, keys: seq<string>, env: Defaults)
    requires keys != [] && DifferentKeys(keys) && "--" <= name && name !in keys && TakesPlace(a, b, keys[0])
    ensures ExtractAll([name] + a + b, keys, env) != Err(RequiresValue(keys[0]))
  {
    ExtractBehind(a, name, b, keys[0]);
    var rest := [name] + a[..|a| - 1] + b[1..];
    if ExtractAll(rest, keys[1..], env) == Err(RequiresValue(keys[0])) {
      AllErrors(rest, keys[1..], env, keys[0]);
    }
  }

  // ----- The retrieval switches -----

  const TARGET_KEYS: seq<string> := ["--profile", "--database", "--config", "--source"]

  lemma FirstExtracted(s: seq<string>, key: string, keys: seq<string>, env: Defaults)
    ensures var r, all := ExtractValue(s, key), ExtractAll(s, [key] + keys, env);
            if r.Err? then all == Err(r.error)
            else if Lacks(key, r.value.0, env) then all == Err(NoDefaultDatabase)
            else
              var more := ExtractAll(r.value.1, keys, env);
              all == if more.Err? then more else Ok(([r.value.0] + more.value.0, more.value.1))
  {
    assert ([key] + keys)[1..] == keys;
  }

  function TargetsFound(values: seq<Option<string>>, env: Defaults): Targets
    requires |values| == 4 && (values[1].Some? || env.database.Some?)
  {
    Targets(values[0], if values[1].Some? then values[1].value else env.database.value, values[2], values[3])
  }

  lemma TargetsAreExtracted(s: seq<string>, env: Defaults)
    ensures var r := ExtractAll(s, TARGET_KEYS, env);
            if r.Err? then ParseTargets(s, env) == Err(r.error)
            else
              && |r.value.0| == 4 && (r.value.0[1].Some? || env.database.Some?)
              && ParseTargets(s, env) == Ok((TargetsFound(r.value.0, env), r.value.1))
  {
    FirstExtracted(s, "--profile", ["--database", "--config", "--source"], env);
    var r1 := ExtractValue(s, "--profile");
    if r1.Ok? {
      FirstExtracted(r1.value.1, "--database", ["--config", "--source"], env);
      var r2 := ExtractValue(r1.value.1, "--database");
      if r2.Ok? {
        FirstExtracted(r2.value.1, "--config", ["--source"], env);
        var r3 := ExtractValue(r2.value.1, "--config");
        if r3.Ok? { FirstExtracted(r3.value.1, "--source", [], env); }
      }
    }
  }

  lemma RetrievalErrors(s: seq<string>, json: bool, env: Defaults, key: string)
    requires ParseRetrieval(s, json, env) == Err(RequiresValue(key))
    ensures key == "--expected-sha256" || key in STORAGE
  {
    var s2 := Without(Without(s, "--force-refresh"), "--offline");
    ExtractErrors(s2, "--expected-sha256");
    var r := ExtractValue(s2, "--expected-sha256");
    if r.Ok? {
      ExtractErrors(r.value.1, "--cache-root");
      var q := ExtractValue(r.value.1, "--cache-root");
      if q.Ok? { ExtractErrors(q.value.1, "--max-download-bytes"); }
    }
  }

  /** The error of a missing target value is the parser's own. */
  lemma TargetValueRefused(s: seq<string>, env: Defaults, key: string)
    requires key in TARGETS
    ensures Parse(s, env) == Err(RequiresValue(key)) <==> ExtractAll(Kept(s), TARGET_KEYS, env) == Err(RequiresValue(key))
  {
    TargetsAreExtracted(Kept(s), env);
    var t := ParseTargets(Kept(s), env);
    if t.Ok? {
      var r := ParseRetrieval(t.value.1, ParseSwitches(s).0.json, env);
      if r.Err? && r.error == RequiresValue(key) {
        RetrievalErrors(t.value.1, ParseSwitches(s).0.json, env, key);
      }
    }
  }

  lemma TwoAlike(a: seq<string>, name: string, b: seq<string>, t1: string, t2: string)
    requires name == t1 || name == t2
    ensures t1 in a + [name] + b <==> t1 in [name] + a + b
    ensures t2 in Without(a + [name] + b, t1) <==> t2 in Without([name] + a + b, t1)
    ensures Without(Without(a + [name] + b, t1), t2) == Without(Without([name] + a + b, t1), t2)
  {
    if name == t1 {
      SameTaken(a, name, b);
    } else {
      OtherTaken(a, name, b, t1);
      SameTaken(Without(a, t1), name, Without(b, t1));
    }
  }

  /** Behind the target keys, a retrieval switch may be moved to the front. */
  lemma RetrievalAlike(a: seq<string>, name: string, b: seq<string>, json: bool, env: Defaults)
    requires name in LATE
    ensures ParseRetrieval(a + [name] + b, json, env) == ParseRetrieval([name] + a + b, json, env)
  {
    TwoAlike(a, name, b, "--force-refresh", "--offline");
    RetrievalFromParts(a + [name] + b, [name] + a + b, json, env);
  }

  lemma RetrievalFromParts(s: seq<string>, t: seq<string>, json: bool, env: Defaults)
    requires "--force-refresh" in s <==> "--force-refresh" in t
    requires "--offline" in Without(s, "--force-refresh") <==> "--offline" in Without(t, "--force-refresh")
    requires Without(Without(s, "--force-refresh"), "--offline") == Without(Without(t, "--force-refresh"), "--offline")
    ensures ParseRetrieval(s, json, env) == ParseRetrieval(t, json, env)
  {
  }

  lemma ParseAlike(s: seq<string>, t: seq<string>, env: Defaults)
    requires ParseSwitches(s).0 == ParseSwitches(t).0
    requires ParseTargets(Kept(s), env).Ok? && ParseTargets(Kept(t), env).Ok?
    requires var (x, p) := ParseTargets(Kept(s), env).value;
             var (y, q) := ParseTargets(Kept(t), env).value;
             var json := ParseSwitches(s).0.json;
             x == y && ParseRetrieval(p, json, env) == ParseRetrieval(q, json, env)
    ensures Parse(s, env) == Parse(t, env)
  {
  }

  /** The target key that `--offline` or `--force-refresh` between `a` and `b` keeps from its value. */
  function StandsFor(a: seq<string>, b: seq<string>, env: Defaults): Option<string> {
    KeptFrom(Kept(a), Kept(b), TARGET_KEYS, env)
  }

  /** `--offline` and `--force-refresh` anywhere on any command line: moved to the front they change
      neither result nor error, if and only if they do not stand in the place of the value of
      `--profile`, `--database`, `--config` or `--source`; there, that key is refused for want of it. */
  lemma LateSwitchMoves(a: seq<string>, name: string, b: seq<string>, env: Defaults)
    requires name in LATE
    ensures Parse(a + [name] + b, env) == Parse([name] + a + b, env) <==> StandsFor(a, b, env).None?
    ensures StandsFor(a, b, env).Some? ==>
              && StandsFor(a, b, env).value in TARGETS
              && Parse(a + [name] + b, env) == Err(RequiresValue(StandsFor(a, b, env).value))
  {
    var s, t := a + [name] + b, [name] + a + b;
    LateIsNoOther(name);
    SwitchesAlike(a, name, b);
    var a', b' := MovedPastKeys(Kept(a), name, Kept(b), TARGET_KEYS, env);
    var key := StandsFor(a, b, env);
    if key.Some? {
      TargetValueRefused(s, env, key.value);
      TargetValueRefused(t, env, key.value);
    } else {
      TargetsAreExtracted(Kept(s), env);
      TargetsAreExtracted(Kept(t), env);
      if ExtractAll(Kept(s), TARGET_KEYS, env).Ok? {
        RetrievalAlike(a', name, b', ParseSwitches(s).0.json, env);
        ParseAlike(s, t, env);
      }
    }
  }

  lemma LateIsNoOther(name: string)
    requires name in LATE
    ensures "--" <= name && name !in EARLY && name !in TARGET_KEYS && DifferentKeys(TARGET_KEYS)
    ensures forall key :: key in TARGET_KEYS <==> key in TARGETS
  {
  }

  // ----- Behind the other keys -----

  lemma {:induction false} EndStays(a: seq<string>, key: string, end: string)
    requires ExtractValue(a, key).Ok? && Behind(a, end) && "--" <= end && end != key
    ensures Behind(ExtractValue(a, key).value.1, end)
  {
    if a[0] == key {
      assert a[2..] != [] && a[|a| - 1] == a[2..][|a| - 3];
    } else if |a| > 1 {
      EndStays(a[1..], key, end);
    }
  }

  lemma {:induction false} NeverFor(a: seq<string>, b: seq<string>, keys: seq<string>, env: Defaults, end: string)
    requires Behind(a, end) && "--" <= end && end !in keys
    ensures KeptFrom(a, b, keys, env).None?
    decreases |keys|
  {
    if keys != [] {
      var r := Around(a, b, keys[0]);
      if r.Ok? && !Lacks(keys[0], r.value.0, env) {
        if keys[0] in a { EndStays(a, keys[0], end); }
        NeverFor(r.value.1, r.value.2, keys[1..], env, end);
      }
    }
  }

  /** Between `--expected-sha256`, `--cache-root` or `--max-download-bytes` and its value both may always
      stand. */
  lemma LateSwitchInRetrievalPair(a: seq<string>, name: string, b: seq<string>, key: string, env: Defaults)
    requires name in LATE && (key == "--expected-sha256" || key in STORAGE) && Behind(Kept(a), key)
    ensures Parse(a + [name] + b, env) == Parse([name] + a + b, env)
  {
    assert IsKey(key);
    NameKinds(key);
    NeverFor(Kept(a), Kept(b), TARGET_KEYS, env, key);
    LateSwitchMoves(a, name, b, env);
  }

  // ----- Command lines that are no lists of groups -----

  /** An accepted command line that is no list of well-formed groups as it stands: a switch between a key
      and its value. */
  lemma SwitchInsidePair(name: string, profile: string, path: string, env: Defaults)
    requires name in EARLY && !("--" <= profile) && WellFormed(Positional(path))
    requires env.database.Some? && env.cacheRoot.Some?
    ensures var r := Parse(["--profile"] + [name] + [profile, path], env);
            r.Ok? && r.value.profileId == Some(profile) && r.value.cataloguePath == path
    ensures forall gs :: AllWellFormed(gs) ==> Flatten(gs) != ["--profile"] + [name] + [profile, path]
  {
    SwitchAnywhere(["--profile"], name, [profile, path], env);
    SwitchInFront(name, profile, path, env);
    NameKinds(name);
    forall gs | AllWellFormed(gs) ensures Flatten(gs) != ["--profile"] + [name] + [profile, path] {
      NoGroups(gs, "--profile", name, [profile, path]);
    }
  }

  lemma SwitchInFront(name: string, profile: string, path: string, env: Defaults)
    requires name in EARLY && !("--" <= profile) && WellFormed(Positional(path))
    requires env.database.Some? && env.cacheRoot.Some?
    ensures var r := Parse([name] + ["--profile"] + [profile, path], env);
            r.Ok? && r.value.profileId == Some(profile) && r.value.cataloguePath == path
  {
    var gs := ThreeGroups(name, "--profile", profile, path);
    assert IsKey("--profile");
    ThreeWellFormed(name, "--profile", profile, path);
    ThreeOnce(name, "--profile", profile, path);
    ThreeTokens(name, "--profile", profile, path);
    ThreePositionals(name, "--profile", profile, path);
    ThreeValues(name, "--profile", profile, path, "--profile");
    ThreeValues(name, "--profile", profile, path, "--source");
    ThreeValues(name, "--profile", profile, path, "--expected-sha256");
    ThreeValues(name, "--profile", profile, path, "--max-download-bytes");
    LocalAccepted(gs, env, profile, path);
  }

  function ThreeGroups(name: string, key: string, value: string, token: string): seq<Group> {
    [Switch(name)] + [Pair(key, value)] + [Positional(token)]
  }

  lemma ThreeValues(name: string, key: string, value: string, token: string, other: string)
    ensures Values(ThreeGroups(name, key, value, token), other) == if other == key then [value] else []
  {
    var a, b, c := [Switch(name)], [Pair(key, value)], [Positional(token)];
    ConcatValues(a + b, c, other);
    ConcatValues(a, b, other);
  }

  lemma ThreeTokens(name: string, key: string, value: string, token: string)
    ensures Flatten(ThreeGroups(name, key, value, token)) == [name] + [key] + [value, token]
  {
    var a, b, c := [Switch(name)], [Pair(key, value)], [Positional(token)];
    ConcatTokens(a + b, c);
    ConcatTokens(a, b);
  }

  lemma ThreePositionals(name: string, key: string, value: string, token: string)
    ensures Positionals(ThreeGroups(name, key, value, token)) == [token]
  {
    var a, b, c := [Switch(name)], [Pair(key, value)], [Positional(token)];
    ConcatPositionals(a + b, c);
    ConcatPositionals(a, b);
  }

  lemma ThreeWellFormed(name: string, key: string, value: string, token: string)
    requires WellFormed(Switch(name)) && WellFormed(Pair(key, value)) && WellFormed(Positional(token))
    ensures AllWellFormed(ThreeGroups(name, key, value, token))
    ensures forall x :: Switch(x) in ThreeGroups(name, key, value, token) ==> x == name
  {
  }

  lemma ThreeOnce(name: string, key: string, value: string, token: string)
    ensures forall k :: Once(ThreeGroups(name, key, value, token), k)
  {
    forall k ensures Once(ThreeGroups(name, key, value, token), k) { ThreeValues(name, key, value, token, k); }
  }

  /** A local catalogue with no retrieval option is accepted, and read with its profile. */
  lemma LocalAccepted(gs: seq<Group>, env: Defaults, profile: string, path: string)
    requires AllWellFormed(gs) && env.database.Some? && env.cacheRoot.Some? && Positionals(gs) == [path]
    requires forall key :: Once(gs, key)
    requires Values(gs, "--max-download-bytes") == [] && Values(gs, "--source") == []
    requires Values(gs, "--expected-sha256") == [] && Values(gs, "--profile") == [profile]
    requires Switch("--force-refresh") !in gs && Switch("--offline") !in gs
    ensures var r := Parse(Flatten(gs), env);
            r.Ok? && r.value.profileId == Some(profile) && r.value.cataloguePath == path
  {
    ParseAcceptsExactly(gs, env);
    var o := Parse(Flatten(gs), env).value;
    ParsedFields(gs, env, o);
    assert Optional(o.profileId) == [profile];
  }

  lemma NoGroups(gs: seq<Group>, key: string, next: string, rest: seq<string>)
    requires AllWellFormed(gs) && IsKey(key) && "--" <= next
    ensures Flatten(gs) != [key] + [next] + rest
  {
    NameKinds(key);
    if gs != [] {
      assert WellFormed(gs[0]);
      if gs[0].Pair? { assert Flatten(gs)[1] == gs[0].value; }
      assert Flatten(gs)[0] == Write(gs[0])[0];
    }
  }
}
