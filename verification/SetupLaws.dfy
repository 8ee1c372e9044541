/** What a setup command line means, independent of the order of its groups, and which ones are
    accepted. */
module SetupLaws {
  import opened Wrappers
  import opened Bounds
  import opened Text
  import opened TokenVector
  import opened SetupOptions

  /** A command line is a list of groups: a switch, a key with its value, or a positional token. */
  datatype Group = Switch(name: string) | Pair(key: string, value: string) | Positional(token: string)

  predicate WellFormed(g: Group) {
    match g
    case Switch(name) => IsSwitch(name)
    case Pair(key, value) => IsKey(key) && !("--" <= value)
    case Positional(token) => !IsSwitch(token) && !IsKey(token)
  }

  predicate AllWellFormed(gs: seq<Group>) {
    forall g :: g in gs ==> WellFormed(g)
  }

  function Write(g: Group): seq<string> {
    match g
    case Switch(name) => [name]
    case Pair(key, value) => [key, value]
    case Positional(token) => [token]
  }

  function Flatten(gs: seq<Group>): seq<string> {
    if gs == [] then [] else Write(gs[0]) + Flatten(gs[1..])
  }

  /** The name a group is extracted by; positionals have none. */
  function Name(g: Group): string {
    match g
    case Switch(name) => name
    case Pair(key, _) => key
    case Positional(_) => ""
  }

  /** The groups that are left once the names in `done` are extracted. */
  function Remaining(gs: seq<Group>, done: set<string>): (r: seq<Group>)
    ensures AllWellFormed(gs) ==> AllWellFormed(r)
  {
    if gs == [] then []
    else (if Name(gs[0]) in done then [] else [gs[0]]) + Remaining(gs[1..], done)
  }

  function Values(gs: seq<Group>, key: string): seq<string> {
    if gs == [] then []
    else (if gs[0].Pair? && gs[0].key == key then [gs[0].value] else []) + Values(gs[1..], key)
  }

  function Positionals(gs: seq<Group>): seq<string> {
    if gs == [] then []
    else (if gs[0].Positional? then [gs[0].token] else []) + Positionals(gs[1..])
  }

  // ----- The meaning of a list of groups -----

  function Single(gs: seq<Group>, key: string): Result<Option<string>, ParseError> {
    var v := Values(gs, key);
    if |v| > 1 then Err(OnlyOnce(key)) else if v == [] then Ok(None) else Ok(Some(v[0]))
  }

  function SwitchesOf(gs: seq<Group>): Switches {
    Switches(Switch("--json") in gs, Switch("--dry-run") in gs, Switch("--yes") in gs,
             Switch("--replace-different") in gs)
  }

  function TargetsOf(gs: seq<Group>, env: Defaults): Result<Targets, ParseError> {
    var profile :- Single(gs, "--profile");
    var database :- Single(gs, "--database");
    var databasePath :- Default(database, env.database, NoDefaultDatabase);
    var config :- Single(gs, "--config");
    var source :- Single(gs, "--source");
    Ok(Targets(profile, databasePath, config, source))
  }

  function StorageOf(gs: seq<Group>, env: Defaults): Result<(string, Option<nat>), ParseError> {
    var cacheRoot :- Single(gs, "--cache-root");
    var default :- Default(None, env.cacheRoot, NoDefaultCacheRoot);
    var raw :- Single(gs, "--max-download-bytes");
    var size :- ParseSize(raw);
    Ok((if cacheRoot.Some? then cacheRoot.value else default, size))
  }

  function RetrievalOf(gs: seq<Group>, env: Defaults): Result<Retrieval, ParseError> {
    var sha :- Single(gs, "--expected-sha256");
    var (cacheRoot, size) :- StorageOf(gs, env);
    Ok(Retrieval(Switch("--json") in gs, Switch("--force-refresh") in gs, Switch("--offline") in gs, sha,
                 cacheRoot, size))
  }

  /** Which switches occur, the values of each key, and the positionals: nothing else counts. */
  function Meaning(gs: seq<Group>, env: Defaults): Result<Options, ParseError> {
    var t :- TargetsOf(gs, env);
    var r :- RetrievalOf(gs, env);
    Assemble(SwitchesOf(gs), t, r, Positionals(gs))
  }

  // ----- One extraction -----

  /** Only the switch itself writes its name. */
  ghost predicate OwnSwitch(g: Group, name: string) {
    if g == Switch(name) then true else name !in Write(g) && Name(g) != name
  }

  /** Only pairs of the key write its name, and then not as their value. */
  ghost predicate OwnKey(g: Group, key: string) {
    if g.Pair? && g.key == key then g.value != key && !("--" <= g.value) else key !in Write(g) && Name(g) != key
  }

  lemma NamesAreOwn(gs: seq<Group>, name: string)
    requires AllWellFormed(gs)
    ensures IsSwitch(name) ==> forall g :: g in gs ==> OwnSwitch(g, name)
    ensures IsKey(name) ==> forall g :: g in gs ==> OwnKey(g, name)
  {
    forall g | g in gs
      ensures IsSwitch(name) ==> OwnSwitch(g, name)
      ensures IsKey(name) ==> OwnKey(g, name)
    {
      NameIsOwn(g, name);
    }
  }

  lemma NameIsOwn(g: Group, name: string)
    requires WellFormed(g)
    ensures IsSwitch(name) ==> OwnSwitch(g, name)
    ensures IsKey(name) ==> OwnKey(g, name)
  {
    NameKinds(name);
    NameKinds(Name(g));
  }

  lemma NameKinds(s: string)
    ensures !(IsSwitch(s) && IsKey(s))
    ensures IsSwitch(s) || IsKey(s) ==> "--" <= s
  {
    if |s| == 9 && IsSwitch(s) { assert s[2] == 'd' || s[2] == 'o'; }
    if |s| == 9 && IsKey(s) { assert s[2] == 'p'; }
  }

  lemma FlattenRemaining(gs: seq<Group>, done: set<string>)
    requires gs != []
    ensures Flatten(Remaining(gs, done)) ==
            (if Name(gs[0]) in done then [] else Write(gs[0])) + Flatten(Remaining(gs[1..], done))
  {
    var r := Remaining(gs, done);
    if Name(gs[0]) in done {
      assert r == Remaining(gs[1..], done);
    } else {
      assert r[1..] == Remaining(gs[1..], done);
    }
  }

  lemma {:induction false} SwitchTaken(gs: seq<Group>, done: set<string>, name: string)
    requires name !in done && forall g :: g in gs ==> OwnSwitch(g, name)
    ensures name in Flatten(Remaining(gs, done)) <==> Switch(name) in gs
    ensures Without(Flatten(Remaining(gs, done)), name) == Flatten(Remaining(gs, done + {name}))
  {
    if gs != [] {
      var g, rest := gs[0], gs[1..];
      assert OwnSwitch(g, name);
      SwitchTaken(rest, done, name);
      FlattenRemaining(gs, done);
      FlattenRemaining(gs, done + {name});
      var a := if Name(g) in done then [] else Write(g);
      WithoutConcat(a, Flatten(Remaining(rest, done)), name);
      if g == Switch(name) {
        assert a == [name] && Without(a, name) == [];
      } else {
        WithoutAbsent(a, name);
      }
    }
  }

  /** The token of a key occurs where it has a value. */
  lemma {:induction false} KeyPresent(gs: seq<Group>, done: set<string>, key: string)
    requires key !in done && forall g :: g in gs ==> OwnKey(g, key)
    ensures key in Flatten(Remaining(gs, done)) <==> Values(gs, key) != []
    ensures Values(gs, key) == [] ==> Remaining(gs, done) == Remaining(gs, done + {key})
  {
    if gs != [] {
      assert OwnKey(gs[0], key);
      KeyPresent(gs[1..], done, key);
      FlattenRemaining(gs, done);
    }
  }

  lemma PairInFront(key: string, value: string, t: seq<string>)
    requires value != key && !("--" <= value)
    ensures ExtractValue([key, value] + t, key) ==
            if key in t then Err(OnlyOnce(key)) else Ok((Some(value), t))
  {
    var s := [key, value] + t;
    assert s[1..] == [value] + t && s[2..] == t;
  }

  lemma {:induction false} KeyTaken(gs: seq<Group>, done: set<string>, key: string)
    requires key !in done && forall g :: g in gs ==> OwnKey(g, key)
    ensures var r := ExtractValue(Flatten(Remaining(gs, done)), key);
            match Single(gs, key)
            case Ok(v) => r == Ok((v, Flatten(Remaining(gs, done + {key}))))
            case Err(e) => r == Err(e)
  {
    if gs != [] {
      var g, rest := gs[0], gs[1..];
      var t, t' := Flatten(Remaining(rest, done)), Flatten(Remaining(rest, done + {key}));
      assert OwnKey(g, key);
      FlattenRemaining(gs, done);
      FlattenRemaining(gs, done + {key});
      if g.Pair? && g.key == key {
        KeyPresent(rest, done, key);
        PairInFront(key, g.value, t);
        assert [] + t' == t';
      } else {
        KeyTaken(rest, done, key);
        ExtractPast(if Name(g) in done then [] else Write(g), t, key);
      }
    }
  }

  lemma ExtractionMeansSingle(gs: seq<Group>, done: set<string>, key: string)
    requires AllWellFormed(gs) && IsKey(key) && key !in done
    ensures var r := ExtractValue(Flatten(Remaining(gs, done)), key);
            match Single(gs, key)
            case Ok(v) => r == Ok((v, Flatten(Remaining(gs, done + {key}))))
            case Err(e) => r == Err(e)
  {
    NamesAreOwn(gs, key);
    KeyTaken(gs, done, key);
  }

  lemma {:induction false} OnlyPositionalsRemain(gs: seq<Group>, done: set<string>)
    requires forall g :: g in gs ==> (g.Positional? <==> Name(g) !in done)
    ensures Flatten(Remaining(gs, done)) == Positionals(gs)
  {
    if gs != [] {
      OnlyPositionalsRemain(gs[1..], done);
      FlattenRemaining(gs, done);
    }
  }

  // ----- The whole parser -----

  lemma {:induction false} AllRemain(gs: seq<Group>)
    ensures Remaining(gs, {}) == gs
  {
    if gs != [] { AllRemain(gs[1..]); }
  }

  lemma SwitchMeans(gs: seq<Group>, done: set<string>, name: string)
    requires AllWellFormed(gs) && IsSwitch(name) && name !in done
    ensures name in Flatten(Remaining(gs, done)) <==> Switch(name) in gs
    ensures Without(Flatten(Remaining(gs, done)), name) == Flatten(Remaining(gs, done + {name}))
  {
    NamesAreOwn(gs, name);
    SwitchTaken(gs, done, name);
  }

  lemma SwitchesMean(gs: seq<Group>, d0: set<string>, d1: set<string>, d2: set<string>, d3: set<string>, d4: set<string>)
    requires AllWellFormed(gs)
    requires "--json" !in d0 && d1 == d0 + {"--json"}
    requires "--dry-run" !in d1 && d2 == d1 + {"--dry-run"}
    requires "--yes" !in d2 && d3 == d2 + {"--yes"}
    requires "--replace-different" !in d3 && d4 == d3 + {"--replace-different"}
    ensures ParseSwitches(Flatten(Remaining(gs, d0))) == (SwitchesOf(gs), Flatten(Remaining(gs, d4)))
  {
    SwitchMeans(gs, d0, "--json");
    SwitchMeans(gs, d1, "--dry-run");
    SwitchMeans(gs, d2, "--yes");
    SwitchMeans(gs, d3, "--replace-different");
  }

  /** An extraction from `s` gives what the groups say of the key, and leaves `rest`. */
  ghost predicate Extracts(s: seq<string>, key: string, gs: seq<Group>, rest: seq<string>) {
    match Single(gs, key)
    case Ok(v) => ExtractValue(s, key) == Ok((v, rest))
    case Err(e) => ExtractValue(s, key) == Err(e)
  }

  lemma KeyExtracts(gs: seq<Group>, d: set<string>, d': set<string>, key: string)
    requires AllWellFormed(gs) && IsKey(key) && key !in d && d' == d + {key}
    ensures Extracts(Flatten(Remaining(gs, d)), key, gs, Flatten(Remaining(gs, d')))
  {
    ExtractionMeansSingle(gs, d, key);
  }

  lemma TargetsExtract(s0: seq<string>, s1: seq<string>, s2: seq<string>, s3: seq<string>, s4: seq<string>,
                       gs: seq<Group>, env: Defaults)
    requires Extracts(s0, "--profile", gs, s1) && Extracts(s1, "--database", gs, s2)
    requires Extracts(s2, "--config", gs, s3) && Extracts(s3, "--source", gs, s4)
    ensures match TargetsOf(gs, env)
            case Ok(t) => ParseTargets(s0, env) == Ok((t, s4))
            case Err(e) => ParseTargets(s0, env) == Err(e)
  {
  }

  lemma StorageExtracts(s0: seq<string>, s1: seq<string>, s2: seq<string>, gs: seq<Group>, env: Defaults)
    requires Extracts(s0, "--cache-root", gs, s1) && Extracts(s1, "--max-download-bytes", gs, s2)
    ensures match StorageOf(gs, env)
            case Ok((root, size)) => ParseStorage(s0, env) == Ok((root, size, s2))
            case Err(e) => ParseStorage(s0, env) == Err(e)
  {
  }

  lemma TargetsMean(gs: seq<Group>, env: Defaults, d0: set<string>, d1: set<string>, d2: set<string>,
                    d3: set<string>, d4: set<string>)
    requires AllWellFormed(gs)
    requires "--profile" !in d0 && d1 == d0 + {"--profile"}
    requires "--database" !in d1 && d2 == d1 + {"--database"}
    requires "--config" !in d2 && d3 == d2 + {"--config"}
    requires "--source" !in d3 && d4 == d3 + {"--source"}
    ensures var r := ParseTargets(Flatten(Remaining(gs, d0)), env);
            match TargetsOf(gs, env)
            case Ok(t) => r == Ok((t, Flatten(Remaining(gs, d4))))
            case Err(e) => r == Err(e)
  {
    KeyExtracts(gs, d0, d1, "--profile");
    KeyExtracts(gs, d1, d2, "--database");
    KeyExtracts(gs, d2, d3, "--config");
    KeyExtracts(gs, d3, d4, "--source");
    TargetsExtract(Flatten(Remaining(gs, d0)), Flatten(Remaining(gs, d1)), Flatten(Remaining(gs, d2)),
                   Flatten(Remaining(gs, d3)), Flatten(Remaining(gs, d4)), gs, env);
  }

  lemma StorageMeans(gs: seq<Group>, env: Defaults, d0: set<string>, d1: set<string>, d2: set<string>)
    requires AllWellFormed(gs)
    requires "--cache-root" !in d0 && d1 == d0 + {"--cache-root"}
    requires "--max-download-bytes" !in d1 && d2 == d1 + {"--max-download-bytes"}
    ensures var r := ParseStorage(Flatten(Remaining(gs, d0)), env);
            match StorageOf(gs, env)
            case Ok((root, size)) => r == Ok((root, size, Flatten(Remaining(gs, d2))))
            case Err(e) => r == Err(e)
  {
    KeyExtracts(gs, d0, d1, "--cache-root");
    KeyExtracts(gs, d1, d2, "--max-download-bytes");
    StorageExtracts(Flatten(Remaining(gs, d0)), Flatten(Remaining(gs, d1)), Flatten(Remaining(gs, d2)), gs, env);
  }

  lemma RetrievalMeans(gs: seq<Group>, env: Defaults, d0: set<string>, d1: set<string>, d2: set<string>,
                       d3: set<string>, d4: set<string>, d5: set<string>)
    requires AllWellFormed(gs)
    requires "--force-refresh" !in d0 && d1 == d0 + {"--force-refresh"}
    requires "--offline" !in d1 && d2 == d1 + {"--offline"}
    requires "--expected-sha256" !in d2 && d3 == d2 + {"--expected-sha256"}
    requires "--cache-root" !in d3 && d4 == d3 + {"--cache-root"}
    requires "--max-download-bytes" !in d4 && d5 == d4 + {"--max-download-bytes"}
    ensures var r := ParseRetrieval(Flatten(Remaining(gs, d0)), Switch("--json") in gs, env);
            match RetrievalOf(gs, env)
            case Ok(v) => r == Ok((v, Flatten(Remaining(gs, d5))))
            case Err(e) => r == Err(e)
  {
    SwitchMeans(gs, d0, "--force-refresh");
    SwitchMeans(gs, d1, "--offline");
    ExtractionMeansSingle(gs, d2, "--expected-sha256");
    StorageMeans(gs, env, d3, d4, d5);
  }

  lemma NothingButPositionals(gs: seq<Group>, done: set<string>)
    requires AllWellFormed(gs) && forall n :: n in done <==> IsSwitch(n) || IsKey(n)
    ensures Flatten(Remaining(gs, done)) == Positionals(gs)
  {
    NameKinds("");
    forall g | g in gs
      ensures g.Positional? <==> Name(g) !in done
    {
      assert WellFormed(g);
    }
    OnlyPositionalsRemain(gs, done);
  }

  /** The parser reads a well-formed command line by its meaning alone. */
  lemma ParseIsMeaning(gs: seq<Group>, env: Defaults)
    requires AllWellFormed(gs)
    ensures Parse(Flatten(gs), env) == Meaning(gs, env)
  {
    AllRemain(gs);
    var s1, s2, s3, s4 := AfterSwitches({});
    SwitchesMean(gs, {}, s1, s2, s3, s4);
    var t1, t2, t3, t4 := AfterTargets(s4);
    TargetsMean(gs, env, s4, t1, t2, t3, t4);
    var r1, r2, r3, r4, r5 := AfterRetrieval(t4);
    RetrievalMeans(gs, env, t4, r1, r2, r3, r4, r5);
    NothingButPositionals(gs, r5);
  }

  lemma AfterSwitches(d0: set<string>) returns (d1: set<string>, d2: set<string>, d3: set<string>, d4: set<string>)
    requires d0 == {}
    ensures "--json" !in d0 && d1 == d0 + {"--json"}
    ensures "--dry-run" !in d1 && d2 == d1 + {"--dry-run"}
    ensures "--yes" !in d2 && d3 == d2 + {"--yes"}
    ensures "--replace-different" !in d3 && d4 == d3 + {"--replace-different"}
    ensures forall n :: n in d4 <==> IsSwitch(n) && n != "--force-refresh" && n != "--offline"
  {
    d1 := d0 + {"--json"};
    d2 := d1 + {"--dry-run"};
    d3 := d2 + {"--yes"};
    d4 := d3 + {"--replace-different"};
  }

  lemma AfterTargets(d0: set<string>) returns (d1: set<string>, d2: set<string>, d3: set<string>, d4: set<string>)
    requires forall n :: n in d0 <==> IsSwitch(n) && n != "--force-refresh" && n != "--offline"
    ensures "--profile" !in d0 && d1 == d0 + {"--profile"}
    ensures "--database" !in d1 && d2 == d1 + {"--database"}
    ensures "--config" !in d2 && d3 == d2 + {"--config"}
    ensures "--source" !in d3 && d4 == d3 + {"--source"}
    ensures forall n :: n in d4 <==> n in d0 || n == "--profile" || n == "--database" || n == "--config" || n == "--source"
  {
    d1 := d0 + {"--profile"};
    d2 := d1 + {"--database"};
    d3 := d2 + {"--config"};
    d4 := d3 + {"--source"};
  }

  lemma AfterRetrieval(d0: set<string>)
    returns (d1: set<string>, d2: set<string>, d3: set<string>, d4: set<string>, d5: set<string>)
    requires forall n :: n in d0 <==>
               || (IsSwitch(n) && n != "--force-refresh" && n != "--offline")
               || n == "--profile" || n == "--database" || n == "--config" || n == "--source"
    ensures "--force-refresh" !in d0 && d1 == d0 + {"--force-refresh"}
    ensures "--offline" !in d1 && d2 == d1 + {"--offline"}
    ensures "--expected-sha256" !in d2 && d3 == d2 + {"--expected-sha256"}
    ensures "--cache-root" !in d3 && d4 == d3 + {"--cache-root"}
    ensures "--max-download-bytes" !in d4 && d5 == d4 + {"--max-download-bytes"}
    ensures forall n :: n in d5 <==> IsSwitch(n) || IsKey(n)
  {
    d1 := d0 + {"--force-refresh"};
    d2 := d1 + {"--offline"};
    d3 := d2 + {"--expected-sha256"};
    d4 := d3 + {"--cache-root"};
    d5 := d4 + {"--max-download-bytes"};
  }

  // ----- Order independence -----

  lemma CountCons<T>(x: T, s: seq<T>, y: T)
    ensures multiset([x] + s)[y] == multiset(s)[y] + if x == y then 1 else 0
  {
  }

  lemma {:induction false} ValueInGroups(gs: seq<Group>, key: string, v: string)
    ensures multiset(Values(gs, key))[v] == multiset(gs)[Pair(key, v)]
  {
    if gs != [] {
      var g := gs[0];
      ValueInGroups(gs[1..], key, v);
      assert gs == [g] + gs[1..];
      CountCons(g, gs[1..], Pair(key, v));
      if g.Pair? && g.key == key { CountCons(g.value, Values(gs[1..], key), v); }
    }
  }

  lemma {:induction false} PositionalInGroups(gs: seq<Group>, t: string)
    ensures multiset(Positionals(gs))[t] == multiset(gs)[Positional(t)]
  {
    if gs != [] {
      var g := gs[0];
      PositionalInGroups(gs[1..], t);
      assert gs == [g] + gs[1..];
      CountCons(g, gs[1..], Positional(t));
      if g.Positional? { CountCons(g.token, Positionals(gs[1..]), t); }
    }
  }

  /** Two arrangements of the same strings: as long, and the same when there is at most one. */
  lemma SameStrings(a: seq<string>, b: seq<string>)
    requires forall v :: multiset(a)[v] == multiset(b)[v]
    ensures |a| == |b| && (|a| <= 1 ==> a == b)
  {
    assert multiset(a) == multiset(b);
    assert |multiset(a)| == |a| && |multiset(b)| == |b|;
    if |a| == 1 {
      assert a == [a[0]] && b == [b[0]];
      assert b[0] in multiset(a);
    }
  }

  lemma SameSingle(gs: seq<Group>, hs: seq<Group>, key: string)
    requires multiset(gs) == multiset(hs)
    ensures Single(gs, key) == Single(hs, key)
  {
    forall v ensures multiset(Values(gs, key))[v] == multiset(Values(hs, key))[v] {
      ValueInGroups(gs, key, v);
      ValueInGroups(hs, key, v);
    }
    SameStrings(Values(gs, key), Values(hs, key));
  }

  lemma SameMembers(gs: seq<Group>, hs: seq<Group>, g: Group)
    requires multiset(gs) == multiset(hs)
    ensures g in gs <==> g in hs
  {
    assert g in gs <==> g in multiset(gs);
    assert g in hs <==> g in multiset(hs);
  }

  /** The closing checks see only how many tokens are left, and the one token if there is one. */
  lemma AssembleSees(w: Switches, t: Targets, r: Retrieval, rest: seq<string>, rest': seq<string>)
    requires |rest| == |rest'| && (|rest| <= 1 ==> rest == rest')
    ensures Assemble(w, t, r, rest) == Assemble(w, t, r, rest')
  {
  }

  lemma SameTargets(gs: seq<Group>, hs: seq<Group>, env: Defaults)
    requires multiset(gs) == multiset(hs)
    ensures TargetsOf(gs, env) == TargetsOf(hs, env)
  {
    SameSingle(gs, hs, "--profile");
    SameSingle(gs, hs, "--database");
    SameSingle(gs, hs, "--config");
    SameSingle(gs, hs, "--source");
  }

  lemma SameRetrieval(gs: seq<Group>, hs: seq<Group>, env: Defaults)
    requires multiset(gs) == multiset(hs)
    ensures RetrievalOf(gs, env) == RetrievalOf(hs, env)
  {
    SameSingle(gs, hs, "--expected-sha256");
    SameSingle(gs, hs, "--cache-root");
    SameSingle(gs, hs, "--max-download-bytes");
    SameMembers(gs, hs, Switch("--json"));
    SameMembers(gs, hs, Switch("--force-refresh"));
    SameMembers(gs, hs, Switch("--offline"));
  }

  lemma SameSwitches(gs: seq<Group>, hs: seq<Group>)
    requires multiset(gs) == multiset(hs)
    ensures SwitchesOf(gs) == SwitchesOf(hs)
  {
    SameMembers(gs, hs, Switch("--json"));
    SameMembers(gs, hs, Switch("--dry-run"));
    SameMembers(gs, hs, Switch("--yes"));
    SameMembers(gs, hs, Switch("--replace-different"));
  }

  /** Every arrangement of the same groups parses to the same result, the same error included. */
  lemma OrderIndependence(gs: seq<Group>, hs: seq<Group>, env: Defaults)
    requires AllWellFormed(gs) && multiset(gs) == multiset(hs)
    ensures Parse(Flatten(gs), env) == Parse(Flatten(hs), env)
  {
    forall g | g in hs ensures WellFormed(g) { SameMembers(gs, hs, g); }
    ParseIsMeaning(gs, env);
    ParseIsMeaning(hs, env);
    SameTargets(gs, hs, env);
    SameRetrieval(gs, hs, env);
    SameSwitches(gs, hs);
    forall t ensures multiset(Positionals(gs))[t] == multiset(Positionals(hs))[t] {
      PositionalInGroups(gs, t);
      PositionalInGroups(hs, t);
    }
    SameStrings(Positionals(gs), Positionals(hs));
    var t, r := TargetsOf(gs, env), RetrievalOf(gs, env);
    if t.Ok? && r.Ok? {
      AssembleSees(SwitchesOf(gs), t.value, r.value, Positionals(gs), Positionals(hs));
    }
  }

  // ----- Acceptance -----

  ghost predicate Once(gs: seq<Group>, key: string) {
    |Values(gs, key)| <= 1
  }

  /** A positive number of 64 bits. */
  predicate IsPositiveSize(s: string) {
    var n := ParseUnsigned(s, 0xFFFF_FFFF_FFFF_FFFF);
    n.Some? && n.value > 0
  }

  /** What a caller can check: each key at most once, the default paths that are needed, a positive
      size, and one catalogue or one source but not both. */
  ghost predicate Acceptable(gs: seq<Group>, env: Defaults) {
    && (forall key :: IsKey(key) ==> Once(gs, key))
    && (Values(gs, "--database") != [] || env.database.Some?)
    && env.cacheRoot.Some?
    && (Values(gs, "--max-download-bytes") != [] ==> IsPositiveSize(Values(gs, "--max-download-bytes")[0]))
    && if Values(gs, "--source") != [] then Positionals(gs) == []
       else && |Positionals(gs)| == 1 && Switch("--force-refresh") !in gs && Switch("--offline") !in gs
            && Values(gs, "--expected-sha256") == [] && Values(gs, "--max-download-bytes") == []
  }

  lemma TargetsAccepted(gs: seq<Group>, env: Defaults)
    ensures TargetsOf(gs, env).Ok? <==>
            && Once(gs, "--profile") && Once(gs, "--database") && Once(gs, "--config") && Once(gs, "--source")
            && (Values(gs, "--database") != [] || env.database.Some?)
    ensures TargetsOf(gs, env).Ok? ==> (TargetsOf(gs, env).value.source.None? <==> Values(gs, "--source") == [])
  {
  }

  lemma SizeAccepted(s: string)
    ensures ParseSize(Some(s)).Ok? <==> IsPositiveSize(s)
    ensures ParseSize(Some(s)).Ok? ==> ParseSize(Some(s)).value.Some?
  {
  }

  lemma StorageAccepted(gs: seq<Group>, env: Defaults)
    ensures var r, size := StorageOf(gs, env), Values(gs, "--max-download-bytes");
            && (r.Ok? <==>
                  && Once(gs, "--cache-root") && Once(gs, "--max-download-bytes")
                  && env.cacheRoot.Some? && (size != [] ==> IsPositiveSize(size[0])))
            && (r.Ok? ==> (r.value.1.None? <==> size == []))
  {
    var size := Values(gs, "--max-download-bytes");
    if size != [] { SizeAccepted(size[0]); }
  }

  lemma RetrievalAccepted(gs: seq<Group>, env: Defaults)
    ensures var r, size := RetrievalOf(gs, env), Values(gs, "--max-download-bytes");
            && (r.Ok? <==>
                  && Once(gs, "--expected-sha256") && Once(gs, "--cache-root") && Once(gs, "--max-download-bytes")
                  && env.cacheRoot.Some? && (size != [] ==> IsPositiveSize(size[0])))
            && (r.Ok? ==>
                  && (r.value.maxDownloadBytes.None? <==> size == [])
                  && (r.value.expectedSha256.None? <==> Values(gs, "--expected-sha256") == [])
                  && (r.value.forceRefresh <==> Switch("--force-refresh") in gs)
                  && (r.value.offline <==> Switch("--offline") in gs))
  {
    StorageAccepted(gs, env);
  }

  lemma EveryKeyOnce(gs: seq<Group>)
    ensures (forall key :: IsKey(key) ==> Once(gs, key)) <==>
            && Once(gs, "--profile") && Once(gs, "--database") && Once(gs, "--config") && Once(gs, "--source")
            && Once(gs, "--expected-sha256") && Once(gs, "--cache-root") && Once(gs, "--max-download-bytes")
  {
    assert IsKey("--profile") && IsKey("--database") && IsKey("--config") && IsKey("--source");
    assert IsKey("--expected-sha256") && IsKey("--cache-root") && IsKey("--max-download-bytes");
  }

  lemma ParseAcceptsExactly(gs: seq<Group>, env: Defaults)
    requires AllWellFormed(gs)
    ensures Parse(Flatten(gs), env).Ok? <==> Acceptable(gs, env)
  {
    ParseIsMeaning(gs, env);
    EveryKeyOnce(gs);
    TargetsAccepted(gs, env);
    RetrievalAccepted(gs, env);
  }

  /** The closing refusals, where every key and default is in order: with `--source` a single catalogue
      path is one too many, and so are several, by another name; without it, any number but one is
      refused, and any retrieval option. */
  lemma ClosingRefusals(gs: seq<Group>, env: Defaults)
    requires AllWellFormed(gs) && (forall key :: IsKey(key) ==> Once(gs, key))
    requires env.database.Some? && env.cacheRoot.Some?
    requires Values(gs, "--max-download-bytes") != [] ==> IsPositiveSize(Values(gs, "--max-download-bytes")[0])
    ensures var r, source, n := Parse(Flatten(gs), env), Values(gs, "--source") != [], |Positionals(gs)|;
            && (source && n == 1 ==> r == Err(NeedsOneCatalogueOrSource))
            && (source && n > 1 ==> r == Err(CatalogueWithSource))
            && (!source && n != 1 ==> r == Err(NeedsOneCatalogueOrSource))
            && (!source && n == 1 && (Switch("--force-refresh") in gs || Switch("--offline") in gs
                                      || Values(gs, "--expected-sha256") != []
                                      || Values(gs, "--max-download-bytes") != []) ==>
                  r == Err(RetrievalNeedsSource))
  {
    ParseIsMeaning(gs, env);
    EveryKeyOnce(gs);
    TargetsAccepted(gs, env);
    RetrievalAccepted(gs, env);
  }

  function Optional(v: Option<string>): seq<string> {
    if v.Some? then [v.value] else []
  }

  /** The one value of a key, or else the default. */
  function Given(values: seq<string>, default: Option<string>): seq<string> {
    if values == [] then Optional(default) else values
  }

  lemma TargetsRead(gs: seq<Group>, env: Defaults)
    requires TargetsOf(gs, env).Ok?
    ensures var t := TargetsOf(gs, env).value;
            && Optional(t.profile) == Values(gs, "--profile") && Optional(t.config) == Values(gs, "--config")
            && Optional(t.source) == Values(gs, "--source")
            && [t.database] == Given(Values(gs, "--database"), env.database)
  {
  }

  lemma StorageRead(gs: seq<Group>, env: Defaults)
    requires StorageOf(gs, env).Ok?
    ensures var (root, size) := StorageOf(gs, env).value;
            && env.cacheRoot.Some? && [root] == Given(Values(gs, "--cache-root"), env.cacheRoot)
            && SizeReads(Values(gs, "--max-download-bytes"), size)
  {
  }

  lemma RetrievalRead(gs: seq<Group>, env: Defaults)
    requires RetrievalOf(gs, env).Ok?
    ensures env.cacheRoot.Some? && ReadsRetrieval(gs, env, RetrievalOf(gs, env).value)
  {
    StorageRead(gs, env);
  }

  lemma AssembleReads(w: Switches, t: Targets, r: Retrieval, rest: seq<string>)
    requires Assemble(w, t, r, rest).Ok?
    ensures var o := Assemble(w, t, r, rest).value;
            && w == Switches(o.json, o.dryRun, o.yes, o.replaceDifferent)
            && t == Targets(o.profileId, o.databasePath, o.configurationPath, o.sourceId)
            && o.retrieval == (if t.source.Some? then Some(r) else None)
            && (if t.source.None? then rest == [o.cataloguePath] else rest == [] && o.cataloguePath == "")
  {
  }

  /** The options of an accepted command line, field by field. */
  ghost predicate Reads(gs: seq<Group>, env: Defaults, o: Options) {
    && SwitchesOf(gs) == Switches(o.json, o.dryRun, o.yes, o.replaceDifferent)
    && Optional(o.profileId) == Values(gs, "--profile")
    && Optional(o.configurationPath) == Values(gs, "--config")
    && Optional(o.sourceId) == Values(gs, "--source")
    && [o.databasePath] == Given(Values(gs, "--database"), env.database)
    && Coherent(o) && env.cacheRoot.Some?
    && if o.sourceId.None? then Positionals(gs) == [o.cataloguePath]
       else Positionals(gs) == [] && o.cataloguePath == "" && ReadsRetrieval(gs, env, o.retrieval.value)
  }

  ghost predicate ReadsRetrieval(gs: seq<Group>, env: Defaults, r: Retrieval) {
    && (r.json <==> Switch("--json") in gs) && (r.forceRefresh <==> Switch("--force-refresh") in gs)
    && (r.offline <==> Switch("--offline") in gs)
    && Optional(r.expectedSha256) == Values(gs, "--expected-sha256")
    && [r.cacheRoot] == Given(Values(gs, "--cache-root"), env.cacheRoot)
    && SizeReads(Values(gs, "--max-download-bytes"), r.maxDownloadBytes)
  }

  /** The size limit is the positive 64-bit number written, and absent where none is. */
  ghost predicate SizeReads(values: seq<string>, size: Option<nat>) {
    if values == [] then size.None?
    else |values| == 1 && size.Some? && size.value > 0 && ParseUnsigned(values[0], 0xFFFF_FFFF_FFFF_FFFF) == size
  }

  lemma MeaningReads(gs: seq<Group>, env: Defaults)
    requires Meaning(gs, env).Ok?
    ensures Reads(gs, env, Meaning(gs, env).value)
  {
    TargetsRead(gs, env);
    RetrievalRead(gs, env);
    AssembleReads(SwitchesOf(gs), TargetsOf(gs, env).value, RetrievalOf(gs, env).value, Positionals(gs));
  }

  lemma ParsedFields(gs: seq<Group>, env: Defaults, o: Options)
    requires AllWellFormed(gs) && Parse(Flatten(gs), env) == Ok(o)
    ensures Reads(gs, env, o)
  {
    ParseIsMeaning(gs, env);
    MeaningReads(gs, env);
  }
}
