/** The option parser of the guided cheat setup, on token sequences and in place. */
module SetupOptions {
  import opened Wrappers
  import opened Bounds
  import opened Text
  import opened TokenVector

  datatype Retrieval = Retrieval(json: bool, forceRefresh: bool, offline: bool, expectedSha256: Option<string>,
                                 cacheRoot: string, maxDownloadBytes: Option<nat>)

  datatype Options = Options(cataloguePath: string, sourceId: Option<string>, retrieval: Option<Retrieval>,
                             profileId: Option<string>, dryRun: bool, yes: bool, replaceDifferent: bool,
                             json: bool, databasePath: string, configurationPath: Option<string>)

  /** What every parsed option record satisfies: retrieval options come with a source, and a size limit
      is positive. */
  ghost predicate Coherent(o: Options) {
    && (o.sourceId.Some? <==> o.retrieval.Some?)
    && (o.retrieval.Some? ==> o.retrieval.value.maxDownloadBytes != Some(0))
  }

  /** Default locations, absent when the environment does not determine them. */
  datatype Defaults = Defaults(database: Option<string>, cacheRoot: Option<string>)

  datatype ParseError =
    | OnlyOnce(flag: string)
    | RequiresValue(flag: string)
    | NoDefaultDatabase
    | NoDefaultCacheRoot
    | NotAPositiveInteger
    | ZeroDownloadBytes
    | NeedsOneCatalogueOrSource
    | RetrievalNeedsSource
    | CatalogueWithSource

  predicate IsOptionLike(s: string) {
    |s| >= 2 && s[0] == '-' && s[1] == '-'
  }

  predicate IsSwitch(s: string) {
    s == "--json" || s == "--dry-run" || s == "--yes" || s == "--replace-different"
    || s == "--force-refresh" || s == "--offline"
  }

  predicate IsKey(s: string) {
    s == "--profile" || s == "--database" || s == "--config" || s == "--source"
    || s == "--expected-sha256" || s == "--cache-root" || s == "--max-download-bytes"
  }

  // ----- The parser on token sequences -----

  /** `extract_value`: the value after the only occurrence of `key`, and the tokens without both. */
  function ExtractValue(s: seq<string>, key: string): (r: Result<(Option<string>, seq<string>), ParseError>)
    ensures r.Ok? ==> key !in r.value.1
  {
    if s == [] then Ok((None, []))
    else if s[0] == key then
      if key in s[1..] then Err(OnlyOnce(key))
      else if |s| == 1 || IsOptionLike(s[1]) then Err(RequiresValue(key))
      else Ok((Some(s[1]), s[2..]))
    else
      match ExtractValue(s[1..], key)
      case Ok((value, rest)) => Ok((value, [s[0]] + rest))
      case Err(error) => Err(error)
  }

  lemma {:induction false} ExtractPast(a: seq<string>, b: seq<string>, key: string)
    requires key !in a
    ensures ExtractValue(a + b, key) ==
            match ExtractValue(b, key)
            case Ok((value, rest)) => Ok((value, a + rest))
            case Err(error) => Err(error)
  {
    var r := ExtractValue(b, key);
    if a == [] {
      assert a + b == b;
      if r.Ok? { assert a + r.value.1 == r.value.1; }
    } else {
      assert (a + b)[1..] == a[1..] + b;
      ExtractPast(a[1..], b, key);
      if r.Ok? { assert [a[0]] + (a[1..] + r.value.1) == a + r.value.1; }
    }
  }

  /** What the positions of a key say about its extraction. */
  lemma ExtractByPositions(s: seq<string>, key: string)
    ensures var p, r := Positions(s, key), ExtractValue(s, key);
            if |p| > 1 then r == Err(OnlyOnce(key))
            else if |p| == 0 then r == Ok((None, s))
            else if p[0] + 1 >= |s| || IsOptionLike(s[p[0] + 1]) then r == Err(RequiresValue(key))
            else r == Ok((Some(s[p[0] + 1]), s[..p[0]] + s[p[0] + 2..]))
  {
    var p := Positions(s, key);
    if |p| == 0 {
      assert s == s + [];
      ExtractPast(s, [], key);
    } else {
      ExtractAt(s, p[0], key);
      CountSplit(s, p[0], key);
    }
  }

  lemma ExtractAt(s: seq<string>, p: nat, key: string)
    requires p < |s| && s[p] == key && key !in s[..p]
    ensures ExtractValue(s, key) ==
            if key in s[p + 1..] then Err(OnlyOnce(key))
            else if p + 1 >= |s| || IsOptionLike(s[p + 1]) then Err(RequiresValue(key))
            else Ok((Some(s[p + 1]), s[..p] + s[p + 2..]))
  {
    var b := s[p..];
    assert s == s[..p] + b;
    ExtractPast(s[..p], b, key);
    assert b[1..] == s[p + 1..] && (|b| > 1 ==> b[2..] == s[p + 2..]);
  }

  lemma CountSplit(s: seq<string>, p: nat, key: string)
    requires p < |s| && s[p] == key && key !in s[..p]
    ensures multiset(s)[key] == 1 + multiset(s[p + 1..])[key]
  {
    assert s == s[..p] + ([s[p]] + s[p + 1..]);
    assert multiset(s)[key] == multiset(s[..p])[key] + multiset([s[p]] + s[p + 1..])[key];
    assert multiset([s[p]] + s[p + 1..])[key] == 1 + multiset(s[p + 1..])[key];
  }

  datatype Switches = Switches(json: bool, dryRun: bool, yes: bool, replaceDifferent: bool)
  datatype Targets = Targets(profile: Option<string>, database: string, config: Option<string>, source: Option<string>)

  function Default(value: Option<string>, default: Option<string>, error: ParseError): Result<string, ParseError> {
    if value.Some? then Ok(value.value) else if default.Some? then Ok(default.value) else Err(error)
  }

  function ParseSize(raw: Option<string>): Result<Option<nat>, ParseError> {
    if raw.None? then Ok(None)
    else
      var n := ParseUnsigned(raw.value, U64_MAX);
      if n.None? then Err(NotAPositiveInteger)
      else if n.value == 0 then Err(ZeroDownloadBytes)
      else Ok(n)
  }

  function ParseSwitches(s: seq<string>): (Switches, seq<string>) {
    var s1 := Without(s, "--json");
    var s2 := Without(s1, "--dry-run");
    var s3 := Without(s2, "--yes");
    (Switches("--json" in s, "--dry-run" in s1, "--yes" in s2, "--replace-different" in s3),
     Without(s3, "--replace-different"))
  }

  function ParseTargets(s: seq<string>, env: Defaults): Result<(Targets, seq<string>), ParseError> {
    var (profile, s) :- ExtractValue(s, "--profile");
    var (database, s) :- ExtractValue(s, "--database");
    var databasePath :- Default(database, env.database, NoDefaultDatabase);
    var (config, s) :- ExtractValue(s, "--config");
    var (source, s) :- ExtractValue(s, "--source");
    Ok((Targets(profile, databasePath, config, source), s))
  }

  /** The default cache root is required even when `--cache-root` is given. */
  function ParseStorage(s: seq<string>, env: Defaults): Result<(string, Option<nat>, seq<string>), ParseError> {
    var (cacheRoot, s) :- ExtractValue(s, "--cache-root");
    var default :- Default(None, env.cacheRoot, NoDefaultCacheRoot);
    var (raw, s) :- ExtractValue(s, "--max-download-bytes");
    var size :- ParseSize(raw);
    Ok((if cacheRoot.Some? then cacheRoot.value else default, size, s))
  }

  function ParseRetrieval(s: seq<string>, json: bool, env: Defaults): Result<(Retrieval, seq<string>), ParseError> {
    var forceRefresh, s := "--force-refresh" in s, Without(s, "--force-refresh");
    var offline, s := "--offline" in s, Without(s, "--offline");
    var (sha, s) :- ExtractValue(s, "--expected-sha256");
    var (cacheRoot, size, s) :- ParseStorage(s, env);
    Ok((Retrieval(json, forceRefresh, offline, sha, cacheRoot, size), s))
  }

  /** The closing checks, on the switches and values found and the tokens left over. */
  function Assemble(w: Switches, t: Targets, r: Retrieval, rest: seq<string>): Result<Options, ParseError> {
    if t.source.Some? == (|rest| == 1) then Err(NeedsOneCatalogueOrSource)
    else if t.source.None? && (r.forceRefresh || r.offline || r.expectedSha256.Some? || r.maxDownloadBytes.Some?)
    then Err(RetrievalNeedsSource)
    else if t.source.Some? && rest != [] then Err(CatalogueWithSource)
    else Ok(Options(if rest == [] then "" else rest[0], t.source, if t.source.Some? then Some(r) else None,
                    t.profile, w.dryRun, w.yes, w.replaceDifferent, w.json, t.database, t.config))
  }

  function Parse(args: seq<string>, env: Defaults): Result<Options, ParseError> {
    var (w, s) := ParseSwitches(args);
    var (t, s) :- ParseTargets(s, env);
    var (r, s) :- ParseRetrieval(s, w.json, env);
    Assemble(w, t, r, s)
  }

  // ----- The parser in place -----

  method ExtractFlag(args: Tokens, flag: string) returns (present: bool)
    requires args.Valid()
    modifies args`len, args.data
    ensures args.Valid()
    ensures present == (flag in old(args.View()))
    ensures args.View() == Without(old(args.View()), flag)
  {
    present := args.Contains(flag);
    args.RetainOthers(flag);
  }

  method ExtractOne(args: Tokens, key: string) returns (r: Result<Option<string>, ParseError>)
    requires args.Valid()
    modifies args`len, args.data
    ensures args.Valid()
    ensures var spec := ExtractValue(old(args.View()), key);
            if spec.Ok? then r == Ok(spec.value.0) && args.View() == spec.value.1
            else r == Err(spec.error) && args.View() == old(args.View())
  {
    var positions: seq<nat> := args.AllPositions(key);
    ExtractByPositions(args.View(), key);
    if |positions| > 1 { return Err(OnlyOnce(key)); }
    if |positions| == 0 { return Ok(None); }
    var position: nat := positions[0];
    if position + 1 >= args.len || IsOptionLike(args.data[position + 1]) { return Err(RequiresValue(key)); }
    var value := args.RemovePair(position);
    return Ok(Some(value));
  }

  /** `parse_options`: the extractions one after another on one vector. */
  method ParseOptions(args: Tokens, env: Defaults) returns (r: Result<Options, ParseError>)
    requires args.Valid()
    modifies args`len, args.data
    ensures r == Parse(old(args.View()), env)
  {
    var json := ExtractFlag(args, "--json");
    var dryRun := ExtractFlag(args, "--dry-run");
    var yes := ExtractFlag(args, "--yes");
    var replaceDifferent := ExtractFlag(args, "--replace-different");
    var w := Switches(json, dryRun, yes, replaceDifferent);
    assert ParseSwitches(old(args.View())) == (w, args.View());
    var targets :- TakeTargets(args, env);
    var retrieval :- TakeRetrieval(args, json, env);
    r := Assemble(w, targets, retrieval, args.data[..args.len]);
  }

  method TakeTargets(args: Tokens, env: Defaults) returns (r: Result<Targets, ParseError>)
    requires args.Valid()
    modifies args`len, args.data
    ensures args.Valid()
    ensures var spec := ParseTargets(old(args.View()), env);
            if spec.Ok? then r == Ok(spec.value.0) && args.View() == spec.value.1 else r == Err(spec.error)
  {
    var profile :- ExtractOne(args, "--profile");
    var database :- ExtractOne(args, "--database");
    var databasePath :- Default(database, env.database, NoDefaultDatabase);
    var config :- ExtractOne(args, "--config");
    var source :- ExtractOne(args, "--source");
    return Ok(Targets(profile, databasePath, config, source));
  }

  method TakeRetrieval(args: Tokens, json: bool, env: Defaults) returns (r: Result<Retrieval, ParseError>)
    requires args.Valid()
    modifies args`len, args.data
    ensures args.Valid()
    ensures var spec := ParseRetrieval(old(args.View()), json, env);
            if spec.Ok? then r == Ok(spec.value.0) && args.View() == spec.value.1 else r == Err(spec.error)
  {
    var forceRefresh := ExtractFlag(args, "--force-refresh");
    var offline := ExtractFlag(args, "--offline");
    var sha :- ExtractOne(args, "--expected-sha256");
    var cacheRoot :- ExtractOne(args, "--cache-root");
    var default :- Default(None, env.cacheRoot, NoDefaultCacheRoot);
    var raw :- ExtractOne(args, "--max-download-bytes");
    var size :- ParseSize(raw);
    return Ok(Retrieval(json, forceRefresh, offline, sha,
                        if cacheRoot.Some? then cacheRoot.value else default, size));
  }
}
