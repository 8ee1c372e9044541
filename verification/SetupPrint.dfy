/** The printed "apply" command and its round trip through the parser. */
module SetupPrint {
  import opened Wrappers
  import opened SetupOptions
  import opened SetupLaws
  import opened SetupVectors

  // ----- The printed command -----

  function SourceGroups(o: Options): seq<Group> {
    if o.sourceId.None? then [] + [Positional(o.cataloguePath)]
    else
      var a := [] + [Pair("--source", o.sourceId.value)];
      if o.retrieval.None? then a
      else
        var b := if o.retrieval.value.offline then a + [Switch("--offline")] else a;
        b + [Pair("--cache-root", o.retrieval.value.cacheRoot)]
  }

  function MiddleGroups(o: Options, profile: string): seq<Group> {
    SourceGroups(o) + [Pair("--profile", profile)] + [Pair("--database", o.databasePath)]
  }

  /** The groups of the command that applies a previewed plan with the given profile. */
  function ApplyGroups(o: Options, profile: string): seq<Group> {
    var a := MiddleGroups(o, profile);
    var b := if o.configurationPath.Some? then a + [Pair("--config", o.configurationPath.value)] else a;
    var c := if o.replaceDifferent then b + [Switch("--replace-different")] else b;
    c + [Switch("--yes")]
  }

  const HEAD: seq<string> := ["emuwiz-cli", "retroarch-cheat-setup"]

  /** `preview_apply_command`: pushes the words one group after another. */
  method PreviewApplyCommand(o: Options, profile: string) returns (command: seq<string>)
    ensures command == ["emuwiz-cli", "retroarch-cheat-setup"] + Flatten(ApplyGroups(o, profile))
  {
    command := HEAD;
    ghost var gs: seq<Group> := [];
    if o.sourceId.Some? {
      command, gs := Push(command, gs, Pair("--source", o.sourceId.value));
      if o.retrieval.Some? {
        if o.retrieval.value.offline {
          command, gs := Push(command, gs, Switch("--offline"));
        }
        command, gs := Push(command, gs, Pair("--cache-root", o.retrieval.value.cacheRoot));
      }
    } else {
      command, gs := Push(command, gs, Positional(o.cataloguePath));
    }
    assert gs == SourceGroups(o);
    command, gs := Push(command, gs, Pair("--profile", profile));
    command, gs := Push(command, gs, Pair("--database", o.databasePath));
    if o.configurationPath.Some? {
      command, gs := Push(command, gs, Pair("--config", o.configurationPath.value));
    }
    if o.replaceDifferent {
      command, gs := Push(command, gs, Switch("--replace-different"));
    }
    command, gs := Push(command, gs, Switch("--yes"));
  }

  /** Pushes the words of one group. */
  method Push(command: seq<string>, ghost gs: seq<Group>, g: Group)
    returns (command': seq<string>, ghost gs': seq<Group>)
    requires command == HEAD + Flatten(gs)
    ensures command' == command + Write(g) && gs' == gs + [g]
    ensures command' == HEAD + Flatten(gs')
  {
    command' := command + Write(g);
    gs' := gs + [g];
    FlattenAppend(gs, g);
  }

  lemma {:induction false} FlattenAppend(gs: seq<Group>, g: Group)
    ensures Flatten(gs + [g]) == Flatten(gs) + Write(g)
  {
    if gs == [] {
      assert [g][1..] == [] && gs + [g] == [g];
    } else {
      assert (gs + [g])[1..] == gs[1..] + [g];
      FlattenAppend(gs[1..], g);
    }
  }

  // ----- The round trip -----

  /** No path or source id to be printed looks like an option, and a local catalogue path is not an
      option name. */
  ghost predicate PrintableValues(o: Options)
    requires Coherent(o)
  {
    && !("--" <= o.databasePath)
    && (o.configurationPath.Some? ==> !("--" <= o.configurationPath.value))
    && if o.sourceId.None? then !IsSwitch(o.cataloguePath) && !IsKey(o.cataloguePath)
       else !("--" <= o.sourceId.value) && !("--" <= o.retrieval.value.cacheRoot)
  }

  /** Nor does the profile id. */
  ghost predicate Printable(o: Options, profile: string)
    requires Coherent(o)
  {
    !("--" <= profile) && PrintableValues(o)
  }

  /** The previewed options with the plan's profile, confirmed, and without the run-only switches. */
  function Applied(o: Options, profile: string): Options
    requires Coherent(o)
  {
    var path := if o.sourceId.None? then o.cataloguePath else "";
    var retrieval := if o.retrieval.None? then None
                     else Some(Retrieval(false, false, o.retrieval.value.offline, None,
                                         o.retrieval.value.cacheRoot, None));
    Options(path, o.sourceId, retrieval, Some(profile), false, true, o.replaceDifferent, false,
            o.databasePath, o.configurationPath)
  }

  lemma {:induction false} ValuesAppend(gs: seq<Group>, g: Group, key: string)
    ensures Values(gs + [g], key) == Values(gs, key) + if g.Pair? && g.key == key then [g.value] else []
    ensures Positionals(gs + [g]) == Positionals(gs) + if g.Positional? then [g.token] else []
  {
    if gs == [] {
      assert [g][1..] == [] && gs + [g] == [g];
    } else {
      assert (gs + [g])[1..] == gs[1..] + [g];
      ValuesAppend(gs[1..], g, key);
    }
  }

  /** The one value a key has in the printed command, if any. */
  function Printed(o: Options, profile: string, key: string): seq<string> {
    if key == "--profile" then [profile]
    else if key == "--database" then [o.databasePath]
    else if key == "--config" then (if o.configurationPath.Some? then [o.configurationPath.value] else [])
    else if key == "--source" then (if o.sourceId.Some? then [o.sourceId.value] else [])
    else if key == "--cache-root" then
      (if o.sourceId.Some? && o.retrieval.Some? then [o.retrieval.value.cacheRoot] else [])
    else []
  }

  lemma SourceValues(o: Options, key: string)
    ensures Values(SourceGroups(o), key) ==
            if key == "--source" || key == "--cache-root" then Printed(o, "", key) else []
    ensures Positionals(SourceGroups(o)) == if o.sourceId.None? then [o.cataloguePath] else []
  {
    if o.sourceId.None? {
      ValuesAppend([], Positional(o.cataloguePath), key);
    } else {
      var a := [] + [Pair("--source", o.sourceId.value)];
      ValuesAppend([], Pair("--source", o.sourceId.value), key);
      if o.retrieval.Some? {
        ValuesAppend(a, Switch("--offline"), key);
        var b := if o.retrieval.value.offline then a + [Switch("--offline")] else a;
        ValuesAppend(b, Pair("--cache-root", o.retrieval.value.cacheRoot), key);
      }
    }
  }

  lemma MiddleValues(o: Options, profile: string, key: string)
    ensures Values(MiddleGroups(o, profile), key) == if key == "--config" then [] else Printed(o, profile, key)
    ensures Positionals(MiddleGroups(o, profile)) == if o.sourceId.None? then [o.cataloguePath] else []
  {
    SourceValues(o, key);
    var s := SourceGroups(o);
    ValuesAppend(s, Pair("--profile", profile), key);
    ValuesAppend(s + [Pair("--profile", profile)], Pair("--database", o.databasePath), key);
  }

  lemma ConfigValues(o: Options, gs: seq<Group>, key: string)
    ensures var b := if o.configurationPath.Some? then gs + [Pair("--config", o.configurationPath.value)] else gs;
            && Values(b, key) == Values(gs, key) + (if key == "--config" then Optional(o.configurationPath) else [])
            && Positionals(b) == Positionals(gs)
  {
    if o.configurationPath.Some? { ValuesAppend(gs, Pair("--config", o.configurationPath.value), key); }
  }

  lemma FinalSwitches(o: Options, gs: seq<Group>, key: string)
    ensures var c := (if o.replaceDifferent then gs + [Switch("--replace-different")] else gs) + [Switch("--yes")];
            Values(c, key) == Values(gs, key) && Positionals(c) == Positionals(gs)
  {
    ValuesAppend(gs, Switch("--replace-different"), key);
    var c := if o.replaceDifferent then gs + [Switch("--replace-different")] else gs;
    ValuesAppend(c, Switch("--yes"), key);
  }

  lemma ApplyValues(o: Options, profile: string, key: string)
    ensures Values(ApplyGroups(o, profile), key) == Printed(o, profile, key)
    ensures Positionals(ApplyGroups(o, profile)) == if o.sourceId.None? then [o.cataloguePath] else []
  {
    MiddleValues(o, profile, key);
    var a := MiddleGroups(o, profile);
    ConfigValues(o, a, key);
    var b := if o.configurationPath.Some? then a + [Pair("--config", o.configurationPath.value)] else a;
    FinalSwitches(o, b, key);
  }

  lemma ApplySwitch(o: Options, profile: string, name: string)
    ensures Switch(name) in ApplyGroups(o, profile) <==>
            || name == "--yes" || (name == "--replace-different" && o.replaceDifferent)
            || (name == "--offline" && o.sourceId.Some? && o.retrieval.Some? && o.retrieval.value.offline)
  {
  }

  lemma ApplySwitches(o: Options, profile: string)
    ensures SwitchesOf(ApplyGroups(o, profile)) == Switches(false, false, true, o.replaceDifferent)
  {
    ApplySwitch(o, profile, "--json");
    ApplySwitch(o, profile, "--dry-run");
    ApplySwitch(o, profile, "--yes");
    ApplySwitch(o, profile, "--replace-different");
  }

  lemma ApplyWellFormed(o: Options, profile: string)
    requires Coherent(o) && Printable(o, profile)
    ensures AllWellFormed(ApplyGroups(o, profile))
  {
    SourceWellFormed(o);
    assert WellFormed(Switch("--replace-different")) && WellFormed(Switch("--yes"));
    assert IsKey("--profile") && IsKey("--database") && IsKey("--config");
  }

  lemma SourceWellFormed(o: Options)
    requires Coherent(o) && PrintableValues(o)
    ensures AllWellFormed(SourceGroups(o))
  {
    assert IsKey("--source") && IsSwitch("--offline") && IsKey("--cache-root");
  }

  lemma AppliedTargets(o: Options, profile: string, env: Defaults)
    ensures TargetsOf(ApplyGroups(o, profile), env) ==
            Ok(Targets(Some(profile), o.databasePath, o.configurationPath, o.sourceId))
  {
    ApplyValues(o, profile, "--profile");
    ApplyValues(o, profile, "--database");
    ApplyValues(o, profile, "--config");
    ApplyValues(o, profile, "--source");
  }

  lemma AppliedRetrieval(o: Options, profile: string, env: Defaults)
    requires Coherent(o)
    ensures var r := RetrievalOf(ApplyGroups(o, profile), env);
            if env.cacheRoot.None? then r.Err?
            else r == Ok(if o.retrieval.Some? then Applied(o, profile).retrieval.value
                         else Retrieval(false, false, false, None, env.cacheRoot.value, None))
  {
    ApplyValues(o, profile, "--expected-sha256");
    ApplyValues(o, profile, "--cache-root");
    ApplyValues(o, profile, "--max-download-bytes");
    ApplySwitch(o, profile, "--json");
    ApplySwitch(o, profile, "--force-refresh");
    ApplySwitch(o, profile, "--offline");
  }

  /** The printed command reads back as what was previewed, wherever a default cache root exists. */
  lemma PrintedReadsBack(o: Options, profile: string, env: Defaults)
    requires Coherent(o) && Printable(o, profile)
    ensures Parse(Flatten(ApplyGroups(o, profile)), env) == Ok(Applied(o, profile)) <==> env.cacheRoot.Some?
  {
    ApplyWellFormed(o, profile);
    ParseIsMeaning(ApplyGroups(o, profile), env);
    AppliedTargets(o, profile, env);
    AppliedRetrieval(o, profile, env);
    ApplySwitches(o, profile);
    ApplyValues(o, profile, "");
  }

  // ----- The exact condition -----

  lemma {:induction false} NameIsWritten(gs: seq<Group>, g: Group)
    requires g in gs
    ensures Write(g)[0] in Flatten(gs)
  {
    if g != gs[0] { NameIsWritten(gs[1..], g); }
  }

  lemma PrintedKeys(o: Options, profile: string)
    ensures "--database" in Flatten(ApplyGroups(o, profile))
    ensures o.sourceId.Some? && o.retrieval.Some? ==> "--cache-root" in Flatten(ApplyGroups(o, profile))
  {
    NameIsWritten(ApplyGroups(o, profile), Pair("--database", o.databasePath));
    if o.sourceId.Some? && o.retrieval.Some? {
      NameIsWritten(ApplyGroups(o, profile), Pair("--cache-root", o.retrieval.value.cacheRoot));
    }
  }

  /** In any environment, the printed command reads back as previewed if and only if there is a default
      cache root and none of the printed values can be taken for an option. */
  lemma PrintParseRoundTrip(o: Options, profile: string, env: Defaults)
    requires Coherent(o)
    ensures Parse(Flatten(ApplyGroups(o, profile)), env) == Ok(Applied(o, profile))
            <==> env.cacheRoot.Some? && Printable(o, profile)
  {
    if Printable(o, profile) {
      PrintedReadsBack(o, profile, env);
    } else if Parse(Flatten(ApplyGroups(o, profile)), env) == Ok(Applied(o, profile)) {
      PrintedKeys(o, profile);
      ParsedValues(Flatten(ApplyGroups(o, profile)), env);
    }
  }

  /** Every command line closes: what is parsed from it, whatever its shape, can be printed with any
      profile id that is no option, and the printed command reads back, as long as no default is an
      option. */
  lemma ParsedIsPrintable(args: seq<string>, env: Defaults, profile: string)
    requires Parse(args, env).Ok? && !("--" <= profile)
    requires env.database.Some? ==> !("--" <= env.database.value)
    requires env.cacheRoot.Some? ==> !("--" <= env.cacheRoot.value)
    ensures var o := Parse(args, env).value;
            && Coherent(o) && Printable(o, profile)
            && Parse(Flatten(ApplyGroups(o, profile)), env) == Ok(Applied(o, profile))
  {
    ParsedValues(args, env);
    PrintParseRoundTrip(Parse(args, env).value, profile, env);
  }
}
