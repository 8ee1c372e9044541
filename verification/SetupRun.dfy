/** The guided setup run: retrieval, profile choice, preview, confirmation and installation, over the
    lines typed at the console. What the run finds is the `World`: the library it retrieves from, and the
    answers of discovery and planner to all that the run passes on from its options. */
module SetupRun {
  import opened Wrappers
  import opened Bounds
  import opened Text
  import opened SetupOptions
  import opened SetupFetch

  datatype Profile = Profile(id: string, eligible: bool)

  /** One attempt to read a line; beyond the last one the input has ended. */
  datatype Line = Typed(text: string) | Unreadable

  /** What a plan is built from. */
  datatype Request = Request(discovered: seq<Profile>, profile: Profile, cataloguePath: string,
                             databasePath: string, replaceDifferent: bool)

  /** What the installer is entered with: a plan of so many writes, and the name the catalogue is
      recorded under. */
  datatype Installation = Installation(request: Request, writes: nat, sourceName: string)

  datatype World = World(
    library: Library,
    discovered: Option<string> -> Result<seq<Profile>, string>,
    terminal: bool,
    dataDirectory: bool,
    plan: Request -> Result<nat, string>,
    installSucceeds: Installation -> bool)

  datatype Event =
    | FetchedSource(id: string)
    | PrintedChoices
    | Planned(plan: Installation)
    | PrintedPreview
    | AskedToConfirm
    | EnteredInstaller(plan: Installation)

  datatype Exit = Success | Failure(code: string)

  class Console {
    var input: seq<Line>
    var log: seq<Event>

    constructor (lines: seq<Line>)
      ensures input == lines && log == []
    {
      input := lines;
      log := [];
    }

    method ReadLine() returns (line: Option<Line>)
      modifies this`input
      ensures if old(input) == [] then line == None && input == []
              else line == Some(old(input)[0]) && input == old(input)[1..]
    {
      if input == [] { return None; }
      line := Some(input[0]);
      input := input[1..];
    }

    method Log(e: Event)
      modifies this`log
      ensures log == old(log) + [e]
    {
      log := log + [e];
    }
  }

  // ----- Profile choice -----

  datatype Decision = Cancel | Pick(index: nat) | Undecided

  /** What one typed line decides among `n` listed profiles. */
  function Decide(line: string, n: nat): (d: Decision)
    ensures d.Pick? ==> d.index < n
  {
    DecideText(Trim(line), ReadsAs(line), n)
  }

  function ReadsAs(line: string): Option<nat> {
    ParseUnsigned(Trim(line), USIZE_MAX)
  }

  /** The text and the number it reads as, if it does. */
  function DecideText(t: string, number: Option<nat>, n: nat): (d: Decision)
    ensures d.Pick? ==> d.index < n && number == Some(d.index + 1)
  {
    if IsCancel(t) then Cancel else PickNumber(number, n)
  }

  predicate IsCancel(t: string) {
    EqIgnoreAsciiCase(t, "q") || EqIgnoreAsciiCase(t, "cancel")
  }

  function PickNumber(number: Option<nat>, n: nat): (d: Decision)
    ensures d.Pick? ==> d.index < n && number == Some(d.index + 1)
    ensures !d.Cancel?
  {
    if number.Some? && 1 <= number.value <= n then Pick(number.value - 1) else Undecided
  }

  /** How lines are read while `n` profiles are listed. */
  function Listed(n: nat): (rule: string -> Decision)
    ensures InRange(rule, n)
  {
    line => Decide(line, n)
  }

  ghost predicate InRange(rule: string -> Decision, n: nat) {
    forall line :: rule(line).Pick? ==> rule(line).index < n
  }

  datatype Choice = Chosen(index: nat) | Cancelled | ReadError

  /** The choice that an input leads to, and the input left after it. */
  function Choose(input: seq<Line>, rule: string -> Decision, ghost n: nat): (r: (Choice, seq<Line>))
    requires InRange(rule, n)
    ensures r.0.Chosen? ==> r.0.index < n
  {
    if input == [] then (Cancelled, [])
    else if input[0].Unreadable? then (ReadError, input[1..])
    else
      match rule(input[0].text)
      case Cancel => (Cancelled, input[1..])
      case Pick(i) => (Chosen(i), input[1..])
      case Undecided => Choose(input[1..], rule, n)
  }

  /** `select_profile_from_reader`: asks again until a line decides. */
  method SelectProfile(profiles: seq<Profile>, console: Console) returns (r: Result<Option<Profile>, string>)
    modifies console`input
    ensures var (choice, rest) := Choose(old(console.input), Listed(|profiles|), |profiles|);
            && console.input == rest
            && r == match choice
                    case Chosen(i) => Ok(Some(profiles[i]))
                    case Cancelled => Ok(None)
                    case ReadError => Err("input_unreadable")
  {
    while true
      invariant Choose(console.input, Listed(|profiles|), |profiles|) == Choose(old(console.input), Listed(|profiles|), |profiles|)
      decreases |console.input|
    {
      var line := console.ReadLine();
      if line == None { return Ok(None); }
      if line.value.Unreadable? { return Err("input_unreadable"); }
      var decision := Listed(|profiles|)(line.value.text);
      if decision == Cancel { return Ok(None); }
      if decision.Pick? { return Ok(Some(profiles[decision.index])); }
    }
  }

  predicate SaysYes(line: Line) {
    line.Typed? && EqIgnoreAsciiCase(Trim(line.text), "yes")
  }

  lemma OnlyYes(line: Line)
    ensures SaysYes(line) <==> line.Typed? && AsciiLowercase(Trim(line.text)) == "yes"
  {
    assert AsciiLowercase("yes") == "yes";
  }

  /** `confirm_from_reader`: one line, and only "yes" confirms. */
  method Confirm(console: Console) returns (r: Result<bool, string>)
    modifies console`input
    ensures r == if old(console.input) == [] then Ok(false)
                 else if old(console.input)[0].Unreadable? then Err("input_unreadable")
                 else Ok(AsciiLowercase(Trim(old(console.input)[0].text)) == "yes")
    ensures console.input == if old(console.input) == [] then [] else old(console.input)[1..]
  {
    var line := console.ReadLine();
    if line == None { return Ok(false); }
    if line.value.Unreadable? { return Err("input_unreadable"); }
    OnlyYes(line.value);
    return Ok(SaysYes(line.value));
  }

  // ----- Which runs install -----

  function Eligible(profiles: seq<Profile>): (r: seq<Profile>)
    ensures forall p :: p in r <==> p in profiles && p.eligible
  {
    if profiles == [] then []
    else (if profiles[0].eligible then [profiles[0]] else []) + Eligible(profiles[1..])
  }

  /** Each eligible profile as often as it was discovered. */
  lemma {:induction false} EligibleCount(profiles: seq<Profile>, p: Profile)
    ensures multiset(Eligible(profiles))[p] == if p.eligible then multiset(profiles)[p] else 0
  {
    if profiles != [] {
      assert profiles == [profiles[0]] + profiles[1..];
      EligibleCount(profiles[1..], p);
    }
  }

  /** And in the order in which they were discovered. */
  lemma {:induction false} EligibleConcat(a: seq<Profile>, b: seq<Profile>)
    ensures Eligible(a + b) == Eligible(a) + Eligible(b)
  {
    if a == [] {
      assert a + b == b;
    } else {
      assert (a + b)[0] == a[0] && (a + b)[1..] == a[1..] + b;
      EligibleConcat(a[1..], b);
      var head := if a[0].eligible then [a[0]] else [];
      assert head + (Eligible(a[1..]) + Eligible(b)) == head + Eligible(a[1..]) + Eligible(b);
    }
  }

  function FindProfile(profiles: seq<Profile>, id: string): (r: Option<Profile>)
    ensures r.Some? ==> r.value.id == id && exists k :: FoundAt(profiles, r.value, k)
    ensures r.Some? ==> r.value in profiles
    ensures r.None? ==> forall p :: p in profiles ==> p.id != id
  {
    if profiles == [] then None
    else if profiles[0].id == id then assert FoundAt(profiles, profiles[0], 0); Some(profiles[0])
    else
      var r := FindProfile(profiles[1..], id);
      assert forall k :: r.Some? && FoundAt(profiles[1..], r.value, k) ==> FoundAt(profiles, r.value, k + 1);
      r
  }

  /** The first profile with its id. */
  ghost predicate FoundAt(profiles: seq<Profile>, p: Profile, k: int) {
    0 <= k < |profiles| && profiles[k] == p && forall j :: 0 <= j < k ==> profiles[j].id != p.id
  }

  /** How the choice of a profile ends: with a profile and the input left for the confirmation,
      cancelled at the prompt, or refused. */
  datatype Selection = Selected(profile: Profile, rest: seq<Line>) | Declined | Unselected(code: string)

  function SelectionOf(o: Options, profiles: seq<Profile>, terminal: bool, input: seq<Line>): (r: Selection)
    ensures r.Selected? ==> r.profile in profiles && r.profile.eligible
    ensures r.Selected? && o.profileId.Some? ==> r.profile.id == o.profileId.value
  {
    if o.profileId.Some? then
      var p := FindProfile(profiles, o.profileId.value);
      if p.None? then Unselected("unknown_profile_id")
      else if !p.value.eligible then Unselected("profile_ineligible")
      else Selected(p.value, input)
    else
      var es := Eligible(profiles);
      if es == [] then Unselected("no_eligible_profiles")
      else if |es| == 1 then Selected(es[0], input)
      else if o.json || o.dryRun || !terminal then Unselected("profile_selection_required")
      else
        var (choice, rest) := Choose(input, Listed(|es|), |es|);
        match choice
        case Chosen(i) => Selected(es[i], rest)
        case Cancelled => Declined
        case ReadError => Unselected("input_unreadable")
  }

  /** The catalogue a run reads: with `--source` the one retrieved, which the retrieval options decide. */
  function CataloguePath(o: Options, w: World): Result<string, string> {
    if o.sourceId.Some? && o.retrieval.Some? then
      Fetch(w.library, o.sourceId.value, FetchOptionsOf(o.retrieval.value)).0
    else Ok(o.cataloguePath)
  }

  /** The library a run leaves behind. */
  function LibraryAfter(o: Options, w: World): Library {
    if o.sourceId.Some? && o.retrieval.Some? then
      Fetch(w.library, o.sourceId.value, FetchOptionsOf(o.retrieval.value)).1
    else w.library
  }

  /** A run retrieves just as it was asked to, and what it downloads is within the limit it was given, of
      the digest it was given, and never offline. */
  lemma RetrievesAsAsked(o: Options, w: World)
    requires o.sourceId.Some? && o.retrieval.Some? && CataloguePath(o, w).Ok?
    ensures var r, id := o.retrieval.value, o.sourceId.value;
            var f := FetchOptions(r.cacheRoot, r.forceRefresh, r.offline, r.expectedSha256, r.maxDownloadBytes);
            && (CataloguePath(o, w), LibraryAfter(o, w)) == Fetch(w.library, id, f)
            && (CacheServes(w.library, id, f) ||
                (&& !r.offline && w.library.server(id).Ok?
                 && (r.maxDownloadBytes.Some? ==> w.library.server(id).value.size <= r.maxDownloadBytes.value)
                 && (r.expectedSha256.Some? ==>
                       AsciiLowercase(w.library.server(id).value.sha) == AsciiLowercase(r.expectedSha256.value))))
  {
    FetchSucceedsExactly(w.library, o.sourceId.value, FetchOptionsOf(o.retrieval.value));
  }

  /** How far a run gets before it asks for consent. */
  datatype Progress = Refused(code: string) | ChoiceCancelled | Reached(plan: Installation, rest: seq<Line>)

  function ProgressOf(o: Options, w: World, input: seq<Line>): Progress {
    match CataloguePath(o, w)
    case Err(code) => Refused(code)
    case Ok(path) =>
      match w.discovered(o.configurationPath)
      case Err(code) => Refused(code)
      case Ok(profiles) =>
        match SelectionOf(o, profiles, w.terminal, input)
        case Unselected(code) => Refused(code)
        case Declined => ChoiceCancelled
        case Selected(profile, rest) =>
          if !w.dataDirectory then Refused("no_data_directory")
          else PlanOf(o, w, Request(profiles, profile, path, o.databasePath, o.replaceDifferent), rest)
  }

  function PlanOf(o: Options, w: World, request: Request, rest: seq<Line>): Progress {
    match w.plan(request)
    case Err(code) => Refused(code)
    case Ok(writes) => Reached(Installation(request, writes, SourceName(o)), rest)
  }

  function SourceName(o: Options): string {
    if o.sourceId.Some? then o.sourceId.value else "local-catalogue"
  }

  /** Consent to a plan: some writes, no dry run, and `--yes` or a "yes" typed outside JSON mode. */
  predicate Consented(o: Options, writes: nat, rest: seq<Line>) {
    writes > 0 && !o.dryRun && (o.yes || (!o.json && rest != [] && SaysYes(rest[0])))
  }

  /** The answer to the confirmation prompt, where it is asked, could not be read. */
  predicate AnswerUnreadable(o: Options, writes: nat, rest: seq<Line>) {
    writes > 0 && !o.dryRun && !o.yes && !o.json && rest != [] && rest[0].Unreadable?
  }

  /** The installation a run is entitled to, if any. */
  function Entitled(o: Options, w: World, input: seq<Line>): Option<Installation> {
    match ProgressOf(o, w, input)
    case Reached(plan, rest) => if Consented(o, plan.writes, rest) then Some(plan) else None
    case _ => None
  }

  /** The installer entries of a log. */
  function Installs(log: seq<Event>): seq<Event> {
    if log == [] then []
    else Installs(log[..|log| - 1]) + if log[|log| - 1].EnteredInstaller? then [log[|log| - 1]] else []
  }

  /** A log whose only installer entry, if any, is the last event and follows its own plan. */
  ghost predicate InstallsExactly(log: seq<Event>, e: Option<Installation>) {
    if e.None? then Installs(log) == []
    else
      && log != [] && log[|log| - 1] == EnteredInstaller(e.value)
      && Installs(log[..|log| - 1]) == [] && Planned(e.value) in log[..|log| - 1]
  }

  lemma InstallsPush(log: seq<Event>, e: Event)
    ensures Installs(log + [e]) == Installs(log) + if e.EnteredInstaller? then [e] else []
  {
    assert (log + [e])[..|log|] == log;
  }

  /** The selection part of `run`. */
  method Select(o: Options, profiles: seq<Profile>, terminal: bool, console: Console)
    returns (r: Result<Option<Profile>, string>)
    requires Installs(console.log) == []
    modifies console
    ensures Installs(console.log) == []
    ensures match SelectionOf(o, profiles, terminal, old(console.input))
            case Selected(profile, rest) => r == Ok(Some(profile)) && console.input == rest
            case Declined => r == Ok(None)
            case Unselected(code) => r == Err(code)
  {
    if o.profileId.Some? {
      var found := FindProfile(profiles, o.profileId.value);
      if found == None { return Err("unknown_profile_id"); }
      if !found.value.eligible { return Err("profile_ineligible"); }
      return Ok(found);
    }
    var eligible := Eligible(profiles);
    if |eligible| == 0 { return Err("no_eligible_profiles"); }
    if |eligible| == 1 { return Ok(Some(eligible[0])); }
    if o.json || o.dryRun || !terminal { return Err("profile_selection_required"); }
    InstallsPush(console.log, PrintedChoices);
    console.Log(PrintedChoices);
    r := SelectProfile(eligible, console);
  }

  /** The retrieval part of `run`: with `--source` the catalogue is the one fetched. */
  method Retrieve(o: Options, w: World, console: Console) returns (path: Result<string, string>, library: Library)
    requires Installs(console.log) == []
    modifies console`log
    ensures Installs(console.log) == []
    ensures path == CataloguePath(o, w) && library == LibraryAfter(o, w)
  {
    if o.sourceId.Some? && o.retrieval.Some? {
      var fetched := Fetch(w.library, o.sourceId.value, FetchOptionsOf(o.retrieval.value));
      path, library := fetched.0, fetched.1;
      if path.Err? { return; }
      InstallsPush(console.log, FetchedSource(o.sourceId.value));
      console.Log(FetchedSource(o.sourceId.value));
      return;
    }
    return Ok(o.cataloguePath), w.library;
  }

  /** `run`: whatever the options, the world and the typed lines, the installer is entered exactly
      when the run is entitled to it, once, last, and after the plan it carries out. A run that is
      refused on the way fails with that refusal, and one that is cancelled or only previews succeeds. */
  method Run(options: Options, w: World, console: Console) returns (exit: Exit, library: Library)
    requires console.log == []
    modifies console
    ensures library == LibraryAfter(options, w)
    ensures InstallsExactly(console.log, Entitled(options, w, old(console.input)))
    ensures match ProgressOf(options, w, old(console.input))
            case Refused(code) => exit == Failure(code)
            case ChoiceCancelled => exit == Success
            case Reached(plan, rest) => Concludes(options, w, plan, rest, exit, console.log)
  {
    var path;
    path, library := Retrieve(options, w, console);
    if path.Err? { return Failure(path.error), library; }
    var discovery := w.discovered(options.configurationPath);
    if discovery.Err? { return Failure(discovery.error), library; }
    var selection := Select(options, discovery.value, w.terminal, console);
    if selection.Err? { return Failure(selection.error), library; }
    if selection.value == None { return Success, library; }
    if !w.dataDirectory { return Failure("no_data_directory"), library; }
    var request := Request(discovery.value, selection.value.value, path.value, options.databasePath,
                           options.replaceDifferent);
    var writes := w.plan(request);
    if writes.Err? { return Failure(writes.error), library; }
    exit := ApplyPlan(options, Installation(request, writes.value, SourceName(options)), w, console);
  }

  /** How a run with a plan ends. */
  ghost predicate Concludes(o: Options, w: World, plan: Installation, rest: seq<Line>, exit: Exit, log: seq<Event>) {
    && (exit == if Consented(o, plan.writes, rest) then
                  (if w.installSucceeds(plan) then Success else Failure("installation_refused_or_failed"))
                else if AnswerUnreadable(o, plan.writes, rest) then Failure("input_unreadable")
                else Success)
    && (!o.json ==> PrintedPreview in log)
  }

  /** The part of `run` after the plan is built. */
  method ApplyPlan(o: Options, plan: Installation, w: World, console: Console) returns (exit: Exit)
    requires Installs(console.log) == []
    modifies console
    ensures InstallsExactly(console.log,
                            if Consented(o, plan.writes, old(console.input)) then Some(plan) else None)
    ensures Concludes(o, w, plan, old(console.input), exit, console.log)
  {
    Announce(o, plan, console);
    var apply := AskConsent(o, plan.writes, console);
    if apply.Err? { return Failure(apply.error); }
    if !apply.value { return Success; }
    ghost var before := console.log;
    console.Log(EnteredInstaller(plan));
    assert console.log[..|console.log| - 1] == before;
    exit := if w.installSucceeds(plan) then Success else Failure("installation_refused_or_failed");
  }

  /** Whether to apply: decided by the options, or asked for. */
  method AskConsent(o: Options, writes: nat, console: Console) returns (apply: Result<bool, string>)
    requires Installs(console.log) == []
    modifies console
    ensures Installs(console.log) == [] && old(console.log) <= console.log
    ensures apply == if AnswerUnreadable(o, writes, old(console.input)) then Err("input_unreadable")
                     else Ok(Consented(o, writes, old(console.input)))
  {
    if writes == 0 || o.dryRun || (o.json && !o.yes) { return Ok(false); }
    if o.yes { return Ok(true); }
    InstallsPush(console.log, AskedToConfirm);
    console.Log(AskedToConfirm);
    if console.input != [] { OnlyYes(console.input[0]); }
    apply := Confirm(console);
  }

  /** The plan is made and, outside JSON mode, previewed. */
  method Announce(o: Options, plan: Installation, console: Console)
    requires Installs(console.log) == []
    modifies console`log
    ensures Installs(console.log) == [] && Planned(plan) in console.log
    ensures !o.json ==> PrintedPreview in console.log
  {
    InstallsPush(console.log, Planned(plan));
    console.Log(Planned(plan));
    if !o.json {
      InstallsPush(console.log, PrintedPreview);
      console.Log(PrintedPreview);
    }
  }

  // ----- What entitlement means -----

  /** The first line that decides: everything before it was readable and undecided. */
  ghost predicate FirstDecisive(input: seq<Line>, rule: string -> Decision, k: nat) {
    && k < |input| && input[k].Typed? && rule(input[k].text) != Undecided
    && forall j :: 0 <= j < k ==> input[j].Typed? && rule(input[j].text) == Undecided
  }

  /** Typing the number printed beside a profile picks that profile, and no other line picks it
      unless it reads as the same number. */
  lemma PrintedNumberPicks(before: string, i: nat, after: string, n: nat)
    requires AllWhitespace(before) && AllWhitespace(after) && i < n <= USIZE_MAX
    ensures Decide(before + Decimal(i + 1) + after, n) == Pick(i)
    ensures forall line :: Decide(line, n) == Pick(i) ==> ReadsAs(line) == Some(i + 1)
  {
    TrimPrinted(before, i + 1, after);
    ParsePrinted(i + 1, USIZE_MAX);
    NumberIsNoCancel(i + 1);
    NumberDecides(Decimal(i + 1), ReadsAs(before + Decimal(i + 1) + after), i, n);
    OnlyNumbersPick(i, n);
  }

  lemma OnlyNumbersPick(i: nat, n: nat)
    ensures forall line :: Decide(line, n) == Pick(i) ==> ReadsAs(line) == Some(i + 1)
  {
    forall line | Decide(line, n) == Pick(i) ensures ReadsAs(line) == Some(i + 1) {
      PickedNumber(Trim(line), ReadsAs(line), i, n);
    }
  }

  /** A line cancels exactly if it is "q" or "cancel", trimmed and in any ASCII case. */
  lemma CancelExactly(line: string, n: nat)
    ensures Decide(line, n) == Cancel <==> AsciiLowercase(Trim(line)) == "q" || AsciiLowercase(Trim(line)) == "cancel"
  {
    CancelText(Trim(line), ReadsAs(line), n);
  }

  lemma CancelText(t: string, number: Option<nat>, n: nat)
    ensures DecideText(t, number, n) == Cancel <==> AsciiLowercase(t) == "q" || AsciiLowercase(t) == "cancel"
  {
    assert AsciiLowercase("q") == "q" && AsciiLowercase("cancel") == "cancel";
  }

  lemma PickedNumber(t: string, number: Option<nat>, i: nat, n: nat)
    requires DecideText(t, number, n) == Pick(i)
    ensures number == Some(i + 1)
  {
  }

  lemma NumberDecides(t: string, number: Option<nat>, i: nat, n: nat)
    requires !IsCancel(t) && number == Some(i + 1) && i < n
    ensures DecideText(t, number, n) == Pick(i)
  {
  }

  lemma NumberIsNoCancel(n: nat)
    ensures !IsCancel(Decimal(n))
  {
    var d := Decimal(n);
    assert IsDigit(d[0]) && AsciiLowercase(d)[0] == d[0];
    assert AsciiLowercase("q")[0] == 'q' && AsciiLowercase("cancel")[0] == 'c';
  }

  /** A chosen profile was named by the first decisive line, and what follows it is left unread. */
  lemma {:induction false} ChosenWasNamed(input: seq<Line>, rule: string -> Decision, n: nat) returns (k: nat)
    requires InRange(rule, n) && Choose(input, rule, n).0.Chosen?
    ensures FirstDecisive(input, rule, k)
    ensures rule(input[k].text) == Pick(Choose(input, rule, n).0.index)
    ensures Choose(input, rule, n).1 == input[k + 1..]
  {
    if rule(input[0].text) == Undecided {
      var j := ChosenWasNamed(input[1..], rule, n);
      k := j + 1;
    } else {
      k := 0;
    }
  }

  /** And a first decisive line that names a profile has it chosen. */
  lemma {:induction false} NamedIsChosen(input: seq<Line>, rule: string -> Decision, n: nat, k: nat)
    requires InRange(rule, n) && FirstDecisive(input, rule, k) && rule(input[k].text).Pick?
    ensures Choose(input, rule, n) == (Chosen(rule(input[k].text).index), input[k + 1..])
  {
    if k > 0 {
      assert rule(input[0].text) == Undecided;
      assert input[1..][k - 1] == input[k];
      NamedIsChosen(input[1..], rule, n, k - 1);
    }
  }

  /** The profile and the input left over, of a run that was not refused or cancelled before its plan. */
  lemma ReachedMeans(o: Options, w: World, input: seq<Line>) returns (profiles: seq<Profile>)
    requires ProgressOf(o, w, input).Reached?
    ensures w.discovered(o.configurationPath) == Ok(profiles) && w.dataDirectory
    ensures var Reached(plan, rest) := ProgressOf(o, w, input);
            && CataloguePath(o, w) == Ok(plan.request.cataloguePath)
            && plan.request == Request(profiles, plan.request.profile, plan.request.cataloguePath, o.databasePath,
                                       o.replaceDifferent)
            && SelectionOf(o, profiles, w.terminal, input) == Selected(plan.request.profile, rest)
            && w.plan(plan.request) == Ok(plan.writes) && plan.sourceName == SourceName(o)
  {
    profiles := w.discovered(o.configurationPath).value;
  }

  lemma RestIsTyped(o: Options, profiles: seq<Profile>, terminal: bool, input: seq<Line>)
    requires SelectionOf(o, profiles, terminal, input).Selected?
    ensures forall l :: l in SelectionOf(o, profiles, terminal, input).rest ==> l in input
  {
    if o.profileId.None? && |Eligible(profiles)| >= 2 {
      var n := |Eligible(profiles)|;
      var k := ChosenWasNamed(input, Listed(n), n);
    }
  }

  /** Nothing is installed unasked: there is something to write, it is no dry run, the profile is an
      eligible one (the one named by `--profile`, if any), the user gave `--yes` or typed "yes", and
      the database and the permission to replace files are those of the options. */
  lemma NeverInstallsUnasked(o: Options, w: World, input: seq<Line>)
    requires Entitled(o, w, input).Some?
    ensures var plan := Entitled(o, w, input).value;
            && plan.writes > 0 && !o.dryRun
            && plan.request.profile in plan.request.discovered && plan.request.profile.eligible
            && w.discovered(o.configurationPath) == Ok(plan.request.discovered)
            && (o.profileId.Some? ==> plan.request.profile.id == o.profileId.value)
            && (o.yes || (!o.json && exists l: Line :: l in input && l.Typed? && AsciiLowercase(Trim(l.text)) == "yes"))
            && plan.request.databasePath == o.databasePath
            && plan.request.replaceDifferent == o.replaceDifferent
            && plan.sourceName == if o.sourceId.Some? then o.sourceId.value else "local-catalogue"
  {
    var profiles := ReachedMeans(o, w, input);
    RestIsTyped(o, profiles, w.terminal, input);
    if !o.yes {
      OnlyYes(ProgressOf(o, w, input).rest[0]);
      assert ProgressOf(o, w, input).rest[0] in input;
    }
  }

  lemma SelectedWasNamed(o: Options, profiles: seq<Profile>, terminal: bool, input: seq<Line>) returns (k: nat)
    requires o.profileId.None? && |Eligible(profiles)| >= 2 && SelectionOf(o, profiles, terminal, input).Selected?
    ensures var es := Eligible(profiles);
            var selection := SelectionOf(o, profiles, terminal, input);
            && !o.json && terminal && FirstDecisive(input, Listed(|es|), k) && Decide(input[k].text, |es|).Pick?
            && es[Decide(input[k].text, |es|).index] == selection.profile && selection.rest == input[k + 1..]
  {
    var n := |Eligible(profiles)|;
    k := ChosenWasNamed(input, Listed(n), n);
  }

  /** And whoever asks has it installed: once there is a plan with something to write, and it is no dry
      run, the run is entitled to it if and only if `--yes` was given or, outside JSON mode, the next
      line is a "yes", trimmed and in any ASCII case. */
  lemma ConsentInstalls(o: Options, w: World, input: seq<Line>)
    requires ProgressOf(o, w, input).Reached? && ProgressOf(o, w, input).plan.writes > 0 && !o.dryRun
    ensures var Reached(plan, rest) := ProgressOf(o, w, input);
            Entitled(o, w, input) ==
            if o.yes || (!o.json && rest != [] && rest[0].Typed? && AsciiLowercase(Trim(rest[0].text)) == "yes")
            then Some(plan) else None
  {
    var rest := ProgressOf(o, w, input).rest;
    if rest != [] { OnlyYes(rest[0]); }
  }

  /** With several eligible profiles and no `--profile`, the first decisive line named the one used,
      and without `--yes` the very next line said "yes". */
  lemma ChosenProfileWasNamed(o: Options, w: World, input: seq<Line>) returns (k: nat)
    requires Entitled(o, w, input).Some? && o.profileId.None?
    requires |Eligible(Entitled(o, w, input).value.request.discovered)| >= 2
    ensures var plan := Entitled(o, w, input).value.request;
            var es := Eligible(plan.discovered);
            && !o.json && w.terminal
            && FirstDecisive(input, Listed(|es|), k)
            && Decide(input[k].text, |es|).Pick?
            && es[Decide(input[k].text, |es|).index] == plan.profile
    ensures !o.yes ==> k + 1 < |input| && input[k + 1].Typed? && AsciiLowercase(Trim(input[k + 1].text)) == "yes"
  {
    var profiles := ReachedMeans(o, w, input);
    k := SelectedWasNamed(o, profiles, w.terminal, input);
    if !o.yes { OnlyYes(input[k + 1]); }
  }
}
