/** From preview to application: what the printed command does when it is run, and what it drops. */
module SetupApply {
  import opened Wrappers
  import opened SetupOptions
  import opened SetupFetch
  import opened SetupLaws
  import opened SetupPrint
  import opened SetupRun

  /** The profile of the plan is still the one its id finds. */
  predicate FoundById(plan: Installation) {
    FindProfile(plan.request.discovered, plan.request.profile.id) == Some(plan.request.profile)
  }

  /** The options the printed command applies a plan with. */
  function Applying(o: Options, plan: Installation): Options
    requires Coherent(o)
  {
    Applied(o, plan.request.profile.id)
  }

  /** The world with another library; nothing else has changed. */
  function Now(w: World, library: Library): World {
    w.(library := library)
  }

  /** Whatever library they find, the options of the printed command install the previewed plan, whatever
      is typed, if and only if there is something to write, the id still finds the profile, and retrieving
      with the options that are printed gives the previewed catalogue. */
  lemma AppliedInstallsPreview(o: Options, w: World, library: Library, input: seq<Line>, typed: seq<Line>)
    requires Coherent(o) && ProgressOf(o, w, input).Reached?
    ensures var plan := ProgressOf(o, w, input).plan;
            Entitled(Applying(o, plan), Now(w, library), typed) == Some(plan) <==>
              && plan.writes > 0 && FoundById(plan)
              && CataloguePath(Applying(o, plan), Now(w, library)) == Ok(plan.request.cataloguePath)
  {
    var plan := ProgressOf(o, w, input).plan;
    var profiles := ReachedMeans(o, w, input);
    var a, w' := Applying(o, plan), Now(w, library);
    if CataloguePath(a, w') == Ok(plan.request.cataloguePath) && FoundById(plan) {
      assert SelectionOf(a, profiles, w.terminal, typed) == Selected(plan.request.profile, typed);
      assert ProgressOf(a, w', typed) == Reached(plan, typed);
    } else if Entitled(a, w', typed) == Some(plan) {
      var again := ReachedMeans(a, w', typed);
    }
  }

  lemma AppliedFetchesPlainly(o: Options, profile: string)
    requires Coherent(o) && o.sourceId.Some?
    ensures FetchOptionsOf(Applied(o, profile).retrieval.value) == Plain(FetchOptionsOf(o.retrieval.value))
  {
  }

  /** In the library that the preview itself leaves behind, the printed options always install the
      previewed plan, whichever options they leave out. */
  lemma AppliesAfterPreview(o: Options, w: World, input: seq<Line>, typed: seq<Line>)
    requires Coherent(o) && ProgressOf(o, w, input).Reached? && FoundById(ProgressOf(o, w, input).plan)
    requires o.sourceId.Some? ==> Unpinned(w.library, o.sourceId.value)
    ensures var plan := ProgressOf(o, w, input).plan;
            plan.writes > 0 ==> Entitled(Applying(o, plan), Now(w, LibraryAfter(o, w)), typed) == Some(plan)
  {
    var plan := ProgressOf(o, w, input).plan;
    var profiles := ReachedMeans(o, w, input);
    if o.sourceId.Some? {
      AppliedFetchesPlainly(o, plan.request.profile.id);
      RetrievedAgain(w.library, o.sourceId.value, FetchOptionsOf(o.retrieval.value));
    }
    AppliedInstallsPreview(o, w, LibraryAfter(o, w), input, typed);
  }

  /** Nothing is retrieved, or plain options suffice. */
  predicate RetrievesPlainly(o: Options) {
    o.sourceId.None? || o.retrieval.None? || PlainSuffices(FetchOptionsOf(o.retrieval.value))
  }

  /** In the world as the preview found it, the options of the printed command do what was previewed. */
  ghost predicate AppliesAsPreviewed(o: Options, w: World, input: seq<Line>, typed: seq<Line>)
    requires Coherent(o)
  {
    ProgressOf(o, w, input).Reached? && FoundById(ProgressOf(o, w, input).plan) ==>
      var plan := ProgressOf(o, w, input).plan;
      Entitled(Applying(o, plan), w, typed) == if plan.writes > 0 then Some(plan) else None
  }

  /** The command applies as previewed in every world as it was found, its cache unchanged by the
      preview, whatever is typed before and after, if and only if the catalogue is local, or retrieved
      offline, or without a forced refresh and an expected digest (one that is no digest is refused). */
  lemma AppliesAsPreviewedExactly(o: Options)
    requires Coherent(o)
    ensures (forall w, input, typed :: AppliesAsPreviewed(o, w, input, typed)) <==> RetrievesPlainly(o)
  {
    if RetrievesPlainly(o) {
      forall w, input, typed ensures AppliesAsPreviewed(o, w, input, typed) { PlainApplies(o, w, input, typed); }
    } else {
      var w := OtherCatalogueInstalled(o);
      assert !AppliesAsPreviewed(o, w, [], []);
    }
  }

  lemma PlainApplies(o: Options, w: World, input: seq<Line>, typed: seq<Line>)
    requires Coherent(o) && RetrievesPlainly(o)
    ensures AppliesAsPreviewed(o, w, input, typed)
  {
    if ProgressOf(o, w, input).Reached? && FoundById(ProgressOf(o, w, input).plan) {
      var plan := ProgressOf(o, w, input).plan;
      var profiles := ReachedMeans(o, w, input);
      var a := Applying(o, plan);
      if o.sourceId.Some? {
        AppliedFetchesPlainly(o, plan.request.profile.id);
        PlainRetrievesTheSame(w.library, o.sourceId.value, FetchOptionsOf(o.retrieval.value));
      }
      assert CataloguePath(a, w) == CataloguePath(o, w);
      assert SelectionOf(a, profiles, w.terminal, typed) == Selected(plan.request.profile, typed);
      assert ProgressOf(a, w, typed) == Reached(plan, typed);
    }
  }

  /** A world with one eligible profile and one write to make. */
  function OneProfile(library: Library, profile: Profile): World {
    World(library, _ => Ok([profile]), true, true, _ => Ok(1), _ => true)
  }

  /** For any other options there is such a world, of a recent snapshot in the cache and another one on the
      server, in which the command, without a question, installs from a catalogue never previewed. */
  lemma OtherCatalogueInstalled(o: Options) returns (w: World)
    requires Coherent(o) && !RetrievesPlainly(o)
    ensures ProgressOf(o, w, []).Reached?
    ensures var plan := ProgressOf(o, w, []).plan;
            && FoundById(plan) && plan.request.profile.id == ProfileNamed(o)
            && forall typed :: InstallsOther(Entitled(Applying(o, plan), w, typed), plan)
  {
    var p := Profile(ProfileNamed(o), true);
    var id, f := o.sourceId.value, FetchOptionsOf(o.retrieval.value);
    var library := PlainRetrievesOther(id, f);
    w := OneProfile(library, p);
    assert Eligible([p]) == [p];
    assert SelectionOf(o, [p], true, []) == Selected(p, []);
    var plan := ProgressOf(o, w, []).plan;
    var a := Applying(o, plan);
    AppliedFetchesPlainly(o, p.id);
    forall typed ensures InstallsOther(Entitled(a, w, typed), plan) {
      assert SelectionOf(a, [p], true, typed) == Selected(p, typed);
    }
  }

  function ProfileNamed(o: Options): string {
    if o.profileId.Some? then o.profileId.value else "only"
  }

  /** The same installation from another catalogue. */
  predicate InstallsOther(e: Option<Installation>, plan: Installation) {
    && e.Some? && e.value.request.cataloguePath != plan.request.cataloguePath
    && e.value == plan.(request := plan.request.(cataloguePath := e.value.request.cataloguePath))
  }

  /** Preview, print, parse and run: where the printed values cannot be taken for options and a default
      cache root exists, the command parses, and whatever library it finds it installs the previewed plan
      exactly when the options it prints do; in the library the preview leaves behind it always does. */
  lemma PrintedCommandInstallsPreview(o: Options, w: World, library: Library, input: seq<Line>, typed: seq<Line>,
                                      env: Defaults)
    requires Coherent(o) && ProgressOf(o, w, input).Reached?
    requires Printable(o, ProgressOf(o, w, input).plan.request.profile.id) && env.cacheRoot.Some?
    ensures var plan := ProgressOf(o, w, input).plan;
            var r := Parse(Flatten(ApplyGroups(o, plan.request.profile.id)), env);
            && r.Ok?
            && (Entitled(r.value, Now(w, library), typed) == Some(plan) <==>
                  && plan.writes > 0 && FoundById(plan)
                  && CataloguePath(r.value, Now(w, library)) == Ok(plan.request.cataloguePath))
            && (plan.writes > 0 && FoundById(plan) && library == LibraryAfter(o, w)
                && (o.sourceId.Some? ==> Unpinned(w.library, o.sourceId.value)) ==>
                  Entitled(r.value, Now(w, library), typed) == Some(plan))
  {
    PrintedReadsBack(o, ProgressOf(o, w, input).plan.request.profile.id, env);
    AppliedInstallsPreview(o, w, library, input, typed);
    if FoundById(ProgressOf(o, w, input).plan) && (o.sourceId.Some? ==> Unpinned(w.library, o.sourceId.value)) {
      AppliesAfterPreview(o, w, input, typed);
    }
  }

  /** In the world as the preview found it, the printed text does what was previewed. */
  ghost predicate PrintedApplies(o: Options, w: World, input: seq<Line>, typed: seq<Line>, env: Defaults)
    requires Coherent(o)
  {
    var progress := ProgressOf(o, w, input);
    progress.Reached? && FoundById(progress.plan) && !("--" <= progress.plan.request.profile.id) ==>
      var r := Parse(Flatten(ApplyGroups(o, progress.plan.request.profile.id)), env);
      r.Ok? && Entitled(r.value, w, typed) == if progress.plan.writes > 0 then Some(progress.plan) else None
  }

  /** The text does what the options it prints do. */
  lemma PrintedIsApplied(o: Options, w: World, input: seq<Line>, typed: seq<Line>, env: Defaults)
    requires Coherent(o) && PrintableValues(o) && env.cacheRoot.Some? && ProgressOf(o, w, input).Reached?
    requires !("--" <= ProgressOf(o, w, input).plan.request.profile.id)
    ensures PrintedApplies(o, w, input, typed, env) <==> AppliesAsPreviewed(o, w, input, typed)
  {
    PrintedReadsBack(o, ProgressOf(o, w, input).plan.request.profile.id, env);
  }

  /** The printed text applies every preview in the world as it was found, if and only if plain options
      suffice. */
  lemma PrintedAppliesExactly(o: Options, env: Defaults)
    requires Coherent(o) && PrintableValues(o) && env.cacheRoot.Some?
    requires o.profileId.Some? ==> !("--" <= o.profileId.value)
    ensures (forall w, input, typed :: PrintedApplies(o, w, input, typed, env)) <==> RetrievesPlainly(o)
  {
    if RetrievesPlainly(o) {
      forall w, input, typed ensures PrintedApplies(o, w, input, typed, env) {
        PlainTextApplies(o, w, input, typed, env);
      }
    } else {
      var w := OtherTextInstalled(o, env);
      assert !PrintedApplies(o, w, [], [], env);
    }
  }

  lemma OtherTextInstalled(o: Options, env: Defaults) returns (w: World)
    requires Coherent(o) && PrintableValues(o) && env.cacheRoot.Some? && !RetrievesPlainly(o)
    requires o.profileId.Some? ==> !("--" <= o.profileId.value)
    ensures !PrintedApplies(o, w, [], [], env)
  {
    w := OtherCatalogueInstalled(o);
    NamedIsPrintable(o);
    PrintedIsApplied(o, w, [], [], env);
  }

  lemma NamedIsPrintable(o: Options)
    requires o.profileId.Some? ==> !("--" <= o.profileId.value)
    ensures !("--" <= ProfileNamed(o))
  {
    assert "only"[0] != '-';
  }

  lemma PlainTextApplies(o: Options, w: World, input: seq<Line>, typed: seq<Line>, env: Defaults)
    requires Coherent(o) && PrintableValues(o) && env.cacheRoot.Some? && RetrievesPlainly(o)
    ensures PrintedApplies(o, w, input, typed, env)
  {
    PlainApplies(o, w, input, typed);
    var progress := ProgressOf(o, w, input);
    if progress.Reached? && !("--" <= progress.plan.request.profile.id) {
      PrintedIsApplied(o, w, input, typed, env);
    }
  }
}
