/** The audit: an explicit-stack walk with a file limit, its conservation laws, and its report. */
module Audit {
  import opened Wrappers
  import opened Text
  import opened AuditModel
  import opened Histograms
  import opened AuditTally

  // ----- Conservation -----

  /** Files with neither a platform nor an extension. */
  function CountNeither(fs: seq<File>): nat {
    if fs == [] then 0
    else
      CountNeither(fs[..|fs| - 1]) +
      var f := fs[|fs| - 1]; if f.platform.None? && f.extension.None? then 1 else 0
  }

  ghost predicate RowConserved(r: DiskRow) {
    Total(r.refusals) == r.malformed + r.refused && r.valid + r.malformed + r.refused <= r.files
  }

  /** The sums that hold of the accumulators whenever the loop looks at them. */
  ghost predicate Conserved(t: Tally) {
    && t.totals.confirmed + t.totals.probable + t.totals.ambiguous + t.totals.unknown == t.totals.files
    && t.links.seen == t.links.read + Total(t.links.refusals)
    && t.links.withSignature <= t.links.read
    && (forall x :: x in t.disks ==> RowConserved(t.disks[x]))
    && Total(t.platforms.counts) + Total(t.platforms.unresolved) <= t.totals.files
  }

  lemma {:induction false} ConfidencesAddUp(fs: seq<File>)
    ensures CountConfidence(fs, Confirmed) + CountConfidence(fs, Probable) + CountConfidence(fs, Ambiguous)
            + CountConfidence(fs, Unknown) == |fs|
  {
    if fs != [] { ConfidencesAddUp(fs[..|fs| - 1]); }
  }

  lemma {:induction false} LinksAddUp(es: seq<Entry>)
    ensures CountLinks(es) == CountReadLinks(es) + |LinkRefusals(es)|
    ensures CountSignatures(es) <= CountReadLinks(es)
  {
    if es != [] { LinksAddUp(es[..|es| - 1]); }
  }

  lemma {:induction false} OutcomesAddUp(os: seq<Outcome>)
    ensures |RefusalCodes(os)| == CountOutcomes(os, false, true) + CountOutcomes(os, false, false)
    ensures CountOutcomes(os, true, false) + CountOutcomes(os, false, true) + CountOutcomes(os, false, false) <= |os|
  {
    if os != [] { OutcomesAddUp(os[..|os| - 1]); }
  }

  lemma {:induction false} NamesAddUp(fs: seq<File>)
    ensures |PlatformNames(fs)| + |UnresolvedNames(fs)| + CountNeither(fs) == |fs|
  {
    if fs != [] { NamesAddUp(fs[..|fs| - 1]); }
  }

  lemma {:induction false} OneOutcomeEach(fs: seq<File>)
    ensures |Outcomes(fs)| == |fs|
  {
    if fs != [] { OneOutcomeEach(fs[..|fs| - 1]); }
  }

  lemma RowIsConserved(r: DiskRow, fs: seq<File>)
    requires RowOf(r, fs)
    ensures RowConserved(r)
  {
    OneOutcomeEach(fs);
    OutcomesAddUp(Outcomes(fs));
    HistogramTotal(r.refusals, RefusalCodes(Outcomes(fs)));
  }

  /** The platform counts and the unresolved extensions fall short of the files by exactly the files
      that have neither. */
  lemma PlatformShortfall(t: Tally, es: seq<Entry>)
    requires Describes(t, es)
    ensures Total(t.platforms.counts) + Total(t.platforms.unresolved) + CountNeither(FilesOf(es)) == t.totals.files
  {
    var fs := FilesOf(es);
    NamesAddUp(fs);
    HistogramTotal(t.platforms.counts, PlatformNames(fs));
    HistogramTotal(t.platforms.unresolved, UnresolvedNames(fs));
  }

  lemma DescribedIsConserved(t: Tally, es: seq<Entry>)
    requires Describes(t, es)
    ensures Conserved(t)
  {
    ConfidencesAddUp(FilesOf(es));
    LinksAddUp(es);
    HistogramTotal(t.links.refusals, LinkRefusals(es));
    PlatformShortfall(t, es);
    forall x | x in t.disks ensures RowConserved(t.disks[x]) {
      assert DiskAt(t.disks, FilesOf(es), x);
      RowIsConserved(t.disks[x], OfExtension(FilesOf(es), x));
    }
  }

  // ----- The walk -----

  ghost predicate Reached(limit: Option<nat>, n: nat) {
    limit.Some? && n >= limit.value
  }

  /** `done` entries are considered, `todo` are in sight, and what the limit allows of them completes
      the walk of the whole tree. */
  ghost predicate Completes(done: seq<Entry>, todo: seq<Entry>, whole: seq<Entry>, limit: Option<nat>) {
    done + Cut(todo, Left(limit, |FilesOf(done)|)) == Cut(whole, limit)
  }

  lemma CompletesNext(done: seq<Entry>, e: Entry, todo: seq<Entry>, whole: seq<Entry>, limit: Option<nat>)
    requires Completes(done, [e] + todo, whole, limit)
    requires !Reached(limit, |FilesOf(done)|)
    ensures Completes(done + [e], todo, whole, limit)
  {
    FilesAfter(done, e);
    var left := Left(limit, |FilesOf(done)|);
    assert ([e] + todo)[1..] == todo;
    assert Cut([e] + todo, left) == [e] + Cut(todo, Left(limit, |FilesOf(done + [e])|));
    Associate(done, [e], Cut(todo, Left(limit, |FilesOf(done + [e])|)));
  }

  /** Once the limit is reached nothing more is due, whatever is still in sight. */
  lemma CompletesWhenReached(done: seq<Entry>, todo: seq<Entry>, todo': seq<Entry>, whole: seq<Entry>, limit: Option<nat>)
    requires Completes(done, todo, whole, limit) && Reached(limit, |FilesOf(done)|)
    ensures Completes(done, todo', whole, limit)
  {
  }

  /** What is in sight after the first `i` entries of a directory: the rest of them, and the trees
      on the stack once the rest have been pushed. */
  ghost function InSight(rest: seq<Entry>, stack: seq<Tree>): seq<Entry> {
    rest + WalkStack(stack + Subdirectories(rest))
  }

  lemma EnterDirectory(t: Tree, stack: seq<Tree>)
    requires t.readable
    ensures WalkStack(stack + [t]) == InSight(t.entries, stack)
  {
    WalkStackPush(stack, t);
    WalkStackConcat(stack, Subdirectories(t.entries));
    Associate(t.entries, WalkStack(Subdirectories(t.entries)), WalkStack(stack));
  }

  lemma SkipUnreadable(stack: seq<Tree>, t: Tree)
    requires !t.readable
    ensures WalkStack(stack + [t]) == WalkStack(stack)
  {
    WalkStackPush(stack, t);
    assert [] + WalkStack(stack) == WalkStack(stack);
  }

  lemma TopIsLarger(stack: seq<Tree>, t: Tree)
    ensures StackSize(stack + [t]) > StackSize(stack) + EntriesSize(t.entries)
  {
    StackSizeConcat(stack, [t]);
    StackSizeOne(t);
  }

  lemma NextEntry(rest: seq<Entry>, stack: seq<Tree>)
    requires rest != []
    ensures InSight(rest, stack) ==
            [rest[0]] + InSight(rest[1..], if rest[0].Subdirectory? then stack + [rest[0].tree] else stack)
  {
    var e := rest[0];
    var pushed := if e.Subdirectory? then stack + [e.tree] else stack;
    assert stack + Subdirectories(rest) == pushed + Subdirectories(rest[1..]);
    assert rest == [e] + rest[1..];
    Associate([e], rest[1..], WalkStack(pushed + Subdirectories(rest[1..])));
  }

  /** The two nested loops: the limit only breaks the inner one, and yet the accumulators end up
      describing exactly the walk cut at the limit. */
  method Walk(root: Tree, limit: Option<nat>) returns (t: Tally)
    ensures Describes(t, Cut(WalkTree(root), limit))
    ensures Conserved(t)
  {
    ghost var whole, done: seq<Entry> := WalkTree(root), [];
    var stack := [root];
    t := EMPTY;
    WalkStackOne(root);
    while stack != []
      invariant Describes(t, done)
      invariant Completes(done, WalkStack(stack), whole, limit)
      decreases StackSize(stack)
    {
      t, stack, done := TakeDirectory(limit, t, stack, done, whole);
    }
    assert done + [] == done;
    DescribedIsConserved(t, done);
  }

  /** One turn of the outer loop: the directory on top of the stack is read, if it can be. */
  method TakeDirectory(limit: Option<nat>, t0: Tally, stack0: seq<Tree>, ghost done0: seq<Entry>, ghost whole: seq<Entry>)
    returns (t: Tally, stack: seq<Tree>, ghost done: seq<Entry>)
    requires stack0 != [] && Describes(t0, done0) && Completes(done0, WalkStack(stack0), whole, limit)
    ensures Describes(t, done) && Completes(done, WalkStack(stack), whole, limit)
    ensures StackSize(stack) < StackSize(stack0)
  {
    var directory := stack0[|stack0| - 1];
    t, stack, done := t0, stack0[..|stack0| - 1], done0;
    assert stack0 == stack + [directory];
    TopIsLarger(stack, directory);
    if !directory.readable {
      SkipUnreadable(stack, directory);
      return;
    }
    EnterDirectory(directory, stack);
    t, stack, done := ReadDirectory(directory.entries, limit, t, stack, done, whole);
  }

  /** The inner loop over one directory's entries. */
  method ReadDirectory(entries: seq<Entry>, limit: Option<nat>, t0: Tally, stack0: seq<Tree>,
                       ghost done0: seq<Entry>, ghost whole: seq<Entry>)
    returns (t: Tally, stack: seq<Tree>, ghost done: seq<Entry>)
    requires Describes(t0, done0)
    requires Completes(done0, InSight(entries, stack0), whole, limit)
    ensures Describes(t, done)
    ensures Completes(done, WalkStack(stack), whole, limit)
    ensures StackSize(stack) <= StackSize(stack0) + EntriesSize(entries)
  {
    t, stack, done := t0, stack0, done0;
    DescribedIsConserved(t, done);
    for i := 0 to |entries|
      invariant Describes(t, done) && Conserved(t)
      invariant Completes(done, InSight(entries[i..], stack), whole, limit)
      invariant StackSize(stack) + EntriesSize(entries[i..]) <= StackSize(stack0) + EntriesSize(entries)
    {
      if limit.Some? && t.totals.files >= limit.value {
        CompletesWhenReached(done, InSight(entries[i..], stack), WalkStack(stack), whole, limit);
        return;
      }
      var e := entries[i];
      NextEntry(entries[i..], stack);
      assert entries[i..][1..] == entries[i + 1..];
      if e.Subdirectory? {
        StackSizeConcat(stack, [e.tree]);
        StackSizeOne(e.tree);
        stack := stack + [e.tree];
      }
      CompletesNext(done, e, InSight(entries[i + 1..], stack), whole, limit);
      t := Consider(t, e, done);
      done := done + [e];
      DescribedIsConserved(t, done);
    }
    assert entries[|entries|..] == [] && stack + [] == stack;
    assert [] + WalkStack(stack) == WalkStack(stack);
  }

  // ----- What the walk considers -----

  function Least(limit: Option<nat>, n: nat): nat {
    if limit.Some? && limit.value < n then limit.value else n
  }

  /** Exactly min(limit, eligible files) files are considered, and they are the first of the walk. */
  lemma FilesConsidered(root: Tree, limit: Option<nat>, t: Tally)
    requires Describes(t, Cut(WalkTree(root), limit))
    ensures t.totals.files == Least(limit, |EligibleFiles(root)|)
    ensures FilesOf(Cut(WalkTree(root), limit)) == FilesOf(WalkTree(root))[..Least(limit, |FilesOf(WalkTree(root))|)]
  {
    var fs := FilesOf(WalkTree(root));
    CutFiles(WalkTree(root), limit);
    WalkMeetsEligible(root);
    assert |multiset(fs)| == |fs| && |multiset(EligibleFiles(root))| == |EligibleFiles(root)|;
    assert fs[..|fs|] == fs;
  }

  /** Without a limit, or with one that is not reached, the files considered are the eligible files,
      each as often as the recursive walk meets it. */
  lemma EveryEligibleFileOnce(root: Tree, limit: Option<nat>)
    requires limit.Some? ==> limit.value >= |EligibleFiles(root)|
    ensures multiset(FilesOf(Cut(WalkTree(root), limit))) == multiset(EligibleFiles(root))
  {
    var fs := FilesOf(WalkTree(root));
    CutFiles(WalkTree(root), limit);
    WalkMeetsEligible(root);
    assert |multiset(fs)| == |fs| && |multiset(EligibleFiles(root))| == |EligibleFiles(root)|;
    assert fs[..|fs|] == fs;
  }

  // ----- The report -----

  const TOP_EXTENSIONS: nat := 15

  datatype Report = Report(tally: Tally, platforms: seq<Row>, topUnresolved: seq<Row>, linkRefusals: seq<Row>,
                           diskRefusals: map<string, seq<Row>>, absent: seq<string>)

  ghost predicate ReportOf(r: Report, requested: seq<string>) {
    var t := r.tally;
    && Ranks(r.platforms, t.platforms.counts)
    && Ranks(r.linkRefusals, t.links.refusals)
    && TopOf(r.topUnresolved, t.platforms.unresolved)
    && r.diskRefusals.Keys == t.disks.Keys
    && (forall x :: x in t.disks ==> Ranks(r.diskRefusals[x], t.disks[x].refusals))
    && r.absent == Unseen(requested, t.platforms.seen)
  }

  /** The platforms asked for and never seen, in the order and as often as they were asked for. */
  function Unseen(requested: seq<string>, seen: set<string>): (r: seq<string>)
    ensures forall p :: p in r <==> p in requested && p !in seen
  {
    if requested == [] then []
    else
      var n := |requested| - 1;
      assert requested == requested[..n] + [requested[n]];
      Unseen(requested[..n], seen) + if requested[n] in seen then [] else [requested[n]]
  }

  /** The first 15 rows of the ranking. */
  ghost predicate TopOf(top: seq<Row>, m: Counts) {
    exists rows :: Ranks(rows, m) && top == rows[..if |rows| < TOP_EXTENSIONS then |rows| else TOP_EXTENSIONS]
  }

  method AuditPlatformDetection(root: Tree, limit: Option<nat>, requested: seq<string>) returns (r: Report)
    ensures Describes(r.tally, Cut(WalkTree(root), limit)) && Conserved(r.tally)
    ensures ReportOf(r, requested)
  {
    var t := Walk(root, limit);
    var platforms := Rank(t.platforms.counts);
    var unresolved := Rank(t.platforms.unresolved);
    var top := unresolved[..if |unresolved| < TOP_EXTENSIONS then |unresolved| else TOP_EXTENSIONS];
    var linkRefusals := Rank(t.links.refusals);
    var diskRefusals := RankDisks(t.disks);
    var absent := Absent(requested, t.platforms.seen);
    r := Report(t, platforms, top, linkRefusals, diskRefusals, absent);
  }

  method RankDisks(disks: map<string, DiskRow>) returns (r: map<string, seq<Row>>)
    ensures r.Keys == disks.Keys
    ensures forall x :: x in disks ==> Ranks(r[x], disks[x].refusals)
  {
    r := map[];
    var keys := disks.Keys;
    while keys != {}
      invariant keys <= disks.Keys && r.Keys == disks.Keys - keys
      invariant forall x :: x in r ==> Ranks(r[x], disks[x].refusals)
      decreases |keys|
    {
      var x :| x in keys;
      var rows := Rank(disks[x].refusals);
      r := r[x := rows];
      keys := keys - {x};
    }
  }

  method Absent(requested: seq<string>, seen: set<string>) returns (absent: seq<string>)
    ensures absent == Unseen(requested, seen)
  {
    absent := [];
    for i := 0 to |requested|
      invariant absent == Unseen(requested[..i], seen)
    {
      assert requested[..i + 1][..i] == requested[..i];
      if requested[i] !in seen { absent := absent + [requested[i]]; }
    }
    assert requested[..|requested|] == requested;
  }

  /** No unresolved extension left off the list is more frequent than one on it, nor as frequent and
      of smaller name, and fewer than 15 are listed only
      when all are. */
  lemma TopOutranksRest(top: seq<Row>, m: Counts, kept: Row, dropped: Row)
    requires TopOf(top, m) && kept in top
    requires dropped.name in m && m[dropped.name] == dropped.count && dropped !in top
    ensures kept.count >= dropped.count && (kept.count == dropped.count ==> Less(kept.name, dropped.name))
    ensures |top| == 15
  {
    var rows :| Ranks(rows, m) && top == rows[..if |rows| < TOP_EXTENSIONS then |rows| else TOP_EXTENSIONS];
    var i :| 0 <= i < |top| && top[i] == kept;
    assert dropped in rows;
    var j :| 0 <= j < |rows| && rows[j] == dropped;
    assert rows[..|rows|] == rows;
    CutKeepsTop(rows, m, |top|);
  }
}
