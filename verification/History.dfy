/** The listing of the journal directory, and the order and the limit of the repair history. */
module History {
  import opened Wrappers
  import opened Text
  import opened Paths
  import opened Sorting

  /** A journaled transaction: when it was created, its id, and everything else. */
  datatype Journal = Journal(created: int, id: string, content: string)

  /** Newest first; ids break ties, greatest first. */
  predicate Newer(a: Journal, b: Journal) {
    a.created > b.created || (a.created == b.created && Less(b.id, a.id))
  }

  const NEWER: (Journal, Journal) -> bool := (a, b) => Newer(a, b)

  // ----- The journal directory -----

  /** A file of the directory: its name, and the journal read from it or why it cannot be read. */
  datatype JournalFile = JournalFile(name: string, parsed: Result<Journal, string>)

  datatype Problem = Problem(name: string, error: string)

  /** A file whose journal could be read. */
  datatype Record = Record(name: string, journal: Journal)

  /** Names within a directory are paths that differ in their last component only. */
  const BY_NAME := (a: JournalFile, b: JournalFile) => Less(a.name, b.name)
  const BY_ID := (a: Journal, b: Journal) => Less(a.id, b.id)

  ghost predicate DistinctNames(files: seq<JournalFile>) {
    forall f, g :: f in files && g in files && f.name == g.name ==> f == g
  }

  function JsonFiles(files: seq<JournalFile>): seq<JournalFile> {
    if files == [] then []
    else
      var f := files[|files| - 1];
      JsonFiles(files[..|files| - 1]) + if Extension(f.name) == Some("json") then [f] else []
  }

  function Records(files: seq<JournalFile>): seq<Record> {
    if files == [] then []
    else
      var f := files[|files| - 1];
      Records(files[..|files| - 1]) + if f.parsed.Ok? then [Record(f.name, f.parsed.value)] else []
  }

  function Problems(files: seq<JournalFile>): seq<Problem> {
    if files == [] then []
    else
      var f := files[|files| - 1];
      Problems(files[..|files| - 1]) + if f.parsed.Err? then [Problem(f.name, f.parsed.error)] else []
  }

  const JOURNAL := (r: Record) => r.journal

  /** The files read, in the order in which they are read. */
  function Sequence(directory: seq<JournalFile>): seq<JournalFile> {
    SortBy(JsonFiles(directory), BY_NAME)
  }

  /** `list_journals`: the JSON files in path order, each parsed or reported, then sorted by id. */
  method ListJournals(directory: Option<seq<JournalFile>>) returns (transactions: seq<Journal>, problems: seq<Problem>)
    ensures directory.None? ==> transactions == [] && problems == []
    ensures directory.Some? ==> transactions == Listed(directory.value) && problems == Problems(Sequence(directory.value))
  {
    transactions, problems := [], [];
    if directory.None? { return; }
    var files := SortBy(JsonFiles(directory.value), BY_NAME);
    for i := 0 to |files|
      invariant transactions == Mapped(Records(files[..i]), JOURNAL)
      invariant problems == Problems(files[..i])
    {
      ReadNext(files, i);
      match files[i].parsed {
        case Ok(journal) => transactions := transactions + [journal];
        case Err(error) => problems := problems + [Problem(files[i].name, error)];
      }
    }
    assert files[..|files|] == files;
    transactions := SortBy(transactions, BY_ID);
  }

  lemma ReadNext(files: seq<JournalFile>, i: nat)
    requires i < |files|
    ensures var f := files[i];
            && Mapped(Records(files[..i + 1]), JOURNAL) ==
               Mapped(Records(files[..i]), JOURNAL) + (if f.parsed.Ok? then [f.parsed.value] else [])
            && Problems(files[..i + 1]) ==
               Problems(files[..i]) + if f.parsed.Err? then [Problem(f.name, f.parsed.error)] else []
  {
    assert files[..i + 1][..i] == files[..i];
    var f := files[i];
    var rs := Records(files[..i]);
    if f.parsed.Ok? { MappedAppend(rs, Record(f.name, f.parsed.value), JOURNAL); } else { assert rs + [] == rs; }
  }

  function Listed(directory: seq<JournalFile>): seq<Journal> {
    SortBy(Mapped(Records(Sequence(directory)), JOURNAL), BY_ID)
  }

  // ----- The history -----

  /** A list of as many journals as the limit allows, newest first, that some arrangement of all the
      journals, newest first, begins with: none left out is newer than one shown. */
  ghost predicate ShowsNewest(shown: seq<Journal>, journals: seq<Journal>, limit: Option<nat>) {
    && |shown| == Least(limit, |journals|)
    && exists rest :: BeginsSorted(shown, rest, journals)
  }

  ghost predicate BeginsSorted(shown: seq<Journal>, rest: seq<Journal>, journals: seq<Journal>) {
    multiset(shown + rest) == multiset(journals) && NewestFirst(shown + rest)
  }

  /** Later ones first, and of the same time those with greater ids. */
  ghost predicate NewestFirst(s: seq<Journal>) {
    forall i, j :: 0 <= i < j < |s| ==>
      s[i].created >= s[j].created && (s[i].created == s[j].created ==> !Less(s[i].id, s[j].id))
  }

  function Least(limit: Option<nat>, n: nat): (m: nat)
    ensures m <= n
  {
    if limit.Some? && limit.value < n then limit.value else n
  }

  /** The listing, the sort and the truncation of `run_history`. */
  method RunHistory(directory: Option<seq<JournalFile>>, limit: Option<nat>)
    returns (shown: seq<Journal>, problems: seq<Problem>)
    ensures directory.None? ==> shown == [] && problems == []
    ensures directory.Some? ==>
              && ShowsNewest(shown, Listed(directory.value), limit) && NewestFirst(shown)
              && shown == Shown(Listed(directory.value), limit)
              && problems == Problems(Sequence(directory.value))
  {
    var transactions;
    transactions, problems := ListJournals(directory);
    shown := SortAndTruncate(transactions, limit);
  }

  method SortAndTruncate(journals: seq<Journal>, limit: Option<nat>) returns (shown: seq<Journal>)
    ensures ShowsNewest(shown, journals, limit) && NewestFirst(shown)
    ensures shown == Shown(journals, limit)
  {
    ShownIsNewest(journals, limit);
    shown := SortBy(journals, NEWER);
    if limit.Some? && limit.value < |shown| {
      shown := shown[..limit.value];
    }
    assert shown == Shown(journals, limit);
  }

  function Shown(journals: seq<Journal>, limit: Option<nat>): seq<Journal> {
    var sorted := SortBy(journals, NEWER);
    sorted[..Least(limit, |sorted|)]
  }

  lemma ShownIsNewest(journals: seq<Journal>, limit: Option<nat>)
    ensures ShowsNewest(Shown(journals, limit), journals, limit) && NewestFirst(Shown(journals, limit))
  {
    var all := SortBy(journals, NEWER);
    NewerIsOrder();
    SortByElements(journals, NEWER);
    SortBySorted(journals, NEWER);
    PrefixOfSorted(all, Least(limit, |all|), journals);
  }

  lemma PrefixOfSorted(all: seq<Journal>, n: nat, journals: seq<Journal>)
    requires n <= |all| && multiset(all) == multiset(journals) && Sorted(all, NEWER)
    ensures exists rest :: BeginsSorted(all[..n], rest, journals)
    ensures NewestFirst(all[..n])
  {
    forall i, j | 0 <= i < j < |all|
      ensures all[i].created >= all[j].created && (all[i].created == all[j].created ==> !Less(all[i].id, all[j].id))
    {
      assert !NEWER(all[j], all[i]);
    }
    assert all == all[..n] + all[n..];
    assert BeginsSorted(all[..n], all[n..], journals);
  }

  lemma NewerIsOrder()
    ensures IsOrder(NEWER)
  {
    forall a: Journal, b: Journal | NEWER(a, b) ensures !NEWER(b, a) {
      LessTrichotomy(a.id, b.id);
    }
    forall a: Journal, b: Journal, c: Journal | !NEWER(b, a) && !NEWER(c, b) ensures !NEWER(c, a) {
      LessTrichotomy(a.id, b.id);
      LessTrichotomy(b.id, c.id);
      LessTrichotomy(a.id, c.id);
      if Less(a.id, c.id) && Less(b.id, a.id) { LessTransitive(b.id, a.id, c.id); }
      if Less(a.id, c.id) && Less(c.id, b.id) { LessTransitive(a.id, c.id, b.id); }
    }
  }

  /** No two different journals share both creation time and id. */
  ghost predicate UniqueKeys(journals: seq<Journal>) {
    forall a, b :: a in journals && b in journals && a.created == b.created && a.id == b.id ==> a == b
  }

  lemma KeysDistinguish(journals: seq<Journal>)
    ensures UniqueKeys(journals) <==> Distinguishes(journals, NEWER)
  {
    forall a, b | a in journals && b in journals
      ensures (a == b || NEWER(a, b) || NEWER(b, a)) <==> (a.created == b.created && a.id == b.id ==> a == b)
    {
      LessTrichotomy(a.id, b.id);
    }
  }

  /** The last sort alone gives the same list for every arrangement of its input if and only if no two
      different journals share creation time and id. */
  lemma FinalSortDetermined(journals: seq<Journal>)
    ensures (forall t :: SortsAlike(journals, t, NEWER)) <==> UniqueKeys(journals)
  {
    NewerIsOrder();
    KeysDistinguish(journals);
    DeterminedExactly(journals, NEWER);
  }

  // ----- The history as a function of the files -----

  lemma {:induction false} JsonCount(files: seq<JournalFile>, f: JournalFile)
    ensures multiset(JsonFiles(files))[f] == if Extension(f.name) == Some("json") then multiset(files)[f] else 0
  {
    if files != [] {
      var n := |files| - 1;
      JsonCount(files[..n], f);
      assert files == files[..n] + [files[n]];
    }
  }

  lemma {:induction false} RecordCount(files: seq<JournalFile>, r: Record)
    ensures multiset(Records(files))[r] == multiset(files)[JournalFile(r.name, Ok(r.journal))]
  {
    if files != [] {
      var n := |files| - 1;
      RecordCount(files[..n], r);
      assert files == files[..n] + [files[n]];
    }
  }

  lemma NameIsOrder()
    ensures IsOrder(BY_NAME) && IsOrder(BY_ID)
  {
    forall s: string, t: string ensures !(Less(s, t) && Less(t, s)) { LessTrichotomy(s, t); }
    forall r: string, s: string, t: string | !Less(s, r) && !Less(t, s) ensures !Less(t, r) {
      NotLessTransitive(r, s, t);
    }
  }

  lemma NotLessTransitive(r: string, s: string, t: string)
    requires !Less(s, r) && !Less(t, s)
    ensures !Less(t, r)
  {
    LessTrichotomy(r, s);
    LessTrichotomy(s, t);
    if r != s && s != t { LessTransitive(r, s, t); }
    LessTrichotomy(r, t);
  }

  lemma NamesDistinguish(files: seq<JournalFile>)
    requires DistinctNames(files)
    ensures Distinguishes(JsonFiles(files), BY_NAME)
  {
    var json := JsonFiles(files);
    forall f, g | f in json && g in json ensures f == g || BY_NAME(f, g) || BY_NAME(g, f) {
      assert f in multiset(json) && g in multiset(json);
      JsonCount(files, f);
      JsonCount(files, g);
      assert f in multiset(files) && g in multiset(files);
      LessTrichotomy(f.name, g.name);
    }
  }

  /** Whatever order the directory is read in, the files are listed in one order; so the listing, the
      problems and the history, with and without a limit, are the same. */
  lemma ReadingOrderDoesNotMatter(a: seq<JournalFile>, b: seq<JournalFile>)
    requires DistinctNames(a) && multiset(a) == multiset(b)
    ensures Sequence(a) == Sequence(b)
    ensures Listed(a) == Listed(b) && forall limit :: Shown(Listed(a), limit) == Shown(Listed(b), limit)
  {
    NameIsOrder();
    NamesDistinguish(a);
    forall f ensures multiset(JsonFiles(a))[f] == multiset(JsonFiles(b))[f] {
      JsonCount(a, f);
      JsonCount(b, f);
    }
    assert multiset(JsonFiles(a)) == multiset(JsonFiles(b));
    SortByDetermined(JsonFiles(a), JsonFiles(b), BY_NAME);
  }

  // ----- The exact order -----

  const RECORD_NAME := (a: Record, b: Record) => Less(a.name, b.name)
  const RECORD_ID := (a: Record, b: Record) => Less(a.journal.id, b.journal.id)
  const RECORD_NEWER := (a: Record, b: Record) => Newer(a.journal, b.journal)

  /** Newest first, then greatest id first, then by file name. */
  predicate Precedes(a: Record, b: Record) {
    || a.journal.created > b.journal.created
    || (a.journal.created == b.journal.created
        && (Less(b.journal.id, a.journal.id) || (a.journal.id == b.journal.id && Less(a.name, b.name))))
  }

  const PRECEDES: (Record, Record) -> bool := (a, b) => Precedes(a, b)

  lemma RecordOrders()
    ensures IsOrder(RECORD_NAME) && IsOrder(RECORD_ID) && IsOrder(RECORD_NEWER)
  {
    NameIsOrder();
    NewerIsOrder();
    forall a: Record, b: Record | RECORD_NAME(a, b) ensures !RECORD_NAME(b, a) { LessTrichotomy(a.name, b.name); }
    forall a: Record, b: Record, c: Record | !RECORD_NAME(b, a) && !RECORD_NAME(c, b) ensures !RECORD_NAME(c, a) {
      NotLessTransitive(a.name, b.name, c.name);
    }
    forall a: Record, b: Record | RECORD_NEWER(a, b) ensures !RECORD_NEWER(b, a) {
      assert NEWER(a.journal, b.journal) ==> !NEWER(b.journal, a.journal);
    }
    forall a: Record, b: Record, c: Record | !RECORD_NEWER(b, a) && !RECORD_NEWER(c, b) ensures !RECORD_NEWER(c, a) {
      assert !NEWER(b.journal, a.journal) && !NEWER(c.journal, b.journal);
    }
    forall a: Record, b: Record | RECORD_ID(a, b) ensures !RECORD_ID(b, a) {
      LessTrichotomy(a.journal.id, b.journal.id);
    }
    forall a: Record, b: Record, c: Record | !RECORD_ID(b, a) && !RECORD_ID(c, b) ensures !RECORD_ID(c, a) {
      NotLessTransitive(a.journal.id, b.journal.id, c.journal.id);
    }
  }

  lemma LexIsPrecedes(a: Record, b: Record)
    ensures Lex(RECORD_NEWER, Lex(RECORD_ID, RECORD_NAME))(a, b) == PRECEDES(a, b)
  {
    LessTrichotomy(a.journal.id, b.journal.id);
    assert Same(RECORD_NEWER, a, b) <==> a.journal.created == b.journal.created && a.journal.id == b.journal.id;
    assert Same(RECORD_ID, a, b) <==> a.journal.id == b.journal.id;
    var byIdAndName := Lex(RECORD_ID, RECORD_NAME);
    assert byIdAndName(a, b) <==> RECORD_ID(a, b) || (Same(RECORD_ID, a, b) && RECORD_NAME(a, b));
    assert Lex(RECORD_NEWER, byIdAndName)(a, b) <==>
           RECORD_NEWER(a, b) || (Same(RECORD_NEWER, a, b) && byIdAndName(a, b));
  }

  lemma {:induction false} RecordsInOrder(files: seq<JournalFile>)
    requires Sorted(files, BY_NAME)
    ensures Sorted(Records(files), RECORD_NAME)
  {
    if files != [] {
      var n := |files| - 1;
      RecordsInOrder(files[..n]);
      var rs := Records(files[..n]);
      forall j | 0 <= j < |rs| ensures !Less(files[n].name, rs[j].name) {
        assert rs[j] in multiset(rs);
        RecordCount(files[..n], rs[j]);
        var f := JournalFile(rs[j].name, Ok(rs[j].journal));
        assert f in multiset(files[..n]);
        var k :| 0 <= k < n && files[k] == f;
        assert !BY_NAME(files[n], files[k]);
      }
    }
  }

  /** The three sorts in a row, on the records. */
  function HistoryRecords(directory: seq<JournalFile>): seq<Record> {
    SortBy(SortBy(Records(Sequence(directory)), RECORD_ID), RECORD_NEWER)
  }

  lemma HistoryIsMapped(directory: seq<JournalFile>)
    ensures SortBy(Listed(directory), NEWER) == Mapped(HistoryRecords(directory), JOURNAL)
  {
    var rs := Records(Sequence(directory));
    SortByMapped(rs, JOURNAL, RECORD_ID, BY_ID);
    SortByMapped(SortBy(rs, RECORD_ID), JOURNAL, RECORD_NEWER, NEWER);
  }

  lemma HistorySorted(directory: seq<JournalFile>)
    ensures Sorted(HistoryRecords(directory), PRECEDES)
    ensures multiset(HistoryRecords(directory)) == multiset(Records(Sequence(directory)))
  {
    var rs := Records(Sequence(directory));
    NameIsOrder();
    RecordOrders();
    SortBySorted(JsonFiles(directory), BY_NAME);
    RecordsInOrder(Sequence(directory));
    SortByLex(rs, RECORD_ID, RECORD_NAME);
    LexIsOrder(RECORD_ID, RECORD_NAME);
    SortByLex(SortBy(rs, RECORD_ID), RECORD_NEWER, Lex(RECORD_ID, RECORD_NAME));
    SortByElements(rs, RECORD_ID);
    SortByElements(SortBy(rs, RECORD_ID), RECORD_NEWER);
    var h := HistoryRecords(directory);
    forall i, j | 0 <= i < j < |h| ensures !PRECEDES(h[j], h[i]) { LexIsPrecedes(h[j], h[i]); }
  }

  lemma RecordsOf(directory: seq<JournalFile>)
    ensures multiset(Records(Sequence(directory))) == multiset(Records(JsonFiles(directory)))
  {
    SortByElements(JsonFiles(directory), BY_NAME);
    forall r ensures multiset(Records(Sequence(directory)))[r] == multiset(Records(JsonFiles(directory)))[r] {
      RecordCount(Sequence(directory), r);
      RecordCount(JsonFiles(directory), r);
    }
  }

  /** What the history shows, with and without a limit: the journals of the readable JSON files, sorted
      newest first, then by id, greatest first, and then by file name. */
  lemma HistoryOrder(directory: seq<JournalFile>, limit: Option<nat>)
    requires DistinctNames(directory)
    ensures var all := Mapped(SortBy(Records(JsonFiles(directory)), PRECEDES), JOURNAL);
            Shown(Listed(directory), limit) == all[..Least(limit, |all|)]
  {
    HistoryIsMapped(directory);
    HistorySorted(directory);
    RecordsOf(directory);
    PrecedesIsOrder();
    RecordsDistinguished(directory);
    SortedIsSortBy(HistoryRecords(directory), Records(JsonFiles(directory)), PRECEDES);
  }

  lemma PrecedesIsOrder()
    ensures IsOrder(PRECEDES)
  {
    RecordOrders();
    LexIsOrder(RECORD_ID, RECORD_NAME);
    LexIsOrder(RECORD_NEWER, Lex(RECORD_ID, RECORD_NAME));
    forall a, b ensures Lex(RECORD_NEWER, Lex(RECORD_ID, RECORD_NAME))(a, b) == PRECEDES(a, b) { LexIsPrecedes(a, b); }
  }

  lemma RecordsDistinguished(directory: seq<JournalFile>)
    requires DistinctNames(directory)
    ensures Distinguishes(Records(JsonFiles(directory)), PRECEDES)
  {
    var rs := Records(JsonFiles(directory));
    forall a, b | a in rs && b in rs ensures a == b || PRECEDES(a, b) || PRECEDES(b, a) {
      RecordFile(directory, a);
      RecordFile(directory, b);
      LessTrichotomy(a.name, b.name);
      LessTrichotomy(a.journal.id, b.journal.id);
    }
  }

  lemma RecordFile(directory: seq<JournalFile>, r: Record)
    requires r in Records(JsonFiles(directory))
    ensures JournalFile(r.name, Ok(r.journal)) in directory
  {
    var f := JournalFile(r.name, Ok(r.journal));
    assert r in multiset(Records(JsonFiles(directory)));
    RecordCount(JsonFiles(directory), r);
    JsonCount(directory, f);
    assert f in multiset(directory);
  }

  /** `--limit k` shows k journals, or all there are, newest first, and none of those it leaves out is
      newer than one it shows. */
  lemma LimitShowsNewest(journals: seq<Journal>, limit: nat)
    ensures var shown, all := Shown(journals, Some(limit)), SortBy(journals, NEWER);
            && |shown| == (if limit < |journals| then limit else |journals|)
            && multiset(all) == multiset(journals)
            && all == shown + all[|shown|..]
            && NewestFirst(shown)
            && forall i, j :: 0 <= i < |shown| <= j < |all| ==>
                 shown[i].created >= all[j].created
                 && (shown[i].created == all[j].created ==> !Less(shown[i].id, all[j].id))
  {
    var shown, all := Shown(journals, Some(limit)), SortBy(journals, NEWER);
    NewerIsOrder();
    SortByElements(journals, NEWER);
    SortBySorted(journals, NEWER);
    PrefixOfSorted(all, |shown|, journals);
    forall i, j | 0 <= i < |shown| <= j < |all|
      ensures shown[i].created >= all[j].created
      ensures shown[i].created == all[j].created ==> !Less(shown[i].id, all[j].id)
    {
      assert shown[i] == all[i] && !NEWER(all[j], all[i]);
    }
  }
}
