/** A file tree as the audit sees it, and the order in which it is walked. */
module AuditModel {
  import opened Wrappers

  datatype Confidence = Confirmed | Probable | Ambiguous | Unknown

  datatype Source = Signature | FolderAlias | OtherSource

  datatype Evidence = Evidence(source: Source, platform: string, detail: string)

  /** The structural inspection of a file: whether a format was recognised, or why not. */
  datatype Inspection = Inspection(recognised: bool, refusal: Option<string>, bytes: nat)

  /** What detection, the read policy and inspection conclude about one file. */
  datatype File = File(path: string, extension: Option<string>, before: Option<string>, platform: Option<string>,
                       confidence: Confidence, evidence: seq<Evidence>, ambiguityReason: Option<string>,
                       readRefusal: Option<string>, inspection: Inspection)

  /** A directory entry. A link may lead to a file, to something else, or nowhere. */
  datatype Entry =
    | Subdirectory(tree: Tree)
    | Regular(file: File)
    | LinkToFile(file: File)
    | LinkElsewhere(target: Tree)
    | BrokenLink
    | Special
    | Vanished

  datatype Tree = Directory(readable: bool, entries: seq<Entry>)

  // ----- Sizes, for termination -----

  function TreeSize(t: Tree): nat
    decreases t, 2
  {
    1 + EntriesSize(t.entries)
  }

  function EntriesSize(es: seq<Entry>): nat
    decreases es, 1
  {
    if es == [] then 0 else EntrySize(es[0]) + EntriesSize(es[1..])
  }

  function EntrySize(e: Entry): nat
    decreases e, 0
  {
    if e.Subdirectory? then 1 + TreeSize(e.tree) else 1
  }

  function StackSize(stack: seq<Tree>): nat {
    if stack == [] then 0 else StackSize(stack[..|stack| - 1]) + 1 + TreeSize(stack[|stack| - 1])
  }

  /** The directories among the entries, in order; links are not followed. */
  function Subdirectories(es: seq<Entry>): (r: seq<Tree>)
    ensures StackSize(r) <= EntriesSize(es)
  {
    if es == [] then []
    else
      var rest := Subdirectories(es[1..]);
      if es[0].Subdirectory? then
        StackSizeConcat([es[0].tree], rest);
        StackSizeOne(es[0].tree);
        [es[0].tree] + rest
      else rest
  }

  lemma StackSizeOne(t: Tree)
    ensures StackSize([t]) == 1 + TreeSize(t)
  {
    assert [t][..0] == [];
  }

  lemma {:induction false} StackSizeConcat(a: seq<Tree>, b: seq<Tree>)
    ensures StackSize(a + b) == StackSize(a) + StackSize(b)
  {
    if b == [] {
      assert a + b == a;
    } else {
      assert (a + b)[..|a + b| - 1] == a + b[..|b| - 1];
      StackSizeConcat(a, b[..|b| - 1]);
    }
  }

  // ----- The order of an explicit-stack walk -----

  /** A directory's own entries, then its subdirectories, the last first. */
  function WalkTree(t: Tree): seq<Entry>
    decreases TreeSize(t)
  {
    if t.readable then t.entries + WalkStack(Subdirectories(t.entries)) else []
  }

  function WalkStack(stack: seq<Tree>): seq<Entry>
    decreases StackSize(stack)
  {
    if stack == [] then []
    else WalkTree(stack[|stack| - 1]) + WalkStack(stack[..|stack| - 1])
  }

  lemma WalkStackPush(stack: seq<Tree>, t: Tree)
    ensures WalkStack(stack + [t]) == WalkTree(t) + WalkStack(stack)
  {
    assert (stack + [t])[..|stack|] == stack;
  }

  lemma {:induction false} WalkStackConcat(a: seq<Tree>, b: seq<Tree>)
    ensures WalkStack(a + b) == WalkStack(b) + WalkStack(a)
  {
    if b == [] {
      assert a + b == a && [] + WalkStack(a) == WalkStack(a);
    } else {
      var init, last := b[..|b| - 1], b[|b| - 1];
      assert b == init + [last] && a + b == (a + init) + [last];
      WalkStackConcat(a, init);
      WalkStackPush(a + init, last);
      WalkStackPush(init, last);
      Associate(WalkTree(last), WalkStack(init), WalkStack(a));
    }
  }

  lemma Associate<T>(a: seq<T>, b: seq<T>, c: seq<T>)
    ensures a + (b + c) == (a + b) + c
  {
  }

  // ----- The reference: a recursive walk in natural order -----

  predicate IsFile(e: Entry) {
    e.Regular? || e.LinkToFile?
  }

  function FilesOf(es: seq<Entry>): seq<File> {
    if es == [] then []
    else FilesOf(es[..|es| - 1]) + if IsFile(es[|es| - 1]) then [es[|es| - 1].file] else []
  }

  /** Every file under a directory that can be reached without following a link to a directory. */
  function EligibleFiles(t: Tree): seq<File>
    decreases t, 2
  {
    if t.readable then EligibleIn(t.entries) else []
  }

  function EligibleIn(es: seq<Entry>): seq<File>
    decreases es, 1
  {
    if es == [] then [] else EligibleAt(es[0]) + EligibleIn(es[1..])
  }

  function EligibleAt(e: Entry): seq<File>
    decreases e, 0
  {
    if IsFile(e) then [e.file] else if e.Subdirectory? then EligibleFiles(e.tree) else []
  }

  /** File `f` lies at a path of positions: through readable directories only, as itself or at the end of a
      link, and not behind a link to a directory. */
  predicate FileAt(t: Tree, path: seq<nat>, f: File)
    decreases |path|
  {
    && t.readable && path != [] && path[0] < |t.entries|
    && match t.entries[path[0]]
       case Regular(g) => |path| == 1 && g == f
       case LinkToFile(g) => |path| == 1 && g == f
       case Subdirectory(u) => FileAt(u, path[1..], f)
       case _ => false
  }

  ghost predicate LiesSomewhere(t: Tree, f: File) {
    exists path :: FileAt(t, path, f)
  }

  /** The eligible files are those that lie somewhere. */
  lemma EligibleExactly(t: Tree, f: File)
    ensures f in EligibleFiles(t) <==> LiesSomewhere(t, f)
  {
    if f in EligibleFiles(t) {
      var path := EligibleLies(t, f);
    } else if LiesSomewhere(t, f) {
      var path :| FileAt(t, path, f);
      LyingIsEligible(t, path, f);
    }
  }

  lemma {:induction false} EligibleLies(t: Tree, f: File) returns (path: seq<nat>)
    requires f in EligibleFiles(t)
    ensures FileAt(t, path, f)
    decreases t, |t.entries|
  {
    var i := EligibleEntry(t.entries, f);
    var e := t.entries[i];
    if e.Subdirectory? {
      var rest := EligibleLies(e.tree, f);
      path := [i] + rest;
      assert path[1..] == rest;
    } else {
      path := [i];
    }
  }

  lemma {:induction false} EligibleEntry(es: seq<Entry>, f: File) returns (i: nat)
    requires f in EligibleIn(es)
    ensures i < |es| && f in EligibleAt(es[i])
  {
    if f in EligibleAt(es[0]) {
      i := 0;
    } else {
      var j := EligibleEntry(es[1..], f);
      i := j + 1;
    }
  }

  lemma {:induction false} EntryIsEligible(es: seq<Entry>, i: nat, f: File)
    requires i < |es| && f in EligibleAt(es[i])
    ensures f in EligibleIn(es)
  {
    if i > 0 { EntryIsEligible(es[1..], i - 1, f); }
  }

  lemma {:induction false} LyingIsEligible(t: Tree, path: seq<nat>, f: File)
    requires FileAt(t, path, f)
    ensures f in EligibleFiles(t)
    decreases |path|
  {
    var e := t.entries[path[0]];
    if e.Subdirectory? { LyingIsEligible(e.tree, path[1..], f); }
    EntryIsEligible(t.entries, path[0], f);
  }

  lemma {:induction false} FilesOfConcat(a: seq<Entry>, b: seq<Entry>)
    ensures FilesOf(a + b) == FilesOf(a) + FilesOf(b)
  {
    if b == [] {
      assert a + b == a;
    } else {
      var n := |b| - 1;
      assert (a + b)[..|a| + n] == a + b[..n];
      FilesOfConcat(a, b[..n]);
    }
  }

  lemma FilesOfOne(e: Entry)
    ensures FilesOf([e]) == if IsFile(e) then [e.file] else []
  {
    assert [e][..0] == [];
  }

  /** The explicit stack meets every eligible file as often as the recursive walk does: only the
      order differs. */
  lemma {:induction false} WalkMeetsEligible(t: Tree)
    ensures multiset(FilesOf(WalkTree(t))) == multiset(EligibleFiles(t))
    decreases t, 2
  {
    if t.readable {
      FilesOfConcat(t.entries, WalkStack(Subdirectories(t.entries)));
      EntriesMeetEligible(t.entries);
    }
  }

  ghost function FilesBelow(e: Entry): multiset<File> {
    if e.Subdirectory? then multiset(FilesOf(WalkTree(e.tree))) else multiset{}
  }

  ghost function Met(es: seq<Entry>): multiset<File> {
    multiset(FilesOf(es)) + multiset(FilesOf(WalkStack(Subdirectories(es))))
  }

  lemma MetCons(e: Entry, rest: seq<Entry>)
    ensures Met([e] + rest) == multiset(FilesOf([e])) + FilesBelow(e) + Met(rest)
  {
    FilesOfConcat([e], rest);
    assert ([e] + rest)[1..] == rest;
    if e.Subdirectory? { FirstSubdirectory(e.tree, Subdirectories(rest)); }
  }

  lemma EligibleCons(e: Entry, rest: seq<Entry>)
    ensures multiset(EligibleIn([e] + rest)) == multiset(EligibleAt(e)) + multiset(EligibleIn(rest))
  {
    assert ([e] + rest)[1..] == rest;
  }

  lemma {:induction false} EntriesMeetEligible(es: seq<Entry>)
    ensures Met(es) == multiset(EligibleIn(es))
    decreases es, 1
  {
    if es == [] {
      assert Met(es) == multiset{};
    } else {
      EntriesMeetEligible(es[1..]);
      EntryMeetsEligible(es[0]);
      MetCons(es[0], es[1..]);
      EligibleCons(es[0], es[1..]);
      assert es == [es[0]] + es[1..];
    }
  }

  lemma {:induction false} EntryMeetsEligible(e: Entry)
    ensures multiset(EligibleAt(e)) == multiset(FilesOf([e])) + FilesBelow(e)
    decreases e, 0
  {
    FilesOfOne(e);
    if e.Subdirectory? { WalkMeetsEligible(e.tree); }
  }

  lemma FirstSubdirectory(t: Tree, rest: seq<Tree>)
    ensures multiset(FilesOf(WalkStack([t] + rest))) ==
            multiset(FilesOf(WalkTree(t))) + multiset(FilesOf(WalkStack(rest)))
  {
    WalkStackConcat([t], rest);
    WalkStackOne(t);
    FilesOfConcat(WalkStack(rest), WalkTree(t));
  }

  lemma WalkStackOne(t: Tree)
    ensures WalkStack([t]) == WalkTree(t)
  {
    assert [t][..0] == [];
    assert WalkTree(t) + [] == WalkTree(t);
  }

  // ----- The limit -----

  /** What is left of a limit after `n` files. */
  function Left(limit: Option<nat>, n: nat): Option<nat> {
    if limit.None? then None else Some(if n < limit.value then limit.value - n else 0)
  }

  /** The entries up to and including the last file the limit allows. */
  function Cut(es: seq<Entry>, limit: Option<nat>): seq<Entry> {
    if es == [] || limit == Some(0) then []
    else [es[0]] + Cut(es[1..], if IsFile(es[0]) then Left(limit, 1) else limit)
  }

  lemma CutStep(es: seq<Entry>, limit: Option<nat>)
    requires es != [] && limit != Some(0)
    ensures FilesOf(es) == (if IsFile(es[0]) then [es[0].file] else []) + FilesOf(es[1..])
    ensures FilesOf(Cut(es, limit)) ==
            if IsFile(es[0]) then [es[0].file] + FilesOf(Cut(es[1..], Left(limit, 1)))
            else FilesOf(Cut(es[1..], limit))
  {
    var left := if IsFile(es[0]) then Left(limit, 1) else limit;
    FilesOfConcat([es[0]], es[1..]);
    FilesOfConcat([es[0]], Cut(es[1..], left));
    FilesOfOne(es[0]);
    assert es == [es[0]] + es[1..];
  }

  /** A limit keeps exactly the first `limit` files. */
  lemma {:induction false} CutFiles(es: seq<Entry>, limit: Option<nat>)
    ensures var all := FilesOf(es);
            FilesOf(Cut(es, limit)) == if limit.Some? && limit.value < |all| then all[..limit.value] else all
  {
    if es != [] && limit != Some(0) {
      CutFiles(es[1..], if IsFile(es[0]) then Left(limit, 1) else limit);
      CutStep(es, limit);
    }
  }
}
