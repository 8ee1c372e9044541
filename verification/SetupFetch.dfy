/** The retrieval of a catalogue: whether the cache is reused, downloaded anew or refused, and the cache
    that is left behind. */
module SetupFetch {
  import opened Wrappers
  import opened Text
  import opened SetupOptions

  /** What a retrieval is asked for; whether the run reports in JSON is not part of it. */
  datatype FetchOptions = FetchOptions(cacheRoot: string, forceRefresh: bool, offline: bool,
                                       expectedSha256: Option<string>, maxDownloadBytes: Option<nat>)

  function FetchOptionsOf(r: Retrieval): FetchOptions {
    FetchOptions(r.cacheRoot, r.forceRefresh, r.offline, r.expectedSha256, r.maxDownloadBytes)
  }

  /** A snapshot with its manifest: complete if it was validated, recent if retrieved lately. */
  datatype Snapshot = Snapshot(sha: string, prefix: string, recent: bool, complete: bool)

  /** The cache of one source under one root: the current snapshot, if inspection finds one, and for
      each digest published before its snapshot, or why it cannot be published again. */
  datatype Cache = Cache(current: Option<Snapshot>, published: map<string, Result<Snapshot, string>>)

  datatype Source = Source(maximum: nat, pinned: Option<string>, prefix: string)

  /** What the server sends: its size, and what is wrong with its type or, further on, its content. */
  datatype Download = Download(sha: string, size: nat, badType: Option<string>, badContent: Option<string>)

  /** The registry, what may keep a cache root from being locked, the caches and the server. */
  datatype Library = Library(
    sources: map<string, Source>,
    obstacle: (string, bool) -> Option<string>,
    caches: map<(string, string), Cache>,
    server: string -> Result<Download, string>)

  function CacheOf(lib: Library, root: string, id: string): Cache {
    if (root, id) in lib.caches then lib.caches[(root, id)] else Cache(None, map[])
  }

  function Joined(a: string, b: string): string {
    if a == "" || a[|a| - 1] == '/' then a + b else a + "/" + b
  }

  function SnapshotPath(root: string, id: string, s: Snapshot): string {
    Joined(Joined(Joined(Joined(root, id), "snapshots"), s.sha), s.prefix)
  }

  predicate IsHexDigit(c: char) {
    IsDigit(c) || 'a' <= c <= 'f' || 'A' <= c <= 'F'
  }

  predicate IsSha256(s: string) {
    |s| == 64 && forall i :: 0 <= i < |s| ==> IsHexDigit(s[i])
  }

  /** Nothing is expected, or this digest in either case. */
  predicate Meets(expected: Option<string>, sha: string) {
    expected.Some? ==> EqIgnoreAsciiCase(sha, expected.value)
  }

  predicate Reusable(c: Cache, f: FetchOptions) {
    && c.current.Some? && c.current.value.complete && Meets(f.expectedSha256, c.current.value.sha)
    && (f.offline || (!f.forceRefresh && c.current.value.recent))
  }

  /** `fetch_retroarch_cheat_source`: the catalogue's path or an error, and the library afterwards. */
  function Fetch(lib: Library, id: string, f: FetchOptions): (Result<string, string>, Library) {
    if id !in lib.sources then (Err("unknown_source"), lib)
    else if f.expectedSha256.Some? && !IsSha256(f.expectedSha256.value) then (Err("expected_sha256_invalid"), lib)
    else if f.offline && f.forceRefresh then (Err("offline_force_refresh_conflict"), lib)
    else if lib.obstacle(f.cacheRoot, f.offline).Some? then (Err(lib.obstacle(f.cacheRoot, f.offline).value), lib)
    else
      var c := CacheOf(lib, f.cacheRoot, id);
      if Reusable(c, f) then (Ok(SnapshotPath(f.cacheRoot, id, c.current.value)), lib)
      else if f.offline then (Err("offline_cache_unavailable"), lib)
      else FetchAndPublish(lib, id, f)
  }

  function Maximum(limit: Option<nat>, source: Source): nat {
    if limit.Some? && limit.value < source.maximum then limit.value else source.maximum
  }

  /** Why a download is refused, if it is. */
  function Refusal(d: Download, limit: Option<nat>, expected: Option<string>, source: Source): Option<string> {
    var wanted := if expected.Some? then expected else source.pinned;
    if d.size > Maximum(limit, source) then Some("download_too_large")
    else if d.badType.Some? then d.badType
    else if wanted.Some? && !IsSha256(wanted.value) then Some("expected_sha256_invalid")
    else if !Meets(wanted, d.sha) then Some("sha256_mismatch")
    else d.badContent
  }

  function FetchAndPublish(lib: Library, id: string, f: FetchOptions): (Result<string, string>, Library)
    requires id in lib.sources
  {
    var source := lib.sources[id];
    if Maximum(f.maxDownloadBytes, source) == 0 then (Err("invalid_download_limit"), lib)
    else
      var d := lib.server(id);
      if d.Err? then (Err(d.error), lib)
      else
        var refusal := Refusal(d.value, f.maxDownloadBytes, f.expectedSha256, source);
        if refusal.Some? then (Err(refusal.value), lib)
        else Publish(lib, f.cacheRoot, id, d.value.sha, source.prefix)
  }

  /** The snapshot that is activated for a digest: one published before keeps its manifest, and with it
      its age. */
  function Published(c: Cache, sha: string, prefix: string): Result<Snapshot, string> {
    if sha !in c.published then Ok(Snapshot(sha, prefix, true, true))
    else if c.published[sha].Ok? && c.published[sha].value.sha != sha then Err("snapshot_manifest_collision")
    else c.published[sha]
  }

  function Publish(lib: Library, root: string, id: string, sha: string, prefix: string): (Result<string, string>, Library) {
    var c := CacheOf(lib, root, id);
    var s := Published(c, sha, prefix);
    if s.Err? then (Err(s.error), lib)
    else
      (Ok(SnapshotPath(root, id, s.value)),
       lib.(caches := lib.caches[(root, id) := Cache(Some(s.value), c.published[sha := s])]))
  }

  // ----- When a retrieval succeeds -----

  predicate IsHexText(s: string) {
    |s| == 64 && forall i :: 0 <= i < |s| ==> s[i] in "0123456789abcdefABCDEF"
  }

  lemma HexText(s: string)
    ensures IsHexText(s) <==> IsSha256(s)
  {
    forall i | 0 <= i < |s| ensures s[i] in "0123456789abcdefABCDEF" <==> IsHexDigit(s[i]) { HexCharacter(s[i]); }
  }

  lemma HexCharacter(c: char)
    ensures c in "0123456789abcdefABCDEF" <==> IsHexDigit(c)
  {
    var hex := "0123456789abcdefABCDEF";
    if '0' <= c <= '9' { assert hex[c as int - 48] == c; }
    if 'a' <= c <= 'f' { assert hex[c as int - 87] == c; }
    if 'A' <= c <= 'F' { assert hex[c as int - 49] == c; }
  }

  /** The cache has what is wanted: complete, of the digest expected, and recent enough unless offline. */
  ghost predicate CacheServes(lib: Library, id: string, f: FetchOptions) {
    && (f.cacheRoot, id) in lib.caches && lib.caches[(f.cacheRoot, id)].current.Some?
    && var s := lib.caches[(f.cacheRoot, id)].current.value;
       && s.complete
       && (f.expectedSha256.Some? ==> AsciiLowercase(s.sha) == AsciiLowercase(f.expectedSha256.value))
       && (f.offline || (s.recent && !f.forceRefresh))
  }

  /** The server sends something faultless that is no larger than the source and the given limit allow,
      neither of them zero, of the digest expected or else pinned, that can be published. */
  ghost predicate ServerServes(lib: Library, id: string, f: FetchOptions)
    requires id in lib.sources
  {
    var source := lib.sources[id];
    && !f.offline && lib.server(id).Ok?
    && var d := lib.server(id).value;
       && d.size <= source.maximum && 0 < source.maximum
       && (f.maxDownloadBytes.Some? ==> d.size <= f.maxDownloadBytes.value && 0 < f.maxDownloadBytes.value)
       && d.badType.None? && d.badContent.None?
       && (if f.expectedSha256.Some? then AsciiLowercase(d.sha) == AsciiLowercase(f.expectedSha256.value)
           else source.pinned.Some? ==>
             IsHexText(source.pinned.value) && AsciiLowercase(d.sha) == AsciiLowercase(source.pinned.value))
       && CanPublish(CacheOf(lib, f.cacheRoot, id), d.sha)
  }

  ghost predicate CanPublish(c: Cache, sha: string) {
    sha in c.published ==> c.published[sha].Ok? && c.published[sha].value.sha == sha
  }

  lemma CacheServesExactly(lib: Library, id: string, f: FetchOptions)
    ensures CacheServes(lib, id, f) <==> Reusable(CacheOf(lib, f.cacheRoot, id), f)
  {
  }

  lemma ServerServesExactly(lib: Library, id: string, f: FetchOptions)
    requires id in lib.sources && !f.offline && (f.expectedSha256.Some? ==> IsHexText(f.expectedSha256.value))
    ensures ServerServes(lib, id, f) <==> FetchAndPublish(lib, id, f).0.Ok?
  {
    if f.expectedSha256.Some? { HexText(f.expectedSha256.value); }
    if lib.sources[id].pinned.Some? { HexText(lib.sources[id].pinned.value); }
  }

  /** The whole condition, field by field: a retrieval succeeds if and only if the source is known, the
      expected digest is one, it is not both offline and forced, nothing keeps the cache from being
      locked, and cache or server has what is wanted. */
  lemma FetchSucceedsExactly(lib: Library, id: string, f: FetchOptions)
    ensures Fetch(lib, id, f).0.Ok? <==>
            && id in lib.sources && (f.expectedSha256.Some? ==> IsHexText(f.expectedSha256.value))
            && !(f.offline && f.forceRefresh) && lib.obstacle(f.cacheRoot, f.offline).None?
            && (CacheServes(lib, id, f) || ServerServes(lib, id, f))
  {
    if f.expectedSha256.Some? { HexText(f.expectedSha256.value); }
    CacheServesExactly(lib, id, f);
    if id in lib.sources && !f.offline && (f.expectedSha256.Some? ==> IsHexText(f.expectedSha256.value)) {
      ServerServesExactly(lib, id, f);
    }
  }

  /** The snapshot is that of what the server sent, and the library has it as the current one. */
  ghost predicate Activates(lib: Library, id: string, f: FetchOptions, s: Snapshot, after: Library)
    requires id in lib.sources && lib.server(id).Ok?
  {
    var d, c := lib.server(id).value, CacheOf(lib, f.cacheRoot, id);
    && (if d.sha in c.published then c.published[d.sha] == Ok(s)
        else s == Snapshot(d.sha, lib.sources[id].prefix, true, true))
    && after == lib.(caches := lib.caches[(f.cacheRoot, id) := Cache(Some(s), c.published[d.sha := Ok(s)])])
  }

  /** And what it gives: the current snapshot, with nothing changed, if the cache serves; or else the
      snapshot of what was sent, made current, as it was published before or new. */
  lemma FetchGives(lib: Library, id: string, f: FetchOptions) returns (s: Snapshot)
    requires Fetch(lib, id, f).0.Ok?
    ensures Fetch(lib, id, f).0 == Ok(SnapshotPath(f.cacheRoot, id, s))
    ensures CacheServes(lib, id, f) ==>
              lib.caches[(f.cacheRoot, id)].current == Some(s) && Fetch(lib, id, f).1 == lib
    ensures !CacheServes(lib, id, f) ==>
              id in lib.sources && ServerServes(lib, id, f) && Activates(lib, id, f, s, Fetch(lib, id, f).1)
  {
    CacheServesExactly(lib, id, f);
    FetchSucceedsExactly(lib, id, f);
    var c := CacheOf(lib, f.cacheRoot, id);
    if Reusable(c, f) {
      s := c.current.value;
    } else {
      s := Published(c, lib.server(id).value.sha, lib.sources[id].prefix).value;
    }
  }

  /** A download is never larger than the limit given, and a limit of zero allows none. */
  lemma LimitLimits(lib: Library, id: string, f: FetchOptions)
    requires f.maxDownloadBytes.Some? && Fetch(lib, id, f).0.Ok? && !CacheServes(lib, id, f)
    ensures lib.server(id).Ok? && lib.server(id).value.size <= f.maxDownloadBytes.value && f.maxDownloadBytes.value > 0
  {
    FetchSucceedsExactly(lib, id, f);
  }

  /** Where a snapshot lies, for a root, a source and a digest that do not end in a separator. */
  lemma SnapshotPathText(root: string, id: string, s: Snapshot)
    requires root != "" && root[|root| - 1] != '/' && id != "" && id[|id| - 1] != '/'
    requires s.sha != "" && s.sha[|s.sha| - 1] != '/'
    ensures SnapshotPath(root, id, s) == root + "/" + id + "/snapshots/" + s.sha + "/" + s.prefix
  {
    var a := root + "/" + id;
    var b := a + "/" + "snapshots";
    assert a[|a| - 1] == id[|id| - 1] && b[|b| - 1] == 's';
    var c := b + "/" + s.sha;
    assert c[|c| - 1] == s.sha[|s.sha| - 1];
    assert b + "/" == root + "/" + id + "/snapshots/";
  }

  // ----- What the options can change -----

  /** The same retrieval without a forced refresh, an expected digest and a size limit. */
  function Plain(f: FetchOptions): FetchOptions {
    f.(forceRefresh := false, expectedSha256 := None, maxDownloadBytes := None)
  }

  /** An offline retrieval cannot be a forced one. */
  lemma OfflineForcedRefused(lib: Library, id: string, f: FetchOptions)
    requires f.offline && f.forceRefresh
    ensures Fetch(lib, id, f).0.Err?
  {
  }

  /** A size limit can only refuse: what is retrieved within it is retrieved without it. */
  lemma SizeLimitOnlyRefuses(lib: Library, id: string, f: FetchOptions)
    requires Fetch(lib, id, f).0.Ok?
    ensures Fetch(lib, id, f.(maxDownloadBytes := None)) == Fetch(lib, id, f)
  {
  }

  /** Offline, so can an expected digest. */
  lemma OfflineDigestOnlyRefuses(lib: Library, id: string, f: FetchOptions)
    requires f.offline && Fetch(lib, id, f).0.Ok?
    ensures Fetch(lib, id, f.(expectedSha256 := None)) == Fetch(lib, id, f)
  {
  }

  /** Whatever cache and server hold, a retrieval that expects a digest gives a snapshot of it. */
  lemma ExpectedIsRetrieved(lib: Library, id: string, f: FetchOptions) returns (s: Snapshot)
    requires f.expectedSha256.Some? && Fetch(lib, id, f).0.Ok?
    ensures Fetch(lib, id, f).0 == Ok(SnapshotPath(f.cacheRoot, id, s))
    ensures EqIgnoreAsciiCase(s.sha, f.expectedSha256.value)
  {
    var c := CacheOf(lib, f.cacheRoot, id);
    if Reusable(c, f) {
      s := c.current.value;
    } else {
      s := Published(c, lib.server(id).value.sha, lib.sources[id].prefix).value;
    }
  }

  /** No digest the program was built with. The registry's one source has none. */
  predicate Unpinned(lib: Library, id: string) {
    id in lib.sources ==> lib.sources[id].pinned.None?
  }

  /** What was retrieved, however, is retrieved again by the plain options: it is current in the cache
      and reused, or too old and downloaded again, as long as the server still sends it. */
  lemma RetrievedAgain(lib: Library, id: string, f: FetchOptions)
    requires Fetch(lib, id, f).0.Ok? && Unpinned(lib, id)
    ensures Fetch(Fetch(lib, id, f).1, id, Plain(f)).0 == Fetch(lib, id, f).0
  {
    var c := CacheOf(lib, f.cacheRoot, id);
    if !Reusable(c, f) { PublishedAgain(lib, id, f); }
  }

  lemma PublishedAgain(lib: Library, id: string, f: FetchOptions)
    requires Fetch(lib, id, f).0.Ok? && Unpinned(lib, id) && !Reusable(CacheOf(lib, f.cacheRoot, id), f)
    ensures Fetch(Fetch(lib, id, f).1, id, Plain(f)).0 == Fetch(lib, id, f).0
  {
    var d := lib.server(id).value;
    var lib' := Fetch(lib, id, f).1;
    var s := Published(CacheOf(lib, f.cacheRoot, id), d.sha, lib.sources[id].prefix);
    assert CacheOf(lib', f.cacheRoot, id).current == Some(s.value);
    assert Published(CacheOf(lib', f.cacheRoot, id), d.sha, lib.sources[id].prefix) == s;
    assert Refusal(d, None, None, lib.sources[id]).None?;
  }

  /** Downloading a snapshot that was published before does not renew it: its manifest stays, and if that
      is too old the next retrieval online downloads it again. */
  lemma OldSnapshotStaysOld(lib: Library, id: string, f: FetchOptions, s: Snapshot, g: FetchOptions)
    requires Fetch(lib, id, f).0.Ok? && !Reusable(CacheOf(lib, f.cacheRoot, id), f)
    requires !s.recent && lib.server(id).value.sha in CacheOf(lib, f.cacheRoot, id).published
    requires CacheOf(lib, f.cacheRoot, id).published[lib.server(id).value.sha] == Ok(s)
    requires g.cacheRoot == f.cacheRoot && !g.offline
    ensures CacheOf(Fetch(lib, id, f).1, f.cacheRoot, id).current == Some(s)
    ensures !Reusable(CacheOf(Fetch(lib, id, f).1, f.cacheRoot, id), g)
  {
  }

  /** What plain options leave out does not matter to a retrieval: it is offline, its digest is none so
      that it is refused, or it is neither forced nor expects a digest. */
  predicate PlainSuffices(f: FetchOptions) {
    || f.offline || (f.expectedSha256.Some? && !IsSha256(f.expectedSha256.value))
    || (!f.forceRefresh && f.expectedSha256.None?)
  }

  lemma PlainRetrievesTheSame(lib: Library, id: string, f: FetchOptions)
    requires PlainSuffices(f) && Fetch(lib, id, f).0.Ok?
    ensures Fetch(lib, id, Plain(f)).0 == Fetch(lib, id, f).0
  {
    if f.offline {
      OfflineDigestOnlyRefuses(lib, id, f);
      SizeLimitOnlyRefuses(lib, id, f.(expectedSha256 := None));
    } else {
      SizeLimitOnlyRefuses(lib, id, f);
    }
  }

  // ----- Where they change it -----

  /** A digest of the same length that differs in its first character. */
  function OtherDigest(sha: string): (other: string)
    requires sha != ""
    ensures |other| == |sha| && other[0] != sha[0] && other[1..] == sha[1..] && IsDigit(other[0])
  {
    (if sha[0] == '0' then "1" else "0") + sha[1..]
  }

  lemma OtherDigestDiffers(sha: string)
    requires sha != "" && IsHexDigit(sha[0])
    ensures !EqIgnoreAsciiCase(OtherDigest(sha), sha)
  {
    var other := OtherDigest(sha);
    assert AsciiLowercase(other)[0] == other[0];
    assert AsciiLowercase(sha)[0] == AsciiLower(sha[0]);
  }

  lemma DifferentDigestsDifferentPaths(root: string, id: string, s: Snapshot, t: Snapshot)
    requires |s.sha| == |t.sha| > 0 && s.sha[0] != t.sha[0]
    ensures SnapshotPath(root, id, s) != SnapshotPath(root, id, t)
  {
    var base := Joined(Joined(root, id), "snapshots");
    assert base[|base| - 1] == 's';
    var p, q := base + "/" + s.sha, base + "/" + t.sha;
    assert p[|base| + 1] == s.sha[0] && q[|base| + 1] == t.sha[0];
    assert SnapshotPath(root, id, s)[|base| + 1] == p[|base| + 1];
    assert SnapshotPath(root, id, t)[|base| + 1] == q[|base| + 1];
  }

  /** A recent snapshot in the cache, and another one on the server. */
  function CachedAndServed(root: string, id: string, cached: Snapshot, served: string): Library {
    Library(map[id := Source(1, None, "")], (_, _) => None, map[(root, id) := Cache(Some(cached), map[])],
            _ => Ok(Download(served, 0, None, None)))
  }

  /** A forced refresh online, and an expected digest online, retrieve from some library what plain
      options do not. */
  lemma PlainRetrievesOther(id: string, f: FetchOptions) returns (lib: Library)
    requires !PlainSuffices(f) && f.maxDownloadBytes != Some(0)
    ensures Unpinned(lib, id) && Fetch(lib, id, f).0.Ok? && Fetch(lib, id, Plain(f)).0.Ok?
    ensures Fetch(lib, id, Plain(f)).0 != Fetch(lib, id, f).0
  {
    var served := if f.expectedSha256.Some? then f.expectedSha256.value else "a";
    var cached := Snapshot(OtherDigest(served), "", true, true);
    lib := CachedAndServed(f.cacheRoot, id, cached, served);
    OtherDigestDiffers(served);
    assert CacheOf(lib, f.cacheRoot, id).current == Some(cached);
    assert !Reusable(CacheOf(lib, f.cacheRoot, id), f);
    assert Refusal(lib.server(id).value, f.maxDownloadBytes, f.expectedSha256, lib.sources[id]).None?;
    DifferentDigestsDifferentPaths(f.cacheRoot, id, cached, Snapshot(served, "", true, true));
  }
}
