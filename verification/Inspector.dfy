/** The bounded, read-only listing of an archive's entries. */
module Inspector {
  import opened Wrappers
  import opened Text
  import Paths

  datatype Kind = File | Directory

  datatype Classification = LikelyContent | Artwork | Documentation | NestedArchive | DirectoryEntry | Other

  /** One entry as the archive library reports it. */
  datatype RawEntry =
    | Broken(detail: string)
    | Raw(name: string, isDirectory: bool, encrypted: bool, size: nat, compressedSize: nat, compression: string)

  datatype Entry = Entry(name: string, kind: Kind, size: nat, compressedSize: nat, compression: string,
                         classification: Classification)

  datatype Report = Report(entries: seq<Entry>, truncated: bool, total: nat)

  datatype InspectError =
    | UnsupportedFormat
    | ArchiveMissing
    | Io(detail: string)
    | Malformed(detail: string)
    | Encrypted

  /** What opening the file and reading its central directory gave. */
  datatype Opened = NotFound | OpenFailed(detail: string) | NotAnArchive(detail: string) | Archive(raw: seq<RawEntry>)

  const DOCUMENTATION: seq<string> :=
    ["nfo", "txt", "md", "pdf", "xml", "json", "cue", "m3u", "sha1", "md5", "sfv"]
  const ARTWORK: seq<string> := ["png", "jpg", "jpeg", "webp", "gif"]
  const NESTED: seq<string> := ["zip", "7z", "rar", "tar", "gz", "bz2", "xz"]
  const CONTENT: seq<string> := [
    "nes", "fds", "sfc", "smc", "gb", "gbc", "gba", "n64", "z64", "v64", "nds", "3ds", "cia", "gg",
    "sms", "gen", "32x", "pce", "ws", "wsc", "ngp", "ngc", "a26", "a52", "a78", "j64", "col",
    "int", "vec", "lnx", "adf", "ipf", "dsk", "d64", "t64", "tap", "crt", "rom",
    "iso", "bin", "img", "mdf", "mds", "nrg", "cso", "gcz", "wbfs", "wad", "rvz", "chd", "gdi",
    "cdi", "pbp", "ecm", "exe", "msi", "bat", "sh", "app", "com"]

  function ClassifyEntry(name: string, isDirectory: bool): Classification {
    if isDirectory then DirectoryEntry
    else
      var extension := Paths.Extension(name);
      if extension.None? then Other else ClassOf(AsciiLowercase(extension.value))
  }

  predicate IsKnownDiscCompanion(path: string) {
    var extension := Paths.Extension(path);
    extension.Some? && (EqIgnoreAsciiCase(extension.value, "cue") || EqIgnoreAsciiCase(extension.value, "m3u"))
  }

  /** A disc companion is never classified as content: the listing and the "missing game" wording
      cannot contradict each other. */
  lemma CompanionsAreDocumentation(name: string)
    requires IsKnownDiscCompanion(name)
    ensures ClassifyEntry(name, false) == Documentation
  {
    var e := AsciiLowercase(Paths.Extension(name).value);
    assert AsciiLowercase("cue") == "cue" && AsciiLowercase("m3u") == "m3u";
    assert DOCUMENTATION[6] == "cue" && DOCUMENTATION[7] == "m3u";
    assert e == DOCUMENTATION[6] || e == DOCUMENTATION[7];
  }

  /** The class of a lower-cased extension. */
  function ClassOf(e: string): Classification {
    if e in DOCUMENTATION then Documentation
    else if e in ARTWORK then Artwork
    else if e in NESTED then NestedArchive
    else if e in CONTENT then LikelyContent
    else Other
  }

  /** The class of a name is that of its extension, whatever its case; a name without one has none. */
  lemma ClassIgnoresCase(a: string, b: string)
    ensures Paths.Extension(a).None? ==> ClassifyEntry(a, false) == Other
    ensures Paths.Extension(a).Some? && Paths.Extension(b).Some?
            && AsciiLowercase(Paths.Extension(a).value) == AsciiLowercase(Paths.Extension(b).value) ==>
              ClassifyEntry(a, false) == ClassifyEntry(b, false)
  {
  }

  function Describe(raw: RawEntry): Entry
    requires raw.Raw?
  {
    Entry(raw.name, if raw.isDirectory then Directory else File, raw.size, raw.compressedSize, raw.compression,
          ClassifyEntry(raw.name, raw.isDirectory))
  }

  /** Entries that end an inspection, and how. */
  predicate Stops(raw: RawEntry) {
    raw.Broken? || raw.encrypted
  }

  function ErrorOf(raw: RawEntry): InspectError
    requires Stops(raw)
  {
    if raw.Broken? then Malformed(raw.detail) else Encrypted
  }

  /** No stop among the first `n` entries. */
  ghost predicate Clear(raw: seq<RawEntry>, n: nat)
    requires n <= |raw|
  {
    forall j :: 0 <= j < n ==> !Stops(raw[j])
  }

  /** The first stop is entry `k`, and it ends the inspection with `e`. */
  ghost predicate StopsWith(raw: seq<RawEntry>, k: nat, e: InspectError) {
    k < |raw| && Clear(raw, k) && Stops(raw[k]) && e == ErrorOf(raw[k])
  }

  /** The listing of the first `n` entries. */
  ghost predicate Lists(entries: seq<Entry>, raw: seq<RawEntry>, n: nat)
    requires n <= |raw|
  {
    |entries| == n && forall j :: 0 <= j < n ==> raw[j].Raw? && Describes(entries[j], raw[j])
  }

  /** Name, sizes and compression are those of the archive, a directory is one, and anything else is
      classified by its extension, in any case. */
  ghost predicate Describes(e: Entry, raw: RawEntry)
    requires raw.Raw?
  {
    && e.name == raw.name && e.size == raw.size && e.compressedSize == raw.compressedSize
    && e.compression == raw.compression && (e.kind == Directory <==> raw.isDirectory)
    && (e.classification == DirectoryEntry <==> raw.isDirectory)
    && e.classification == ClassifyEntry(raw.name, raw.isDirectory)
  }

  lemma ListsAppend(entries: seq<Entry>, raw: seq<RawEntry>, n: nat)
    requires n < |raw| && Lists(entries, raw, n) && raw[n].Raw?
    ensures Lists(entries + [Describe(raw[n])], raw, n + 1)
  {
  }

  function Within(raw: seq<RawEntry>, limit: nat): nat {
    if limit < |raw| then limit else |raw|
  }

  /** What an inspection of an open archive must report: the first stop among the entries within the
      limit, or else exactly those entries, whether there are more, and how many there are in all. */
  ghost predicate Reports(raw: seq<RawEntry>, limit: nat, r: Result<Report, InspectError>) {
    match r
    case Err(e) => exists k: nat :: k < limit && StopsWith(raw, k, e)
    case Ok(report) =>
      && Clear(raw, Within(raw, limit)) && Lists(report.entries, raw, Within(raw, limit))
      && (report.truncated <==> |raw| > limit) && report.total == |raw|
  }

  method InspectArchiveWithLimit(inspectable: bool, access: Opened, limit: nat)
    returns (r: Result<Report, InspectError>)
    ensures !inspectable ==> r == Err(UnsupportedFormat)
    ensures inspectable ==>
              match access
              case NotFound => r == Err(ArchiveMissing)
              case OpenFailed(detail) => r == Err(Io(detail))
              case NotAnArchive(detail) => r == Err(Malformed(detail))
              case Archive(raw) => Reports(raw, limit, r)
  {
    if !inspectable { return Err(UnsupportedFormat); }
    match access {
      case NotFound => return Err(ArchiveMissing);
      case OpenFailed(detail) => return Err(Io(detail));
      case NotAnArchive(detail) => return Err(Malformed(detail));
      case Archive(raw) => r := ListEntries(raw, limit);
    }
  }

  method ListEntries(raw: seq<RawEntry>, limit: nat) returns (r: Result<Report, InspectError>)
    ensures Reports(raw, limit, r)
  {
    var total := |raw|;
    var entries := [];
    var truncated := false;
    for index := 0 to total
      invariant index == |entries| && index <= limit && !truncated
      invariant Clear(raw, index) && Lists(entries, raw, index)
    {
      if |entries| >= limit {
        truncated := true;
        break;
      }
      if raw[index].Broken? {
        assert StopsWith(raw, index, Malformed(raw[index].detail));
        return Err(Malformed(raw[index].detail));
      }
      if raw[index].encrypted {
        assert StopsWith(raw, index, InspectError.Encrypted);
        return Err(Encrypted);
      }
      ListsAppend(entries, raw, index);
      entries := entries + [Describe(raw[index])];
    }
    return Ok(Report(entries, truncated, total));
  }

  // ----- What a limit changes -----

  lemma FirstStopIsUnique(raw: seq<RawEntry>, k: nat, e: InspectError, k': nat, e': InspectError)
    requires StopsWith(raw, k, e) && StopsWith(raw, k', e')
    ensures k == k' && e == e'
  {
  }

  /** The report is determined: two outcomes for the same archive and limit are equal. */
  lemma ReportIsUnique(raw: seq<RawEntry>, limit: nat, r: Result<Report, InspectError>, r': Result<Report, InspectError>)
    requires Reports(raw, limit, r) && Reports(raw, limit, r')
    ensures r == r'
  {
    if r.Err? {
      var k: nat :| k < limit && StopsWith(raw, k, r.error);
      if r'.Err? {
        var k': nat :| k' < limit && StopsWith(raw, k', r'.error);
        FirstStopIsUnique(raw, k, r.error, k', r'.error);
      }
    } else if r'.Ok? {
      SameListing(r.value.entries, r'.value.entries, raw, Within(raw, limit), Within(raw, limit));
    }
  }

  lemma SameListing(a: seq<Entry>, b: seq<Entry>, raw: seq<RawEntry>, m: nat, n: nat)
    requires m <= n <= |raw| && Lists(a, raw, m) && Lists(b, raw, n)
    ensures a == b[..m]
    ensures m == n ==> a == b
  {
  }

  /** Raising the limit keeps every error and extends every listing. */
  lemma LimitOnlyHides(raw: seq<RawEntry>, low: nat, high: nat,
                       r: Result<Report, InspectError>, r': Result<Report, InspectError>)
    requires low <= high && Reports(raw, low, r) && Reports(raw, high, r')
    ensures r.Err? ==> r' == r
    ensures r.Ok? && r'.Ok? ==> r.value.entries <= r'.value.entries && r.value.total == r'.value.total
  {
    if r.Err? {
      var k: nat :| k < low && StopsWith(raw, k, r.error);
      assert k < high;
      ReportIsUnique(raw, high, r', r);
    } else if r'.Ok? {
      SameListing(r.value.entries, r'.value.entries, raw, Within(raw, low), Within(raw, high));
    }
  }

  lemma {:induction false} FirstStop(raw: seq<RawEntry>, i: nat) returns (k: nat)
    requires i < |raw| && Stops(raw[i])
    ensures k <= i && Stops(raw[k]) && StopsWith(raw, k, ErrorOf(raw[k]))
    decreases i
  {
    if Clear(raw, i) {
      k := i;
    } else {
      var j :| 0 <= j < i && Stops(raw[j]);
      k := FirstStop(raw, j);
    }
  }

  /** Any archive with an encrypted entry: it is listed if and only if its first stop, that entry or an
      earlier encrypted or unreadable one, lies at or beyond the limit, and otherwise refused with that
      stop's error. Beyond the limit the encryption goes unnoticed. */
  lemma EncryptionSeenWithinLimit(raw: seq<RawEntry>, limit: nat, i: nat, r: Result<Report, InspectError>)
    returns (k: nat)
    requires i < |raw| && raw[i].Raw? && raw[i].encrypted && Reports(raw, limit, r)
    ensures k <= i && Stops(raw[k]) && StopsWith(raw, k, ErrorOf(raw[k]))
    ensures r.Ok? <==> limit <= k
    ensures k < limit ==> r == Err(ErrorOf(raw[k]))
    ensures r == Err(Encrypted) <==> k < limit && raw[k].Raw?
  {
    k := FirstStop(raw, i);
    if k < limit {
      ReportIsUnique(raw, limit, r, Err(ErrorOf(raw[k])));
    }
  }
}
