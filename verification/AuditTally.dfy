/** The accumulators of the audit, each proved to be a statistic of the entries met so far. */
module AuditTally {
  import opened Wrappers
  import opened Bounds
  import opened AuditModel
  import opened Histograms

  datatype Totals = Totals(files: nat, directories: nat, confirmed: nat, probable: nat, ambiguous: nat, unknown: nat)

  datatype Platforms = Platforms(counts: Counts, unresolved: Counts, seen: set<string>)

  datatype Links = Links(seen: nat, read: nat, withSignature: nat, refusals: Counts)

  datatype Change = Change(path: string, before: Option<string>, after: Option<string>, confidence: Confidence,
                           reason: string)

  /** The first few of a list of changes, and how many there were. */
  datatype Sample = Sample(kept: seq<Change>, total: nat)

  datatype Changes = Changes(reclassified: Sample, newlyDetected: Sample, misclassified: Sample)

  datatype DiskRow = DiskRow(files: nat, valid: nat, malformed: nat, refused: nat, refusals: Counts, bytes: nat)

  datatype Tally = Tally(totals: Totals, platforms: Platforms, links: Links, changes: Changes,
                         disks: map<string, DiskRow>)

  const EMPTY := Tally(Totals(0, 0, 0, 0, 0, 0), Platforms(map[], map[], {}), Links(0, 0, 0, map[]),
                       Changes(Sample([], 0), Sample([], 0), Sample([], 0)), map[])

  // ----- Totals -----

  function CountConfidence(fs: seq<File>, c: Confidence): nat {
    if fs == [] then 0
    else CountConfidence(fs[..|fs| - 1], c) + if fs[|fs| - 1].confidence == c then 1 else 0
  }

  function CountDirectories(es: seq<Entry>): nat {
    if es == [] then 0
    else CountDirectories(es[..|es| - 1]) + if es[|es| - 1].Subdirectory? then 1 else 0
  }

  ghost predicate TotalsOf(t: Totals, es: seq<Entry>) {
    var fs := FilesOf(es);
    && t.files == |fs| && t.directories == CountDirectories(es)
    && t.confirmed == CountConfidence(fs, Confirmed) && t.probable == CountConfidence(fs, Probable)
    && t.ambiguous == CountConfidence(fs, Ambiguous) && t.unknown == CountConfidence(fs, Unknown)
  }

  lemma FilesAfter(es: seq<Entry>, e: Entry)
    ensures FilesOf(es + [e]) == FilesOf(es) + if IsFile(e) then [e.file] else []
  {
    assert (es + [e])[..|es|] == es;
  }

  lemma ConfidenceAfter(fs: seq<File>, f: File, c: Confidence)
    ensures CountConfidence(fs + [f], c) == CountConfidence(fs, c) + if f.confidence == c then 1 else 0
  {
    assert (fs + [f])[..|fs|] == fs;
  }

  method CountTotals(t0: Totals, e: Entry, ghost es: seq<Entry>) returns (t: Totals)
    requires TotalsOf(t0, es)
    ensures TotalsOf(t, es + [e])
  {
    t := t0;
    assert (es + [e])[..|es|] == es;
    FilesAfter(es, e);
    assert FilesOf(es) + [] == FilesOf(es);
    if e.Subdirectory? {
      t := t.(directories := t.directories + 1);
    } else if IsFile(e) {
      ConfidenceAfter(FilesOf(es), e.file, Confirmed);
      ConfidenceAfter(FilesOf(es), e.file, Probable);
      ConfidenceAfter(FilesOf(es), e.file, Ambiguous);
      ConfidenceAfter(FilesOf(es), e.file, Unknown);
      t := t.(files := t.files + 1);
      match e.file.confidence {
        case Confirmed => t := t.(confirmed := t.confirmed + 1);
        case Probable => t := t.(probable := t.probable + 1);
        case Ambiguous => t := t.(ambiguous := t.ambiguous + 1);
        case Unknown => t := t.(unknown := t.unknown + 1);
      }
    }
  }

  // ----- Platforms and unresolved extensions -----

  /** The platform of each file that has one. */
  function PlatformNames(fs: seq<File>): seq<string> {
    if fs == [] then []
    else PlatformNames(fs[..|fs| - 1]) + var f := fs[|fs| - 1]; if f.platform.Some? then [f.platform.value] else []
  }

  /** The extension of each file that has one but no platform. */
  function UnresolvedNames(fs: seq<File>): seq<string> {
    if fs == [] then []
    else
      UnresolvedNames(fs[..|fs| - 1]) +
      var f := fs[|fs| - 1]; if f.platform.None? && f.extension.Some? then [f.extension.value] else []
  }

  ghost predicate PlatformsOf(p: Platforms, fs: seq<File>) {
    && IsHistogram(p.counts, PlatformNames(fs)) && IsHistogram(p.unresolved, UnresolvedNames(fs))
    && forall name :: name in p.seen <==> name in PlatformNames(fs)
  }

  lemma NamesAfter(fs: seq<File>, f: File)
    ensures PlatformNames(fs + [f]) == PlatformNames(fs) + if f.platform.Some? then [f.platform.value] else []
    ensures UnresolvedNames(fs + [f]) ==
            UnresolvedNames(fs) + if f.platform.None? && f.extension.Some? then [f.extension.value] else []
  {
    assert (fs + [f])[..|fs|] == fs;
  }

  method CountPlatform(p0: Platforms, f: File, ghost fs: seq<File>) returns (p: Platforms)
    requires PlatformsOf(p0, fs)
    ensures PlatformsOf(p, fs + [f])
  {
    p := p0;
    ghost var names, unresolved := PlatformNames(fs), UnresolvedNames(fs);
    NamesAfter(fs, f);
    assert names + [] == names && unresolved + [] == unresolved;
    if f.platform.Some? {
      BumpCounts(p.counts, names, f.platform.value);
      p := p.(counts := Bump(p.counts, f.platform.value));
      p := p.(seen := p.seen + {f.platform.value});
    } else if f.extension.Some? {
      BumpCounts(p.unresolved, unresolved, f.extension.value);
      p := p.(unresolved := Bump(p.unresolved, f.extension.value));
    }
  }

  // ----- Links -----

  predicate IsLink(e: Entry) {
    e.LinkToFile? || e.LinkElsewhere? || e.BrokenLink?
  }

  predicate IsReadLink(e: Entry) {
    e.LinkToFile? && e.file.readRefusal.None?
  }

  predicate HasSignature(f: File) {
    exists i :: 0 <= i < |f.evidence| && f.evidence[i].source == Signature
  }

  /** Why a link was refused, if it was. */
  function LinkRefusal(e: Entry): seq<string> {
    match e
    case BrokenLink => ["unresolvable_target"]
    case LinkElsewhere(_) => ["not_regular_file"]
    case LinkToFile(f) => if f.readRefusal.Some? then [f.readRefusal.value] else []
    case _ => []
  }

  function CountLinks(es: seq<Entry>): nat {
    if es == [] then 0 else CountLinks(es[..|es| - 1]) + if IsLink(es[|es| - 1]) then 1 else 0
  }

  function CountReadLinks(es: seq<Entry>): nat {
    if es == [] then 0 else CountReadLinks(es[..|es| - 1]) + if IsReadLink(es[|es| - 1]) then 1 else 0
  }

  function CountSignatures(es: seq<Entry>): nat {
    if es == [] then 0
    else
      CountSignatures(es[..|es| - 1]) +
      var e := es[|es| - 1]; if IsReadLink(e) && HasSignature(e.file) then 1 else 0
  }

  function LinkRefusals(es: seq<Entry>): seq<string> {
    if es == [] then [] else LinkRefusals(es[..|es| - 1]) + LinkRefusal(es[|es| - 1])
  }

  ghost predicate LinksOf(l: Links, es: seq<Entry>) {
    && l.seen == CountLinks(es) && l.read == CountReadLinks(es) && l.withSignature == CountSignatures(es)
    && IsHistogram(l.refusals, LinkRefusals(es))
  }

  lemma LinksAfter(es: seq<Entry>, e: Entry)
    ensures CountLinks(es + [e]) == CountLinks(es) + if e.LinkToFile? || e.LinkElsewhere? || e.BrokenLink? then 1 else 0
    ensures CountReadLinks(es + [e]) == CountReadLinks(es) + if e.LinkToFile? && e.file.readRefusal.None? then 1 else 0
    ensures CountSignatures(es + [e]) == CountSignatures(es) +
            if e.LinkToFile? && e.file.readRefusal.None?
               && (exists i :: 0 <= i < |e.file.evidence| && e.file.evidence[i].source == Signature) then 1 else 0
    ensures LinkRefusals(es + [e]) == LinkRefusals(es) + LinkRefusal(e)
  {
    assert (es + [e])[..|es|] == es;
  }

  lemma LinkRefused(l: Links, es: seq<Entry>, e: Entry, code: string)
    requires LinksOf(l, es) && IsLink(e) && LinkRefusal(e) == [code]
    ensures LinksOf(l.(seen := l.seen + 1, refusals := Bump(l.refusals, code)), es + [e])
  {
    LinksAfter(es, e);
    BumpCounts(l.refusals, LinkRefusals(es), code);
  }

  lemma LinkWasRead(l: Links, es: seq<Entry>, e: Entry)
    requires LinksOf(l, es) && IsReadLink(e)
    ensures LinksOf(l.(seen := l.seen + 1, read := l.read + 1,
                       withSignature := l.withSignature + if HasSignature(e.file) then 1 else 0), es + [e])
  {
    LinksAfter(es, e);
    assert LinkRefusals(es) + [] == LinkRefusals(es);
  }

  lemma NoLink(l: Links, es: seq<Entry>, e: Entry)
    requires LinksOf(l, es) && !IsLink(e)
    ensures LinksOf(l, es + [e])
  {
    LinksAfter(es, e);
    assert LinkRefusals(es) + [] == LinkRefusals(es);
  }

  method CountLink(l0: Links, e: Entry, ghost es: seq<Entry>) returns (l: Links)
    requires LinksOf(l0, es)
    ensures LinksOf(l, es + [e])
  {
    l := l0;
    match e {
      case BrokenLink =>
        LinkRefused(l0, es, e, "unresolvable_target");
        l := l.(seen := l.seen + 1, refusals := Bump(l.refusals, "unresolvable_target"));
      case LinkElsewhere(_) =>
        LinkRefused(l0, es, e, "not_regular_file");
        l := l.(seen := l.seen + 1, refusals := Bump(l.refusals, "not_regular_file"));
      case LinkToFile(f) =>
        l := l.(seen := l.seen + 1);
        if f.readRefusal.None? {
          LinkWasRead(l0, es, e);
          l := l.(read := l.read + 1);
          if HasSignature(f) { l := l.(withSignature := l.withSignature + 1); }
        } else {
          LinkRefused(l0, es, e, f.readRefusal.value);
          l := l.(refusals := Bump(l.refusals, f.readRefusal.value));
        }
      case _ =>
        NoLink(l0, es, e);
    }
  }

  // ----- Changes -----

  const RECLASSIFIED_CAP: nat := 40
  const NEWLY_DETECTED_CAP: nat := 10
  const MISCLASSIFIED_CAP: nat := 20

  function FirstDetail(f: File): string {
    if f.evidence == [] then "no evidence" else f.evidence[0].detail
  }

  function ChangeOf(f: File): Change {
    Change(f.path, f.before, f.platform, f.confidence,
           if f.ambiguityReason.Some? then f.ambiguityReason.value else FirstDetail(f))
  }

  /** The `.gen`/`.smd` rule of earlier builds would have called the file a Mega Drive ROM. */
  predicate WasMegaDrive(f: File) {
    f.extension == Some("gen") || f.extension == Some("smd")
  }

  function MisclassificationOf(f: File): Change {
    Change(f.path, Some("MegaDrive"), f.platform, f.confidence, FirstDetail(f))
  }

  function Reclassified(fs: seq<File>): seq<Change> {
    if fs == [] then []
    else
      Reclassified(fs[..|fs| - 1]) +
      var f := fs[|fs| - 1]; if f.before.Some? && f.before != f.platform then [ChangeOf(f)] else []
  }

  function NewlyDetected(fs: seq<File>): seq<Change> {
    if fs == [] then []
    else
      NewlyDetected(fs[..|fs| - 1]) +
      var f := fs[|fs| - 1]; if f.before.None? && f.platform.Some? then [ChangeOf(f)] else []
  }

  function Misclassified(fs: seq<File>): seq<Change> {
    if fs == [] then []
    else
      Misclassified(fs[..|fs| - 1]) +
      var f := fs[|fs| - 1];
      if WasMegaDrive(f) && f.platform != Some("MegaDrive") then [MisclassificationOf(f)] else []
  }

  /** What one file adds to the changes, field by field. The reason of a change is the ambiguity, or else
      the first evidence, or else that there is none; of a misclassification the evidence alone. */
  lemma ChangesAfter(fs: seq<File>, f: File)
    ensures Reclassified(fs + [f]) == Reclassified(fs) +
            if f.before.Some? && f.before != f.platform
            then [Change(f.path, f.before, f.platform, f.confidence, ReasonOf(f))] else []
    ensures NewlyDetected(fs + [f]) == NewlyDetected(fs) +
            if f.before.None? && f.platform.Some?
            then [Change(f.path, None, f.platform, f.confidence, ReasonOf(f))] else []
    ensures Misclassified(fs + [f]) == Misclassified(fs) +
            if (f.extension == Some("gen") || f.extension == Some("smd")) && f.platform != Some("MegaDrive")
            then [Change(f.path, Some("MegaDrive"), f.platform, f.confidence,
                         if f.evidence == [] then "no evidence" else f.evidence[0].detail)] else []
  {
    assert (fs + [f])[..|fs|] == fs;
  }

  ghost function ReasonOf(f: File): string {
    if f.ambiguityReason.Some? then f.ambiguityReason.value
    else if f.evidence == [] then "no evidence"
    else f.evidence[0].detail
  }

  /** The sample is the first `cap` of the changes, and the total counts them all. */
  ghost predicate Samples(s: Sample, all: seq<Change>, cap: nat) {
    s.total == |all| && s.kept == all[..if |all| < cap then |all| else cap]
  }

  function Push(s: Sample, c: Change, cap: nat): Sample {
    Sample(if |s.kept| < cap then s.kept + [c] else s.kept, s.total + 1)
  }

  lemma PushSamples(s: Sample, all: seq<Change>, c: Change, cap: nat)
    requires Samples(s, all, cap)
    ensures Samples(Push(s, c, cap), all + [c], cap)
  {
  }

  ghost predicate ChangesOf(c: Changes, fs: seq<File>) {
    && Samples(c.reclassified, Reclassified(fs), 40)
    && Samples(c.newlyDetected, NewlyDetected(fs), 10)
    && Samples(c.misclassified, Misclassified(fs), 20)
  }

  method RecordChanges(c0: Changes, f: File, ghost fs: seq<File>) returns (c: Changes)
    requires ChangesOf(c0, fs)
    ensures ChangesOf(c, fs + [f])
  {
    c := c0;
    assert (fs + [f])[..|fs|] == fs;
    if WasMegaDrive(f) && f.platform != Some("MegaDrive") {
      PushSamples(c.misclassified, Misclassified(fs), MisclassificationOf(f), MISCLASSIFIED_CAP);
      c := c.(misclassified := Push(c.misclassified, MisclassificationOf(f), MISCLASSIFIED_CAP));
    }
    if f.before != f.platform {
      if f.before.Some? {
        PushSamples(c.reclassified, Reclassified(fs), ChangeOf(f), RECLASSIFIED_CAP);
        c := c.(reclassified := Push(c.reclassified, ChangeOf(f), RECLASSIFIED_CAP));
      } else {
        PushSamples(c.newlyDetected, NewlyDetected(fs), ChangeOf(f), NEWLY_DETECTED_CAP);
        c := c.(newlyDetected := Push(c.newlyDetected, ChangeOf(f), NEWLY_DETECTED_CAP));
      }
    }
  }

  // ----- Disk formats -----

  predicate IsDiskExtension(extension: Option<string>) {
    extension == Some("st") || extension == Some("stx")
  }

  predicate IsMalformedCode(code: string) {
    code == "malformed" || code == "geometry_mismatch" || code == "not_sector_aligned"
    || code == "too_small" || code == "too_large" || code == "truncated"
  }

  datatype Outcome = Valid | Malformed(code: string) | Refused(code: string) | Silent

  /** What one inspection counts as. */
  function OutcomeOf(i: Inspection): Outcome {
    if i.recognised then Valid
    else if i.refusal.None? then Silent
    else if IsMalformedCode(i.refusal.value) then Malformed(i.refusal.value)
    else Refused(i.refusal.value)
  }

  /** What an inspection counts as, by its fields: six codes mean that the image is malformed. */
  lemma OutcomeExactly(i: Inspection)
    ensures OutcomeOf(i).Valid? <==> i.recognised
    ensures OutcomeOf(i).Silent? <==> !i.recognised && i.refusal.None?
    ensures OutcomeOf(i).Malformed? <==>
              !i.recognised && i.refusal.Some?
              && i.refusal.value in {"malformed", "geometry_mismatch", "not_sector_aligned", "too_small", "too_large",
                                     "truncated"}
    ensures OutcomeOf(i).Malformed? || OutcomeOf(i).Refused? ==> i.refusal == Some(OutcomeOf(i).code)
  {
  }

  /** The files that have a disk extension, and this one. */
  function OfExtension(fs: seq<File>, extension: string): seq<File> {
    if fs == [] then []
    else
      OfExtension(fs[..|fs| - 1], extension) + if IsDiskFile(fs[|fs| - 1], extension) then [fs[|fs| - 1]] else []
  }

  function Outcomes(fs: seq<File>): seq<Outcome> {
    if fs == [] then [] else Outcomes(fs[..|fs| - 1]) + [OutcomeOf(fs[|fs| - 1].inspection)]
  }

  function CountOutcomes(os: seq<Outcome>, valid: bool, malformed: bool): nat {
    if os == [] then 0
    else
      var o := os[|os| - 1];
      CountOutcomes(os[..|os| - 1], valid, malformed)
      + if (valid && o.Valid?) || (malformed && o.Malformed?) || (!valid && !malformed && o.Refused?) then 1 else 0
  }

  function RefusalCodes(os: seq<Outcome>): seq<string> {
    if os == [] then []
    else
      var o := os[|os| - 1];
      RefusalCodes(os[..|os| - 1]) + if o.Malformed? || o.Refused? then [o.code] else []
  }

  function Bytes(fs: seq<File>): nat {
    if fs == [] then 0 else Bytes(fs[..|fs| - 1]) + fs[|fs| - 1].inspection.bytes
  }

  function Saturated(n: nat): nat {
    if n <= U64_MAX then n else U64_MAX
  }

  ghost predicate RowOf(r: DiskRow, fs: seq<File>) {
    r.files == |fs| && r.bytes == (if Bytes(fs) < 0x1_0000_0000_0000_0000 then Bytes(fs) else 0xFFFF_FFFF_FFFF_FFFF) && OutcomesOf(r, Outcomes(fs))
  }

  ghost predicate OutcomesOf(r: DiskRow, os: seq<Outcome>) {
    && r.valid == CountOutcomes(os, true, false) && r.malformed == CountOutcomes(os, false, true)
    && r.refused == CountOutcomes(os, false, false) && IsHistogram(r.refusals, RefusalCodes(os))
  }

  lemma OutcomesAfter(fs: seq<File>, f: File)
    ensures Outcomes(fs + [f]) == Outcomes(fs) + [OutcomeOf(f.inspection)]
    ensures Bytes(fs + [f]) == Bytes(fs) + f.inspection.bytes
  {
    assert (fs + [f])[..|fs|] == fs;
  }

  lemma CountsAfter(os: seq<Outcome>, o: Outcome)
    ensures CountOutcomes(os + [o], true, false) == CountOutcomes(os, true, false) + if o.Valid? then 1 else 0
    ensures CountOutcomes(os + [o], false, true) == CountOutcomes(os, false, true) + if o.Malformed? then 1 else 0
    ensures CountOutcomes(os + [o], false, false) == CountOutcomes(os, false, false) + if o.Refused? then 1 else 0
    ensures RefusalCodes(os + [o]) == RefusalCodes(os) + if o.Malformed? || o.Refused? then [o.code] else []
  {
    assert (os + [o])[..|os|] == os;
  }

  method CountOutcome(r0: DiskRow, o: Outcome, ghost os: seq<Outcome>) returns (r: DiskRow)
    requires OutcomesOf(r0, os)
    ensures OutcomesOf(r, os + [o]) && r.files == r0.files && r.bytes == r0.bytes
  {
    CountsAfter(os, o);
    assert RefusalCodes(os) + [] == RefusalCodes(os);
    r := r0;
    match o {
      case Valid => r := r.(valid := r.valid + 1);
      case Malformed(code) =>
        BumpCounts(r.refusals, RefusalCodes(os), code);
        r := r.(malformed := r.malformed + 1, refusals := Bump(r.refusals, code));
      case Refused(code) =>
        BumpCounts(r.refusals, RefusalCodes(os), code);
        r := r.(refused := r.refused + 1, refusals := Bump(r.refusals, code));
      case Silent =>
    }
  }

  method CountInspection(r0: DiskRow, f: File, ghost fs: seq<File>) returns (r: DiskRow)
    requires RowOf(r0, fs)
    ensures RowOf(r, fs + [f])
  {
    OutcomesAfter(fs, f);
    r := r0.(files := r0.files + 1, bytes := Saturated(r0.bytes + f.inspection.bytes));
    r := CountOutcome(r, OutcomeOf(f.inspection), Outcomes(fs));
  }

  ghost predicate DiskAt(rows: map<string, DiskRow>, fs: seq<File>, x: string) {
    (x in rows <==> OfExtension(fs, x) != []) && (x in rows ==> RowOf(rows[x], OfExtension(fs, x)))
  }

  ghost predicate DisksOf(rows: map<string, DiskRow>, fs: seq<File>) {
    forall x :: DiskAt(rows, fs, x)
  }

  predicate IsDiskFile(f: File, extension: string) {
    IsDiskExtension(f.extension) && f.extension == Some(extension)
  }

  lemma OfExtensionAfter(fs: seq<File>, f: File, x: string)
    ensures OfExtension(fs + [f], x) == OfExtension(fs, x) + if IsDiskFile(f, x) then [f] else []
  {
    assert (fs + [f])[..|fs|] == fs;
  }

  /** The rows are those of the files whose extension is "st" or "stx". */
  lemma {:induction false} DiskFilesExactly(fs: seq<File>, extension: string, f: File)
    ensures multiset(OfExtension(fs, extension))[f] ==
            if f.extension == Some(extension) && (extension == "st" || extension == "stx") then multiset(fs)[f] else 0
  {
    if fs != [] {
      var n := |fs| - 1;
      DiskFilesExactly(fs[..n], extension, f);
      assert fs == fs[..n] + [fs[n]];
    }
  }

  lemma DisksWithout(rows: map<string, DiskRow>, fs: seq<File>, f: File)
    requires DisksOf(rows, fs) && forall x :: !IsDiskFile(f, x)
    ensures DisksOf(rows, fs + [f])
  {
    forall x ensures DiskAt(rows, fs + [f], x) {
      assert DiskAt(rows, fs, x);
      OfExtensionAfter(fs, f, x);
      assert OfExtension(fs, x) + [] == OfExtension(fs, x);
    }
  }

  lemma DiskRowAfter(rows: map<string, DiskRow>, fs: seq<File>, f: File, x: string, row: DiskRow)
    requires IsDiskFile(f, x) && RowOf(row, OfExtension(fs, x) + [f])
    ensures DiskAt(rows[x := row], fs + [f], x)
  {
    OfExtensionAfter(fs, f, x);
  }

  lemma OtherDiskAfter(rows: map<string, DiskRow>, fs: seq<File>, f: File, x: string, row: DiskRow, y: string)
    requires DiskAt(rows, fs, y) && y != x && !IsDiskFile(f, y)
    ensures DiskAt(rows[x := row], fs + [f], y)
  {
    OfExtensionAfter(fs, f, y);
    assert OfExtension(fs, y) + [] == OfExtension(fs, y);
  }

  lemma DisksWith(rows: map<string, DiskRow>, fs: seq<File>, f: File, x: string, row: DiskRow)
    requires DisksOf(rows, fs) && IsDiskFile(f, x) && forall y :: y != x ==> !IsDiskFile(f, y)
    requires RowOf(row, OfExtension(fs, x) + [f])
    ensures DisksOf(rows[x := row], fs + [f])
  {
    var rows' := rows[x := row];
    forall y ensures DiskAt(rows', fs + [f], y) {
      assert DiskAt(rows, fs, y);
      if y == x { DiskRowAfter(rows, fs, f, x, row); } else { OtherDiskAfter(rows, fs, f, x, row, y); }
    }
  }

  method CountDisk(rows0: map<string, DiskRow>, f: File, ghost fs: seq<File>) returns (rows: map<string, DiskRow>)
    requires DisksOf(rows0, fs)
    ensures DisksOf(rows, fs + [f])
  {
    if IsDiskExtension(f.extension) {
      var x := f.extension.value;
      var row := if x in rows0 then rows0[x] else DiskRow(0, 0, 0, 0, map[], 0);
      assert DiskAt(rows0, fs, x);
      row := CountInspection(row, f, OfExtension(fs, x));
      DisksWith(rows0, fs, f, x, row);
      rows := rows0[x := row];
    } else {
      DisksWithout(rows0, fs, f);
      rows := rows0;
    }
  }

  // ----- The whole tally -----

  ghost predicate Describes(t: Tally, es: seq<Entry>) {
    var fs := FilesOf(es);
    && TotalsOf(t.totals, es) && PlatformsOf(t.platforms, fs) && LinksOf(t.links, es)
    && ChangesOf(t.changes, fs) && DisksOf(t.disks, fs)
  }

  /** What the loop does with one entry. */
  method Consider(t0: Tally, e: Entry, ghost es: seq<Entry>) returns (t: Tally)
    requires Describes(t0, es)
    ensures Describes(t, es + [e])
  {
    ghost var fs := FilesOf(es);
    FilesAfter(es, e);
    var totals := CountTotals(t0.totals, e, es);
    var links := CountLink(t0.links, e, es);
    t := t0.(totals := totals, links := links);
    if IsFile(e) {
      var platforms := CountPlatform(t.platforms, e.file, fs);
      var changes := RecordChanges(t.changes, e.file, fs);
      var disks := CountDisk(t.disks, e.file, fs);
      t := t.(platforms := platforms, changes := changes, disks := disks);
    } else {
      assert fs + [] == fs;
    }
  }
}
