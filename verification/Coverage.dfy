/** Selection and routing of the archives a cheat-coverage audit looks at. */
module Coverage {
  import opened Wrappers
  import opened Text

  /** A catalogued archive with the identity facts inspection verified for it. */
  datatype Archive = Archive(id: int, title: string, platform: Option<string>, facts: Facts)

  datatype Facts = Facts(dolphinGameId: Option<string>, ps2Serial: Option<string>, pcsx2Crc: Option<string>,
                         romSha256: Option<string>)

  datatype Game = Game(archiveId: int, title: string, platform: string, identityKind: Option<string>,
                       verifiedIdentity: Option<string>)

  datatype CoverageError = NotInCatalogue(id: int) | OutsideAudit(id: int, platform: string)

  // ----- Selection -----

  function Find(archives: seq<Archive>, id: int): (a: Option<Archive>)
    ensures a.Some? ==> a.value in archives && a.value.id == id
    ensures a.None? ==> forall x :: x in archives ==> x.id != id
  {
    if archives == [] then None
    else if archives[0].id == id then Some(archives[0])
    else Find(archives[1..], id)
  }

  /** It is the first with that id. */
  lemma {:induction false} FoundFirst(archives: seq<Archive>, id: int) returns (k: nat)
    requires Find(archives, id).Some?
    ensures k < |archives| && Find(archives, id) == Some(archives[k]) && archives[k].id == id
    ensures forall j :: 0 <= j < k ==> archives[j].id != id
  {
    k := 0;
    if archives[0].id != id {
      var i := FoundFirst(archives[1..], id);
      k := i + 1;
    }
  }

  /** The ids in request order, each at its first occurrence. */
  function Distinct(ids: seq<int>): seq<int> {
    if ids == [] then []
    else
      var n := |ids| - 1;
      Distinct(ids[..n]) + if ids[n] in ids[..n] then [] else [ids[n]]
  }

  /** The same ids, none of them twice. */
  lemma {:induction false} DistinctIds(ids: seq<int>)
    ensures forall x :: x in Distinct(ids) <==> x in ids
    ensures forall i, j :: 0 <= i < j < |Distinct(ids)| ==> Distinct(ids)[i] != Distinct(ids)[j]
  {
    if ids != [] {
      var n := |ids| - 1;
      DistinctIds(ids[..n]);
      assert ids == ids[..n] + [ids[n]];
    }
  }

  ghost predicate Selects(archives: seq<Archive>, ids: seq<int>, selected: seq<Archive>) {
    var d := Distinct(ids);
    |selected| == |d| && forall k :: 0 <= k < |d| ==> Find(archives, d[k]) == Some(selected[k])
  }

  /** The first pass: every id must be catalogued, and repeats are skipped. */
  method Select(archives: seq<Archive>, ids: seq<int>) returns (r: Result<seq<Archive>, CoverageError>)
    ensures r.Ok? ==> Selects(archives, ids, r.value)
    ensures r.Err? ==> Missing(archives, ids, r.error)
  {
    var selected: seq<Archive> := [];
    for i := 0 to |ids|
      invariant Selects(archives, ids[..i], selected)
      invariant AllFound(archives, ids, i)
    {
      var archive := Find(archives, ids[i]);
      if archive == None {
        FirstMissing(archives, ids, i);
        return Err(NotInCatalogue(ids[i]));
      }
      selected := SelectOne(archives, ids, i, selected, archive.value);
    }
    assert ids[..|ids|] == ids;
    return Ok(selected);
  }

  /** One step of the pass: an archive already selected is not selected again. */
  method SelectOne(archives: seq<Archive>, ids: seq<int>, i: nat, selected: seq<Archive>, archive: Archive)
    returns (selected': seq<Archive>)
    requires i < |ids| && Selects(archives, ids[..i], selected) && Find(archives, ids[i]) == Some(archive)
    ensures Selects(archives, ids[..i + 1], selected')
  {
    var chosen := ContainsId(selected, ids[i]);
    SelectsNext(archives, ids, i, selected, archive, chosen);
    selected' := if chosen then selected else selected + [archive];
  }

  /** The first `n` ids are catalogued. */
  ghost predicate AllFound(archives: seq<Archive>, ids: seq<int>, n: nat)
    requires n <= |ids|
  {
    forall j :: 0 <= j < n ==> Find(archives, ids[j]).Some?
  }

  /** Id `k` is the first that is not catalogued. */
  ghost predicate MissingAt(archives: seq<Archive>, ids: seq<int>, k: nat, e: CoverageError) {
    k < |ids| && Find(archives, ids[k]) == None && e == NotInCatalogue(ids[k]) && AllFound(archives, ids, k)
  }

  ghost predicate Missing(archives: seq<Archive>, ids: seq<int>, e: CoverageError) {
    exists k: nat :: MissingAt(archives, ids, k, e)
  }

  lemma FirstMissing(archives: seq<Archive>, ids: seq<int>, k: nat)
    requires k < |ids| && Find(archives, ids[k]) == None
    requires AllFound(archives, ids, k)
    ensures Missing(archives, ids, NotInCatalogue(ids[k]))
  {
    assert MissingAt(archives, ids, k, NotInCatalogue(ids[k]));
  }

  method ContainsId(selected: seq<Archive>, id: int) returns (found: bool)
    ensures found <==> exists k :: 0 <= k < |selected| && selected[k].id == id
  {
    for i := 0 to |selected|
      invariant forall k :: 0 <= k < i ==> selected[k].id != id
    {
      if selected[i].id == id { return true; }
    }
    return false;
  }

  lemma DistinctAfter(ids: seq<int>, i: nat)
    requires i < |ids|
    ensures Distinct(ids[..i + 1]) == Distinct(ids[..i]) + if ids[i] in ids[..i] then [] else [ids[i]]
  {
    assert ids[..i + 1][..i] == ids[..i];
  }

  lemma SelectedIds(archives: seq<Archive>, ids: seq<int>, selected: seq<Archive>, id: int)
    requires Selects(archives, ids, selected)
    ensures id in ids <==> exists k :: 0 <= k < |selected| && selected[k].id == id
  {
    var d := Distinct(ids);
    DistinctIds(ids);
    if id in ids {
      var k :| 0 <= k < |d| && d[k] == id;
      assert selected[k].id == id;
    }
    forall k | 0 <= k < |selected| ensures selected[k].id in ids {
      assert selected[k].id == d[k] && d[k] in d;
    }
  }

  lemma SelectsNext(archives: seq<Archive>, ids: seq<int>, i: nat, selected: seq<Archive>, a: Archive, chosen: bool)
    requires i < |ids| && Selects(archives, ids[..i], selected) && Find(archives, ids[i]) == Some(a)
    requires chosen <==> exists k :: 0 <= k < |selected| && selected[k].id == ids[i]
    ensures Selects(archives, ids[..i + 1], if chosen then selected else selected + [a])
  {
    DistinctAfter(ids, i);
    SelectedIds(archives, ids[..i], selected, ids[i]);
  }

  function Ids(ids: seq<int>): set<int> {
    set x | x in ids
  }

  lemma IdsSnoc(ids: seq<int>, id: int)
    ensures Ids(ids + [id]) == Ids(ids) + {id}
    ensures |Ids(ids + [id])| == |Ids(ids)| + if id in ids then 0 else 1
  {
    assert Ids(ids + [id]) == Ids(ids) + {id};
    if id in ids { assert Ids(ids) + {id} == Ids(ids); }
  }

  lemma DistinctLast(ids: seq<int>)
    requires ids != []
    ensures |Distinct(ids)| == |Distinct(ids[..|ids| - 1])| + if ids[|ids| - 1] in ids[..|ids| - 1] then 0 else 1
  {
  }

  /** As many distinct ids as there are different ids. */
  lemma {:induction false} DistinctCount(ids: seq<int>)
    ensures |Distinct(ids)| == |Ids(ids)|
  {
    if ids == [] {
      assert Ids(ids) == {};
    } else {
      var n := |ids| - 1;
      DistinctCount(ids[..n]);
      IdsSnoc(ids[..n], ids[n]);
      DistinctLast(ids);
      assert ids == ids[..n] + [ids[n]];
    }
  }

  // ----- Routing -----

  function PlatformOf(a: Archive): string {
    if a.platform.Some? then a.platform.value else "Unknown"
  }

  datatype Lane = Dolphin | RetroArch | Outside

  function LaneOf(a: Archive): Lane {
    var p := PlatformOf(a);
    if EqIgnoreAsciiCase(p, "GameCube") || EqIgnoreAsciiCase(p, "Wii") then Dolphin
    else if EqIgnoreAsciiCase(p, "PlayStation 2") || EqIgnoreAsciiCase(p, "Xbox 360") then Outside
    else RetroArch
  }

  /** Dolphin has the GameCube and the Wii, the PlayStation 2 and the Xbox 360 are outside, and all others
      are RetroArch's, also archives without a platform. */
  lemma LanesExactly(a: Archive)
    ensures a.platform.None? ==> LaneOf(a) == RetroArch
    ensures LaneOf(a) == Dolphin <==>
              a.platform.Some? && (EqIgnoreAsciiCase(a.platform.value, "GameCube")
                                   || EqIgnoreAsciiCase(a.platform.value, "Wii"))
    ensures LaneOf(a) == Outside <==>
              && LaneOf(a) != Dolphin && a.platform.Some?
              && (EqIgnoreAsciiCase(a.platform.value, "PlayStation 2")
                  || EqIgnoreAsciiCase(a.platform.value, "Xbox 360"))
  {
    if a.platform.None? {
      DifferentLength("Unknown", "GameCube");
      DifferentLength("Unknown", "Wii");
      DifferentLength("Unknown", "PlayStation 2");
      DifferentLength("Unknown", "Xbox 360");
    }
  }

  lemma DifferentLength(a: string, b: string)
    requires |a| != |b|
    ensures !EqIgnoreAsciiCase(a, b)
  {
  }

  /** The verified identity of a game: for Dolphin its game id, otherwise the CRC, or else the digest, or
      else the serial, each named for what it is. */
  lemma GamesIdentified(a: Archive)
    ensures var d, r, f := DolphinGame(a), RetroArchGame(a), a.facts;
            && d.archiveId == r.archiveId == a.id && d.title == r.title == a.title
            && d.platform == r.platform == (if a.platform.Some? then a.platform.value else "Unknown")
            && d.verifiedIdentity == f.dolphinGameId
            && (if f.dolphinGameId.Some? then d.identityKind == Some("dolphin_game_id") else d.identityKind.None?)
            && (f.pcsx2Crc.Some? ==> r.identityKind == Some("content_crc") && r.verifiedIdentity == f.pcsx2Crc)
            && (f.pcsx2Crc.None? && f.romSha256.Some? ==>
                  r.identityKind == Some("content_sha256") && r.verifiedIdentity == f.romSha256)
            && (f.pcsx2Crc.None? && f.romSha256.None? && f.ps2Serial.Some? ==>
                  r.identityKind == Some("serial") && r.verifiedIdentity == f.ps2Serial)
            && (f.pcsx2Crc.None? && f.romSha256.None? && f.ps2Serial.None? ==>
                  r.identityKind.None? && r.verifiedIdentity.None?)
  {
  }

  const LANE: Archive -> Lane := a => LaneOf(a)

  function DolphinGame(a: Archive): Game {
    Game(a.id, a.title, PlatformOf(a), if a.facts.dolphinGameId.Some? then Some("dolphin_game_id") else None,
         a.facts.dolphinGameId)
  }

  function RetroArchGame(a: Archive): Game {
    var hash := if a.facts.pcsx2Crc.Some? then a.facts.pcsx2Crc else a.facts.romSha256;
    if hash.Some? then
      Game(a.id, a.title, PlatformOf(a), Some(if a.facts.pcsx2Crc.Some? then "content_crc" else "content_sha256"), hash)
    else if a.facts.ps2Serial.Some? then Game(a.id, a.title, PlatformOf(a), Some("serial"), a.facts.ps2Serial)
    else Game(a.id, a.title, PlatformOf(a), None, None)
  }

  function DolphinGames(s: seq<Archive>, lane: Archive -> Lane): seq<Game> {
    if s == [] then []
    else
      var last := s[|s| - 1];
      DolphinGames(s[..|s| - 1], lane) + if lane(last) == Dolphin then [DolphinGame(last)] else []
  }

  function RetroArchGames(s: seq<Archive>, lane: Archive -> Lane): seq<Game> {
    if s == [] then []
    else
      var last := s[|s| - 1];
      RetroArchGames(s[..|s| - 1], lane) + if lane(last) == RetroArch then [RetroArchGame(last)] else []
  }

  /** Archive `k` is the first outside the audit. */
  ghost predicate OutsideAt(selected: seq<Archive>, lane: Archive -> Lane, k: nat, e: CoverageError) {
    && k < |selected| && lane(selected[k]) == Outside
    && e == OutsideAudit(selected[k].id, PlatformOf(selected[k]))
    && forall j :: 0 <= j < k ==> lane(selected[j]) != Outside
  }

  ghost predicate AllInside(selected: seq<Archive>, lane: Archive -> Lane) {
    forall k :: 0 <= k < |selected| ==> lane(selected[k]) != Outside
  }

  /** The second pass: two lists, or the first archive outside the audit. */
  method Route(selected: seq<Archive>, lane: Archive -> Lane)
    returns (r: Result<(seq<Game>, seq<Game>), CoverageError>)
    ensures r.Ok? <==> AllInside(selected, lane)
    ensures r.Ok? ==> r.value == (DolphinGames(selected, lane), RetroArchGames(selected, lane))
    ensures r.Err? ==> exists k: nat :: OutsideAt(selected, lane, k, r.error)
  {
    var dolphin, retroarch := [], [];
    for i := 0 to |selected|
      invariant forall k :: 0 <= k < i ==> lane(selected[k]) != Outside
      invariant dolphin == DolphinGames(selected[..i], lane)
      invariant retroarch == RetroArchGames(selected[..i], lane)
    {
      assert selected[..i + 1][..i] == selected[..i];
      var a := selected[i];
      match lane(a) {
        case Dolphin => dolphin := dolphin + [DolphinGame(a)];
        case Outside =>
          assert OutsideAt(selected, lane, i, OutsideAudit(a.id, PlatformOf(a)));
          return Err(OutsideAudit(a.id, PlatformOf(a)));
        case RetroArch => retroarch := retroarch + [RetroArchGame(a)];
      }
    }
    assert selected[..|selected|] == selected;
    return Ok((dolphin, retroarch));
  }

  /** What an audit works on: the archives of the distinct ids, split by lane. */
  ghost predicate Covers(archives: seq<Archive>, ids: seq<int>, selected: seq<Archive>, r: (seq<Game>, seq<Game>)) {
    && Selects(archives, ids, selected) && AllInside(selected, LANE)
    && r == (DolphinGames(selected, LANE), RetroArchGames(selected, LANE))
  }

  method RunCoverage(archives: seq<Archive>, ids: seq<int>) returns (r: Result<(seq<Game>, seq<Game>), CoverageError>)
    ensures r.Ok? ==> exists selected :: Covers(archives, ids, selected, r.value)
    ensures r.Ok? ==> |r.value.0| + |r.value.1| == |Ids(ids)|
    ensures (forall id :: id in ids ==> Find(archives, id).Some?) <==> r.Ok? || r.error.OutsideAudit?
    ensures r.Err? && r.error.NotInCatalogue? ==> Missing(archives, ids, r.error)
  {
    var selection := Select(archives, ids);
    if selection.Err? {
      ghost var k: nat :| MissingAt(archives, ids, k, selection.error);
      assert ids[k] in ids;
      return Err(selection.error);
    }
    EveryIdFound(archives, ids, selection.value);
    r := Route(selection.value, LANE);
    if r.Ok? {
      assert Covers(archives, ids, selection.value, r.value);
      ListsPartition(selection.value, LANE);
      DistinctCount(ids);
    }
  }

  lemma EveryIdFound(archives: seq<Archive>, ids: seq<int>, selected: seq<Archive>)
    requires Selects(archives, ids, selected)
    ensures forall id :: id in ids ==> Find(archives, id).Some?
  {
    DistinctIds(ids);
    forall id | id in ids ensures Find(archives, id).Some? {
      var d := Distinct(ids);
      var k :| 0 <= k < |d| && d[k] == id;
    }
  }

  /** Taking the lists apart in step with the selection uses both up: each keeps the selection's
      order, and together they hold each selected archive once, in its lane. */
  ghost predicate Interleaves(selected: seq<Archive>, lane: Archive -> Lane, dolphin: seq<Game>, retroarch: seq<Game>) {
    if selected == [] then dolphin == [] && retroarch == []
    else
      var n := |selected| - 1;
      if lane(selected[n]) == Dolphin then
        && dolphin != [] && dolphin[|dolphin| - 1].archiveId == selected[n].id
        && Interleaves(selected[..n], lane, dolphin[..|dolphin| - 1], retroarch)
      else
        && retroarch != [] && retroarch[|retroarch| - 1].archiveId == selected[n].id
        && Interleaves(selected[..n], lane, dolphin, retroarch[..|retroarch| - 1])
  }

  lemma {:induction false} SizesAddUp(selected: seq<Archive>, lane: Archive -> Lane)
    requires AllInside(selected, lane)
    ensures |DolphinGames(selected, lane)| + |RetroArchGames(selected, lane)| == |selected|
  {
    if selected != [] { SizesAddUp(selected[..|selected| - 1], lane); }
  }

  lemma {:induction false} ListsPartition(selected: seq<Archive>, lane: Archive -> Lane)
    requires AllInside(selected, lane)
    ensures Interleaves(selected, lane, DolphinGames(selected, lane), RetroArchGames(selected, lane))
    ensures |DolphinGames(selected, lane)| + |RetroArchGames(selected, lane)| == |selected|
  {
    SizesAddUp(selected, lane);
    if selected != [] {
      var n := |selected| - 1;
      ListsPartition(selected[..n], lane);
      var d, r := DolphinGames(selected[..n], lane), RetroArchGames(selected[..n], lane);
      if lane(selected[n]) == Dolphin {
        assert RetroArchGames(selected, lane) == r && DolphinGames(selected, lane)[..|d|] == d;
      } else {
        assert DolphinGames(selected, lane) == d && RetroArchGames(selected, lane)[..|r|] == r;
      }
    }
  }
}
