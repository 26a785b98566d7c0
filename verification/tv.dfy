/** cmd/tv.go: the `tv` workflow. A season-disc argument, a show directory
    that falls back to `Unknown/<CamelCase>`, a `Season NN` directory, a rip of
    every title, the removal of files outside the episode length band, and a
    season-qualified rename that never fails. */
module Tv {
  import opened Wrappers
  import opened External
  import opened Text
  import opened Paths
  import Dvd
  import Root

  // ---------------------------------------------------------------------------
  // season-disc
  // ---------------------------------------------------------------------------

  /** `strings.Split(seasonDisc, "-")` must give exactly two parts, the season
      and the disc; nothing checks that they are numbers, so "1-" passes. */
  function ParseSeasonDisc(s: string): (r: Option<(string, string)>)
    ensures r.Some? ==> s == r.value.0 + "-" + r.value.1 && '-' !in r.value.0 && '-' !in r.value.1
  {
    var parts := Split(s, '-');
    if |parts| != 2 then None
    else
      assert JoinSep(parts, '-') == parts[0] + "-" + parts[1];
      Some((parts[0], parts[1]))
  }

  /** The other direction: text with exactly one "-" is accepted, split at it. */
  lemma ParseSeasonDiscOf(season: string, disc: string)
    requires '-' !in season && '-' !in disc
    ensures ParseSeasonDisc(season + "-" + disc) == Some((season, disc))
  {
    assert JoinSep([season, disc], '-') == season + "-" + disc;
    SplitJoinSep([season, disc], '-');
  }

  // ---------------------------------------------------------------------------
  // Output directory
  // ---------------------------------------------------------------------------

  /** The FileBot format of the show lookup. */
  const ShowFormat := "{genre.toCamelCase()}/{n} ({y}) {tmdb-$id}"

  const UnknownGenre := "Unknown"

  /** The show directory: the lookup result verbatim, or `Unknown/` and the
      CamelCase query when the lookup found nothing. */
  function ShowPath(query: string, metadata: string): (r: string)
    ensures metadata != "" ==> r == metadata
    ensures metadata == "" ==> r == UnknownGenre + "/" + Dvd.ToCamelCase(query)
  {
    if metadata == "" then UnknownGenre + "/" + Dvd.ToCamelCase(query) else metadata
  }

  /** `fmt.Sprintf("%02s", s)`: zeros on the left up to a width of two
      characters; a longer string is left as it is. */
  function ZeroPad2(s: string): (r: string)
    ensures |r| == if |s| >= 2 then |s| else 2
    ensures HasSuffix(r, s)
    ensures forall k :: 0 <= k < |r| - |s| ==> r[k] == '0'
  {
    if |s| >= 2 then s else seq(2 - |s|, _ => '0') + s
  }

  /** A season number from 1 to 99, written in decimal, becomes exactly two
      digits that still read as the same number. */
  lemma SeasonNumberPadded(n: nat)
    requires 1 <= n <= 99
    ensures var p := ZeroPad2(Decimal(n));
            |p| == 2 && AllDigits(p) && ParseDecimal(p) == n
  {
    var d := Decimal(n);
    var p := ZeroPad2(d);
    if n < 10 {
      assert |d| == 1;
      assert p == "0" + d;
      assert p[..1] == "0";
    } else {
      assert |Decimal(n / 10)| == 1;
      assert |d| == 2;
    }
  }

  const SeasonPrefix := "Season "

  /** `"Season " + fmt.Sprintf("%02s", season)`. */
  function SeasonDir(season: string): (r: string)
    ensures HasPrefix(r, SeasonPrefix) && r[|SeasonPrefix|..] == ZeroPad2(season)
  {
    SeasonPrefix + ZeroPad2(season)
  }

  lemma SeasonDirOfOne()
    ensures SeasonDir("1") == "Season 01"
  {
    assert ZeroPad2("1") == "01";
  }

  /** The season directory is a plain name when the season has no "/". */
  lemma SeasonDirIsName(season: string)
    requires '/' !in season
    ensures IsName(SeasonDir(season))
  {
    var z := ZeroPad2(season);
    PaddingKeepsOut('/', season);
    assert '/' !in SeasonPrefix;
    var r := SeasonPrefix + z;
    assert r[0] == 'S';
    assert '/' !in r;
  }

  /** Padding adds only zeros. */
  lemma PaddingKeepsOut(c: char, s: string)
    requires c != '0' && c !in s
    ensures c !in ZeroPad2(s)
  {
    if |s| < 2 {
      var zeros := seq(2 - |s|, _ => '0');
      assert c !in zeros;
      assert ZeroPad2(s) == zeros + s;
    }
  }

  /** `filepath.Join(StoragePath, showPath, "Season NN")`. */
  function OutDir(storage: string, showPath: string, season: string): string
  {
    Join([storage, showPath, SeasonDir(season)])
  }

  /** For a clean storage root and a clean show directory the output
      directory is their plain concatenation with the season directory. */
  lemma OutDirShape(storage: string, showPath: string, season: string)
    requires IsCleanAbs(storage) && IsCleanRel(showPath) && '/' !in season
    ensures OutDir(storage, showPath, season) == storage + "/" + showPath + "/" + SeasonDir(season)
    ensures IsCleanAbs(OutDir(storage, showPath, season))
  {
    SeasonDirIsName(season);
    NameIsCleanRel(SeasonDir(season));
    JoinAbsRelRel(storage, showPath, SeasonDir(season));
  }

  /** With no lookup result the show lands under `Unknown/<CamelCase>`. */
  lemma FallbackOutDir(storage: string, query: string, season: string)
    requires IsCleanAbs(storage) && Dvd.ToCamelCase(query) != "" && '/' !in season
    ensures OutDir(storage, ShowPath(query, ""), season)
            == storage + "/" + UnknownGenre + "/" + Dvd.ToCamelCase(query) + "/" + SeasonDir(season)
  {
    Dvd.CamelIsName(query);
    UnknownOutDir(storage, Dvd.ToCamelCase(query), season);
  }

  lemma UnknownOutDir(storage: string, name: string, season: string)
    requires IsCleanAbs(storage) && IsName(name) && '/' !in season
    ensures OutDir(storage, UnknownGenre + "/" + name, season)
            == storage + "/" + UnknownGenre + "/" + name + "/" + SeasonDir(season)
  {
    UnknownShowIsClean(name);
    OutDirShape(storage, UnknownGenre + "/" + name, season);
    SlashAssoc(storage, UnknownGenre, name, SeasonDir(season));
  }

  lemma SlashAssoc(a: string, b: string, c: string, d: string)
    ensures a + "/" + (b + "/" + c) + "/" + d == a + "/" + b + "/" + c + "/" + d
  {
  }

  lemma UnknownShowIsClean(name: string)
    requires IsName(name)
    ensures IsCleanRel(UnknownGenre + "/" + name)
  {
    assert JoinSep([UnknownGenre, name], '/') == UnknownGenre + "/" + name;
    NamesAreCleanRel([UnknownGenre, name]);
  }

  // ---------------------------------------------------------------------------
  // cleanupPlayAll
  // ---------------------------------------------------------------------------

  const MinEpisodeSeconds := 600
  const MaxEpisodeSeconds := 3900

  /** What `ffprobe` reports for one file: the command failed, or its output
      read as a number of seconds, truncated towards zero (None: output that
      `strconv.ParseFloat` rejects, which reads as 0). */
  datatype Probe = ProbeFailed | ProbeOutput(seconds: Option<int>)

  datatype ProbedFile = ProbedFile(path: string, probe: Probe)

  function ProbeSeconds(p: Probe): int
    requires p.ProbeOutput?
  {
    match p.seconds
    case None => 0
    case Some(n) => n
  }

  datatype Verdict = TooShort | TooLong | Episode

  /** The two comparisons of the loop body, in their order. */
  function Judge(d: int): (v: Verdict)
    ensures v == Episode <==> MinEpisodeSeconds <= d <= MaxEpisodeSeconds
    ensures v == TooShort <==> d < MinEpisodeSeconds
  {
    if d < MinEpisodeSeconds then TooShort
    else if d > MaxEpisodeSeconds then TooLong
    else Episode
  }

  /** A file is removed when its probe ran and its length is outside the band;
      a file whose probe failed is left alone. */
  predicate Discarded(p: Probe) {
    p.ProbeOutput? && Judge(ProbeSeconds(p)) != Episode
  }

  /** The files `cleanupPlayAll` removes, in the order of the listing. With
      no `ffprobe` on the path, none. */
  function Removed(ffprobe: bool, files: seq<ProbedFile>): (rs: seq<string>)
    ensures !ffprobe ==> rs == []
    ensures |rs| <= |files|
    ensures forall k :: 0 <= k < |files| && ffprobe && Discarded(files[k].probe) ==> files[k].path in rs
    ensures forall i :: 0 <= i < |rs| ==> NamesDiscarded(files, rs[i])
  {
    if !ffprobe || |files| == 0 then []
    else
      var rest := Removed(ffprobe, files[1..]);
      var rs := if Discarded(files[0].probe) then [files[0].path] + rest else rest;
      assert forall k :: 1 <= k < |files| ==> files[k] == files[1..][k - 1];
      RemovedFrom(files, files[1..], rest, rs);
      rs
  }

  /** `p` is the path of a file of `files` whose probe says it is discarded. */
  predicate NamesDiscarded(files: seq<ProbedFile>, p: string) {
    exists k :: 0 <= k < |files| && files[k].path == p && Discarded(files[k].probe)
  }

  /** Every path removed from the tail, and the head when it is discarded,
      names a discarded file of the whole listing. */
  lemma RemovedFrom(files: seq<ProbedFile>, tail: seq<ProbedFile>, rest: seq<string>, rs: seq<string>)
    requires |files| > 0 && tail == files[1..]
    requires forall i :: 0 <= i < |rest| ==> NamesDiscarded(tail, rest[i])
    requires rs == if Discarded(files[0].probe) then [files[0].path] + rest else rest
    ensures forall i :: 0 <= i < |rs| ==> NamesDiscarded(files, rs[i])
  {
    forall i | 0 <= i < |rs|
      ensures NamesDiscarded(files, rs[i])
    {
      if Discarded(files[0].probe) && i == 0 {
        assert files[0].path == rs[i];
      } else {
        var j := if Discarded(files[0].probe) then i - 1 else i;
        assert rs[i] == rest[j];
        assert NamesDiscarded(tail, rest[j]);
        var k :| 0 <= k < |tail| && tail[k].path == rest[j] && Discarded(tail[k].probe);
        assert files[k + 1] == tail[k];
      }
    }
  }

  /** The files that stay, in the order of the listing. */
  function Survivors(ffprobe: bool, files: seq<ProbedFile>): seq<string>
  {
    if |files| == 0 then []
    else if ffprobe && Discarded(files[0].probe) then Survivors(ffprobe, files[1..])
    else [files[0].path] + Survivors(ffprobe, files[1..])
  }

  function FilePaths(files: seq<ProbedFile>): seq<string>
  {
    seq(|files|, k requires 0 <= k < |files| => files[k].path)
  }

  /** Every listed file is either removed or kept, never both. */
  lemma {:induction false} CleanupPartition(ffprobe: bool, files: seq<ProbedFile>)
    ensures multiset(Removed(ffprobe, files)) + multiset(Survivors(ffprobe, files)) == multiset(FilePaths(files))
    decreases |files|
  {
    if |files| > 0 {
      var tail := files[1..];
      CleanupPartition(ffprobe, tail);
      var x := files[0].path;
      assert FilePaths(files) == [x] + FilePaths(tail);
      if ffprobe && Discarded(files[0].probe) {
        assert Removed(ffprobe, files) == [x] + Removed(ffprobe, tail);
        assert Survivors(ffprobe, files) == Survivors(ffprobe, tail);
      } else {
        assert Removed(ffprobe, files) == Removed(ffprobe, tail);
        assert Survivors(ffprobe, files) == [x] + Survivors(ffprobe, tail);
      }
      OneMore(x, Removed(ffprobe, tail), Survivors(ffprobe, tail), FilePaths(tail),
              Removed(ffprobe, files), Survivors(ffprobe, files), FilePaths(files));
    }
  }

  lemma OneMore(x: string, r: seq<string>, s: seq<string>, p: seq<string>,
                r': seq<string>, s': seq<string>, p': seq<string>)
    requires multiset(r) + multiset(s) == multiset(p) && p' == [x] + p
    requires (r' == [x] + r && s' == s) || (r' == r && s' == [x] + s)
    ensures multiset(r') + multiset(s') == multiset(p')
  {
  }

  /** A file stays when its probe failed, its length is inside the band, or
      `ffprobe` is absent. */
  lemma {:induction false} SurvivorsKept(ffprobe: bool, files: seq<ProbedFile>)
    ensures forall k :: 0 <= k < |files| && !(ffprobe && Discarded(files[k].probe)) ==>
              files[k].path in Survivors(ffprobe, files)
    decreases |files|
  {
    if |files| > 0 {
      SurvivorsKept(ffprobe, files[1..]);
      forall k | 1 <= k < |files| ensures files[k] == files[1..][k - 1] { }
    }
  }

  /** One `os.Remove` for each removed file. */
  function RemoveCommands(paths: seq<string>): (cs: seq<Command>)
    ensures |cs| == |paths|
    ensures forall k :: 0 <= k < |cs| ==> cs[k] == Remove(paths[k])
  {
    seq(|paths|, k requires 0 <= k < |paths| => Remove(paths[k]))
  }

  // ---------------------------------------------------------------------------
  // renameWithFileBot
  // ---------------------------------------------------------------------------

  const TvDatabase := "TheTVDB"

  /** The season-qualified FileBot format; the disc number plays no part. */
  function RenameFormat(season: string): (f: string)
    ensures HasPrefix(f, "{n} - S") && HasSuffix(f, "E{e} - {t}")
    ensures |f| == |season| + 17 && f[7..7 + |season|] == season
  {
    "{n} - S" + season + "E{e} - {t}"
  }

  /** The season can be read back from the format. */
  lemma RenameFormatInjective(s1: string, s2: string)
    requires RenameFormat(s1) == RenameFormat(s2)
    ensures s1 == s2
  {
    var f := RenameFormat(s1);
    assert f[7..7 + |s1|] == s1;
  }

  /** `renameWithFileBot`: the FileBot command it issues and the error it
      returns, which is nil whatever FileBot answers. */
  function RenameWithFileBot(season: string, disc: string, outDir: string, answer: ToolResult): (r: (Command, Option<string>))
    ensures r.0 == FileBotRename(outDir, TvDatabase, RenameFormat(season))
    ensures r.1 == None
  {
    (FileBotRename(outDir, TvDatabase, RenameFormat(season)), None)
  }

  // ---------------------------------------------------------------------------
  // tvrip
  // ---------------------------------------------------------------------------

  /** The answers of the outside world during one run: whether the storage
      path verifies, FileBot's lookup, whether the output directory could be
      created, whether the rip succeeded, whether `ffprobe` is on the path,
      and the ripped files with their probes. */
  datatype TvWorld = TvWorld(storageOk: bool, lookup: ToolResult, mkdirOk: bool, ripOk: bool,
                             ffprobe: bool, files: seq<ProbedFile>)

  /** The fatal errors, in the order they are checked. */
  datatype TvError = BadSeasonDisc | StorageInvalid | MkdirFailed | RipFailed

  datatype TvRun = TvRun(commands: seq<Command>, result: Result<string, TvError>)

  /** The checks up to the rip: the lookup and the directory creation, or
      the error that stopped the run. The rip itself is not yet issued. */
  function TvPrepare(storage: string, query: string, seasonDisc: string, w: TvWorld): (r: TvRun)
    ensures r.result == Err(BadSeasonDisc) <==> ParseSeasonDisc(seasonDisc).None?
    ensures r.result.Ok? <==> ParseSeasonDisc(seasonDisc).Some? && w.storageOk && w.mkdirOk
    // nothing runs before a fatal argument or storage-path error
    ensures r.result == Err(BadSeasonDisc) ==> r.commands == []
    ensures r.result == Err(StorageInvalid) <==> ParseSeasonDisc(seasonDisc).Some? && !w.storageOk
    ensures r.result == Err(StorageInvalid) ==> r.commands == []
    // a failed mkdir comes after the lookup and the mkdir itself
    ensures r.result == Err(MkdirFailed) <==> ParseSeasonDisc(seasonDisc).Some? && w.storageOk && !w.mkdirOk
    ensures r.result == Err(MkdirFailed) ==>
              r.commands == [FileBotList(query, ShowFormat), MkdirAll(OutDir(storage, ShowPath(query, Dvd.FetchMetadata(w.lookup)), ParseSeasonDisc(seasonDisc).value.0))]
    ensures r.result.Ok? ==>
              && r.commands == [FileBotList(query, ShowFormat), MkdirAll(r.result.value)]
              && r.result.value == OutDir(storage, ShowPath(query, Dvd.FetchMetadata(w.lookup)), ParseSeasonDisc(seasonDisc).value.0)
    ensures r.result.Err? ==> |r.commands| <= 2
    ensures Dvd.Quiet(r.commands)
  {
    TvPrepareInto(storage, query, seasonDisc, w, ShowPath(query, Dvd.FetchMetadata(w.lookup)))
  }

  /** The checks up to the rip once the show's directory name `show` is
      known. */
  function TvPrepareInto(storage: string, query: string, seasonDisc: string, w: TvWorld, show: string): (r: TvRun)
    ensures r.result == Err(BadSeasonDisc) <==> ParseSeasonDisc(seasonDisc).None?
    ensures r.result.Ok? <==> ParseSeasonDisc(seasonDisc).Some? && w.storageOk && w.mkdirOk
    // nothing runs before a fatal argument or storage-path error
    ensures r.result == Err(BadSeasonDisc) ==> r.commands == []
    ensures r.result == Err(StorageInvalid) <==> ParseSeasonDisc(seasonDisc).Some? && !w.storageOk
    ensures r.result == Err(StorageInvalid) ==> r.commands == []
    // a failed mkdir comes after the lookup and the mkdir itself
    ensures r.result == Err(MkdirFailed) <==> ParseSeasonDisc(seasonDisc).Some? && w.storageOk && !w.mkdirOk
    ensures r.result == Err(MkdirFailed) ==>
              r.commands == [FileBotList(query, ShowFormat), MkdirAll(OutDir(storage, show, ParseSeasonDisc(seasonDisc).value.0))]
    ensures r.result.Ok? ==>
              && r.commands == [FileBotList(query, ShowFormat), MkdirAll(r.result.value)]
              && r.result.value == OutDir(storage, show, ParseSeasonDisc(seasonDisc).value.0)
    ensures r.result.Err? ==> |r.commands| <= 2
    ensures Dvd.Quiet(r.commands)
  {
    match ParseSeasonDisc(seasonDisc)
    case None => TvRun([], Err(BadSeasonDisc))
    case Some((season, _)) =>
      if !w.storageOk then TvRun([], Err(StorageInvalid))
      else MakeOutDir(query, OutDir(storage, show, season), w.mkdirOk)
  }

  /** The lookup and the creation of the output directory. */
  function MakeOutDir(query: string, outDir: string, mkdirOk: bool): (r: TvRun)
    ensures r.commands == [FileBotList(query, ShowFormat), MkdirAll(outDir)] && Dvd.Quiet(r.commands)
    ensures r.result.Ok? <==> mkdirOk
    ensures r.result.Ok? ==> r.result.value == outDir
    ensures r.result.Err? ==> r.result.error == MkdirFailed
  {
    TvRun([FileBotList(query, ShowFormat), MkdirAll(outDir)], if mkdirOk then Ok(outDir) else Err(MkdirFailed))
  }

  /** `tvrip(query, seasonDisc)` with the storage path of the configuration
      and `formatDrive` standing for `formatDriveForMakeMKV`. */
  function TvRip(storage: string, device: string, query: string, seasonDisc: string,
                 formatDrive: string -> string, w: TvWorld): (r: TvRun)
    ensures r.result == Err(BadSeasonDisc) <==> ParseSeasonDisc(seasonDisc).None?
    ensures r.result == Err(BadSeasonDisc) ==> r.commands == []
    ensures r.result == Err(StorageInvalid) <==> ParseSeasonDisc(seasonDisc).Some? && !w.storageOk
    ensures r.result == Err(StorageInvalid) ==> r.commands == []
    ensures r.result == Err(MkdirFailed) <==> ParseSeasonDisc(seasonDisc).Some? && w.storageOk && !w.mkdirOk
    ensures r.result == Err(MkdirFailed) ==>
              r.commands == [FileBotList(query, ShowFormat), MkdirAll(OutDir(storage, ShowPath(query, Dvd.FetchMetadata(w.lookup)), ParseSeasonDisc(seasonDisc).value.0))]
    ensures r.result.Ok? <==> ParseSeasonDisc(seasonDisc).Some? && w.storageOk && w.mkdirOk && w.ripOk
    // the rip is issued once the directory exists, and it is the last command when it fails
    ensures ParseSeasonDisc(seasonDisc).Some? && w.storageOk && w.mkdirOk ==>
              var outDir := OutDir(storage, ShowPath(query, Dvd.FetchMetadata(w.lookup)), ParseSeasonDisc(seasonDisc).value.0);
              |r.commands| >= 3 &&
              r.commands[..3] == [FileBotList(query, ShowFormat), MkdirAll(outDir), MakeMkvRip(formatDrive(device), "all", outDir, 600)]
    ensures r.result == Err(RipFailed) ==> |r.commands| == 3
    // a successful run removes exactly the discarded files, renames and ejects
    ensures r.result.Ok? ==>
              var season := ParseSeasonDisc(seasonDisc).value.0;
              var removed := Removed(w.ffprobe, w.files);
              && r.result.value == OutDir(storage, ShowPath(query, Dvd.FetchMetadata(w.lookup)), season)
              && |r.commands| == 5 + |removed|
              && r.commands[3..3 + |removed|] == RemoveCommands(removed)
              && r.commands[|r.commands| - 2] == FileBotRename(r.result.value, TvDatabase, RenameFormat(season))
              && r.commands[|r.commands| - 1] == Eject(Root.ExtractDevicePath(formatDrive(device)))
  {
    TvRipInto(storage, device, query, seasonDisc, formatDrive, w, ShowPath(query, Dvd.FetchMetadata(w.lookup)))
  }

  /** `tvrip` once the show's directory name `show` is known. */
  function TvRipInto(storage: string, device: string, query: string, seasonDisc: string,
                     formatDrive: string -> string, w: TvWorld, show: string): (r: TvRun)
    ensures r.result == Err(BadSeasonDisc) <==> ParseSeasonDisc(seasonDisc).None?
    ensures r.result == Err(BadSeasonDisc) ==> r.commands == []
    ensures r.result == Err(StorageInvalid) <==> ParseSeasonDisc(seasonDisc).Some? && !w.storageOk
    ensures r.result == Err(StorageInvalid) ==> r.commands == []
    ensures r.result == Err(MkdirFailed) <==> ParseSeasonDisc(seasonDisc).Some? && w.storageOk && !w.mkdirOk
    ensures r.result == Err(MkdirFailed) ==>
              r.commands == [FileBotList(query, ShowFormat), MkdirAll(OutDir(storage, show, ParseSeasonDisc(seasonDisc).value.0))]
    ensures r.result.Ok? <==> ParseSeasonDisc(seasonDisc).Some? && w.storageOk && w.mkdirOk && w.ripOk
    ensures ParseSeasonDisc(seasonDisc).Some? && w.storageOk && w.mkdirOk ==>
              var outDir := OutDir(storage, show, ParseSeasonDisc(seasonDisc).value.0);
              |r.commands| >= 3 &&
              r.commands[..3] == [FileBotList(query, ShowFormat), MkdirAll(outDir), MakeMkvRip(formatDrive(device), "all", outDir, 600)]
    ensures r.result == Err(RipFailed) ==> |r.commands| == 3
    ensures r.result.Ok? ==>
              var season := ParseSeasonDisc(seasonDisc).value.0;
              var removed := Removed(w.ffprobe, w.files);
              && r.result.value == OutDir(storage, show, season)
              && |r.commands| == 5 + |removed|
              && r.commands[3..3 + |removed|] == RemoveCommands(removed)
              && r.commands[|r.commands| - 2] == FileBotRename(r.result.value, TvDatabase, RenameFormat(season))
              && r.commands[|r.commands| - 1] == Eject(Root.ExtractDevicePath(formatDrive(device)))
  {
    var p := TvPrepareInto(storage, query, seasonDisc, w, show);
    if p.result.Err? then p
    else
      var sd := ParseSeasonDisc(seasonDisc).value;
      var rip := MakeMkvRip(formatDrive(device), "all", p.result.value, MinEpisodeSeconds);
      assert p.commands + [rip] == [FileBotList(query, ShowFormat), MkdirAll(p.result.value), rip];
      RipAndFinish(p.commands, p.result.value, formatDrive(device), sd.0, sd.1, Removed(w.ffprobe, w.files), w.ripOk)
  }

  /** The rip into a prepared directory and, when it succeeds, the removals,
      the rename and the eject. */
  function RipAndFinish(pre: seq<Command>, outDir: string, drive: string, season: string, disc: string,
                        removed: seq<string>, ripOk: bool): (r: TvRun)
    requires |pre| == 2
    ensures |r.commands| >= 3 && r.commands[..3] == pre + [MakeMkvRip(drive, "all", outDir, MinEpisodeSeconds)]
    ensures r.result.Ok? <==> ripOk
    ensures r.result.Err? ==> r.result == Err(RipFailed) && |r.commands| == 3
    ensures r.result.Ok? ==>
              && r.result.value == outDir
              && |r.commands| == 5 + |removed|
              && r.commands[3..3 + |removed|] == RemoveCommands(removed)
              && r.commands[|r.commands| - 2] == FileBotRename(outDir, TvDatabase, RenameFormat(season))
              && r.commands[|r.commands| - 1] == Eject(Root.ExtractDevicePath(drive))
  {
    var c := pre + [MakeMkvRip(drive, "all", outDir, MinEpisodeSeconds)];
    if !ripOk then TvRun(c, Err(RipFailed))
    else
      var (rename, _) := RenameWithFileBot(season, disc, outDir, Failed);
      var cs := c + RemoveCommands(removed) + [rename, Eject(Root.ExtractDevicePath(drive))];
      assert cs[..3] == c;
      assert cs[3..3 + |removed|] == RemoveCommands(removed);
      TvRun(cs, Ok(outDir))
  }

  /** The disc number changes nothing: two discs of one season are ripped
      and renamed alike. */
  lemma DiscIgnored(storage: string, device: string, query: string, season: string, d1: string, d2: string,
                    formatDrive: string -> string, w: TvWorld)
    requires '-' !in season && '-' !in d1 && '-' !in d2
    ensures TvRip(storage, device, query, season + "-" + d1, formatDrive, w)
            == TvRip(storage, device, query, season + "-" + d2, formatDrive, w)
  {
    ParseSeasonDiscOf(season, d1);
    ParseSeasonDiscOf(season, d2);
  }
}
