/** cmd/update.go: the text checks of the MakeMKV updater. The version read
    from the download page, the installed-version check, the choice of the
    extracted build directory, the verification of the installed tool, and
    the order of the update steps, with every download, extraction and
    build reduced to its outcome. */
module Update {
  import opened Wrappers
  import opened External
  import opened Text
  import opened Paths
  import Order

  // ---------------------------------------------------------------------------
  // getLatestMakeMKVVersion
  // ---------------------------------------------------------------------------

  const OssPrefix := "makemkv-oss-"

  /** Three non-empty runs of digits separated by dots, like "1.17.7". */
  ghost predicate IsVersion(v: string) {
    exists a, b, c :: v == a + "." + b + "." + c && a != "" && b != "" && c != ""
                      && AllDigits(a) && AllDigits(b) && AllDigits(c)
  }

  /** `makemkv-oss-(\d+\.\d+\.\d+)` anchored at the start of `s`: the capture.
      Each `\d+` takes the whole digit run, as a dot or the end must follow. */
  function VersionAt(s: string): (r: Option<string>)
    ensures r.Some? ==> IsVersion(r.value) && HasPrefix(s, OssPrefix + r.value)
    // the last `\d+` takes the whole run of digits
    ensures r.Some? ==> |OssPrefix| + |r.value| == |s| || !IsDigit(s[|OssPrefix| + |r.value|])
  {
    match After(s, OssPrefix)
    case None => None
    case Some(s1) =>
      match Digits(s1)
      case None => None
      case Some((a, s2)) =>
        match After(s2, ".")
        case None => None
        case Some(s3) =>
          match Digits(s3)
          case None => None
          case Some((b, s4)) =>
            match After(s4, ".")
            case None => None
            case Some(s5) =>
              match Digits(s5)
              case None => None
              case Some((c, s6)) =>
                Reassemble(s, s1, a, s2, s3, b, s4, s5, c, s6);
                Some(a + "." + b + "." + c)
  }

  /** The pieces of an anchored match put back together. */
  lemma Reassemble(s: string, s1: string, a: string, s2: string, s3: string, b: string, s4: string,
                   s5: string, c: string, s6: string)
    requires s == OssPrefix + s1 && s1 == a + s2 && s2 == "." + s3 && s3 == b + s4 && s4 == "." + s5 && s5 == c + s6
    requires a != "" && b != "" && c != "" && AllDigits(a) && AllDigits(b) && AllDigits(c)
    requires s6 == [] || !IsDigit(s6[0])
    ensures IsVersion(a + "." + b + "." + c) && HasPrefix(s, OssPrefix + (a + "." + b + "." + c))
    ensures var n := |OssPrefix| + |a + "." + b + "." + c|; n == |s| || !IsDigit(s[n])
  {
    var v := a + "." + b + "." + c;
    assert s == OssPrefix + v + s6;
    assert (OssPrefix + v + s6)[..|OssPrefix + v|] == OssPrefix + v;
    assert |OssPrefix + v| < |s| ==> s[|OssPrefix + v|] == s6[0];
  }

  /** The pattern matches `s` at `i` with capture `v`, and at no earlier
      position. */
  ghost predicate LeftmostVersionAt(s: string, v: string, i: int) {
    0 <= i <= |s| && VersionAt(s[i..]) == Some(v) && forall j :: 0 <= j < i ==> VersionAt(s[j..]).None?
  }

  /** `getLatestMakeMKVVersion`: the capture of the leftmost match in the
      page, or "" when the page could not be fetched or holds no match. */
  function LatestVersion(page: ToolResult): (v: string)
    ensures page.Failed? ==> v == ""
    ensures v != "" ==> IsVersion(v) && Contains(page.stdout, OssPrefix + v)
    ensures page.Ran? ==> (v == "" <==> forall i :: 0 <= i <= |page.stdout| ==> VersionAt(page.stdout[i..]).None?)
    // the version comes from the leftmost place where the pattern matches
    ensures page.Ran? && v != "" ==> exists i :: LeftmostVersionAt(page.stdout, v, i)
  {
    match page
    case Failed => ""
    case Ran(out) => LatestOf(out, Leftmost(out, VersionAt))
  }

  function LatestOf(out: string, m: Option<string>): (v: string)
    requires m == Leftmost(out, VersionAt)
    ensures v != "" ==> IsVersion(v) && Contains(out, OssPrefix + v)
    ensures v == "" <==> forall i :: 0 <= i <= |out| ==> VersionAt(out[i..]).None?
    ensures v != "" ==> exists i :: LeftmostVersionAt(out, v, i)
  {
    match m
    case None => ""
    case Some(v) =>
      MatchContained(out, v);
      MatchLeftmost(out, v);
      v
  }

  lemma MatchLeftmost(out: string, v: string)
    requires Leftmost(out, VersionAt) == Some(v)
    ensures exists i :: LeftmostVersionAt(out, v, i)
  {
    var i :| 0 <= i <= |out| && VersionAt(out[i..]) == Some(v) &&
             forall j :: 0 <= j < i ==> VersionAt(out[j..]).None?;
    assert LeftmostVersionAt(out, v, i);
  }

  lemma MatchContained(out: string, v: string)
    requires Leftmost(out, VersionAt) == Some(v)
    ensures IsVersion(v) && Contains(out, OssPrefix + v)
  {
    var i :| 0 <= i <= |out| && VersionAt(out[i..]) == Some(v);
    PrefixAt(out, i, OssPrefix + v);
  }

  lemma PrefixAt(s: string, i: nat, p: string)
    requires i <= |s| && HasPrefix(s[i..], p)
    ensures Contains(s, p)
  {
    assert s[i..][..|p|] == s[i..i + |p|];
    assert OccursAt(s, p, i);
  }

  /** A page that starts with a release name gives back its version. */
  lemma LatestVersionOf(a: string, b: string, c: string, rest: string)
    requires a != "" && b != "" && c != "" && AllDigits(a) && AllDigits(b) && AllDigits(c)
    requires rest == [] || !IsDigit(rest[0])
    ensures LatestVersion(Ran(OssPrefix + a + "." + b + "." + c + rest)) == a + "." + b + "." + c
  {
    VersionAtComplete(a, b, c, rest);
    LatestOfMatch(OssPrefix + a + "." + b + "." + c + rest, a + "." + b + "." + c);
  }

  /** The pattern matches wherever a release name starts, and captures the
      whole version. */
  lemma VersionAtComplete(a: string, b: string, c: string, rest: string)
    requires a != "" && b != "" && c != "" && AllDigits(a) && AllDigits(b) && AllDigits(c)
    requires rest == [] || !IsDigit(rest[0])
    ensures VersionAt(OssPrefix + a + "." + b + "." + c + rest) == Some(a + "." + b + "." + c)
  {
    var s := OssPrefix + a + "." + b + "." + c + rest;
    var s3 := b + "." + c + rest;
    assert s == OssPrefix + (a + ("." + s3));
    VersionHead(a, s3);
    VersionTail(b, c, rest);
    VersionAtOf(s, a + ("." + s3), a, "." + s3, s3, b, "." + (c + rest), c + rest, c, rest);
  }

  lemma LatestOfMatch(s: string, v: string)
    requires VersionAt(s) == Some(v)
    ensures LatestVersion(Ran(s)) == v
  {
    LeftmostAtStart(s, VersionAt);
    LatestOfLeftmost(s, v);
  }

  lemma LatestOfLeftmost(s: string, v: string)
    requires Leftmost(s, VersionAt) == Some(v)
    ensures LatestVersion(Ran(s)) == v
  {
  }

  lemma VersionHead(a: string, s3: string)
    requires a != "" && AllDigits(a)
    ensures After(OssPrefix + (a + ("." + s3)), OssPrefix) == Some(a + ("." + s3))
    ensures Digits(a + ("." + s3)) == Some((a, "." + s3))
    ensures After("." + s3, ".") == Some(s3)
  {
    AfterOf(OssPrefix, a + ("." + s3));
    DigitsOf(a, "." + s3);
    AfterOf(".", s3);
  }

  lemma VersionTail(b: string, c: string, rest: string)
    requires b != "" && c != "" && AllDigits(b) && AllDigits(c)
    requires rest == [] || !IsDigit(rest[0])
    ensures Digits(b + "." + c + rest) == Some((b, "." + (c + rest)))
    ensures After("." + (c + rest), ".") == Some(c + rest)
    ensures Digits(c + rest) == Some((c, rest))
  {
    assert b + "." + c + rest == b + ("." + (c + rest));
    DigitsOf(b, "." + (c + rest));
    AfterOf(".", c + rest);
    DigitsOf(c, rest);
  }

  /** Unfolds the pattern once its pieces are known. */
  lemma VersionAtOf(s: string, s1: string, a: string, s2: string, s3: string, b: string, s4: string,
                    s5: string, c: string, s6: string)
    requires After(s, OssPrefix) == Some(s1) && Digits(s1) == Some((a, s2))
    requires After(s2, ".") == Some(s3) && Digits(s3) == Some((b, s4))
    requires After(s4, ".") == Some(s5) && Digits(s5) == Some((c, s6))
    ensures VersionAt(s) == Some(a + "." + b + "." + c)
  {
  }

  // ---------------------------------------------------------------------------
  // isMakeMKVVersionInstalled
  // ---------------------------------------------------------------------------

  /** `isMakeMKVVersionInstalled`: the output of `makemkvcon info` mentions
      "v" and the version; false when the command fails. */
  function IsInstalled(version: string, out: ToolResult): (b: bool)
    ensures b <==> out.Ran? && exists i :: 0 <= i <= |out.stdout| - |version| - 1 && OccursAt(out.stdout, "v" + version, i)
  {
    out.Ran? && Contains(out.stdout, "v" + version)
  }

  /** An output that mentions "v" and the version somewhere. */
  function Mentioning(before: string, version: string, after: string): string
  {
    before + "v" + version + after
  }

  /** The version counts as installed exactly when the tool ran and its
      output has "v" and the version somewhere in it. */
  lemma InstalledIff(version: string, out: ToolResult)
    ensures IsInstalled(version, out) <==>
              out.Ran? && exists before, after :: out.stdout == Mentioning(before, version, after)
  {
    if out.Ran? {
      var o := out.stdout;
      if IsInstalled(version, out) {
        var i :| 0 <= i <= |o| - |"v" + version| && OccursAt(o, "v" + version, i);
        var before, after := o[..i], o[i + |version| + 1..];
        assert o == before + o[i..i + |version| + 1] + after;
        assert o == Mentioning(before, version, after);
      }
      forall before, after | o == Mentioning(before, version, after)
        ensures IsInstalled(version, out)
      {
        assert o == before + ("v" + version) + after;
        ContainsConcat(before, "v" + version, after);
      }
    }
  }

  /** The check is a substring test: a longer version that merely starts
      with the wanted one also counts as installed. */
  lemma InstalledByPrefix(version: string, more: string, before: string, after: string)
    ensures IsInstalled(version, Ran(before + "v" + version + more + after))
  {
    var out := before + "v" + version + more + after;
    assert out == before + ("v" + version) + (more + after);
    ContainsConcat(before, "v" + version, more + after);
  }

  // ---------------------------------------------------------------------------
  // buildMakeMKV
  // ---------------------------------------------------------------------------

  const TarSuffix := ".tar.gz"

  /** The entry the build runs in: a directory named after the package that
      is not an archive. */
  predicate IsBuildDir(e: DirEntry, pkgName: string) {
    e.isDir && HasPrefix(e.name, pkgName) && !HasSuffix(e.name, TarSuffix)
  }

  /** The index of the first build directory of the listing, if any. */
  function FirstBuildDir(es: seq<DirEntry>, pkgName: string): (k: Option<nat>)
    ensures k.None? <==> forall j :: 0 <= j < |es| ==> !IsBuildDir(es[j], pkgName)
    ensures k.Some? ==> k.value < |es| && IsBuildDir(es[k.value], pkgName)
    ensures k.Some? ==> forall j :: 0 <= j < k.value ==> !IsBuildDir(es[j], pkgName)
  {
    if |es| == 0 then None
    else if IsBuildDir(es[0], pkgName) then Some(0)
    else
      match FirstBuildDir(es[1..], pkgName)
      case None =>
        assert forall j :: 1 <= j < |es| ==> es[j] == es[1..][j - 1];
        None
      case Some(k) =>
        assert forall j :: 1 <= j <= k ==> es[j] == es[1..][j - 1];
        Some(k + 1)
  }

  datatype BuildError =
    | ExtractFailed            // tar xzf
    | ListingFailed            // os.ReadDir of the work directory
    | NoBuildDir(pkg: string)
    | ConfigureFailed | MakeFailed | InstallFailed

  /** The outcomes of the build of one package: the extraction, the listing
      of the work directory, and the three build steps. */
  datatype BuildWorld = BuildWorld(tarOk: bool, listing: Option<seq<DirEntry>>,
                                   configureOk: bool, makeOk: bool, installOk: bool)

  /** The `buildDir` the loop settles on: the work directory joined with
      the first build directory of the listing, or "" when there is none. */
  function BuildDirOf(workDir: string, es: seq<DirEntry>, pkgName: string): (dir: string)
    ensures FirstBuildDir(es, pkgName).None? ==> dir == ""
    ensures FirstBuildDir(es, pkgName).Some? ==> dir == Join([workDir, es[FirstBuildDir(es, pkgName).value].name])
    ensures workDir != "" ==> (dir == "" <==> forall j :: 0 <= j < |es| ==> !IsBuildDir(es[j], pkgName))
  {
    match FirstBuildDir(es, pkgName)
    case None => ""
    case Some(k) => Join([workDir, es[k].name])
  }

  /** The steps of `buildMakeMKV` with the choice of the build directory
      as a parameter: the directory it builds in, or the first failure. */
  function BuildIn(pkgName: string, w: BuildWorld, dirOf: seq<DirEntry> -> string): (r: Result<string, BuildError>)
    ensures r.Ok? <==> w.tarOk && w.listing.Some? && dirOf(w.listing.value) != ""
                       && w.configureOk && w.makeOk && w.installOk
    ensures r.Ok? ==> r.value == dirOf(w.listing.value)
    ensures r == Err(NoBuildDir(pkgName)) <==> w.tarOk && w.listing.Some? && dirOf(w.listing.value) == ""
  {
    if !w.tarOk then Err(ExtractFailed)
    else match w.listing
      case None => Err(ListingFailed)
      case Some(es) =>
        var dir := dirOf(es);
        if dir == "" then Err(NoBuildDir(pkgName))
        else if !w.configureOk then Err(ConfigureFailed)
        else if !w.makeOk then Err(MakeFailed)
        else if !w.installOk then Err(InstallFailed)
        else Ok(dir)
  }

  /** `buildMakeMKV` as written: it builds in the first directory of the
      listing named after the package, whatever version that directory holds. */
  function BuildMakeMkv(workDir: string, pkgName: string, w: BuildWorld): (r: Result<string, BuildError>)
    ensures r.Ok? <==> w.tarOk && w.listing.Some? && BuildDirOf(workDir, w.listing.value, pkgName) != ""
                       && w.configureOk && w.makeOk && w.installOk
    ensures r.Ok? ==> r.value == BuildDirOf(workDir, w.listing.value, pkgName)
    ensures r == Err(NoBuildDir(pkgName)) <==>
              w.tarOk && w.listing.Some? && BuildDirOf(workDir, w.listing.value, pkgName) == ""
  {
    BuildIn(pkgName, w, es => BuildDirOf(workDir, es, pkgName))
  }

  /** The directory the archive of a package at a version unpacks into. */
  function ExtractedName(pkgName: string, version: string): string
  {
    pkgName + "-" + version
  }

  /** The work directory is never emptied, so a directory left by an earlier
      update can be listed before the fresh one, and then it is the one
      built. `StaleListedFirst` shows that `os.ReadDir`, which sorts the
      names, lists it first whenever its version sorts first. */
  lemma StaleBuildDirChosen(stale: string, version: string)
    requires stale != version && |stale| > 0 && IsDigit(stale[|stale| - 1])
    ensures var es := [DirEntry(ExtractedName(Oss, stale), true), DirEntry(ExtractedName(Oss, version), true)];
            BuildDirOf(WorkDir, es, Oss) == Join([WorkDir, ExtractedName(Oss, stale)])
            && ExtractedName(Oss, stale) != ExtractedName(Oss, version)
  {
    var es := [DirEntry(ExtractedName(Oss, stale), true), DirEntry(ExtractedName(Oss, version), true)];
    var n := es[0].name;
    assert n[..|Oss|] == Oss;
    assert n[|n| - 1] == stale[|stale| - 1];
    assert TarSuffix[|TarSuffix| - 1] == 'z' && n[|n| - 1] != 'z';
    assert !HasSuffix(n, TarSuffix);
    assert IsBuildDir(es[0], Oss);
    var a, b := ExtractedName(Oss, stale), ExtractedName(Oss, version);
    assert a[|Oss| + 1..] == stale;
    assert b[|Oss| + 1..] == version;
  }

  /** The corrected choice: the directory unpacked from the archive of the
      version being installed. */
  predicate IsBuildDirFor(e: DirEntry, pkgName: string, version: string) {
    e.isDir && e.name == ExtractedName(pkgName, version)
  }

  function BuildDirFor(workDir: string, es: seq<DirEntry>, pkgName: string, version: string): (dir: string)
    ensures dir != "" ==> dir == Join([workDir, ExtractedName(pkgName, version)])
    ensures dir == "" <==> forall j :: 0 <= j < |es| ==> !IsBuildDirFor(es[j], pkgName, version)
  {
    if exists j :: 0 <= j < |es| && IsBuildDirFor(es[j], pkgName, version) then
      assert ExtractedName(pkgName, version)[|pkgName|] == '-';
      Join([workDir, ExtractedName(pkgName, version)])
    else ""
  }

  /** Left-over directories of other versions no longer matter. */
  lemma BuildDirIgnoresStale(workDir: string, stale: seq<DirEntry>, es: seq<DirEntry>, pkgName: string, version: string)
    requires forall j :: 0 <= j < |stale| ==> stale[j].name != ExtractedName(pkgName, version)
    ensures BuildDirFor(workDir, stale + es, pkgName, version) == BuildDirFor(workDir, es, pkgName, version)
  {
    var all := stale + es;
    assert forall j :: 0 <= j < |es| ==> all[|stale| + j] == es[j];
    assert forall j :: 0 <= j < |all| && IsBuildDirFor(all[j], pkgName, version) ==>
             j >= |stale| && IsBuildDirFor(es[j - |stale|], pkgName, version);
  }

  /** `buildMakeMKV` with the corrected choice of the build directory. */
  function BuildMakeMkvFor(workDir: string, pkgName: string, version: string, w: BuildWorld): (r: Result<string, BuildError>)
    ensures r.Ok? <==> w.tarOk && w.listing.Some?
                       && (exists j :: 0 <= j < |w.listing.value| && IsBuildDirFor(w.listing.value[j], pkgName, version))
                       && w.configureOk && w.makeOk && w.installOk
    ensures r.Ok? ==> r.value == Join([workDir, ExtractedName(pkgName, version)])
  {
    BuildIn(pkgName, w, es => BuildDirFor(workDir, es, pkgName, version))
  }

  // ---------------------------------------------------------------------------
  // verifyMakeMKVInstallation
  // ---------------------------------------------------------------------------

  /** `verifyMakeMKVInstallation`: the first output line names MakeMKV. */
  predicate Verified(out: ToolResult) {
    out.Ran? && Contains(FirstLine(out.stdout), "MakeMKV")
  }

  /** A banner line is enough, whatever follows it. */
  lemma VerifiedByBanner(before: string, after: string, rest: string)
    requires '\n' !in before + "MakeMKV" + after
    ensures Verified(Ran(before + "MakeMKV" + after + "\n" + rest))
  {
    var line := before + "MakeMKV" + after;
    var s := line + "\n" + rest;
    assert s[|line|] == '\n';
    assert s[..|line|] == line;
    ContainsConcat(before, "MakeMKV", after);
  }

  /** "MakeMKV" on a later line only does not count. */
  lemma NotVerifiedLater(first: string, rest: string)
    requires '\n' !in first && !Contains(first, "MakeMKV")
    ensures !Verified(Ran(first + "\n" + rest))
  {
    var s := first + "\n" + rest;
    assert s[|first|] == '\n';
    assert s[..|first|] == first;
  }

  // ---------------------------------------------------------------------------
  // updateMakeMKV
  // ---------------------------------------------------------------------------

  const WorkDir := "/tmp/makemkv"
  const DownloadBase := "https://www.makemkv.com/download/"

  /** The archive name of a package at a version. */
  function Archive(pkg: string, version: string): string
  {
    pkg + "-" + version + TarSuffix
  }

  const Oss := "makemkv-oss"
  const Bin := "makemkv-bin"

  /** One download: the URL and the file it is written to. */
  datatype Download = Download(url: string, path: string)

  /** The download of a package's archive at a version. */
  function DownloadOf(pkg: string, version: string): Download
  {
    Download(DownloadBase + Archive(pkg, version), Join([WorkDir, Archive(pkg, version)]))
  }

  /** The two archives are different downloads. */
  lemma DownloadsDiffer(version: string)
    ensures DownloadOf(Oss, version) != DownloadOf(Bin, version)
  {
    var x, y := Archive(Oss, version), Archive(Bin, version);
    assert x[8] == 'o' && y[8] == 'b';
    assert (DownloadBase + x)[|DownloadBase| + 8] == x[8];
    assert (DownloadBase + y)[|DownloadBase| + 8] == y[8];
  }

  /** One archive: whether it is already on disk, and whether `wget` works. */
  datatype Fetch = Fetch(present: bool, wgetOk: bool)

  /** What the outside world answers during one update. */
  datatype UpdateWorld = UpdateWorld(workDirOk: bool, page: ToolResult, installed: ToolResult,
                                     oss: Fetch, bin: Fetch, ossBuild: BuildWorld, binBuild: BuildWorld,
                                     check: ToolResult)

  datatype UpdateError =
    | WorkDirFailed
    | NoVersion
    | DownloadFailed(url: string)
    | BuildFailed(pkg: string, error: BuildError)

  datatype UpdateOutcome =
    | AlreadyInstalled(version: string)
    | Updated(version: string, verified: bool)   // a failed verification is only a warning
    | Aborted(error: UpdateError)

  /** The downloads made, the directories the builds completed in, and the
      outcome. */
  datatype UpdateRun = UpdateRun(downloads: seq<Download>, builtIn: seq<string>, outcome: UpdateOutcome)

  /** How one package is built: from its name, the version being installed
      and the build outcomes, the directory it was built in or the failure. */
  type Builder = (string, string, BuildWorld) -> Result<string, BuildError>

  /** The two `wget` steps of `updateMakeMKV`: the source archive, then the
      binary one. Returns the downloads and the URL of a failed one. */
  function FetchBoth(version: string, oss: Fetch, bin: Fetch): (r: (seq<Download>, Option<string>))
    ensures r.1.None? <==> (oss.present || oss.wgetOk) && (bin.present || bin.wgetOk)
    ensures forall k :: 0 <= k < |r.0| ==>
              r.0[k] == DownloadOf(Oss, version) || r.0[k] == DownloadOf(Bin, version)
    ensures DownloadOf(Oss, version) in r.0 <==> !oss.present
    // a failed source download stops the binary one
    ensures DownloadOf(Bin, version) in r.0 <==> (oss.present || oss.wgetOk) && !bin.present
    ensures r.1.Some? ==> r.1.value == r.0[|r.0| - 1].url
  {
    var o, b := DownloadOf(Oss, version), DownloadOf(Bin, version);
    DownloadsDiffer(version);
    if oss.present then
      if bin.present then ([], None)
      else ([b], if bin.wgetOk then None else Some(b.url))
    else if !oss.wgetOk then ([o], Some(o.url))
    else if bin.present then ([o], None)
    else ([o, b], if bin.wgetOk then None else Some(b.url))
  }

  /** The steps of `updateMakeMKV` with the build of a package as a
      parameter. */
  function UpdateWith(w: UpdateWorld, build: Builder): (r: UpdateRun)
    ensures r.outcome == Aborted(NoVersion) <==> w.workDirOk && LatestVersion(w.page) == ""
    // an installed version stops the update before anything is downloaded
    ensures r.outcome.AlreadyInstalled? <==>
              w.workDirOk && LatestVersion(w.page) != "" && IsInstalled(LatestVersion(w.page), w.installed)
    ensures r.outcome.AlreadyInstalled? ==> r.downloads == [] && r.outcome.version == LatestVersion(w.page)
    ensures r.outcome.Updated? ==> r.outcome.version == LatestVersion(w.page) && r.outcome.verified == Verified(w.check)
    ensures r.outcome.Updated? <==>
              Proceeds(w) && (w.oss.present || w.oss.wgetOk) && (w.bin.present || w.bin.wgetOk)
              && build(Oss, LatestVersion(w.page), w.ossBuild).Ok?
              && build(Bin, LatestVersion(w.page), w.binBuild).Ok?
    ensures r.outcome.Updated? ==>
              r.builtIn == [build(Oss, LatestVersion(w.page), w.ossBuild).value,
                            build(Bin, LatestVersion(w.page), w.binBuild).value]
    // nothing is downloaded unless the update proceeds, and then as FetchBoth says
    ensures r.downloads == if Proceeds(w) then FetchBoth(LatestVersion(w.page), w.oss, w.bin).0 else []
  {
    var version := LatestVersion(w.page);
    if !w.workDirOk then UpdateRun([], [], Aborted(WorkDirFailed))
    else if version == "" then UpdateRun([], [], Aborted(NoVersion))
    else if IsInstalled(version, w.installed) then UpdateRun([], [], AlreadyInstalled(version))
    else
      var (ds, failed) := FetchBoth(version, w.oss, w.bin);
      if failed.Some? then UpdateRun(ds, [], Aborted(DownloadFailed(failed.value)))
      else match build(Oss, version, w.ossBuild)
        case Err(e) => UpdateRun(ds, [], Aborted(BuildFailed(Oss, e)))
        case Ok(ossDir) =>
          match build(Bin, version, w.binBuild)
          case Err(e) => UpdateRun(ds, [ossDir], Aborted(BuildFailed(Bin, e)))
          case Ok(binDir) => UpdateRun(ds, [ossDir, binDir], Updated(version, Verified(w.check)))
  }

  /** `updateMakeMKV` as written: each package is built in the first
      directory of the work directory named after it. */
  function UpdateMakeMkv(w: UpdateWorld): (r: UpdateRun)
    ensures r.outcome == Aborted(NoVersion) <==> w.workDirOk && LatestVersion(w.page) == ""
    ensures r.outcome.AlreadyInstalled? <==>
              w.workDirOk && LatestVersion(w.page) != "" && IsInstalled(LatestVersion(w.page), w.installed)
    ensures r.outcome.AlreadyInstalled? ==> r.downloads == [] && r.outcome.version == LatestVersion(w.page)
    ensures r.outcome.Updated? ==> r.outcome.version == LatestVersion(w.page) && r.outcome.verified == Verified(w.check)
    ensures r.outcome.Updated? <==>
              Proceeds(w) && (w.oss.present || w.oss.wgetOk) && (w.bin.present || w.bin.wgetOk)
              && BuildMakeMkv(WorkDir, Oss, w.ossBuild).Ok? && BuildMakeMkv(WorkDir, Bin, w.binBuild).Ok?
    // the build directories are whatever the listings put first
    ensures r.outcome.Updated? ==>
              r.builtIn == [BuildDirOf(WorkDir, w.ossBuild.listing.value, Oss),
                            BuildDirOf(WorkDir, w.binBuild.listing.value, Bin)]
    ensures r.downloads == if Proceeds(w) then FetchBoth(LatestVersion(w.page), w.oss, w.bin).0 else []
  {
    UpdateWith(w, (pkg, version, bw) => BuildMakeMkv(WorkDir, pkg, bw))
  }

  /** `updateMakeMKV` with the corrected choice of the build directory: the
      packages are built in the directories of the version installed. */
  function UpdateMakeMkvFor(w: UpdateWorld): (r: UpdateRun)
    ensures r.outcome.AlreadyInstalled? <==>
              w.workDirOk && LatestVersion(w.page) != "" && IsInstalled(LatestVersion(w.page), w.installed)
    ensures r.outcome.Updated? <==>
              Proceeds(w) && (w.oss.present || w.oss.wgetOk) && (w.bin.present || w.bin.wgetOk)
              && BuildMakeMkvFor(WorkDir, Oss, LatestVersion(w.page), w.ossBuild).Ok?
              && BuildMakeMkvFor(WorkDir, Bin, LatestVersion(w.page), w.binBuild).Ok?
    ensures r.outcome.Updated? ==>
              r.builtIn == [Join([WorkDir, ExtractedName(Oss, r.outcome.version)]),
                            Join([WorkDir, ExtractedName(Bin, r.outcome.version)])]
    ensures r.downloads == if Proceeds(w) then FetchBoth(LatestVersion(w.page), w.oss, w.bin).0 else []
  {
    UpdateWith(w, (pkg, version, bw) => BuildMakeMkvFor(WorkDir, pkg, version, bw))
  }

  /** `os.ReadDir` returns the names sorted, so a left-over tree whose
      version sorts before the new one is listed first, whichever of the two
      was created first. */
  lemma StaleListedFirst(stale: string, version: string)
    requires Order.Less(stale, version)
    ensures Order.Sort([ExtractedName(Oss, version), ExtractedName(Oss, stale)])
              == [ExtractedName(Oss, stale), ExtractedName(Oss, version)]
  {
    Order.LessUnderPrefix(Oss + "-", stale, version);
    Order.SortPair(ExtractedName(Oss, stale), ExtractedName(Oss, version));
  }

  /** The release 1.17.6 sorts before 1.17.7, so its left-over tree is
      listed first. */
  lemma EarlierReleaseListedFirst()
    ensures Order.Sort([ExtractedName(Oss, "1.17.7"), ExtractedName(Oss, "1.17.6")])
              == [ExtractedName(Oss, "1.17.6"), ExtractedName(Oss, "1.17.7")]
  {
    assert Order.Less("6", "7");
    assert Order.Less(".6", ".7");
    assert Order.Less("7.6", "7.7");
    assert Order.Less("17.6", "17.7");
    assert Order.Less(".17.6", ".17.7");
    assert Order.Less("1.17.6", "1.17.7");
    StaleListedFirst("1.17.6", "1.17.7");
  }

  /** As written, an update to a new version whose work directory still
      holds the source tree of an earlier one, listed first (as
      `StaleListedFirst` shows it is when the earlier version sorts first),
      builds that earlier tree and still reports the new version as
      installed. */
  lemma UpdateReportsStaleBuild(w: UpdateWorld, stale: string)
    requires Proceeds(w) && w.oss.present && w.bin.present
    requires stale != LatestVersion(w.page) && |stale| > 0 && IsDigit(stale[|stale| - 1])
    requires w.ossBuild == BuildWorld(true, Some([DirEntry(ExtractedName(Oss, stale), true),
                                                  DirEntry(ExtractedName(Oss, LatestVersion(w.page)), true)]),
                                      true, true, true)
    requires BuildMakeMkv(WorkDir, Bin, w.binBuild).Ok?
    ensures UpdateMakeMkv(w).outcome == Updated(LatestVersion(w.page), Verified(w.check))
    ensures UpdateMakeMkv(w).builtIn[0] == Join([WorkDir, ExtractedName(Oss, stale)])
    ensures ExtractedName(Oss, stale) != ExtractedName(Oss, LatestVersion(w.page))
  {
    StaleBuildDirChosen(stale, LatestVersion(w.page));
  }

  /** The update gets past the version checks: the work directory exists, a
      version was found on the download page and it is not installed. */
  predicate Proceeds(w: UpdateWorld) {
    w.workDirOk && LatestVersion(w.page) != "" && !IsInstalled(LatestVersion(w.page), w.installed)
  }
}
