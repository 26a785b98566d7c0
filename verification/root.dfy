/** cmd/root.go: the `-v` short-circuit of `Execute`, the mapping from a drive
    specifier back to a device path, and the sequential renaming of ripped
    `.mkv` files. */
module Root {
  import opened Wrappers
  import opened Text
  import opened Paths
  import Config

  // ---------------------------------------------------------------------------
  // Execute
  // ---------------------------------------------------------------------------

  /** Whether any argument after the program name asks for the version. */
  predicate VersionRequested(args: seq<string>) {
    exists i | 0 <= i < |args| :: args[i] == "-v" || args[i] == "--version"
  }

  datatype ExecOutcome =
    | PrintedVersion                          // exit status 0, nothing else done
    | HomeDirFatal                            // log.Fatalf in getConfigPath: exit status 1
    | RanCommand(config: Config.Config, exitStatus: nat)

  /** `Execute`, with `args` standing for `os.Args[1:]`, the configuration
      file and the answer of `os.UserHomeDir` as inputs and `commandOk` for
      the outcome of the chosen sub-command. A version flag anywhere
      short-circuits before the configuration is loaded, and loading it
      stops the program when there is no home directory. */
  function Execute(args: seq<string>, file: Config.ConfigFile, home: Option<string>, commandOk: bool): (r: ExecOutcome)
    ensures r.PrintedVersion? <==> VersionRequested(args)
    ensures r.HomeDirFatal? <==> !VersionRequested(args) && home.None?
    ensures r.RanCommand? ==> Config.LoadConfig(file, home).Ok? && r.config == Config.LoadConfig(file, home).value.0
    ensures r.RanCommand? ==> (r.exitStatus == 0 <==> commandOk) && r.exitStatus <= 1
  {
    if VersionRequested(args) then PrintedVersion
    else
      match Config.LoadConfig(file, home)
      case Err(_) => HomeDirFatal
      case Ok((cfg, _)) => RanCommand(cfg, if commandOk then 0 else 1)
  }

  /** A version flag decides the outcome alone: neither the configuration
      file, nor the home directory, nor the sub-command matters. Without one,
      a missing home directory is fatal whatever else holds, and otherwise
      the outcome is the sub-command's under the loaded configuration. */
  lemma VersionShortCircuits(args: seq<string>, file1: Config.ConfigFile, home1: Option<string>, ok1: bool,
                             file2: Config.ConfigFile, home2: Option<string>, ok2: bool)
    ensures VersionRequested(args) ==> Execute(args, file1, home1, ok1) == Execute(args, file2, home2, ok2) == PrintedVersion
    ensures !VersionRequested(args) ==>
              (Execute(args, file1, home1, ok1) == Execute(args, file2, home2, ok2) <==>
                 || (home1.None? && home2.None?)
                 || (&& home1.Some? && home2.Some?
                     && Config.LoadConfig(file1, home1).value.0 == Config.LoadConfig(file2, home2).value.0
                     && ok1 == ok2))
  {
  }

  // ---------------------------------------------------------------------------
  // Drive specifier -> device path
  // ---------------------------------------------------------------------------

  const DevicePrefix := "/dev/sr"

  /** `extractDevicePath`: "/dev/sr" followed by the first run of digits in
      the specifier ("disc:0" gives "/dev/sr0"; no digits gives "/dev/sr"). */
  function ExtractDevicePath(spec: string): (p: string)
    ensures HasPrefix(p, DevicePrefix)
    ensures AllDigits(p[|DevicePrefix|..])
    ensures NoDigits(spec) ==> p == DevicePrefix
    ensures IsFirstDigitRun(spec, p[|DevicePrefix|..])
  {
    var d := LeftmostDigitRun(spec);
    LeftmostDigitRunIsFirst(spec);
    assert (DevicePrefix + d)[|DevicePrefix|..] == d;
    DevicePrefix + d
  }

  // ---------------------------------------------------------------------------
  // renameMKVFile
  // ---------------------------------------------------------------------------

  /** The name file `i` of the directory listing receives: the first file
      gets the bare name, the others a decimal suffix. */
  function TargetName(filename: string, i: nat): string
  {
    if i == 0 then filename + ".mkv" else filename + Decimal(i) + ".mkv"
  }

  /** No two files are given the same name. */
  lemma TargetNamesDistinct(filename: string, i: nat, j: nat)
    requires i != j
    ensures TargetName(filename, i) != TargetName(filename, j)
  {
    if i != 0 && j != 0 {
      if Decimal(i) == Decimal(j) {
        DecimalInjective(i, j);
      }
      SuffixesDiffer(filename, Decimal(i), Decimal(j));
    }
  }

  lemma SuffixesDiffer(f: string, x: string, y: string)
    requires x != y
    ensures f + x + ".mkv" != f + y + ".mkv"
  {
    var a, b := f + x + ".mkv", f + y + ".mkv";
    if |x| == |y| {
      assert a[|f|..|f| + |x|] == x;
      assert b[|f|..|f| + |y|] == y;
    } else {
      assert |a| != |b|;
    }
  }

  datatype RenameError =
    | BadGlobPattern
    | NoMkvFiles(dir: string)
    | RenameFailed(from: string, to: string)

  /** `renameMKVFile(dir, filename)`. `glob` is what `filepath.Glob` found
      (None: malformed pattern) and `renames(from, to)` says whether
      `os.Rename` succeeds. Returns the renames performed and the error. The
      loop stops at the first failing rename; the earlier ones stand. */
  method RenameMkvFile(dir: string, filename: string, glob: Option<seq<string>>,
                       renames: (string, string) -> bool)
    returns (done: seq<(string, string)>, err: Option<RenameError>)
    ensures glob.None? ==> done == [] && err == Some(BadGlobPattern)
    ensures glob == Some([]) ==> done == [] && err == Some(NoMkvFiles(dir))
    ensures glob.Some? ==> |done| <= |glob.value|
    ensures glob.Some? ==> forall j :: 0 <= j < |done| ==>
              done[j] == (glob.value[j], Join([dir, TargetName(filename, j)])) && renames(done[j].0, done[j].1)
    ensures glob.Some? && |glob.value| > 0 ==>
              (err.None? <==> |done| == |glob.value|)
    ensures glob.Some? && |glob.value| > 0 && err.Some? ==>
              |done| < |glob.value| &&
              var target := Join([dir, TargetName(filename, |done|)]);
              err == Some(RenameFailed(glob.value[|done|], target)) && !renames(glob.value[|done|], target)
  {
    if glob.None? {
      return [], Some(BadGlobPattern);
    }
    var files := glob.value;
    if |files| == 0 {
      return [], Some(NoMkvFiles(dir));
    }
    done := [];
    var i := 0;
    while i < |files|
      invariant 0 <= i <= |files| && |done| == i
      invariant forall j :: 0 <= j < i ==>
                  done[j] == (files[j], Join([dir, TargetName(filename, j)])) && renames(done[j].0, done[j].1)
    {
      var newName := Join([dir, TargetName(filename, i)]);
      if !renames(files[i], newName) {
        return done, Some(RenameFailed(files[i], newName));
      }
      ghost var before := done;
      done := done + [(files[i], newName)];
      assert forall j :: 0 <= j < i ==> done[j] == before[j];
      i := i + 1;
    }
    err := None;
  }
}
