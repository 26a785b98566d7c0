/** cmd/web.go: the request rules of the web control surface. Home
    expansion of the storage path, the device list, the category requests
    and their validation, and the argument vector of the background rip job.
    HTTP, JSON and the goroutine are outside the model: a request is its
    verb and its decoded body, and a reply is a status code and the
    filesystem call it makes. */
module Web {
  import opened Wrappers
  import opened Text
  import opened Paths
  import opened Order
  import Dvd
  import External
  import Root
  import Config

  // ---------------------------------------------------------------------------
  // expandHome
  // ---------------------------------------------------------------------------

  /** `expandHome`, with `home` the answer of `os.UserHomeDir` (None: it
      failed). Only the leading "~" is replaced, so "~x" becomes home/x. */
  function ExpandHome(path: string, home: Option<string>): (r: string)
    ensures !HasPrefix(path, "~") ==> r == path
    ensures home.None? ==> r == path
    ensures HasPrefix(path, "~") && home.Some? ==> r == Join([home.value, path[1..]])
  {
    if HasPrefix(path, "~") then
      match home
      case None => path
      case Some(h) => Join([h, path[1..]])
    else path
  }

  /** The default storage path "~/Videos" lands in the Videos directory of a
      clean home directory. */
  lemma DefaultStorageExpands(home: string)
    requires IsCleanAbs(home)
    ensures ExpandHome(DefaultWebStorage, Some(home)) == home + "/Videos"
  {
    assert DefaultWebStorage[1..] == "/" + "Videos";
    NameIsCleanRel("Videos");
    JoinAbsSlashRel(home, "Videos");
  }

  const DefaultWebStorage := "~/Videos"

  /** The storage path is expanded when the flag is declared and again when
      the server starts; with an absolute home directory the second
      expansion changes nothing. */
  lemma ExpandHomeIdempotent(path: string, home: Option<string>)
    requires home.Some? ==> |home.value| > 0 && home.value[0] == '/'
    ensures ExpandHome(ExpandHome(path, home), home) == ExpandHome(path, home)
  {
    if HasPrefix(path, "~") && home.Some? {
      var h := home.value;
      JoinTwo(h, path[1..]);
      var r := ExpandHome(path, home);
      assert r[0] == '/';
    }
  }

  // ---------------------------------------------------------------------------
  // Devices
  // ---------------------------------------------------------------------------

  const DevDir := "/dev/"

  /** A path "/dev/<name>" whose name starts with `prefix` and is listed in /dev. */
  predicate DeviceOf(d: string, dev: seq<string>, prefix: string) {
    HasPrefix(d, DevDir + prefix) && d[|DevDir|..] in dev
  }

  /** A path under /dev that starts with `prefix` is "/dev/" and a name that
      starts with `prefix`. */
  lemma DevPath(x: string, prefix: string)
    requires HasPrefix(x, DevDir + prefix)
    ensures x == DevDir + x[|DevDir|..] && HasPrefix(x[|DevDir|..], prefix)
  {
    assert x[..|DevDir|] == (x[..|DevDir + prefix|])[..|DevDir|];
    assert x[|DevDir|..][..|prefix|] == x[..|DevDir + prefix|][|DevDir|..];
  }

  lemma PathOfName(n: string, prefix: string)
    ensures (DevDir + n)[|DevDir|..] == n
    ensures HasPrefix(n, prefix) ==> HasPrefix(DevDir + n, DevDir + prefix)
  {
    if HasPrefix(n, prefix) {
      assert (DevDir + n)[..|DevDir + prefix|] == DevDir + n[..|prefix|];
    }
  }

  /** The names of a listing that start with `prefix`, in the listing's
      order, as paths under /dev: the matching loop of Go's `glob`. */
  function Matches(dev: seq<string>, prefix: string): (ms: seq<string>)
    ensures forall i :: 0 <= i < |ms| ==> DeviceOf(ms[i], dev, prefix)
    ensures forall n :: n in dev && HasPrefix(n, prefix) ==> DevDir + n in ms
  {
    if |dev| == 0 then []
    else
      var rest := Matches(dev[1..], prefix);
      var d := DevDir + dev[0];
      assert HasPrefix(dev[0], prefix) ==> DeviceOf(d, dev, prefix) by {
        PathOfName(dev[0], prefix);
      }
      assert forall n :: n in dev[1..] ==> n in dev;
      if HasPrefix(dev[0], prefix) then [d] + rest else rest
  }

  /** Each matching name is there as a path exactly as often as the listing
      holds it, and nothing else is. */
  lemma {:induction false} MatchesCount(dev: seq<string>, prefix: string, x: string)
    ensures multiset(Matches(dev, prefix))[x] ==
            if HasPrefix(x, DevDir + prefix) then multiset(dev)[x[|DevDir|..]] else 0
    decreases |dev|
  {
    if |dev| > 0 {
      assert dev == [dev[0]] + dev[1..];
      PathOfName(dev[0], prefix);
      MatchesCount(dev[1..], prefix, x);
      if HasPrefix(x, DevDir + prefix) {
        DevPath(x, prefix);
      }
    }
  }

  /** Matching keeps the order of a sorted listing. */
  lemma {:induction false} MatchesSorted(dev: seq<string>, prefix: string)
    requires Sorted(dev)
    ensures Sorted(Matches(dev, prefix))
    ensures forall y :: LowerBound(y, dev) ==> LowerBound(DevDir + y, Matches(dev, prefix))
    decreases |dev|
  {
    if |dev| > 0 {
      SortedTail(dev);
      MatchesSorted(dev[1..], prefix);
      var rest := Matches(dev[1..], prefix);
      BoundsOfTail(dev);
      forall y | LowerBound(y, dev)
        ensures LowerBound(DevDir + y, Matches(dev, prefix))
      {
        LessUnderPrefix(DevDir, y, dev[0]);
        PrependBound(DevDir + y, DevDir + dev[0], rest);
      }
      if HasPrefix(dev[0], prefix) {
        PrependSorted(DevDir + dev[0], rest);
      }
    }
  }

  /** `filepath.Glob("/dev/" + prefix + "*")`: Go sorts the names /dev
      holds, keeps those the pattern matches and joins each to the directory,
      so the result is sorted whatever order the listing came in. */
  function Glob(dev: seq<string>, prefix: string): (ms: seq<string>)
    ensures Sorted(ms)
    ensures forall i :: 0 <= i < |ms| ==> DeviceOf(ms[i], dev, prefix)
    ensures forall x :: multiset(ms)[x] ==
              if HasPrefix(x, DevDir + prefix) then multiset(dev)[x[|DevDir|..]] else 0
    ensures forall n :: n in dev && HasPrefix(n, prefix) ==> DevDir + n in ms
  {
    var names := Sort(dev);
    MatchesSorted(names, prefix);
    assert forall n :: n in names <==> n in dev by {
      assert forall n :: n in names <==> n in multiset(names);
    }
    assert forall x :: multiset(Matches(names, prefix))[x] ==
             if HasPrefix(x, DevDir + prefix) then multiset(dev)[x[|DevDir|..]] else 0 by {
      forall x
        ensures multiset(Matches(names, prefix))[x] ==
                if HasPrefix(x, DevDir + prefix) then multiset(dev)[x[|DevDir|..]] else 0
      {
        MatchesCount(names, prefix, x);
      }
    }
    Matches(names, prefix)
  }

  /** Two listings of the same names give the same matches. */
  lemma GlobIgnoresListingOrder(dev1: seq<string>, dev2: seq<string>, prefix: string)
    requires multiset(dev1) == multiset(dev2)
    ensures Glob(dev1, prefix) == Glob(dev2, prefix)
  {
    SortIgnoresOrder(dev1, dev2);
  }

  /** The first `k` paths are the sorted `sr` devices and the rest the sorted
      `rdisk` devices. */
  predicate LinuxThenMac(ds: seq<string>, k: int, dev: seq<string>) {
    && 0 <= k <= |ds|
    && (forall i :: 0 <= i < k ==> DeviceOf(ds[i], dev, "sr"))
    && (forall i :: k <= i < |ds| ==> DeviceOf(ds[i], dev, "rdisk"))
    && Sorted(ds[..k]) && Sorted(ds[k..])
  }

  /** The devices of the two patterns, the Linux block first. */
  function Blocks(sr: seq<string>, rdisk: seq<string>, names: seq<string>): (ds: seq<string>)
    requires Sorted(sr) && forall i :: 0 <= i < |sr| ==> DeviceOf(sr[i], names, "sr")
    requires Sorted(rdisk) && forall i :: 0 <= i < |rdisk| ==> DeviceOf(rdisk[i], names, "rdisk")
    requires forall n :: n in names && HasPrefix(n, "sr") ==> DevDir + n in sr
    requires forall n :: n in names && HasPrefix(n, "rdisk") ==> DevDir + n in rdisk
    ensures forall n :: n in names && (HasPrefix(n, "sr") || HasPrefix(n, "rdisk")) ==> DevDir + n in ds
    ensures LinuxThenMac(ds, |sr|, names)
  {
    var ds := sr + rdisk;
    assert forall i :: |sr| <= i < |ds| ==> ds[i] == rdisk[i - |sr|];
    assert ds[..|sr|] == sr && ds[|sr|..] == rdisk;
    ds
  }

  /** `findWebDVDDevices`: the Linux `sr*` devices, then the macOS `rdisk*`
      devices, each block sorted; an empty list (never nil) when /dev cannot
      be read or holds neither. */
  function FindDevices(dev: Option<seq<string>>): (ds: seq<string>)
    ensures dev.None? ==> ds == []
    ensures dev.Some? ==> forall n :: n in dev.value && (HasPrefix(n, "sr") || HasPrefix(n, "rdisk")) ==> DevDir + n in ds
    // the Linux devices first, then the macOS devices, nothing else
    ensures dev.Some? ==> exists k :: LinuxThenMac(ds, k, dev.value)
  {
    match dev
    case None => []
    case Some(names) => Blocks(Glob(names, "sr"), Glob(names, "rdisk"), names)
  }

  // ---------------------------------------------------------------------------
  // Requests and replies
  // ---------------------------------------------------------------------------

  const StatusOK := 200
  const StatusCreated := 201
  const StatusAccepted := 202
  const StatusBadRequest := 400
  const StatusMethodNotAllowed := 405
  const StatusInternalServerError := 500

  /** A decoded JSON object: the string fields it carries. None stands for a
      body `json.Decoder` rejects. */
  type Body = Option<map<string, string>>

  /** A struct field after decoding: a missing key leaves the zero value "". */
  function Field(fields: map<string, string>, key: string): string
  {
    if key in fields then fields[key] else ""
  }

  /** The filesystem call a category request makes. */
  datatype FsCall =
    | MakeDir(path: string)           // os.MkdirAll
    | Move(from: string, to: string)  // os.Rename
    | RemoveDir(path: string)         // os.Remove, which fails on a non-empty directory

  datatype Reply = Reply(status: nat, call: Option<FsCall>)

  /** `filepath.Join(StoragePath, name)`. */
  function CategoryPath(storage: string, name: string): string
  {
    Join([storage, name])
  }

  /** A plain name is a direct child of a clean storage path. */
  lemma CategoryPathUnder(storage: string, name: string)
    requires IsCleanAbs(storage) && IsName(name)
    ensures CategoryPath(storage, name) == storage + "/" + name
  {
    NameIsCleanRel(name);
    JoinAbsRel(storage, name);
  }

  /** `getWebCategories`: the directories of the storage path, in listing
      order (None: `os.ReadDir` failed, giving no categories). */
  function Categories(listing: Option<seq<External.DirEntry>>): (cs: seq<string>)
    ensures listing.None? ==> cs == []
    ensures listing.Some? ==> |cs| <= |listing.value|
    ensures listing.Some? ==> forall e :: e in listing.value && e.isDir ==> e.name in cs
    ensures listing.Some? ==> forall c :: c in cs ==> exists e :: e in listing.value && e.isDir && e.name == c
  {
    match listing
    case None => []
    case Some(es) => DirNames(es)
  }

  function DirNames(es: seq<External.DirEntry>): (cs: seq<string>)
    ensures |cs| <= |es|
    ensures forall e :: e in es && e.isDir ==> e.name in cs
    ensures forall c :: c in cs ==> exists e :: e in es && e.isDir && e.name == c
  {
    if |es| == 0 then []
    else
      var rest := DirNames(es[1..]);
      assert forall e :: e in es[1..] ==> e in es;
      assert forall e :: e in es ==> e == es[0] || e in es[1..];
      if es[0].isDir then [es[0].name] + rest else rest
  }

  /** The POST, PUT and DELETE handlers: a body that does not decode or an
      empty name is 400 before storage is touched; otherwise the call is
      made and its failure is 500. `callOk` says whether it succeeds. */
  function CreateCategory(storage: string, body: Body, callOk: bool): (r: Reply)
    ensures r.call.Some? <==> body.Some? && Field(body.value, "name") != ""
    ensures r.call.Some? ==> r.call.value == MakeDir(CategoryPath(storage, Field(body.value, "name")))
    ensures r.status == (if r.call.None? then StatusBadRequest else if callOk then StatusCreated else StatusInternalServerError)
  {
    match body
    case None => Reply(StatusBadRequest, None)
    case Some(f) =>
      var name := Field(f, "name");
      if name == "" then Reply(StatusBadRequest, None)
      else Reply(if callOk then StatusCreated else StatusInternalServerError, Some(MakeDir(CategoryPath(storage, name))))
  }

  function RenameCategory(storage: string, body: Body, callOk: bool): (r: Reply)
    ensures r.call.Some? <==> body.Some? && Field(body.value, "oldName") != "" && Field(body.value, "newName") != ""
    ensures r.call.Some? ==> r.call.value == Move(CategoryPath(storage, Field(body.value, "oldName")),
                                                CategoryPath(storage, Field(body.value, "newName")))
    ensures r.status == (if r.call.None? then StatusBadRequest else if callOk then StatusOK else StatusInternalServerError)
  {
    match body
    case None => Reply(StatusBadRequest, None)
    case Some(f) =>
      var oldName, newName := Field(f, "oldName"), Field(f, "newName");
      if oldName == "" || newName == "" then Reply(StatusBadRequest, None)
      else Reply(if callOk then StatusOK else StatusInternalServerError,
                 Some(Move(CategoryPath(storage, oldName), CategoryPath(storage, newName))))
  }

  function DeleteCategory(storage: string, body: Body, callOk: bool): (r: Reply)
    ensures r.call.Some? <==> body.Some? && Field(body.value, "name") != ""
    ensures r.call.Some? ==> r.call.value == RemoveDir(CategoryPath(storage, Field(body.value, "name")))
    ensures r.status == (if r.call.None? then StatusBadRequest else if callOk then StatusOK else StatusInternalServerError)
  {
    match body
    case None => Reply(StatusBadRequest, None)
    case Some(f) =>
      var name := Field(f, "name");
      if name == "" then Reply(StatusBadRequest, None)
      else Reply(if callOk then StatusOK else StatusInternalServerError, Some(RemoveDir(CategoryPath(storage, name))))
  }

  /** `handleWebCategories`: GET lists, POST creates, PUT renames, DELETE
      deletes; any other verb is 405 and touches nothing. */
  function HandleCategories(storage: string, verb: string, body: Body, callOk: bool): (r: Reply)
    ensures r.status == StatusMethodNotAllowed <==> verb !in {"GET", "POST", "PUT", "DELETE"}
    ensures verb == "GET" ==> r == Reply(StatusOK, None)
    ensures r.call.Some? ==> verb in {"POST", "PUT", "DELETE"} && body.Some?
    ensures r.status == StatusBadRequest <==> verb in {"POST", "PUT", "DELETE"} && r.call.None?
    ensures r.call.Some? ==> (r.status == StatusInternalServerError <==> !callOk)
    ensures verb == "POST" ==> r.call.None? || r.call.value.MakeDir?
    ensures verb == "PUT" ==> r.call.None? || r.call.value.Move?
    ensures verb == "DELETE" ==> r.call.None? || r.call.value.RemoveDir?
  {
    if verb == "GET" then Reply(StatusOK, None)
    else if verb == "POST" then CreateCategory(storage, body, callOk)
    else if verb == "PUT" then RenameCategory(storage, body, callOk)
    else if verb == "DELETE" then DeleteCategory(storage, body, callOk)
    else Reply(StatusMethodNotAllowed, None)
  }

  // ---------------------------------------------------------------------------
  // Rip requests
  // ---------------------------------------------------------------------------

  datatype RipReply = Rejected(status: nat) | Accepted(job: seq<string>)

  /** The arguments of the background `rip` process. */
  function JobArgs(device: string, category: string, movie: string): seq<string>
  {
    ["dvd", "-d", device, "-c", category, "-m", movie]
  }

  /** `handleWebRip`: only POST; a body that decodes and names a device, a
      category and a movie starts the job and answers 202. */
  function HandleRip(verb: string, body: Body): (r: RipReply)
    ensures r.Rejected? && verb != "POST" ==> r.status == StatusMethodNotAllowed
    ensures r.Rejected? && verb == "POST" ==> r.status == StatusBadRequest
    ensures r.Accepted? <==>
              verb == "POST" && body.Some? &&
              Field(body.value, "device") != "" && Field(body.value, "category") != "" && Field(body.value, "movie") != ""
    ensures r.Accepted? ==>
              r.job == JobArgs(Field(body.value, "device"), Field(body.value, "category"), Field(body.value, "movie"))
  {
    if verb != "POST" then Rejected(StatusMethodNotAllowed)
    else match body
      case None => Rejected(StatusBadRequest)
      case Some(f) =>
        var device, category, movie := Field(f, "device"), Field(f, "category"), Field(f, "movie");
        if device == "" || category == "" || movie == "" then Rejected(StatusBadRequest)
        else Accepted(JobArgs(device, category, movie))
  }

  /** How `rip dvd` reads the job's flags: `-d`, `-c` and `-m` each followed
      by a value, the device defaulting to "/dev/sr0"; anything else is
      refused. */
  function ReadDvdFlags(args: seq<string>, acc: Dvd.DvdFlags): Option<Dvd.DvdFlags>
    decreases |args|
  {
    if |args| == 0 then Some(acc)
    else if |args| == 1 then None
    else if args[0] == "-d" then ReadDvdFlags(args[2..], acc.(device := args[1]))
    else if args[0] == "-c" then ReadDvdFlags(args[2..], acc.(category := args[1]))
    else if args[0] == "-m" then ReadDvdFlags(args[2..], acc.(movie := args[1]))
    else None
  }

  /** A request field that reads as a version flag. */
  predicate IsVersionFlag(x: string) {
    x == "-v" || x == "--version"
  }

  /** The job's process scans its whole command line for a version flag
      before it parses any sub-command: an accepted request prints the
      version, and rips nothing, exactly when one of its fields is `-v` or
      `--version`. */
  lemma AcceptedJobPrintsVersion(verb: string, body: Body, file: Config.ConfigFile, home: Option<string>, ok: bool)
    requires HandleRip(verb, body).Accepted?
    ensures var f := body.value;
            Root.Execute(HandleRip(verb, body).job, file, home, ok) == Root.PrintedVersion <==>
              IsVersionFlag(Field(f, "device")) || IsVersionFlag(Field(f, "category")) || IsVersionFlag(Field(f, "movie"))
  {
    var f := body.value;
    var job := HandleRip(verb, body).job;
    assert job == ["dvd", "-d", Field(f, "device"), "-c", Field(f, "category"), "-m", Field(f, "movie")];
    assert IsVersionFlag(Field(f, "device")) ==> job[2] == Field(f, "device");
    assert IsVersionFlag(Field(f, "category")) ==> job[4] == Field(f, "category");
    assert IsVersionFlag(Field(f, "movie")) ==> job[6] == Field(f, "movie");
  }

  /** An accepted job whose fields are not version flags runs a sub-command
      exactly when the home directory is known, and reaches the `dvd`
      workflow with exactly the requested device, category and movie, so
      the query is the movie, no disc-name discovery runs, and the run
      cannot stop for a missing name or category. */
  lemma AcceptedJobRunsDvd(verb: string, body: Body, w: Dvd.DvdWorld, file: Config.ConfigFile, home: Option<string>, ok: bool)
    requires HandleRip(verb, body).Accepted?
    requires var f := body.value;
             !IsVersionFlag(Field(f, "device")) && !IsVersionFlag(Field(f, "category")) && !IsVersionFlag(Field(f, "movie"))
    ensures var f := body.value;
            var flags := Dvd.DvdFlags(Field(f, "device"), Field(f, "category"), Field(f, "movie"));
            var job := HandleRip(verb, body).job;
            && (Root.Execute(job, file, home, ok).RanCommand? <==> home.Some?)
            && ReadDvdFlags(job[1..], Dvd.DvdFlags(Dvd.DefaultDevice, "", "")) == Some(flags)
            && Dvd.ResolveQuery(flags.movie, [], Dvd.DiscoverMovieName(w.discovery)) == Ok(flags.movie)
            && Dvd.DvdRip(flags, [], w).result != Err(Dvd.NoMovieName)
            && Dvd.DvdRip(flags, [], w).result != Err(Dvd.NoCategory)
            && (Dvd.DvdRip(flags, [], w).result.Ok? <==> w.mounted && w.mkdirOk)
  {
    var f := body.value;
    var device, category, movie := Field(f, "device"), Field(f, "category"), Field(f, "movie");
    JobRunsCommand(device, category, movie, file, home, ok);
    FlagsReachDvd(device, category, movie, w);
  }

  lemma JobRunsCommand(device: string, category: string, movie: string, file: Config.ConfigFile, home: Option<string>, ok: bool)
    requires !IsVersionFlag(device) && !IsVersionFlag(category) && !IsVersionFlag(movie)
    ensures Root.Execute(JobArgs(device, category, movie), file, home, ok).RanCommand? <==> home.Some?
  {
    var job := JobArgs(device, category, movie);
    assert forall i :: 0 <= i < |job| ==> job[i] in {"dvd", "-d", device, "-c", category, "-m", movie};
  }

  /** The job's flags read back as the request, and `dvd` then needs no
      discovery and has a name and a category. */
  lemma FlagsReachDvd(device: string, category: string, movie: string, w: Dvd.DvdWorld)
    requires device != "" && category != "" && movie != ""
    ensures var flags := Dvd.DvdFlags(device, category, movie);
            && ReadDvdFlags(JobArgs(device, category, movie)[1..], Dvd.DvdFlags(Dvd.DefaultDevice, "", "")) == Some(flags)
            && Dvd.ResolveQuery(flags.movie, [], Dvd.DiscoverMovieName(w.discovery)) == Ok(flags.movie)
            && Dvd.DvdRip(flags, [], w).result != Err(Dvd.NoMovieName)
            && Dvd.DvdRip(flags, [], w).result != Err(Dvd.NoCategory)
            && (Dvd.DvdRip(flags, [], w).result.Ok? <==> w.mounted && w.mkdirOk)
  {
    var job := JobArgs(device, category, movie);
    var a0 := Dvd.DvdFlags(Dvd.DefaultDevice, "", "");
    var a1 := a0.(device := device);
    var a2 := a1.(category := category);
    var a3 := a2.(movie := movie);
    assert job[1..] == ["-d", device, "-c", category, "-m", movie];
    assert ReadDvdFlags(["-m", movie], a2) == ReadDvdFlags([], a3) by {
      assert ["-m", movie][2..] == [];
    }
    assert ReadDvdFlags(["-c", category, "-m", movie], a1) == ReadDvdFlags(["-m", movie], a2) by {
      assert ["-c", category, "-m", movie][2..] == ["-m", movie];
    }
    assert ReadDvdFlags(job[1..], a0) == ReadDvdFlags(["-c", category, "-m", movie], a1) by {
      assert job[1..][2..] == ["-c", category, "-m", movie];
    }
  }
}
