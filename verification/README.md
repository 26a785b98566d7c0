# rip — a Dafny model of the disc-ripping workflows

`rip` is a Go command-line tool. It rips DVDs and TV-show discs with MakeMKV, names the results with FileBot, and files them under a Plex storage pool. It also serves a small web control surface and updates MakeMKV from source.

This project models the decision and text-processing logic of its `cmd` package in Dafny:

- **`dvd`**: choosing the movie query, parsing MakeMKV's `CINFO` and `TINFO` lines, picking the longest title, `toCamelCase`, and building the output path. It also covers the order of the external commands and the fatal checks.
- **`tv`**: the `season-disc` argument, the `Unknown/<CamelCase>` fallback, the `Season NN` directory, the episode-length band of `cleanupPlayAll`, and the season-qualified rename. It also covers the order of the commands and the fatal checks.
- **Configuration** (`config.go`): the `~/.rip.conf` parser, the fstab reader that finds the MergerFS pool, and the choice of the pool disk with the most free space.
- **`root.go`**: the `-v` short-circuit, the mapping from a `disc:N` specifier back to `/dev/srN`, and the sequential renaming of `.mkv` files.
- **`web.go`**: home expansion, the device list, the category requests and their validation, and the argument vector of the background rip job.
- **`update.go`**: the version scraped from the download page, the installed check, the build directory, the verification banner, and the order of the update steps.

External programs, the filesystem and the clock never run in the model. Each workflow receives a "world" value holding the answers it would get: a tool's output or failure, whether a directory could be created, a directory listing. The `dvd` and `tv` workflows return their MakeMKV, FileBot, `mountpoint`, mkdir and eject commands in the order they would be issued, together with the result or fatal error. The update workflow returns its downloads in order, the directories it builds in, and its outcome, but no sequence of its other commands.

Go's `filepath.Join` and `Clean` are modelled in full (`Paths`), including the skipping of leading empty elements. So are `strings.Split`, `SplitN`, `TrimSpace` (over Go's `unicode.IsSpace` set) and `FieldsFunc` (`Text`). Regular-expression matches follow Go's leftmost-first semantics (`Text.Leftmost`). The first-strict-maximum scan shared by title and disk selection is in `Selection`. Go's string order, and the sort that `filepath.Glob` applies to a directory's names, are in `Order`.

Behaviours of the code a reader may not expect, all modelled as written:

- `GetDiskWithMostSpace` applies no minimum free-space threshold. Any positive amount on the winning disk is enough (cmd/config.go:193-201).
- A failed movie rip is not fatal. `dvdrip` prints a message and goes on to rename and eject (cmd/dvd.go:110-113).
- `fetchMetadata` always queries TheMovieDB, also for TV shows (cmd/dvd.go:164).
- The TV rename reports success whatever FileBot does (cmd/tv.go:246-252).
- `Execute` scans the whole command line for `-v` or `--version` (cmd/root.go:29-34). The web rip job passes the request's fields on that command line (cmd/web.go:322-330), so a request whose device, category or movie is `-v` is accepted with 202 but only prints the version.

## Model

| member | source | states |
|---|---|---|
| `Config.Entry` | cmd/config.go:35-46 | A line yields a pair exactly when its trimmed form is non-blank, not a `#` comment and contains `=`. The pair is the trimmed text before the first `=` and the trimmed text after it. |
| `Config.StoragePathUnderHome` | cmd/config.go:50-53 | `~/<rest>` under a clean home directory is `<home>/<rest>`. |
| `Config.ApplyLinesLastWins` | cmd/config.go:43-55 | With no `storage_path` line the configuration is unchanged. Otherwise the last such line decides the storage path, `~/`-expanded. |
| `Config.LoadConfig` | cmd/config.go:18-73 | An unknown home directory is fatal before the file is looked at, because `getConfigPath` calls `log.Fatalf`. Otherwise the default file is written exactly when no file exists. A missing or unreadable file, or a file without `storage_path` lines, gives `/plex/storage`. In a readable file, the last `storage_path` line gives the storage path, `~/`-expanded. |
| `Config.LinesLastWins` | cmd/config.go:34-57 | Over the file's lines, the last `storage_path` line decides the storage path, and with none the default `/plex/storage` stays. |
| `Config.StorageLineRoundTrip` | cmd/config.go:34-55 | The line `storage_path=<v>`, for a value without surrounding white space, is read back as exactly `v`. |
| `Config.FirstPool` | cmd/config.go:133-154 | The pool comes from the first line that declares one, and from no earlier line. None exactly when no line declares a pool. |
| `Config.MergerFSDisks` | cmd/config.go:126-155 | An unreadable fstab gives nil. Otherwise the result is the pool of the first line that declares one (`FirstPool`), a non-empty list of colon-free member paths. |
| `Config.PoolLineRoundTrip` | cmd/config.go:133-150 | A line `m1:m2:… <mount> fuse.mergerfs defaults` declares exactly the members `m1, m2, …`, for members without colons or white space. |
| `Config.Available` | cmd/config.go:185 | The free space is free blocks times block size, taken modulo 2^64 as Go's `uint64` product: below 2^64, and the exact product whenever that fits. |
| `Selection.FirstMax` | cmd/config.go:171-191 | The scan picks nothing exactly when every value is 0. Otherwise it picks a positive maximum that is strictly greater than every earlier value, so the first maximum wins. |
| `Config.DiskWithMostSpace` | cmd/config.go:166-201 | No paths is an error, and so is having no disk with positive space. A disk is selected whenever some stat gives positive space and no path is empty. A selected disk's stat succeeded, its space is maximal and positive, every earlier disk had strictly less, and there is no threshold. |
| `Root.VersionShortCircuits` | cmd/root.go:27-43 | With a version flag anywhere the outcome is the version printout, whatever the configuration, the home directory and the sub-command. Without one, two runs agree exactly when both stop on an unknown home directory, or both load the same configuration and their sub-commands agree. |
| `Text.FirstDigitRunUnique` | cmd/root.go:87-90 | The first run of digits of a text (no digit before it, none right after it) is unique, so the extractors' contracts determine their results. |
| `Root.ExtractDevicePath` | cmd/root.go:85-91 | The result is `/dev/sr` followed by the first run of digits of the specifier: no digit before it, none right after it, and nothing when the specifier has no digit. |
| `Root.TargetNamesDistinct` | cmd/root.go:111-120 | Distinct listing positions receive distinct target names. |
| `Root.RenameMkvFile` | cmd/root.go:93-131 | A malformed glob or an empty listing is an error and renames nothing. Otherwise file `j` goes to `dir/filename[j].mkv`. The loop stops at the first failed rename with that rename's error, keeping the earlier ones, and succeeds exactly when every file was renamed. |
| `Dvd.FetchMetadata` | cmd/dvd.go:162-173 | A failed lookup gives "". Otherwise the result has no newline and no surrounding white space, and it sits in the output between white space from the start and white space up to the first newline or the end. |
| `Dvd.FetchMetadataOfLine` | cmd/dvd.go:170-172 | Any output whose first line is a result padded with white space, followed by more lines or by nothing, reads back as the result. |
| `Dvd.FinalNameOfLookup` | cmd/dvd.go:84-91 | The final name is the result on FileBot's first line, and the query unchanged when FileBot fails or its first line is blank. |
| `Dvd.ExtractDriveIndex` | cmd/dvd.go:178-182 | The result is the first run of digits of the device path: no digit before it, none right after it, and "" exactly when the path has no digit. |
| `Dvd.DriveIndexOfSr` | cmd/dvd.go:175-182 | `/dev/srN` gives `N` for any digit string `N`. |
| `Dvd.EjectTarget` | cmd/dvd.go:104-105 | The ejected device is `/dev/sr` followed by the device's drive index, whatever the device path. |
| `Dvd.DevicePathRoundTrip` | cmd/root.go:85-91 | `/dev/srN` to `disc:N` and back gives `/dev/srN`. |
| `Dvd.ToCamelCase` | cmd/dvd.go:304-322 | The result holds only letters and digits: exactly those of the input, in order, each either kept or upper-cased. |
| `Dvd.ToCamelCaseIsCamelFrom` | cmd/dvd.go:307-319 | The word-splitting definition agrees with a one-character-at-a-time reading that upper-cases exactly the first character of each word. |
| `Dvd.ToCamelCaseIdempotent` | cmd/dvd.go:304-322 | Camel-casing a camel-cased name changes nothing. |
| `Dvd.CinfoCapture` | cmd/dvd.go:257-264 | A capture is non-empty, follows `CINFO:2,0,"`, and ends at the last `"` of the line. No capture on a line with the prefix means no later quote. |
| `Dvd.CinfoRoundTrip` | cmd/dvd.go:257-264 | A disc-title line reads back as its title, even when the title contains quotes. |
| `Dvd.FirstCapture` | cmd/dvd.go:260-266 | The capture comes from the first line that has one. None exactly when no line has one. |
| `Dvd.DiscoverMovieName` | cmd/dvd.go:244-267 | A failed MakeMKV query gives "". Otherwise the result is the capture of the first line that carries a disc title, and "" exactly when no line does. |
| `Dvd.DiscoverFirstLine` | cmd/dvd.go:257-264 | A title line at the top of the output is what discovery returns. |
| `Dvd.TinfoAt` | cmd/dvd.go:209 | A match means the text starts with `TINFO:<id>,27,<n>,"<d>"` for some digit run `n`, and yields the non-empty digit runs `id` and `d`. |
| `Dvd.TinfoRoundTrip` | cmd/dvd.go:208-216 | A `TINFO:id,27,n,"d"` line reads back as `(id, d)`, whatever follows it. |
| `Dvd.FindTinfo` | cmd/dvd.go:212-216 | The match is at the leftmost position of the line where the pattern matches. None exactly when it matches nowhere. |
| `Dvd.Titles` | cmd/dvd.go:212-222 | The collected titles are exactly those found on some line: a title is collected if and only if `FindTinfo` finds it on one of the lines. Each has a non-empty id and a digit duration. |
| `Dvd.TitlesAppend` | cmd/dvd.go:212-222 | The titles of two consecutive blocks of output are those of the first block followed by those of the second, so the list holds one title per matching line, in line order. |
| `Dvd.LongestUnique` | cmd/dvd.go:217-221 | At most one title satisfies the selection rule. |
| `Dvd.ChooseTitle` | cmd/dvd.go:209-229 | The chosen id is that of the longest positive title, the first among equals. It is `"0"` when no title has a positive duration. |
| `Dvd.ScanTitles` | cmd/dvd.go:209-229 | The loop as written, with `""` meaning no title yet, computes exactly `ChooseTitle`. |
| `Dvd.MovieOutDirShape` | cmd/dvd.go:95-97 | For a plain category and a name with a letter or digit, the output directory is `/plex/storage/<category>/<CamelCase name>`. |
| `Dvd.RipCommands` | cmd/dvd.go:194-234 | The info query comes first and the deferred eject last in every case. The rip of the chosen title with `--minlength=3600` happens exactly when the query succeeded. |
| `Dvd.Prepare` | cmd/dvd.go:53-100 | The query priority is `-m`, then the argument, then discovery, which issues a MakeMKV query. The fatal checks follow in the program's order (`Dvd.FirstFatal`): no name, no category, pool not mounted, mkdir failure. The error is the first check that fails. No name or no category stops after the discovery query alone, and an unmounted pool stops right after the `mountpoint` check. Otherwise the FileBot lookup and the mkdir of `/plex/storage/<category>/<CamelCase final name>` follow. |
| `Dvd.DvdRip` | cmd/dvd.go:43-131 | The run is fatal exactly when a `Dvd.FirstFatal` check fails, with that error and the preparation's commands. A failed rip is not fatal. The output directory is `/plex/storage/<category>/<CamelCase final name>`. Every rip targets it with minimum length 3600, a rip happens exactly when the info query ran, and a successful run ends with eject, rename and eject. |
| `Dvd.Complete` | cmd/dvd.go:103-125 | The prepared commands are kept. The tail is the deferred eject, the TheMovieDB rename and the second eject, and the result is unchanged. |
| `Tv.ParseSeasonDisc` | cmd/tv.go:46-52 | An accepted argument is `season-disc` with no `-` in either part. There is no numeric check. |
| `Tv.ParseSeasonDiscOf` | cmd/tv.go:46-52 | Any text with exactly one `-` is accepted and split there. |
| `Tv.ZeroPad2` | cmd/tv.go:77 | The result has the input as its suffix and only zeros before it, and is two characters long unless the input is longer. |
| `Tv.SeasonNumberPadded` | cmd/tv.go:77 | Seasons 1 to 99 become exactly two digits with the same value. |
| `Tv.OutDirShape` | cmd/tv.go:77-78 | For clean paths the output directory is `storage/showPath/Season NN`, and it is clean. |
| `Tv.FallbackOutDir` | cmd/tv.go:62-78 | With no lookup result the output directory is `storage/Unknown/<CamelCase>/Season NN`. |
| `Tv.Judge` | cmd/tv.go:139-166 | A length counts as an episode exactly in the inclusive band 600..3900. It is too short exactly below 600. |
| `Tv.Removed` | cmd/tv.go:126-168 | Without `ffprobe` nothing is removed. Otherwise exactly the files whose probe ran and whose length is outside the band are removed (an unparsable output counts as 0 seconds). |
| `Tv.CleanupPartition` | cmd/tv.go:142-167 | Every listed file is either removed or kept, never both (multiset partition). |
| `Tv.SurvivorsKept` | cmd/tv.go:129-166 | A file stays when `ffprobe` is absent, its probe failed, or its length is inside the band. |
| `Tv.RenameFormat` | cmd/tv.go:230 | The format is `{n} - S<season>E{e} - {t}`, with the season at a fixed position. |
| `Tv.RenameFormatInjective` | cmd/tv.go:230 | Different seasons give different formats. |
| `Tv.TvPrepare` | cmd/tv.go:41-81 | A bad season-disc argument is fatal before any command. An invalid storage path is fatal exactly when the argument parses and storage does not verify, also before any command. A mkdir failure is fatal exactly when both of those pass and mkdir fails, after the lookup and the mkdir. A successful preparation issues the lookup and the mkdir of `storage/showPath/Season NN`. |
| `Tv.TvRip` | cmd/tv.go:38-117 | The run succeeds exactly when the argument parses, storage verifies, mkdir works and the rip works, and a failed rip is fatal and last. A successful run removes exactly the discarded files, then renames and ejects. |
| `Tv.DiscIgnored` | cmd/tv.go:223-230 | Two discs of one season are ripped and renamed alike. |
| `Web.DefaultStorageExpands` | cmd/web.go:38 | `~/Videos` becomes `<home>/Videos` for a clean home directory. |
| `Web.ExpandHomeIdempotent` | cmd/web.go:38-58 | Expanding the storage path a second time at start-up changes nothing. |
| `Web.Glob` | cmd/web.go:99-107 | The matches are sorted in Go's string order, whatever order /dev lists its names in. Each `/dev/<name>` with the prefix occurs exactly as often as the listing holds `name`, and nothing else occurs. |
| `Web.GlobIgnoresListingOrder` | cmd/web.go:99-107 | Two listings of the same names give the same matches. |
| `Web.FindDevices` | cmd/web.go:95-116 | The list is the sorted `sr` devices followed by the sorted `rdisk` devices and nothing else. It is an empty list when /dev cannot be read or holds neither kind. |
| `Web.CategoryPathUnder` | cmd/web.go:247-263 | A plain category name is a direct child of a clean storage path. |
| `Web.Categories` | cmd/web.go:228-244 | The categories are exactly the directory entries of the storage path, and none when it cannot be read. |
| `Web.CreateCategory` | cmd/web.go:145-170 | A bad body or empty name is 400 before storage is touched. Otherwise mkdir of the category path, answering 201 or 500. |
| `Web.RenameCategory` | cmd/web.go:173-198 | A bad body or an empty old or new name is 400. Otherwise the rename of the two category paths, answering 200 or 500. |
| `Web.DeleteCategory` | cmd/web.go:201-225 | A bad body or empty name is 400. Otherwise removal of the category path, answering 200 or 500. |
| `Web.HandleCategories` | cmd/web.go:119-134 | Any verb other than GET/POST/PUT/DELETE is 405. Each verb makes only its own kind of filesystem call, and 400 means no call was made. |
| `Web.HandleRip` | cmd/web.go:266-298 | A verb other than POST is 405 and a missing field is 400. A job is started exactly for a decodable POST naming device, category and movie, with the arguments `dvd -d <device> -c <category> -m <movie>`. |
| `Web.AcceptedJobRunsDvd` | cmd/web.go:318-330 | When no field of the request is a version flag, the job runs its sub-command exactly when the home directory is known. It reaches `dvd` with exactly the requested flags, so no discovery runs and the rip cannot fail for a missing name or category. |
| `Web.AcceptedJobPrintsVersion` | cmd/web.go:318-330 | An accepted request's job only prints the version exactly when its device, category or movie is `-v` or `--version`. |
| `Update.VersionAt` | cmd/update.go:94 | A capture is three non-empty digit runs joined by dots, right after `makemkv-oss-`, and no digit follows it (the last run is taken whole). |
| `Update.VersionAtComplete` | cmd/update.go:94 | Wherever `makemkv-oss-a.b.c` starts, with digit runs `a`, `b`, `c` and no digit after `c`, the pattern matches and captures `a.b.c`. |
| `Update.LatestVersion` | cmd/update.go:86-101 | A failed fetch gives "". Otherwise the version is the capture at the leftmost place of the page where the pattern matches, and "" exactly when it matches nowhere. |
| `Update.LatestVersionOf` | cmd/update.go:94-98 | A page starting with a release archive name gives back its version. |
| `Update.InstalledByPrefix` | cmd/update.go:112 | A longer version that starts with the wanted one also counts as installed. |
| `Update.InstalledIff` | cmd/update.go:104-113 | The version counts as installed exactly when the tool ran and its output has `v<version>` somewhere in it. |
| `Update.FirstBuildDir` | cmd/update.go:145-151 | The pick is the first entry that is a directory with the package prefix and no `.tar.gz` suffix. None exactly when there is no such entry. |
| `Update.BuildMakeMkv` | cmd/update.go:132-176 | The build succeeds exactly when extraction, listing and all three build steps work and a build directory exists, and it builds in that directory. A missing directory is its own error. |
| `Update.StaleBuildDirChosen` | cmd/update.go:145-151 | A directory left by an earlier version that is listed first is the one chosen. |
| `Update.StaleListedFirst` | cmd/update.go:139-145 | `os.ReadDir` sorts the names, so a left-over tree whose version sorts before the new one is listed first, whatever order the two appeared in. |
| `Update.EarlierReleaseListedFirst` | cmd/update.go:139-145 | `makemkv-oss-1.17.6` is listed before `makemkv-oss-1.17.7`. |
| `Update.BuildDirFor` | cmd/update.go:145-151 | The corrected choice is always `workDir/<pkg>-<version>`, and "" exactly when no such directory is listed. |
| `Update.BuildDirIgnoresStale` | cmd/update.go:145-151 | Under the corrected choice, left-over directories of other versions change nothing. |
| `Update.VerifiedByBanner` | cmd/update.go:186-190 | A first line containing `MakeMKV` verifies the installation, whatever follows. |
| `Update.NotVerifiedLater` | cmd/update.go:186-193 | `MakeMKV` on a later line only does not verify it. |
| `Update.FetchBoth` | cmd/update.go:55-65 | Archives already present are not downloaded, and a failed source download stops the binary one. The run fails exactly when a needed download fails, and a failure names the URL of the last download. |
| `Update.UpdateMakeMkv` | cmd/update.go:30-83 | No version is fatal, and an installed version stops before any download. An update succeeds exactly when it proceeds and both downloads and builds succeed, and each package is built in the first directory of the listing named after it. The verification banner only qualifies success. |
| `Update.UpdateReportsStaleBuild` | cmd/update.go:68-82 | With a left-over source tree of another version listed first, the update builds that tree and still reports the new version as installed. |
| `Update.UpdateMakeMkvFor` | cmd/update.go:30-83 | The corrected update takes the same steps, but a successful one has built exactly in `<pkg>-<version>` for both packages. |
| `Paths.JoinAbsRel` | cmd/web.go:248 | A clean absolute path joined with a clean relative path is their concatenation with one `/`, and is clean. |
| `Paths.JoinAbsSlashRel` | cmd/web.go:50 | The stray `/` left by `path[1:]` of `~/x` is cleaned away. |
| `Paths.JoinAbsRelRel` | cmd/dvd.go:97 | Three clean elements join to their plain concatenation. |

## Findings

| source | as written | input that shows it | evidently intended | confidence | as-written member | corrected member |
|---|---|---|---|---|---|---|
| cmd/update.go:145-151 | The build directory is the first directory of `/tmp/makemkv` whose name starts with the package name. The work directory is never emptied, and `os.ReadDir` lists names in sorted order. | The work directory holds `makemkv-oss-1.17.6/` from an earlier update, and `makemkv-oss-1.17.7/` has just been extracted. Version 1.17.6 is configured, built and installed, and the update reports success for 1.17.7. | Build in the directory unpacked from the archive of the version being installed, `<pkg>-<version>`. | medium, not executed | `Update.UpdateReportsStaleBuild` | `Update.BuildDirFor` |

`UpdateMakeMkv` and `BuildMakeMkv` model the code as written, and `StaleBuildDirChosen` shows the directory pick on its own. `StaleListedFirst` and `EarlierReleaseListedFirst` show that the sorted listing puts the earlier release first. `UpdateMakeMkvFor` and `BuildMakeMkvFor` use the corrected choice, and `BuildDirIgnoresStale` proves that left-over directories no longer matter.

## Left out

- Subprocesses (makemkvcon, filebot, ffprobe, eject, mountpoint, curl, wget, tar, configure/make) are not executed. Each one's output or success is an input. Only the `dvd` and `tv` rip, lookup, mkdir, rename and eject commands are returned as an ordered list of `External.Command` values.
- `cleanupPlayAll`'s `exec.LookPath("ffprobe")` check and its per-file `ffprobe` probes (cmd/tv.go:126-166) are not in any command list. `Tv.TvRip` takes their answers as the `ffprobe` and `ProbedFile` inputs, so the model does not record when they run.
- The update's page fetch, `makemkvcon info`, `tar`, `./configure`, `make` and `make install` (cmd/update.go:86-194) have no ordered record. `Update.UpdateMakeMkv` reports only the downloads, the build directories and the outcome.
- Filesystem effects (`MkdirAll`, `Remove`, `Rename`, `Glob`, `ReadDir`, `Stat`, `WriteFile`) are not modelled. A listing or an outcome is an input. `Web.Glob` keeps the part of Go's `filepath.Glob` that decides its result: the names are sorted, then matched.
- Commands are structured `External.Command` values with one field per argument. The program instead formats each command as one string, which `script.Exec` splits into words again. For example, the TV rip leaves the `Season NN` directory unquoted (cmd/tv.go:196), and `fetchMetadata` quotes its query with `'...'` (cmd/dvd.go:164). Paths or names containing spaces or quotes are therefore split differently by the program, and the model does not capture that.
- `VerifyStoragePath` (cmd/config.go:98-122) is not modelled: its verdict is the `storageOk` input of the `tv` workflow.
- `createDefaultConfig` (cmd/config.go:75-95) is file I/O. `LoadConfig` only reports whether the default file is written. The path `getConfigPath` builds is not modelled, only its fatal failure.
- `os.UserHomeDir` is not modelled: the home directory is an `Option` parameter. `LoadConfig` calls it twice, once in `getConfigPath` (fatal on failure) and once for a `~/` storage path (error ignored). The model assumes both calls give the same answer, so the second never fails.
- `syscall.Statfs` is not modelled: each disk's statistics are an input. The `%.2f GB` printout (cmd/config.go:198) is output only.
- `ffprobe` output is read as "integer seconds truncated toward zero, or unparsable". Floating point, including NaN and infinities, is not modelled.
- The disc number's `fmt.Sscanf` (cmd/tv.go:223-226) has no effect on the result and is not modelled.
- Go's `fmt` `%02s` is modelled as left-padding with `0` to width 2 (`Tv.ZeroPad2`).
- `Dvd.ToCamelCase`: letters and digits are ASCII only. Go's `unicode.IsLetter`/`IsDigit` also accept other scripts, which the model treats as separators. `unicode.ToUpper` of the first byte is ASCII upper-casing.
- `formatDriveForMakeMKV` is not part of this model. It is the uninterpreted parameter `formatDrive` of `Tv.TvRip`.
- cobra's flag parsing is reduced to its result: the flags and positional arguments are inputs. `Web.ReadDvdFlags` reads only the `-d`/`-c`/`-m` pairs that the web job passes. `dvdCmd` declares `cobra.NoArgs`, but `Dvd.Prepare` still models the positional-argument branch of dvd.go:58-60.
- The HTTP server, JSON encoding and decoding, and the static file server are not modelled. A request is a verb and its decoded fields, and a reply is a status and the filesystem call it makes. `handleWebDevices` and `handleWebStatus` (cmd/web.go:81-92, 301-314) only serialize `findWebDVDDevices` and the configuration.
- The goroutine running `executeWebRipJob` is not modelled: `Web.HandleRip` returns the job's argument vector, and its outcome is only logged.
- Spinner output, `fmt.Printf` and `log` messages are not modelled. `log.Fatal` becomes an error result.
- cmd/version.go (the version constant) is not part of this model.
