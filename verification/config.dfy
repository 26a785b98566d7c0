/** cmd/config.go: the `~/.rip.conf` parser, the fstab reader that finds the
    MergerFS pool, and the choice of the pool disk with the most free space. */
module Config {
  import opened Wrappers
  import opened Text
  import opened Paths
  import Selection

  // ---------------------------------------------------------------------------
  // ~/.rip.conf
  // ---------------------------------------------------------------------------

  datatype Config = Config(storagePath: string)

  const DefaultStoragePath := "/plex/storage"

  const StorageKey := "storage_path"

  /** What reading the configuration file gave: no file, a file that could
      not be read, or its text. */
  datatype ConfigFile = Missing | Unreadable | Contents(text: string)

  /** One line of the file as a trimmed `(key, value)` pair, or nothing for a
      blank line, a `#` comment or a line without `=`. The line is cut at its
      first `=` only. */
  function Entry(line: string): (r: Option<(string, string)>)
    ensures r.Some? ==> '=' in TrimSpace(line) && !HasPrefix(TrimSpace(line), "#")
    ensures r.Some? ==> r.value.0 == TrimSpace(r.value.0) && r.value.1 == TrimSpace(r.value.1)
    ensures r.Some? ==> '=' !in r.value.0
    ensures r.Some? <==> TrimSpace(line) != "" && !HasPrefix(TrimSpace(line), "#") && '=' in TrimSpace(line)
    ensures r.Some? ==> exists k, v :: TrimSpace(line) == k + "=" + v && '=' !in k && r.value == (TrimSpace(k), TrimSpace(v))
  {
    var t := TrimSpace(line);
    if t == "" || HasPrefix(t, "#") then None
    else if '=' !in t then None
    else
      var kv := Cut(t, '=');
      var k := TrimSpace(kv.0);
      assert '=' !in k by { TrimSpaceSub(kv.0); }
      TrimSpaceTwice(kv.0);
      TrimSpaceTwice(kv.1);
      Some((k, TrimSpace(kv.1)))
  }

  lemma TrimSpaceSub(s: string)
    ensures forall c :: c in TrimSpace(s) ==> c in s
  {
    var i, j := TrimSlice(s);
    SliceSub(s, i, j);
  }

  lemma SliceSub(s: string, i: nat, j: nat)
    requires i <= j <= |s|
    ensures forall c :: c in s[i..j] ==> c in s
  {
    forall c | c in s[i..j] ensures c in s {
      var k :| 0 <= k < j - i && s[i..j][k] == c;
      assert s[i + k] == c;
    }
  }

  lemma TrimSpaceTwice(s: string)
    ensures TrimSpace(TrimSpace(s)) == TrimSpace(s)
  {
    TrimSpaceOfTrimmed(TrimSpace(s));
  }

  /** The value of a `storage_path` line, if the line is one. */
  function StorageValue(line: string): Option<string>
  {
    match Entry(line)
    case Some((k, v)) => if k == StorageKey then Some(v) else None
    case None => None
  }

  /** A value beginning `~/` is taken relative to the home directory; any
      other value is used verbatim. */
  function ExpandStoragePath(value: string, home: string): (r: string)
    ensures !HasPrefix(value, "~/") ==> r == value
    ensures HasPrefix(value, "~/") ==> r == Join([home, value[2..]])
  {
    if HasPrefix(value, "~/") then Join([home, value[2..]]) else value
  }

  /** `~/<rest>` lands under a clean home directory as `<home>/<rest>`. */
  lemma StoragePathUnderHome(home: string, rest: string)
    requires IsCleanAbs(home) && IsCleanRel(rest)
    ensures ExpandStoragePath("~/" + rest, home) == home + "/" + rest
  {
    assert ("~/" + rest)[..2] == "~/";
    assert ("~/" + rest)[2..] == rest;
    JoinAbsRel(home, rest);
  }

  /** The `storage_path` value of each line (None for every other line). */
  function StorageValues(lines: seq<string>): (vs: seq<Option<string>>)
    ensures |vs| == |lines|
    ensures forall i :: 0 <= i < |lines| ==> vs[i] == StorageValue(lines[i])
  {
    seq(|lines|, i requires 0 <= i < |lines| => StorageValue(lines[i]))
  }

  /** Applies the lines in order; only `storage_path` lines change anything. */
  function ApplyLines(cfg: Config, vs: seq<Option<string>>, home: string): Config
  {
    if |vs| == 0 then cfg
    else
      match vs[|vs| - 1]
      case Some(v) => Config(ExpandStoragePath(v, home))
      case None => ApplyLines(cfg, vs[..|vs| - 1], home)
  }

  /** The last `storage_path` line wins; with none, the starting value stays. */
  lemma {:induction false} ApplyLinesLastWins(cfg: Config, vs: seq<Option<string>>, home: string)
    ensures (forall i :: 0 <= i < |vs| ==> vs[i].None?) ==> ApplyLines(cfg, vs, home) == cfg
    ensures forall i :: 0 <= i < |vs| && vs[i].Some? && (forall j :: i < j < |vs| ==> vs[j].None?) ==>
                          ApplyLines(cfg, vs, home).storagePath == ExpandStoragePath(vs[i].value, home)
  {
    if forall i :: 0 <= i < |vs| ==> vs[i].None? {
      ApplyLinesNone(cfg, vs, home);
    }
    forall i | 0 <= i < |vs| && vs[i].Some? && (forall j :: i < j < |vs| ==> vs[j].None?)
      ensures ApplyLines(cfg, vs, home).storagePath == ExpandStoragePath(vs[i].value, home)
    {
      ApplyLinesLast(cfg, vs, home, i);
    }
  }

  lemma {:induction false} ApplyLinesNone(cfg: Config, vs: seq<Option<string>>, home: string)
    requires forall i :: 0 <= i < |vs| ==> vs[i].None?
    ensures ApplyLines(cfg, vs, home) == cfg
    decreases |vs|
  {
    if |vs| > 0 {
      var init := vs[..|vs| - 1];
      assert forall i :: 0 <= i < |init| ==> init[i] == vs[i];
      ApplyLinesNone(cfg, init, home);
    }
  }

  lemma {:induction false} ApplyLinesLast(cfg: Config, vs: seq<Option<string>>, home: string, i: nat)
    requires i < |vs| && vs[i].Some? && forall j :: i < j < |vs| ==> vs[j].None?
    ensures ApplyLines(cfg, vs, home).storagePath == ExpandStoragePath(vs[i].value, home)
    decreases |vs|
  {
    var n := |vs| - 1;
    if i < n {
      var init := vs[..n];
      assert vs[n].None?;
      assert forall j :: 0 <= j < |init| ==> init[j] == vs[j];
      ApplyLinesLast(cfg, init, home, i);
    }
  }

  function ParseConfig(text: string, home: string): Config
  {
    ApplyLines(Config(DefaultStoragePath), StorageValues(Split(text, '\n')), home)
  }

  /** Line `i` is a `storage_path` line and no later line is one. */
  predicate LastStorageLine(lines: seq<string>, i: int) {
    && 0 <= i < |lines|
    && StorageValue(lines[i]).Some?
    && forall j :: i < j < |lines| ==> StorageValue(lines[j]).None?
  }

  /** The last `storage_path` line of `lines` decides the storage path, and
      without one the default stays. */
  lemma LinesLastWins(lines: seq<string>, home: string)
    ensures (forall i :: 0 <= i < |lines| ==> StorageValue(lines[i]).None?) ==>
              ApplyLines(Config(DefaultStoragePath), StorageValues(lines), home).storagePath == DefaultStoragePath
    ensures forall i :: LastStorageLine(lines, i) ==>
              ApplyLines(Config(DefaultStoragePath), StorageValues(lines), home).storagePath
                == ExpandStoragePath(StorageValue(lines[i]).value, home)
  {
    var vs := StorageValues(lines);
    if forall i :: 0 <= i < |lines| ==> StorageValue(lines[i]).None? {
      ApplyLinesNone(Config(DefaultStoragePath), vs, home);
    }
    forall i | LastStorageLine(lines, i)
      ensures ApplyLines(Config(DefaultStoragePath), vs, home).storagePath == ExpandStoragePath(StorageValue(lines[i]).value, home)
    {
      ApplyLinesLast(Config(DefaultStoragePath), vs, home, i);
    }
  }

  /** Why `LoadConfig` stops the program: `getConfigPath` found no home
      directory and called `log.Fatalf`. */
  datatype LoadError = NoHomeDir

  /** `LoadConfig`, with `home` the answer of `os.UserHomeDir` (None: it
      failed). `getConfigPath` asks first and a failure is fatal. Otherwise
      the result is the default configuration unless a readable file says
      otherwise, and the second component says whether the default file is
      written (only when no file was found). The `~/` expansion asks again
      and is given the same answer. */
  function LoadConfig(file: ConfigFile, home: Option<string>): (r: Result<(Config, bool), LoadError>)
    ensures r.Err? <==> home.None?
    ensures r.Ok? ==> (r.value.1 <==> file.Missing?)
    ensures r.Ok? && !file.Contents? ==> r.value.0.storagePath == DefaultStoragePath
    ensures r.Ok? && file.Contents? ==>
      (forall i :: 0 <= i < |Split(file.text, '\n')| ==> StorageValue(Split(file.text, '\n')[i]).None?) ==>
        r.value.0.storagePath == DefaultStoragePath
    // the last `storage_path` line of a readable file wins, `~/`-expanded
    ensures r.Ok? && file.Contents? ==>
      forall i :: LastStorageLine(Split(file.text, '\n'), i) ==>
        r.value.0.storagePath == ExpandStoragePath(StorageValue(Split(file.text, '\n')[i]).value, home.value)
  {
    match home
    case None => Err(NoHomeDir)
    case Some(h) =>
      match file
      case Missing => Ok((Config(DefaultStoragePath), true))
      case Unreadable => Ok((Config(DefaultStoragePath), false))
      case Contents(text) =>
        LinesLastWins(Split(text, '\n'), h);
        Ok((ParseConfig(text, h), false))
  }

  /** The line `storage_path=<v>` for a value without surrounding white space
      is read back as exactly that value. */
  lemma StorageLineRoundTrip(v: string, line: string)
    requires v == [] || (!IsSpace(v[0]) && !IsSpace(v[|v| - 1]))
    requires line == StorageKey + "=" + v
    ensures StorageValue(line) == Some(v)
  {
    StorageLineShape(v, line);
    TrimSpaceOfTrimmed(StorageKey);
    TrimSpaceOfTrimmed(v);
    NotCommentLine(line);
    EntryOfTrimmed(line, StorageKey, v);
  }

  lemma StorageLineShape(v: string, line: string)
    requires v == [] || (!IsSpace(v[0]) && !IsSpace(v[|v| - 1]))
    requires line == StorageKey + "=" + v
    ensures TrimSpace(line) == line && line[0] == 's' && '=' in line
    ensures Cut(line, '=') == (StorageKey, v)
  {
    StorageLineTrimmed(v, line);
    assert '=' !in StorageKey;
    CutOf(StorageKey, v, '=');
  }

  lemma StorageLineTrimmed(v: string, line: string)
    requires v == [] || (!IsSpace(v[0]) && !IsSpace(v[|v| - 1]))
    requires line == StorageKey + "=" + v
    ensures TrimSpace(line) == line && line[0] == 's'
  {
    assert line[0] == 's';
    assert line[|line| - 1] == if v == [] then '=' else v[|v| - 1];
    TrimSpaceOfTrimmed(line);
  }

  lemma NotCommentLine(line: string)
    requires |line| > 0 && line[0] != '#'
    ensures !HasPrefix(line, "#")
  {
    assert "#"[0] == '#';
  }

  lemma EntryOfTrimmed(line: string, k: string, v: string)
    requires TrimSpace(line) == line && line != "" && !HasPrefix(line, "#") && '=' in line
    requires Cut(line, '=') == (k, v) && TrimSpace(k) == k && TrimSpace(v) == v
    ensures Entry(line) == Some((k, v))
  {
  }

  // ---------------------------------------------------------------------------
  // /etc/fstab
  // ---------------------------------------------------------------------------

  /** The pool members a single fstab line declares: a trimmed, non-comment
      line mentioning "mergerfs" with at least two fields has its first field
      split on ':'. */
  function PoolLine(line: string): Option<seq<string>>
  {
    var t := TrimSpace(line);
    if t == "" || HasPrefix(t, "#") then None
    else if !Contains(t, "mergerfs") then None
    else
      var fs := Fields(t, IsSpace);
      if |fs| >= 2 then Some(Split(fs[0], ':')) else None
  }

  /** The first pool declaration among the lines. */
  function FirstPool(lines: seq<string>): (r: Option<seq<string>>)
    ensures r.None? <==> forall i :: 0 <= i < |lines| ==> PoolLine(lines[i]).None?
    ensures r.Some? ==> exists i :: 0 <= i < |lines| && PoolLine(lines[i]) == r &&
                                    forall j :: 0 <= j < i ==> PoolLine(lines[j]).None?
  {
    FirstSome(lines, PoolLine)
  }

  /** `GetMergerFSDisks`: nil (None) when /etc/fstab cannot be read or
      declares no pool; otherwise the members of the first declaration. Every
      member list is non-empty, as `strings.Split` never returns an empty
      list. */
  function MergerFSDisks(fstab: Option<string>): (r: Option<seq<string>>)
    ensures fstab.None? ==> r.None?
    ensures fstab.Some? ==> r == FirstPool(Split(fstab.value, '\n'))
    ensures r.Some? ==> |r.value| >= 1 && forall k :: 0 <= k < |r.value| ==> ':' !in r.value[k]
  {
    match fstab
    case None => None
    case Some(text) =>
      var r := FirstPool(Split(text, '\n'));
      assert r.Some? ==> |r.value| >= 1 && forall k :: 0 <= k < |r.value| ==> ':' !in r.value[k] by {
        if r.Some? {
          var lines := Split(text, '\n');
          var i :| 0 <= i < |lines| && PoolLine(lines[i]) == r;
        }
      }
      r
  }

  /** The fstab line of a pool, written as `/etc/fstab` holds it: the member
      paths joined with ':', the mount point, the type, the options. */
  function PoolEntryText(members: seq<string>, mountPoint: string): string
  {
    JoinSep(members, ':') + " " + mountPoint + " fuse.mergerfs defaults"
  }

  /** A pool line declares exactly the members it was written from. */
  lemma PoolLineRoundTrip(members: seq<string>, mountPoint: string)
    requires |members| >= 1 && members[0] != "" && members[0][0] != '#'
    requires forall i :: 0 <= i < |members| ==> ':' !in members[i]
    requires forall i, k :: 0 <= i < |members| && 0 <= k < |members[i]| ==> !IsSpace(members[i][k])
    ensures PoolLine(PoolEntryText(members, mountPoint)) == Some(members)
  {
    var j := JoinSep(members, ':');
    SplitHead(members, ':');
    assert j[0] == members[0][0];
    JoinSepNoSpace(members);
    PoolTextShape(j, mountPoint);
    PoolFields(j, mountPoint);
    PoolLineOf(PoolEntryText(members, mountPoint), j);
    SplitJoinSep(members, ':');
  }

  /** The whole-line checks of the fstab scan on a pool line. */
  lemma PoolTextShape(j: string, mountPoint: string)
    requires j != "" && j[0] != '#' && !IsSpace(j[0])
    ensures var line := j + " " + mountPoint + " fuse.mergerfs defaults";
            TrimSpace(line) == line && line != "" && !HasPrefix(line, "#") && Contains(line, "mergerfs")
  {
    PoolLineEdges(j, mountPoint);
    TrimSpaceOfTrimmed(j + " " + mountPoint + " fuse.mergerfs defaults");
    PoolLineMentionsMergerfs(j, mountPoint);
  }

  lemma PoolLineEdges(j: string, mountPoint: string)
    requires j != "" && j[0] != '#' && !IsSpace(j[0])
    ensures var line := j + " " + mountPoint + " fuse.mergerfs defaults";
            line != "" && line[0] == j[0] && line[|line| - 1] == 's' && !HasPrefix(line, "#")
  {
    var line := j + " " + mountPoint + " fuse.mergerfs defaults";
    assert line[0] == j[0];
    assert line[..1] == [j[0]];
  }

  lemma PoolLineMentionsMergerfs(j: string, mountPoint: string)
    ensures Contains(j + " " + mountPoint + " fuse.mergerfs defaults", "mergerfs")
  {
    assert j + " " + mountPoint + " fuse.mergerfs defaults" == j + " " + mountPoint + " fuse." + "mergerfs" + " defaults";
    ContainsConcat(j + " " + mountPoint + " fuse.", "mergerfs", " defaults");
  }

  /** The fields of a pool line: the member list comes first, and more follow. */
  lemma PoolFields(j: string, mountPoint: string)
    requires j != "" && forall k :: 0 <= k < |j| ==> !IsSpace(j[k])
    ensures var fs := Fields(j + " " + mountPoint + " fuse.mergerfs defaults", IsSpace);
            |fs| >= 2 && fs[0] == j
  {
    var tail := " " + mountPoint + " fuse.mergerfs defaults";
    assert j + " " + mountPoint + " fuse.mergerfs defaults" == j + tail;
    assert tail[0] == ' ' && tail[|tail| - 1] == 's';
    FieldsOfWord(j, tail);
    FieldsNonEmpty(tail, |tail| - 1);
  }

  /** A word followed by a separator is the first field. */
  lemma FieldsOfWord(j: string, tail: string)
    requires j != "" && forall k :: 0 <= k < |j| ==> !IsSpace(j[k])
    requires tail != "" && IsSpace(tail[0])
    ensures Fields(j + tail, IsSpace) == [j] + Fields(tail, IsSpace)
  {
    var line := j + tail;
    SpanOfWord(j, tail);
    assert line[..|j|] == j;
    assert line[|j|..] == tail;
  }

  lemma SpanOfWord(j: string, tail: string)
    requires forall k :: 0 <= k < |j| ==> !IsSpace(j[k])
    requires tail != "" && IsSpace(tail[0])
    ensures Span(j + tail, IsSpace) == |j|
  {
    var line := j + tail;
    var n := Span(line, IsSpace);
    assert line[|j|] == tail[0];
    assert forall k :: 0 <= k < |j| ==> line[k] == j[k];
  }

  lemma PoolLineOf(line: string, j: string)
    requires TrimSpace(line) == line && line != "" && !HasPrefix(line, "#") && Contains(line, "mergerfs")
    requires |Fields(line, IsSpace)| >= 2 && Fields(line, IsSpace)[0] == j
    ensures PoolLine(line) == Some(Split(j, ':'))
  {
  }

  /** Joining space-free members with ':' gives a space-free text. */
  lemma {:induction false} JoinSepNoSpace(members: seq<string>)
    requires forall i, k :: 0 <= i < |members| && 0 <= k < |members[i]| ==> !IsSpace(members[i][k])
    ensures forall k :: 0 <= k < |JoinSep(members, ':')| ==> !IsSpace(JoinSep(members, ':')[k])
  {
    if |members| > 1 {
      var tail := members[1..];
      JoinSepNoSpace(tail);
      var a, b := members[0], JoinSep(tail, ':');
      assert JoinSep(members, ':') == a + [':'] + b;
      forall k | 0 <= k < |a + [':'] + b| ensures !IsSpace((a + [':'] + b)[k]) {
        if k < |a| {
          assert IsSpace(a[k]) == IsSpace(members[0][k]);
        } else if k > |a| {
          assert (a + [':'] + b)[k] == b[k - |a| - 1];
        }
      }
    }
  }

  /** A text with a non-separator character has a field. */
  lemma {:induction false} FieldsNonEmpty(s: string, k: nat)
    requires k < |s| && !IsSpace(s[k])
    ensures |Fields(s, IsSpace)| >= 1
    decreases |s|
  {
    if IsSpace(s[0]) {
      FieldsNonEmpty(s[1..], k - 1);
    }
  }

  // ---------------------------------------------------------------------------
  // Disk with most space
  // ---------------------------------------------------------------------------

  const TwoTo64: nat := 0x1_0000_0000_0000_0000

  /** The part of `statfs` the selection reads: free blocks for unprivileged
      users and the block size. */
  datatype Statfs = Statfs(bavail: nat, bsize: nat)

  /** A pool member and the outcome of `statfs` on it (None: the call failed). */
  datatype PoolDisk = PoolDisk(path: string, stat: Option<Statfs>)

  datatype DiskError = NoDiskPaths | NoDiskDetermined

  /** `stat.Bavail * uint64(stat.Bsize)`: a 64-bit unsigned product, which
      wraps around. */
  function Available(st: Statfs): (n: nat)
    ensures n < TwoTo64
    ensures st.bavail * st.bsize < TwoTo64 ==> n == st.bavail * st.bsize
  {
    (st.bavail * st.bsize) % TwoTo64
  }

  /** The space the scan compares: a disk whose `statfs` failed never beats
      anything, exactly as if it had no space. */
  function Space(d: PoolDisk): nat
  {
    match d.stat
    case Some(st) => Available(st)
    case None => 0
  }

  function Spaces(disks: seq<PoolDisk>): (xs: seq<nat>)
    ensures |xs| == |disks|
    ensures forall i :: 0 <= i < |disks| ==> xs[i] == Space(disks[i])
  {
    seq(|disks|, i requires 0 <= i < |disks| => Space(disks[i]))
  }

  /** `GetDiskWithMostSpace`. There is no minimum free-space threshold: any
      positive amount on the winning disk is enough. */
  function DiskWithMostSpace(disks: seq<PoolDisk>): (r: Result<string, DiskError>)
    ensures |disks| == 0 ==> r == Err(NoDiskPaths)
    ensures r.Ok? ==> exists i :: (0 <= i < |disks| && r.value == disks[i].path && r.value != ""
                                   && disks[i].stat.Some? && Space(disks[i]) > 0
                                   && (forall j :: 0 <= j < |disks| ==> Space(disks[j]) <= Space(disks[i]))
                                   && (forall j :: 0 <= j < i ==> Space(disks[j]) < Space(disks[i])))
    ensures |disks| > 0 && (forall j :: 0 <= j < |disks| ==> Space(disks[j]) == 0) ==> r == Err(NoDiskDetermined)
    ensures (exists j :: 0 <= j < |disks| && Space(disks[j]) > 0) && (forall j :: 0 <= j < |disks| ==> disks[j].path != "") ==>
              r.Ok?
  {
    if |disks| == 0 then Err(NoDiskPaths)
    else
      match Selection.FirstMax(Spaces(disks))
      case None => Err(NoDiskDetermined)
      case Some(i) =>
        if disks[i].path == "" then Err(NoDiskDetermined) else Ok(disks[i].path)
  }
}
