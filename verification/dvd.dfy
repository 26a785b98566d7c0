/** cmd/dvd.go: choosing the movie name, the output directory, the title to
    rip, and the order of the external commands of the `dvd` workflow. */
module Dvd {
  import opened Wrappers
  import opened External
  import opened Text
  import opened Paths
  import opened Selection
  import Root

  const MovieStorage := "/plex/storage"

  /** `--minlength` of the movie rip, in seconds. */
  const MovieMinLength: nat := 3600

  const MovieFormat := "{n} ({y})"

  // ---------------------------------------------------------------------------
  // fetchMetadata
  // ---------------------------------------------------------------------------

  /** `r` is the first line of `o` with the white space around it removed:
      it sits between white space running from the start of `o` and white
      space running up to the first newline (or the end). */
  ghost predicate PaddedFirstLine(o: string, r: string) {
    exists i, j, e :: (0 <= i <= j <= e <= |o| && r == o[i..j] && AllSpace(o[..i]) && AllSpace(o[j..e])
                       && '\n' !in o[..e] && (e == |o| || o[e] == '\n'))
  }

  /** `fetchMetadata`: the first line of FileBot's output with the white
      space around it removed; "" when FileBot fails. */
  function FetchMetadata(out: ToolResult): (r: string)
    ensures out.Failed? ==> r == ""
    ensures '\n' !in r && IsTrimmed(r)
    ensures out.Ran? ==> PaddedFirstLine(out.stdout, r)
  {
    match out
    case Failed => ""
    case Ran(o) => MetadataOf(o)
  }

  /** The trimmed first line of an output. */
  function MetadataOf(o: string): (r: string)
    ensures '\n' !in r && IsTrimmed(r)
    ensures exists i, j :: 0 <= i <= j <= |o| && r == o[i..j]
    ensures PaddedFirstLine(o, r)
  {
    TrimmedLineFacts(o);
    TrimSpace(FirstLine(o))
  }

  lemma TrimmedLineFacts(o: string)
    ensures '\n' !in TrimSpace(FirstLine(o))
    ensures PaddedFirstLine(o, TrimSpace(FirstLine(o)))
  {
    TrimmedLineOf(o, FirstLine(o));
  }

  lemma TrimmedLineOf(o: string, l: string)
    requires '\n' !in l && HasPrefix(o, l) && (l == o || o[|l|] == '\n')
    ensures '\n' !in TrimSpace(l)
    ensures PaddedFirstLine(o, TrimSpace(l))
  {
    var i, j := TrimSlice(l);
    NoNewlineInSlice(l, i, j);
    PrefixSlices(o, l, i, j);
    PaddedFirstLineAt(o, TrimSpace(l), i, j, |l|);
  }

  /** The pieces of a prefix `l` of `o` are the same pieces of `o`. */
  lemma PrefixSlices(o: string, l: string, i: nat, j: nat)
    requires HasPrefix(o, l) && i <= j <= |l|
    ensures o[..|l|] == l && o[i..j] == l[i..j] && o[..i] == l[..i] && o[j..|l|] == l[j..]
  {
    assert o[..|l|] == l;
    SliceOfPrefix(o, l, i, j);
    assert o[..i] == l[..i];
    assert o[j..|l|] == l[j..];
  }

  lemma PaddedFirstLineAt(o: string, r: string, i: nat, j: nat, e: nat)
    requires i <= j <= e <= |o| && r == o[i..j] && AllSpace(o[..i]) && AllSpace(o[j..e])
    requires '\n' !in o[..e] && (e == |o| || o[e] == '\n')
    ensures PaddedFirstLine(o, r)
  {
  }

  lemma SliceOfPrefix(o: string, l: string, i: nat, j: nat)
    requires |l| <= |o| && o[..|l|] == l && i <= j <= |l|
    ensures l[i..j] == o[i..j]
  {
  }

  lemma NoNewlineInSlice(l: string, i: nat, j: nat)
    requires '\n' !in l && i <= j <= |l|
    ensures '\n' !in l[i..j]
  {
    forall m | 0 <= m < j - i ensures l[i..j][m] != '\n' {
      assert l[i..j][m] == l[i + m];
    }
  }

  /** Any output whose first line is a result padded with white space is
      read back as that result, whether more lines follow or not. */
  lemma FetchMetadataOfLine(a: string, v: string, b: string, rest: string)
    requires AllSpace(a) && AllSpace(b) && '\n' !in a + v + b
    requires IsTrimmed(v)
    requires rest == "" || rest[0] == '\n'
    ensures FetchMetadata(Ran(a + v + b + rest)) == v
  {
    var line := a + v + b;
    assert a + v + b + rest == line + rest;
    FirstLineBefore(line, rest);
    if v == "" {
      AllSpaceConcat(a, b);
      assert a + v + b == a + b;
      TrimSpaceAllSpace(a + b);
    } else {
      TrimSpaceAround(a, v, b);
    }
  }

  lemma AllSpaceConcat(a: string, b: string)
    requires AllSpace(a) && AllSpace(b)
    ensures AllSpace(a + b)
  {
    assert forall k :: 0 <= k < |a + b| ==> (a + b)[k] == if k < |a| then a[k] else b[k - |a|];
  }

  lemma TrimSpaceAllSpace(s: string)
    requires AllSpace(s)
    ensures TrimSpace(s) == ""
  {
    var n := LeadingSpace(s);
    assert n == |s|;
  }

  /** The first line ends where the text before a newline (or the end) does. */
  lemma FirstLineBefore(line: string, rest: string)
    requires '\n' !in line && (rest == "" || rest[0] == '\n')
    ensures FirstLine(line + rest) == line
  {
    var s := line + rest;
    var l := FirstLine(s);
    assert forall k :: 0 <= k < |line| ==> s[k] == line[k];
    assert forall k :: 0 <= k < |l| ==> s[k] == l[k];
    assert |line| < |s| ==> s[|line|] == '\n';
    assert |l| == |line|;
    assert s[..|line|] == line;
  }

  lemma FirstLineOf(line: string, rest: string)
    requires '\n' !in line
    ensures FirstLine(line + "\n" + rest) == line
  {
    assert line + "\n" + rest == line + ("\n" + rest);
    FirstLineBefore(line, "\n" + rest);
  }

  /** The movie name the workflow settles on: the metadata result when there
      is one, else the query unchanged. */
  function FinalName(query: string, metadata: string): (r: string)
    ensures metadata != "" ==> r == metadata
    ensures metadata == "" ==> r == query
  {
    if metadata == "" then query else metadata
  }

  /** The name after the lookup: the result on FileBot's first line when
      there is one, and the query when FileBot fails or prints a blank line. */
  lemma FinalNameOfLookup(query: string, a: string, v: string, b: string, rest: string)
    requires AllSpace(a) && AllSpace(b) && '\n' !in a + v + b
    requires IsTrimmed(v)
    requires rest == "" || rest[0] == '\n'
    ensures FinalName(query, FetchMetadata(Ran(a + v + b + rest))) == if v == "" then query else v
    ensures FinalName(query, FetchMetadata(Failed)) == query
  {
    FetchMetadataOfLine(a, v, b, rest);
  }

  // ---------------------------------------------------------------------------
  // Drive index
  // ---------------------------------------------------------------------------

  /** `extractDriveIndex`: the first run of ASCII digits in the device path. */
  function ExtractDriveIndex(device: string): (d: string)
    ensures AllDigits(d)
    ensures d == "" <==> NoDigits(device)
    ensures exists i :: 0 <= i <= |device| - |d| && OccursAt(device, d, i) && NoDigits(device[..i])
    ensures IsFirstDigitRun(device, d)
  {
    var d := LeftmostDigitRun(device);
    var k := FirstDigit(device);
    assert OccursAt(device, d, k);
    LeftmostDigitRunIsFirst(device);
    d
  }

  /** The MakeMKV drive specifier `disc:<index>`. */
  function DriveSpec(device: string): string
  {
    "disc:" + ExtractDriveIndex(device)
  }

  /** "/dev/srN" gives the index N. */
  lemma DriveIndexOfSr(n: string)
    requires AllDigits(n)
    ensures ExtractDriveIndex(Root.DevicePrefix + n) == n
  {
    LeftmostDigitRunAfter(Root.DevicePrefix, n);
  }

  /** Whatever device is named, the disc that is ejected is "/dev/sr" followed
      by the device's drive index. */
  lemma EjectTarget(device: string)
    ensures Root.ExtractDevicePath(DriveSpec(device)) == Root.DevicePrefix + ExtractDriveIndex(device)
  {
    LeftmostDigitRunAfter("disc:", ExtractDriveIndex(device));
  }

  /** The round trip of cmd/root.go and cmd/dvd.go: device "/dev/srN" to
      "disc:N" and back to "/dev/srN". */
  lemma DevicePathRoundTrip(n: string)
    requires AllDigits(n)
    ensures Root.ExtractDevicePath(DriveSpec(Root.DevicePrefix + n)) == Root.DevicePrefix + n
  {
    DriveIndexOfSr(n);
    EjectTarget(Root.DevicePrefix + n);
  }

  // ---------------------------------------------------------------------------
  // toCamelCase
  // ---------------------------------------------------------------------------

  /** The word separators of `toCamelCase`: everything that is not an
      (ASCII) letter or digit. */
  predicate IsWordBreak(c: char) { !IsAlnum(c) }

  function Capitalize(w: string): (r: string)
    ensures |r| == |w|
    ensures |w| > 0 ==> r[0] == ToUpper(w[0]) && r[1..] == w[1..]
  {
    if |w| == 0 then "" else [ToUpper(w[0])] + w[1..]
  }

  function CapitalizeAll(ws: seq<string>): (rs: seq<string>)
    ensures |rs| == |ws|
  {
    if |ws| == 0 then [] else [Capitalize(ws[0])] + CapitalizeAll(ws[1..])
  }

  /** `toCamelCase`: the words between non-alphanumerics, each with its first
      character upper-cased, concatenated. The result holds exactly the
      letters and digits of the input, in order, some of them upper-cased. */
  function ToCamelCase(s: string): (r: string)
    ensures forall k :: 0 <= k < |r| ==> IsAlnum(r[k])
    ensures |r| == |Keep(s, IsWordBreak)|
    ensures forall k :: 0 <= k < |r| ==> r[k] == Keep(s, IsWordBreak)[k] || r[k] == ToUpper(Keep(s, IsWordBreak)[k])
  {
    var ws := Fields(s, IsWordBreak);
    var r := Concat(CapitalizeAll(ws));
    FieldsKeep(s, IsWordBreak);
    CapitalizeAllShape(ws);
    r
  }

  lemma {:induction false} CapitalizeAllShape(ws: seq<string>)
    requires forall i, k :: 0 <= i < |ws| && 0 <= k < |ws[i]| ==> IsAlnum(ws[i][k])
    ensures |Concat(CapitalizeAll(ws))| == |Concat(ws)|
    ensures forall k :: 0 <= k < |Concat(ws)| ==> IsAlnum(Concat(CapitalizeAll(ws))[k])
    ensures forall k :: 0 <= k < |Concat(ws)| ==>
              Concat(CapitalizeAll(ws))[k] == Concat(ws)[k] || Concat(CapitalizeAll(ws))[k] == ToUpper(Concat(ws)[k])
  {
    if |ws| > 0 {
      var w, c := ws[0], Capitalize(ws[0]);
      CapitalizeAllShape(ws[1..]);
      var a, b := Concat(ws[1..]), Concat(CapitalizeAll(ws[1..]));
      assert Concat(ws) == w + a;
      assert CapitalizeAll(ws) == [c] + CapitalizeAll(ws[1..]);
      assert Concat(CapitalizeAll(ws)) == c + b;
      forall k | 0 <= k < |w + a|
        ensures IsAlnum((c + b)[k])
        ensures (c + b)[k] == (w + a)[k] || (c + b)[k] == ToUpper((w + a)[k])
      {
        if k < |w| {
          assert IsAlnum(w[k]);
          if k > 0 { assert c[k] == c[1..][k - 1] == w[k]; }
        } else {
          assert (c + b)[k] == b[k - |w|];
          assert (w + a)[k] == a[k - |w|];
        }
      }
    }
  }

  /** An independent, character-at-a-time reading of `toCamelCase`: drop
      every separator and upper-case each character that follows a separator
      or starts the text. */
  function CamelFrom(s: string, atWordStart: bool): string
  {
    if |s| == 0 then ""
    else if IsWordBreak(s[0]) then CamelFrom(s[1..], true)
    else [if atWordStart then ToUpper(s[0]) else s[0]] + CamelFrom(s[1..], false)
  }

  /** `toCamelCase` agrees with the character-at-a-time reading. */
  lemma {:induction false} ToCamelCaseIsCamelFrom(s: string)
    ensures ToCamelCase(s) == CamelFrom(s, true)
    decreases |s|
  {
    if |s| > 0 {
      if IsWordBreak(s[0]) {
        ToCamelCaseIsCamelFrom(s[1..]);
        assert Fields(s, IsWordBreak) == Fields(s[1..], IsWordBreak);
      } else {
        var n := Span(s, IsWordBreak);
        var w := s[..n];
        ToCamelCaseIsCamelFrom(s[n..]);
        assert Fields(s, IsWordBreak) == [w] + Fields(s[n..], IsWordBreak);
        assert CapitalizeAll([w] + Fields(s[n..], IsWordBreak)) == [Capitalize(w)] + CapitalizeAll(Fields(s[n..], IsWordBreak));
        assert ToCamelCase(s) == Capitalize(w) + ToCamelCase(s[n..]);
        WordThenRest(s, n);
      }
    }
  }

  /** Reading one word from the start of a word. */
  lemma WordThenRest(s: string, n: nat)
    requires 0 < n <= |s| && n == Span(s, IsWordBreak)
    ensures CamelFrom(s, true) == Capitalize(s[..n]) + CamelFrom(s[n..], true)
  {
    CamelStep(s);
    RestOfWord(s, n);
    CapitalizeHead(s, n);
    ConsAssoc(ToUpper(s[0]), s[1..n], CamelFrom(s[n..], true));
  }

  lemma CamelStep(s: string)
    requires |s| > 0 && !IsWordBreak(s[0])
    ensures CamelFrom(s, true) == [ToUpper(s[0])] + CamelFrom(s[1..], false)
  {
  }

  lemma CapitalizeHead(s: string, n: nat)
    requires 0 < n <= |s|
    ensures Capitalize(s[..n]) == [ToUpper(s[0])] + s[1..n]
  {
    assert s[..n][1..] == s[1..n];
  }

  lemma RestOfWord(s: string, n: nat)
    requires 0 < n <= |s| && n == Span(s, IsWordBreak)
    ensures CamelFrom(s[1..], false) == s[1..n] + CamelFrom(s[n..], true)
  {
    var t := s[1..];
    ShiftedWord(s, t, n);
    InsideWord(t, n - 1);
    assert t[..n - 1] == s[1..n];
    assert t[n - 1..] == s[n..];
  }

  /** The word of `s` without its first letter is the word `s[1..]` starts with. */
  lemma ShiftedWord(s: string, t: string, n: nat)
    requires 0 < n <= |s| && t == s[1..]
    requires forall k :: 0 <= k < n ==> !IsWordBreak(s[k])
    requires n == |s| || IsWordBreak(s[n])
    ensures forall k :: 0 <= k < n - 1 ==> !IsWordBreak(t[k])
    ensures n - 1 == |t| || IsWordBreak(t[n - 1])
  {
    assert forall k :: 0 <= k < n - 1 ==> t[k] == s[k + 1];
  }

  lemma ConsAssoc(u: char, x: string, y: string)
    ensures [u] + (x + y) == ([u] + x) + y
  {
  }

  lemma {:induction false} InsideWord(s: string, n: nat)
    requires n <= |s|
    requires forall k :: 0 <= k < n ==> !IsWordBreak(s[k])
    requires n == |s| || IsWordBreak(s[n])
    ensures CamelFrom(s, false) == s[..n] + CamelFrom(s[n..], true)
    decreases n
  {
    if n == 0 {
      if |s| > 0 {
        assert CamelFrom(s, false) == CamelFrom(s[1..], true);
      }
    } else {
      InsideWord(s[1..], n - 1);
      assert s[1..][..n - 1] == s[1..n];
      assert s[1..][n - 1..] == s[n..];
      assert s[..n] == [s[0]] + s[1..n];
    }
  }

  /** Camel-casing a camel-cased name changes nothing. */
  lemma ToCamelCaseIdempotent(s: string)
    ensures ToCamelCase(ToCamelCase(s)) == ToCamelCase(s)
  {
    var r := ToCamelCase(s);
    ToCamelCaseIsCamelFrom(s);
    ToCamelCaseIsCamelFrom(r);
    if |r| > 0 {
      CamelStart(s, true);
      NoBreakCamel(r[1..]);
      assert r == [r[0]] + r[1..];
      assert CamelFrom(r, true) == [ToUpper(r[0])] + CamelFrom(r[1..], false);
    }
  }

  /** The first character of a camel-cased text started at a word start is
      upper-cased (or a digit). */
  lemma {:induction false} CamelStart(s: string, atWordStart: bool)
    requires atWordStart && |CamelFrom(s, atWordStart)| > 0
    ensures ToUpper(CamelFrom(s, atWordStart)[0]) == CamelFrom(s, atWordStart)[0]
    decreases |s|
  {
    if IsWordBreak(s[0]) {
      CamelStart(s[1..], true);
    }
  }

  /** Without separators, the character-at-a-time reading outside a word
      start keeps the text unchanged. */
  lemma {:induction false} NoBreakCamel(s: string)
    requires forall k :: 0 <= k < |s| ==> IsAlnum(s[k])
    ensures CamelFrom(s, false) == s
    decreases |s|
  {
    if |s| > 0 {
      NoBreakCamel(s[1..]);
      assert s == [s[0]] + s[1..];
    }
  }

  // ---------------------------------------------------------------------------
  // discoverMovieName: (?m)^CINFO:2,0,"(.+)"
  // ---------------------------------------------------------------------------

  const CinfoPrefix := "CINFO:2,0,\""

  /** The index of the last '"' in `s`. */
  function LastQuote(s: string): (r: Option<nat>)
    ensures r.None? ==> '"' !in s
    ensures r.Some? ==> r.value < |s| && s[r.value] == '"' && '"' !in s[r.value + 1..]
  {
    if |s| == 0 then None
    else if s[|s| - 1] == '"' then Some(|s| - 1)
    else
      var r := LastQuote(s[..|s| - 1]);
      assert r.Some? ==> s[r.value + 1..] == s[..|s| - 1][r.value + 1..] + [s[|s| - 1]];
      r
  }

  /** The capture of the disc-title pattern on one line: after the prefix, the
      greedy `.+` runs up to the last '"' of the line and must not be empty. */
  function CinfoCapture(line: string): (r: Option<string>)
    ensures r.Some? ==> |r.value| >= 1 && HasPrefix(line, CinfoPrefix + r.value + "\"")
                        && '"' !in line[|CinfoPrefix| + |r.value| + 1..]
    ensures r.None? && HasPrefix(line, CinfoPrefix) ==>
              forall k :: |CinfoPrefix| + 1 <= k < |line| ==> line[k] != '"'
  {
    if !HasPrefix(line, CinfoPrefix) then None
    else
      var rest := line[|CinfoPrefix|..];
      match LastQuote(rest)
      case None =>
        assert forall k :: |CinfoPrefix| + 1 <= k < |line| ==> line[k] == rest[k - |CinfoPrefix|];
        None
      case Some(j) =>
        if j >= 1 then
          assert line[..|CinfoPrefix| + j + 1] == CinfoPrefix + rest[..j] + "\"";
          assert line[|CinfoPrefix| + j + 1..] == rest[j + 1..];
          Some(rest[..j])
        else
          assert forall k :: |CinfoPrefix| + 1 <= k < |line| ==> line[k] == rest[k - |CinfoPrefix|];
          assert forall k :: 1 <= k < |rest| ==> rest[k] == rest[j + 1..][k - 1];
          None
  }

  /** A disc-title line is read back as the title, even when the title holds
      quotes itself, provided nothing after the closing quote does. */
  lemma CinfoRoundTrip(name: string, tail: string)
    requires name != "" && '"' !in tail
    ensures CinfoCapture(CinfoPrefix + name + "\"" + tail) == Some(name)
  {
    var line := CinfoPrefix + name + "\"" + tail;
    assert HasPrefix(line, CinfoPrefix);
    var rest := line[|CinfoPrefix|..];
    assert rest == name + "\"" + tail;
    var j := |name|;
    assert rest[j] == '"';
    var r := LastQuote(rest);
    assert rest[j + 1..] == tail;
    assert r.Some? && r.value == j;
    assert rest[..j] == name;
  }

  /** The capture on the first line that has one. */
  function FirstCapture(lines: seq<string>): (r: Option<string>)
    ensures r.None? <==> forall i :: 0 <= i < |lines| ==> CinfoCapture(lines[i]).None?
    ensures r.Some? ==> exists i :: 0 <= i < |lines| && CinfoCapture(lines[i]) == r &&
                                    forall j :: 0 <= j < i ==> CinfoCapture(lines[j]).None?
  {
    if |lines| == 0 then None
    else if CinfoCapture(lines[0]).Some? then CinfoCapture(lines[0])
    else
      var r := FirstCapture(lines[1..]);
      assert forall i :: 0 <= i < |lines[1..]| ==> lines[1..][i] == lines[i + 1];
      if r.Some? then
        var i :| 0 <= i < |lines[1..]| && CinfoCapture(lines[1..][i]) == r &&
                 forall j :: 0 <= j < i ==> CinfoCapture(lines[1..][j]).None?;
        assert CinfoCapture(lines[i + 1]) == r;
        assert forall j :: 0 <= j < i + 1 ==> CinfoCapture(lines[j]).None? by {
          forall j | 0 <= j < i + 1 ensures CinfoCapture(lines[j]).None? {
            if j > 0 { assert lines[j] == lines[1..][j - 1]; }
          }
        }
        r
      else
        r
  }

  /** `discoverMovieName`: the disc title from MakeMKV's information output;
      "" when MakeMKV fails or no line carries a title. */
  function DiscoverMovieName(info: ToolResult): (r: string)
    ensures info.Failed? ==> r == ""
    ensures info.Ran? ==> (r == "" <==> FirstCapture(Split(info.stdout, '\n')).None?)
    ensures info.Ran? && FirstCapture(Split(info.stdout, '\n')).Some? ==> r == FirstCapture(Split(info.stdout, '\n')).value
  {
    match info
    case Failed => ""
    case Ran(out) =>
      match FirstCapture(Split(out, '\n'))
      case None => ""
      case Some(name) => name
  }

  /** A title line at the top of the output is what discovery finds. */
  lemma DiscoverFirstLine(name: string, tail: string, rest: string)
    requires name != "" && '"' !in tail && '\n' !in name + tail
    ensures DiscoverMovieName(Ran(CinfoPrefix + name + "\"" + tail + "\n" + rest)) == name
  {
    var line := CinfoPrefix + name + "\"" + tail;
    assert '\n' !in line by {
      assert line == CinfoPrefix + (name + "\"" + tail);
      assert forall k :: 0 <= k < |line| ==> line[k] != '\n' by {
        forall k | 0 <= k < |line| ensures line[k] != '\n' {
          if k < |CinfoPrefix| {
          } else if k < |CinfoPrefix| + |name| {
            assert line[k] == (name + tail)[k - |CinfoPrefix|];
          } else if k > |CinfoPrefix| + |name| {
            assert line[k] == (name + tail)[k - |CinfoPrefix| - 1];
          }
        }
      }
    }
    var out := line + "\n" + rest;
    FirstLineOf(line, rest);
    CinfoRoundTrip(name, tail);
    var lines := Split(out, '\n');
    assert lines[0] == line;
  }

  // ---------------------------------------------------------------------------
  // Title selection in runDVDMakeMKV: TINFO:(\d+),27,\d+,"(\d+)"
  // ---------------------------------------------------------------------------

  /** The two captures of a title line: the title id and its duration. */
  datatype TitleInfo = TitleInfo(id: string, duration: string)

  /** The pattern anchored at the start of `s`. */
  function TinfoAt(s: string): (r: Option<TitleInfo>)
    ensures r.Some? ==> r.value.id != "" && AllDigits(r.value.id) && r.value.duration != "" && AllDigits(r.value.duration)
    ensures r.Some? ==> exists n :: n != "" && AllDigits(n) && HasPrefix(s, TinfoText(r.value.id, n, r.value.duration))
  {
    match After(s, "TINFO:")
    case None => None
    case Some(s1) =>
      match Digits(s1)
      case None => None
      case Some((id, s2)) =>
        match After(s2, ",27,")
        case None => None
        case Some(s3) =>
          match Digits(s3)
          case None => None
          case Some((n, s4)) =>
            match After(s4, ",\"")
            case None => None
            case Some(s5) =>
              match Digits(s5)
              case None => None
              case Some((d, s6)) =>
                if HasPrefix(s6, "\"") then
                  TinfoReassemble(s, s1, id, s2, s3, n, s4, s5, d, s6);
                  Some(TitleInfo(id, d))
                else None
  }

  /** A title line written out in MakeMKV's robot format. */
  function TinfoText(id: string, seconds: string, duration: string): string
  {
    "TINFO:" + id + ",27," + seconds + ",\"" + duration + "\""
  }

  /** The pieces of an anchored match put back together. */
  lemma TinfoReassemble(s: string, s1: string, id: string, s2: string, s3: string, n: string,
                        s4: string, s5: string, d: string, s6: string)
    requires s == "TINFO:" + s1 && s1 == id + s2 && s2 == ",27," + s3 && s3 == n + s4
    requires s4 == ",\"" + s5 && s5 == d + s6 && HasPrefix(s6, "\"")
    ensures HasPrefix(s, TinfoText(id, n, d))
  {
    var t := TinfoText(id, n, d);
    assert s == t + s6[1..];
    assert s[..|t|] == t;
  }

  /** A title line is read back as its id and duration, whatever follows it. */
  lemma TinfoRoundTrip(id: string, seconds: string, duration: string, rest: string)
    requires id != "" && AllDigits(id) && seconds != "" && AllDigits(seconds)
    requires duration != "" && AllDigits(duration)
    ensures TinfoAt(TinfoText(id, seconds, duration) + rest) == Some(TitleInfo(id, duration))
  {
    var s4 := ",\"" + duration + "\"" + rest;
    var s2 := ",27," + seconds + s4;
    var s := "TINFO:" + id + s2;
    assert TinfoText(id, seconds, duration) + rest == s;
    var s5 := duration + "\"" + rest;
    assert s4 == ",\"" + s5;
    assert s2 == ",27," + seconds + ",\"" + s5;
    assert seconds + s4 == seconds + ",\"" + s5;
    assert s5 == duration + "\"" + rest;
    assert s2[..1] == ",";
    TinfoHead(id, s2);
    TinfoMiddle(seconds, s5);
    TinfoTail(duration, rest);
    TinfoAtOf(s, id + s2, id, s2, seconds + s4, s4, s5, duration, "\"" + rest);
  }

  /** Unfolds the pattern once its pieces are known. */
  lemma TinfoAtOf(s: string, s1: string, id: string, s2: string, s3: string, s4: string,
                  s5: string, d: string, s6: string)
    requires After(s, "TINFO:") == Some(s1) && Digits(s1) == Some((id, s2))
    requires After(s2, ",27,") == Some(s3) && Digits(s3).Some? && Digits(s3).value.1 == s4
    requires After(s4, ",\"") == Some(s5) && Digits(s5) == Some((d, s6)) && HasPrefix(s6, "\"")
    ensures TinfoAt(s) == Some(TitleInfo(id, d))
  {
  }

  lemma TinfoHead(id: string, s2: string)
    requires id != "" && AllDigits(id) && HasPrefix(s2, ",")
    ensures After("TINFO:" + id + s2, "TINFO:") == Some(id + s2)
    ensures Digits(id + s2) == Some((id, s2))
  {
    assert "TINFO:" + id + s2 == "TINFO:" + (id + s2);
    AfterOf("TINFO:", id + s2);
    DigitsOf(id, s2);
  }

  lemma TinfoMiddle(seconds: string, s5: string)
    requires seconds != "" && AllDigits(seconds)
    ensures After(",27," + seconds + ",\"" + s5, ",27,") == Some(seconds + ",\"" + s5)
    ensures Digits(seconds + ",\"" + s5) == Some((seconds, ",\"" + s5))
    ensures After(",\"" + s5, ",\"") == Some(s5)
  {
    assert ",27," + seconds + ",\"" + s5 == ",27," + (seconds + ",\"" + s5);
    AfterOf(",27,", seconds + ",\"" + s5);
    assert seconds + ",\"" + s5 == seconds + (",\"" + s5);
    DigitsOf(seconds, ",\"" + s5);
    AfterOf(",\"", s5);
  }

  lemma TinfoTail(duration: string, rest: string)
    requires duration != "" && AllDigits(duration)
    ensures Digits(duration + "\"" + rest) == Some((duration, "\"" + rest))
    ensures HasPrefix("\"" + rest, "\"")
  {
    assert duration + "\"" + rest == duration + ("\"" + rest);
    DigitsOf(duration, "\"" + rest);
  }

  /** What `FindStringSubmatch` finds on a line: the match at the leftmost
      position where the pattern matches. */
  function FindTinfo(line: string): (r: Option<TitleInfo>)
    ensures r.None? <==> forall i :: 0 <= i <= |line| ==> TinfoAt(line[i..]).None?
    ensures r.Some? ==> exists i :: 0 <= i <= |line| && TinfoAt(line[i..]) == r &&
                                    forall j :: 0 <= j < i ==> TinfoAt(line[j..]).None?
    ensures r.Some? ==> r.value.id != "" && AllDigits(r.value.duration)
  {
    Leftmost(line, TinfoAt)
  }

  /** Some line of `lines` is the `TINFO` line of title `t`. */
  predicate FoundOn(t: TitleInfo, lines: seq<string>) {
    exists i :: 0 <= i < |lines| && FindTinfo(lines[i]) == Some(t)
  }

  /** The titles of the information output, one per matching line, in order. */
  function Titles(lines: seq<string>): (ts: seq<TitleInfo>)
    ensures |ts| <= |lines|
    ensures forall k :: 0 <= k < |ts| ==> ts[k].id != "" && AllDigits(ts[k].duration)
    ensures forall t :: t in ts <==> FoundOn(t, lines)
  {
    if |lines| == 0 then []
    else
      var init := lines[..|lines| - 1];
      var found := FindTinfo(lines[|lines| - 1]);
      var ts := TitlesStep(Titles(init), found);
      TitlesMembers(lines, init, Titles(init), found, ts, FindTinfo);
      ts
  }

  /** The titles keep the order of their lines: those of the first lines
      come before those of the lines after them. With the one-line case of
      `Titles`, this determines the whole sequence. */
  lemma {:induction false} TitlesAppend(a: seq<string>, b: seq<string>)
    ensures Titles(a + b) == Titles(a) + Titles(b)
    decreases |b|
  {
    if |b| == 0 {
      assert a + b == a;
    } else {
      var b', last := b[..|b| - 1], b[|b| - 1];
      assert b == b' + [last];
      assert a + b == (a + b') + [last];
      TitlesAppend(a, b');
      AppendLast(a, b', last);
    }
  }

  /** The inductive step of `TitlesAppend`: one more line after `b`. */
  lemma AppendLast(a: seq<string>, b: seq<string>, last: string)
    requires Titles(a + b) == Titles(a) + Titles(b)
    ensures Titles((a + b) + [last]) == Titles(a) + Titles(b + [last])
  {
    TitlesLast(a + b, last);
    TitlesLast(b, last);
    StepAppend(Titles(a), Titles(b), FindTinfo(last));
  }

  lemma TitlesLast(init: seq<string>, last: string)
    ensures Titles(init + [last]) == TitlesStep(Titles(init), FindTinfo(last))
  {
    assert (init + [last])[..|init|] == init;
  }

  lemma StepAppend(x: seq<TitleInfo>, y: seq<TitleInfo>, found: Option<TitleInfo>)
    requires forall k :: 0 <= k < |x| ==> x[k].id != "" && AllDigits(x[k].duration)
    requires forall k :: 0 <= k < |y| ==> y[k].id != "" && AllDigits(y[k].duration)
    requires found.Some? ==> found.value.id != "" && AllDigits(found.value.duration)
    ensures forall k :: 0 <= k < |x + y| ==> (x + y)[k].id != "" && AllDigits((x + y)[k].duration)
    ensures TitlesStep(x + y, found) == x + TitlesStep(y, found)
  {
    assert forall k :: 0 <= k < |x + y| ==> (x + y)[k] == if k < |x| then x[k] else y[k - |x|];
    if found.Some? {
      assert (x + y) + [found.value] == x + (y + [found.value]);
    }
  }

  /** A single line contributes its title, if it has one. */
  lemma TitlesOfLine(line: string)
    ensures Titles([line]) == if FindTinfo(line).Some? then [FindTinfo(line).value] else []
  {
    assert [line][..0] == [];
  }

  /** The titles found so far and on the last line are those of all lines. */
  lemma TitlesMembers(lines: seq<string>, init: seq<string>, rec: seq<TitleInfo>, found: Option<TitleInfo>,
                      ts: seq<TitleInfo>, find: string -> Option<TitleInfo>)
    requires |lines| > 0 && init == lines[..|lines| - 1] && found == find(lines[|lines| - 1])
    requires forall t :: t in rec <==> exists i :: 0 <= i < |init| && find(init[i]) == Some(t)
    requires forall t :: t in ts <==> t in rec || found == Some(t)
    ensures forall t :: t in ts <==> exists i :: 0 <= i < |lines| && find(lines[i]) == Some(t)
  {
    assert forall i :: 0 <= i < |init| ==> init[i] == lines[i];
  }

  /** One more line of the information output: its title, if any, is added. */
  function TitlesStep(init: seq<TitleInfo>, found: Option<TitleInfo>): (ts: seq<TitleInfo>)
    requires forall k :: 0 <= k < |init| ==> init[k].id != "" && AllDigits(init[k].duration)
    requires found.Some? ==> found.value.id != "" && AllDigits(found.value.duration)
    ensures |ts| <= |init| + 1
    ensures forall k :: 0 <= k < |ts| ==> ts[k].id != "" && AllDigits(ts[k].duration)
    ensures forall t :: t in ts <==> t in init || found == Some(t)
  {
    if found.None? then init
    else
      var ts := init + [found.value];
      assert forall k :: 0 <= k < |ts| ==> ts[k] == if k < |init| then init[k] else found.value;
      ts
  }

  /** `math.MaxInt64`: `strconv.Atoi` saturates at it. */
  const MaxInt64: nat := 0x7FFF_FFFF_FFFF_FFFF

  /** The duration `strconv.Atoi` reads from a title. */
  function Seconds(t: TitleInfo): (n: nat)
    requires AllDigits(t.duration)
    ensures n <= MaxInt64
  {
    var v := ParseDecimal(t.duration);
    if v > MaxInt64 then MaxInt64 else v
  }

  function Durations(ts: seq<TitleInfo>): (xs: seq<nat>)
    requires forall k :: 0 <= k < |ts| ==> AllDigits(ts[k].duration)
    ensures |xs| == |ts|
    ensures forall k :: 0 <= k < |ts| ==> xs[k] == Seconds(ts[k])
  {
    seq(|ts|, k requires 0 <= k < |ts| => Seconds(ts[k]))
  }

  /** Title `k` is the one to rip: it is strictly positive, no title is
      longer, and every earlier title is strictly shorter. */
  predicate IsLongest(ts: seq<TitleInfo>, k: int)
    requires forall k :: 0 <= k < |ts| ==> AllDigits(ts[k].duration)
  {
    && 0 <= k < |ts| && Seconds(ts[k]) > 0
    && (forall j :: 0 <= j < |ts| ==> Seconds(ts[j]) <= Seconds(ts[k]))
    && (forall j :: 0 <= j < k ==> Seconds(ts[j]) < Seconds(ts[k]))
  }

  lemma LongestUnique(ts: seq<TitleInfo>, k: int, m: int)
    requires forall k :: 0 <= k < |ts| ==> AllDigits(ts[k].duration)
    requires IsLongest(ts, k) && IsLongest(ts, m)
    ensures k == m
  {
  }

  /** The title id passed to `makemkvcon mkv`: the longest title, or "0" when
      no title has a positive duration. */
  function ChooseTitle(ts: seq<TitleInfo>): (id: string)
    requires forall k :: 0 <= k < |ts| ==> AllDigits(ts[k].duration)
    ensures (forall k :: 0 <= k < |ts| ==> Seconds(ts[k]) == 0) ==> id == "0"
    ensures forall k :: IsLongest(ts, k) ==> id == ts[k].id
    ensures (exists k :: 0 <= k < |ts| && Seconds(ts[k]) > 0) ==>
              exists k :: IsLongest(ts, k) && id == ts[k].id
  {
    match FirstMax(Durations(ts))
    case None => "0"
    case Some(k) =>
      assert IsLongest(ts, k);
      assert forall m :: IsLongest(ts, m) ==> m == k by {
        forall m | IsLongest(ts, m) ensures m == k { LongestUnique(ts, k, m); }
      }
      ts[k].id
  }

  /** The id the scan holds after a (possibly absent) pick; "" for none. */
  function PickedId(ts: seq<TitleInfo>, pick: Option<nat>): string
  {
    if pick.Some? && pick.value < |ts| then ts[pick.value].id else ""
  }

  /** What the scan holds after the titles `ts`: the duration and id of the
      pick of `FirstMax`. */
  predicate ScanHolds(ts: seq<TitleInfo>, maxDuration: nat, longest: string)
    requires forall k :: 0 <= k < |ts| ==> AllDigits(ts[k].duration)
  {
    var p := FirstMax(Durations(ts));
    maxDuration == Best(Durations(ts), p) && longest == PickedId(ts, p)
  }

  /** The loop of dvd.go as written: one pass over the lines keeping the id
      and duration of the best title so far, with "" meaning none yet. */
  method ScanTitles(lines: seq<string>) returns (titleId: string)
    ensures titleId == ChooseTitle(Titles(lines))
  {
    var longest := "";
    var maxDuration: nat := 0;
    var i := 0;
    assert lines[..0] == [];
    while i < |lines|
      invariant 0 <= i <= |lines|
      invariant ScanHolds(Titles(lines[..i]), maxDuration, longest)
    {
      var found := FindTinfo(lines[i]);
      ScanAdvance(lines, i, maxDuration, longest);
      if found.Some? && Seconds(found.value) > maxDuration {
        maxDuration := Seconds(found.value);
        longest := found.value.id;
      }
      i := i + 1;
    }
    assert lines[..i] == lines;
    ScanResult(Titles(lines), maxDuration, longest);
    titleId := if longest == "" then "0" else longest;
  }

  /** One line of the scan: a matching line is a new title, taken exactly
      when it beats the best so far; any other line changes nothing. */
  lemma ScanAdvance(lines: seq<string>, i: nat, maxDuration: nat, longest: string)
    requires i < |lines|
    requires ScanHolds(Titles(lines[..i]), maxDuration, longest)
    ensures FindTinfo(lines[i]).None? ==> ScanHolds(Titles(lines[..i + 1]), maxDuration, longest)
    ensures FindTinfo(lines[i]).Some? ==>
              var t := FindTinfo(lines[i]).value;
              ScanHolds(Titles(lines[..i + 1]),
                        if Seconds(t) > maxDuration then Seconds(t) else maxDuration,
                        if Seconds(t) > maxDuration then t.id else longest)
  {
    TitlesSnoc(lines, i);
    if FindTinfo(lines[i]).Some? {
      ScanStep(Titles(lines[..i]), FindTinfo(lines[i]).value, maxDuration, longest);
    }
  }

  lemma TitlesSnoc(lines: seq<string>, i: nat)
    requires i < |lines|
    ensures FindTinfo(lines[i]).None? ==> Titles(lines[..i + 1]) == Titles(lines[..i])
    ensures FindTinfo(lines[i]).Some? ==> Titles(lines[..i + 1]) == Titles(lines[..i]) + [FindTinfo(lines[i]).value]
  {
    assert lines[..i + 1][..i] == lines[..i];
  }

  /** One more title: the scan takes it exactly when it beats the best so far. */
  lemma ScanStep(ts: seq<TitleInfo>, t: TitleInfo, maxDuration: nat, longest: string)
    requires forall k :: 0 <= k < |ts| ==> AllDigits(ts[k].duration)
    requires AllDigits(t.duration)
    requires ScanHolds(ts, maxDuration, longest)
    ensures ScanHolds(ts + [t], if Seconds(t) > maxDuration then Seconds(t) else maxDuration,
                                if Seconds(t) > maxDuration then t.id else longest)
  {
    var xs, xs' := Durations(ts), Durations(ts + [t]);
    assert xs'[..|xs'| - 1] == xs;
    var p := FirstMax(xs);
    assert FirstMax(xs') == if xs'[|ts|] > Best(xs, p) then Some(|ts|) else p;
    assert xs'[|ts|] == Seconds(t) && (ts + [t])[|ts|] == t;
    if p.Some? {
      assert (ts + [t])[p.value] == ts[p.value] && xs'[p.value] == xs[p.value];
    }
  }

  /** The scan's "" stands for "no title", as title ids are never empty. */
  lemma ScanResult(ts: seq<TitleInfo>, maxDuration: nat, longest: string)
    requires forall k :: 0 <= k < |ts| ==> ts[k].id != "" && AllDigits(ts[k].duration)
    requires ScanHolds(ts, maxDuration, longest)
    ensures (if longest == "" then "0" else longest) == ChooseTitle(ts)
  {
  }

  // ---------------------------------------------------------------------------
  // dvdrip
  // ---------------------------------------------------------------------------

  /** The `-d`, `-c` and `-m` flags (the device defaults to "/dev/sr0"). */
  datatype DvdFlags = DvdFlags(device: string, category: string, movie: string)

  const DefaultDevice := "/dev/sr0"

  /** What the outside world answers during one run: MakeMKV's output for
      name discovery, whether the pool is mounted, FileBot's lookup, whether
      the output directory could be created, and MakeMKV's output for title
      selection. The outcomes of the rip, the FileBot rename and the ejects
      change nothing in the workflow, so they are not inputs. */
  datatype DvdWorld = DvdWorld(discovery: ToolResult, mounted: bool, lookup: ToolResult,
                               mkdirOk: bool, info: ToolResult)

  /** The fatal errors, in the order they are checked. */
  datatype DvdError = NoMovieName | NoCategory | NotMounted | MkdirFailed

  datatype DvdRun = DvdRun(commands: seq<Command>, result: Result<string, DvdError>)

  /** The query: the `-m` flag, else the first positional argument, else the
      discovered disc title. */
  function ResolveQuery(movie: string, args: seq<string>, discovered: string): Result<string, DvdError>
  {
    if movie != "" then Ok(movie)
    else if |args| > 0 then Ok(args[0])
    else if discovered != "" then Ok(discovered)
    else Err(NoMovieName)
  }

  /** The first of `dvdrip`'s fatal checks that fails, in the order the
      program makes them: a movie name, a category, the mounted pool, the
      output directory. None when all pass. */
  function FirstFatal(named: bool, category: string, mounted: bool, mkdirOk: bool): Option<DvdError>
  {
    if !named then Some(NoMovieName)
    else if category == "" then Some(NoCategory)
    else if !mounted then Some(NotMounted)
    else if !mkdirOk then Some(MkdirFailed)
    else None
  }

  /** The commands issued before the first check: the MakeMKV information
      query of discovery, when neither `-m` nor an argument names the movie. */
  function DiscoveryCommands(flags: DvdFlags, args: seq<string>): seq<Command>
  {
    if flags.movie == "" && |args| == 0 then [MakeMkvInfo(DriveSpec(flags.device))] else []
  }

  /** `/plex/storage/<category>/<CamelCase name>`, as `filepath.Join` builds it. */
  function MovieOutDir(category: string, finalName: string): string
  {
    Join([MovieStorage, category, ToCamelCase(finalName)])
  }

  lemma MovieStorageIsClean()
    ensures IsCleanAbs(MovieStorage)
  {
    var parts := ["plex", "storage"];
    assert MovieStorage[1..] == JoinSep(parts, '/');
    SplitJoinSep(parts, '/');
  }

  /** A non-empty CamelCase name is a single path element. */
  lemma CamelIsName(s: string)
    requires ToCamelCase(s) != ""
    ensures IsName(ToCamelCase(s))
  {
    var camel := ToCamelCase(s);
    assert '/' !in camel;
    assert camel != "." && camel != ".." by {
      assert IsAlnum(camel[0]);
    }
  }

  /** For a plain category name and a name with at least one letter or digit,
      the output directory is the plain concatenation. */
  lemma MovieOutDirShape(category: string, finalName: string)
    requires IsName(category) && ToCamelCase(finalName) != ""
    ensures MovieOutDir(category, finalName) == MovieStorage + "/" + category + "/" + ToCamelCase(finalName)
  {
    var camel := ToCamelCase(finalName);
    CamelIsName(finalName);
    MovieStorageIsClean();
    NameIsCleanRel(category);
    NameIsCleanRel(camel);
    JoinAbsRelRel(MovieStorage, category, camel);
  }

  /** `runDVDMakeMKV`: the information query, the rip of the chosen title
      when the query succeeded, and the deferred eject in every case. */
  function RipCommands(drive: string, outDir: string, info: ToolResult): (cs: seq<Command>)
    ensures |cs| >= 2 && cs[0] == MakeMkvInfo(drive) && cs[|cs| - 1] == Eject(Root.ExtractDevicePath(drive))
    ensures |cs| <= 3 && (|cs| == 3 <==> info.Ran?)
    ensures info.Ran? ==> cs[1] == MakeMkvRip(drive, InfoTitle(info.stdout), outDir, MovieMinLength)
    ensures !cs[0].MakeMkvRip? && !cs[|cs| - 1].MakeMkvRip?
  {
    var eject := Eject(Root.ExtractDevicePath(drive));
    match info
    case Failed => [MakeMkvInfo(drive), eject]
    case Ran(out) => [MakeMkvInfo(drive), MakeMkvRip(drive, InfoTitle(out), outDir, MovieMinLength), eject]
  }

  /** The title chosen from MakeMKV's information output. */
  function InfoTitle(out: string): string
  {
    ChooseTitle(Titles(Split(out, '\n')))
  }

  /** A successful `dvdrip` ends with the eject deferred by
      `runDVDMakeMKV`, the TheMovieDB rename of `outDir` and the second
      eject, both ejects naming the drive's device path. */
  predicate EndsWithRename(cs: seq<Command>, outDir: string, device: string) {
    var dev := Root.DevicePrefix + ExtractDriveIndex(device);
    |cs| >= 5 && cs[|cs| - 3..] == [Eject(dev), FileBotRename(outDir, "TheMovieDB", MovieFormat), Eject(dev)]
  }

  /** Neither a rip nor an eject: the commands issued before the drive is used. */
  predicate Quiet(cs: seq<Command>) {
    forall k :: 0 <= k < |cs| ==> !cs[k].MakeMkvRip? && !cs[k].Eject?
  }

  /** The checks of `dvdrip` up to the creation of the output directory: the
      commands issued so far and the output directory, or the fatal error. */
  function Prepare(flags: DvdFlags, args: seq<string>, w: DvdWorld): (r: DvdRun)
    ensures Quiet(r.commands)
    ensures r.result == Err(NoMovieName) <==>
              flags.movie == "" && |args| == 0 && DiscoverMovieName(w.discovery) == ""
    ensures (flags.movie == "" && |args| == 0) <==> (|r.commands| > 0 && r.commands[0] == MakeMkvInfo(DriveSpec(flags.device)))
    ensures r.result.Ok? <==>
              (flags.movie != "" || |args| > 0 || DiscoverMovieName(w.discovery) != "")
              && flags.category != "" && w.mounted && w.mkdirOk
    ensures r.result.Ok? ==> |r.commands| >= 3
    ensures r.result.Ok? ==>
              var q := ResolveQuery(flags.movie, args, DiscoverMovieName(w.discovery));
              q.Ok? && r.result.value == MovieOutDir(flags.category, FinalName(q.value, FetchMetadata(w.lookup)))
    // the checks, in order, and the commands issued up to the one that fails
    ensures var named := flags.movie != "" || |args| > 0 || DiscoverMovieName(w.discovery) != "";
            var fatal := FirstFatal(named, flags.category, w.mounted, w.mkdirOk);
            && (r.result.Err? <==> fatal.Some?)
            && (r.result.Err? ==> fatal == Some(r.result.error))
    ensures r.result == Err(NoMovieName) || r.result == Err(NoCategory) ==>
              r.commands == DiscoveryCommands(flags, args)
    ensures r.result == Err(NotMounted) ==>
              r.commands == DiscoveryCommands(flags, args) + [Mountpoint(MovieStorage)]
    ensures r.result.Ok? || r.result == Err(MkdirFailed) ==>
              var q := ResolveQuery(flags.movie, args, DiscoverMovieName(w.discovery));
              && q.Ok?
              && r.commands == DiscoveryCommands(flags, args) +
                   [Mountpoint(MovieStorage), FileBotList(q.value, MovieFormat),
                    MkdirAll(MovieOutDir(flags.category, FinalName(q.value, FetchMetadata(w.lookup))))]
  {
    PrepareWith(flags, args, w, DiscoverMovieName(w.discovery), FetchMetadata(w.lookup))
  }

  /** `Prepare` with the discovered title and the lookup's answer given. */
  function PrepareWith(flags: DvdFlags, args: seq<string>, w: DvdWorld, discovered: string, meta: string): (r: DvdRun)
    ensures Quiet(r.commands)
    ensures r.result == Err(NoMovieName) <==>
              flags.movie == "" && |args| == 0 && discovered == ""
    ensures (flags.movie == "" && |args| == 0) <==> (|r.commands| > 0 && r.commands[0] == MakeMkvInfo(DriveSpec(flags.device)))
    ensures r.result.Ok? <==>
              (flags.movie != "" || |args| > 0 || discovered != "")
              && flags.category != "" && w.mounted && w.mkdirOk
    ensures r.result.Ok? ==> |r.commands| >= 3
    ensures r.result.Ok? ==>
              var q := ResolveQuery(flags.movie, args, discovered);
              q.Ok? && r.result.value == MovieOutDir(flags.category, FinalName(q.value, meta))
    // the checks, in order, and the commands issued up to the one that fails
    ensures var named := flags.movie != "" || |args| > 0 || discovered != "";
            var fatal := FirstFatal(named, flags.category, w.mounted, w.mkdirOk);
            && (r.result.Err? <==> fatal.Some?)
            && (r.result.Err? ==> fatal == Some(r.result.error))
    ensures r.result == Err(NoMovieName) || r.result == Err(NoCategory) ==>
              r.commands == DiscoveryCommands(flags, args)
    ensures r.result == Err(NotMounted) ==>
              r.commands == DiscoveryCommands(flags, args) + [Mountpoint(MovieStorage)]
    ensures r.result.Ok? || r.result == Err(MkdirFailed) ==>
              var q := ResolveQuery(flags.movie, args, discovered);
              && q.Ok?
              && r.commands == DiscoveryCommands(flags, args) +
                   [Mountpoint(MovieStorage), FileBotList(q.value, MovieFormat), MkdirAll(MovieOutDir(flags.category, FinalName(q.value, meta)))]
  {
    var discover := flags.movie == "" && |args| == 0;
    var c0 := if discover then [MakeMkvInfo(DriveSpec(flags.device))] else [];
    assert Quiet(c0);
    var q := ResolveQuery(flags.movie, args, discovered);
    if q.Err? then DvdRun(c0, Err(NoMovieName))
    else if flags.category == "" then DvdRun(c0, Err(NoCategory))
    else PrepareStorage(c0, q.value, MovieOutDir(flags.category, FinalName(q.value, meta)), w)
  }

  /** The storage checks of `dvdrip` after the query and the category are
      settled: the mount point, the lookup and the output directory. */
  function PrepareStorage(pre: seq<Command>, query: string, outDir: string, w: DvdWorld): (r: DvdRun)
    requires Quiet(pre)
    ensures Quiet(r.commands)
    ensures |r.commands| > |pre| && r.commands[..|pre|] == pre && r.commands[|pre|] == Mountpoint(MovieStorage)
    ensures r.result.Ok? <==> w.mounted && w.mkdirOk
    ensures r.result.Ok? ==> |r.commands| == |pre| + 3 && r.result.value == outDir
    ensures r.result == Err(NotMounted) || r.result == Err(MkdirFailed) || r.result.Ok?
  {
    if !w.mounted then
      var tail := [Mountpoint(MovieStorage)];
      QuietJoin(pre, tail);
      DvdRun(pre + tail, Err(NotMounted))
    else
      var tail := [Mountpoint(MovieStorage), FileBotList(query, MovieFormat), MkdirAll(outDir)];
      QuietJoin(pre, tail);
      DvdRun(pre + tail, if w.mkdirOk then Ok(outDir) else Err(MkdirFailed))
  }

  lemma QuietJoin(a: seq<Command>, b: seq<Command>)
    requires Quiet(a) && Quiet(b)
    ensures Quiet(a + b) && |a + b| == |a| + |b| && (a + b)[..|a|] == a
  {
    assert forall k :: 0 <= k < |a + b| ==> (a + b)[k] == if k < |a| then a[k] else b[k - |a|];
  }

  /** The commands after a successful preparation: the MakeMKV commands, the
      FileBot rename and the second eject. */
  function Finish(device: string, outDir: string, info: ToolResult): seq<Command>
  {
    var drive := DriveSpec(device);
    RipCommands(drive, outDir, info) + [FileBotRename(outDir, "TheMovieDB", MovieFormat), Eject(Root.ExtractDevicePath(drive))]
  }

  lemma FinishShape(device: string, outDir: string, info: ToolResult, pre: seq<Command>)
    requires Quiet(pre)
    ensures var cs := pre + Finish(device, outDir, info);
            var dev := Root.DevicePrefix + ExtractDriveIndex(device);
            && |cs| >= |pre| + 4
            && cs[|cs| - 3..] == [Eject(dev), FileBotRename(outDir, "TheMovieDB", MovieFormat), Eject(dev)]
            && ((exists k :: 0 <= k < |cs| && cs[k].MakeMkvRip?) <==> info.Ran?)
            && (forall k :: 0 <= k < |cs| && cs[k].MakeMkvRip? ==> cs[k].outDir == outDir && cs[k].minLength == MovieMinLength)
  {
    var rip, rename, dev := FinishParts(device, outDir, info);
    Layout(pre, rip, rename, dev, outDir, info.Ran?, Finish(device, outDir, info));
  }

  /** `Finish` split into the rip commands, the rename and the final eject,
      with what `Layout` needs to know of them. */
  lemma FinishParts(device: string, outDir: string, info: ToolResult) returns (rip: seq<Command>, rename: Command, dev: string)
    ensures dev == Root.DevicePrefix + ExtractDriveIndex(device)
    ensures rename == FileBotRename(outDir, "TheMovieDB", MovieFormat)
    ensures Finish(device, outDir, info) == rip + [rename, Eject(dev)]
    ensures |rip| >= 2 && rip[|rip| - 1] == Eject(dev) && !rip[0].MakeMkvRip?
    ensures |rip| <= 3 && (|rip| == 3 <==> info.Ran?)
    ensures info.Ran? ==> rip[1].MakeMkvRip? && rip[1].outDir == outDir && rip[1].minLength == MovieMinLength
  {
    var drive := DriveSpec(device);
    EjectTarget(device);
    rip := RipCommands(drive, outDir, info);
    dev := Root.DevicePrefix + ExtractDriveIndex(device);
    rename := FileBotRename(outDir, "TheMovieDB", MovieFormat);
  }

  /** Where the commands of a run sit once the preparation, the MakeMKV
      commands and the rename with its eject are put one after the other. */
  lemma Layout(pre: seq<Command>, rip: seq<Command>, rename: Command, dev: string, outDir: string, ran: bool, fin: seq<Command>)
    requires fin == rip + [rename, Eject(dev)]
    requires Quiet(pre) && !rename.MakeMkvRip?
    requires |rip| >= 2 && rip[|rip| - 1] == Eject(dev) && !rip[0].MakeMkvRip?
    requires |rip| <= 3 && (|rip| == 3 <==> ran)
    requires ran ==> rip[1].MakeMkvRip? && rip[1].outDir == outDir && rip[1].minLength == MovieMinLength
    ensures var cs := pre + fin;
            && |cs| >= |pre| + 4
            && cs[|cs| - 3..] == [Eject(dev), rename, Eject(dev)]
            && ((exists k :: 0 <= k < |cs| && cs[k].MakeMkvRip?) <==> ran)
            && (forall k :: 0 <= k < |cs| && cs[k].MakeMkvRip? ==> cs[k].outDir == outDir && cs[k].minLength == MovieMinLength)
  {
    var tail := [rename, Eject(dev)];
    var cs := pre + (rip + tail);
    assert forall k :: 0 <= k < |pre| ==> cs[k] == pre[k];
    assert forall k :: 0 <= k < |rip| ==> cs[|pre| + k] == rip[k];
    assert forall k :: 0 <= k < |tail| ==> cs[|pre| + |rip| + k] == tail[k];
    assert forall k :: 0 <= k < |rip| && rip[k].MakeMkvRip? ==> k == 1 && ran;
    if ran {
      assert cs[|pre| + 1].MakeMkvRip?;
    }
  }

  /** `dvdrip`: the commands issued and the output directory, or the fatal
      error that stopped the run. */
  function DvdRip(flags: DvdFlags, args: seq<string>, w: DvdWorld): (r: DvdRun)
    // the query comes from -m, then the argument, then discovery
    ensures r.result == Err(NoMovieName) <==>
              flags.movie == "" && |args| == 0 && DiscoverMovieName(w.discovery) == ""
    ensures (flags.movie == "" && |args| == 0) <==> (|r.commands| > 0 && r.commands[0] == MakeMkvInfo(DriveSpec(flags.device)))
    // fatal checks, in order
    ensures r.result.Ok? <==>
              (flags.movie != "" || |args| > 0 || DiscoverMovieName(w.discovery) != "")
              && flags.category != "" && w.mounted && w.mkdirOk
    ensures r.result.Err? ==> Quiet(r.commands)
    // the output directory is /plex/storage/<category>/<CamelCase of the final name>
    ensures r.result.Ok? ==>
              var q := ResolveQuery(flags.movie, args, DiscoverMovieName(w.discovery));
              q.Ok? && r.result.value == MovieOutDir(flags.category, FinalName(q.value, FetchMetadata(w.lookup)))
    // a successful run ends with the eject of runDVDMakeMKV, the rename and the second eject
    ensures r.result.Ok? ==> EndsWithRename(r.commands, r.result.value, flags.device)
    ensures r.result.Ok? ==>
              ((exists k :: 0 <= k < |r.commands| && r.commands[k].MakeMkvRip?) <==> w.info.Ran?)
    ensures forall k :: 0 <= k < |r.commands| && r.commands[k].MakeMkvRip? ==>
              r.commands[k].outDir == r.result.value && r.commands[k].minLength == MovieMinLength
    // the first failing check decides the error, and a failed run is its preparation
    ensures var named := flags.movie != "" || |args| > 0 || DiscoverMovieName(w.discovery) != "";
            var fatal := FirstFatal(named, flags.category, w.mounted, w.mkdirOk);
            && (r.result.Err? <==> fatal.Some?)
            && (r.result.Err? ==> fatal == Some(r.result.error))
    ensures r.result.Err? ==> r == Prepare(flags, args, w)
  {
    DvdRipWith(flags, args, w, DiscoverMovieName(w.discovery), FetchMetadata(w.lookup))
  }

  /** `DvdRip` with the discovered title and the lookup's answer given. */
  function DvdRipWith(flags: DvdFlags, args: seq<string>, w: DvdWorld, discovered: string, meta: string): (r: DvdRun)
    // the query comes from -m, then the argument, then discovery
    ensures r.result == Err(NoMovieName) <==>
              flags.movie == "" && |args| == 0 && discovered == ""
    ensures (flags.movie == "" && |args| == 0) <==> (|r.commands| > 0 && r.commands[0] == MakeMkvInfo(DriveSpec(flags.device)))
    // fatal checks, in order
    ensures r.result.Ok? <==>
              (flags.movie != "" || |args| > 0 || discovered != "")
              && flags.category != "" && w.mounted && w.mkdirOk
    ensures r.result.Err? ==> Quiet(r.commands)
    // the output directory is /plex/storage/<category>/<CamelCase of the final name>
    ensures r.result.Ok? ==>
              var q := ResolveQuery(flags.movie, args, discovered);
              q.Ok? && r.result.value == MovieOutDir(flags.category, FinalName(q.value, meta))
    // a successful run ends with the eject of runDVDMakeMKV, the rename and the second eject
    ensures r.result.Ok? ==> EndsWithRename(r.commands, r.result.value, flags.device)
    ensures r.result.Ok? ==>
              ((exists k :: 0 <= k < |r.commands| && r.commands[k].MakeMkvRip?) <==> w.info.Ran?)
    ensures forall k :: 0 <= k < |r.commands| && r.commands[k].MakeMkvRip? ==>
              r.commands[k].outDir == r.result.value && r.commands[k].minLength == MovieMinLength
    // the first failing check decides the error, and a failed run is its preparation
    ensures var named := flags.movie != "" || |args| > 0 || discovered != "";
            var fatal := FirstFatal(named, flags.category, w.mounted, w.mkdirOk);
            && (r.result.Err? <==> fatal.Some?)
            && (r.result.Err? ==> fatal == Some(r.result.error))
    ensures r.result.Err? ==> r == PrepareWith(flags, args, w, discovered, meta)
  {
    Continue(PrepareWith(flags, args, w, discovered, meta), flags.device, w.info)
  }

  /** A prepared run, completed when the preparation succeeded and left as
      it is when it failed. */
  function Continue(p: DvdRun, device: string, info: ToolResult): (r: DvdRun)
    requires Quiet(p.commands) && (p.result.Ok? ==> |p.commands| >= 1)
    ensures r.result == p.result
    ensures r.result.Err? ==> r.commands == p.commands
    ensures |r.commands| > 0 <==> |p.commands| > 0
    ensures |p.commands| > 0 ==> r.commands[0] == p.commands[0]
    ensures r.result.Ok? ==> EndsWithRename(r.commands, r.result.value, device)
    ensures r.result.Ok? ==>
              ((exists k :: 0 <= k < |r.commands| && r.commands[k].MakeMkvRip?) <==> info.Ran?)
    ensures forall k :: 0 <= k < |r.commands| && r.commands[k].MakeMkvRip? ==>
              r.commands[k].outDir == r.result.value && r.commands[k].minLength == MovieMinLength
  {
    if p.result.Err? then p
    else
      var r := Complete(p, device, info);
      assert r.commands[0] == r.commands[..|p.commands|][0];
      r
  }

  /** A prepared run followed by the MakeMKV commands, the rename and the
      second eject. */
  function Complete(p: DvdRun, device: string, info: ToolResult): (r: DvdRun)
    requires p.result.Ok? && Quiet(p.commands)
    ensures r.result == p.result
    ensures |r.commands| >= |p.commands| + 4 && r.commands[..|p.commands|] == p.commands
    ensures var dev := Root.DevicePrefix + ExtractDriveIndex(device);
            r.commands[|r.commands| - 3..] == [Eject(dev), FileBotRename(p.result.value, "TheMovieDB", MovieFormat), Eject(dev)]
    ensures (exists k :: 0 <= k < |r.commands| && r.commands[k].MakeMkvRip?) <==> info.Ran?
    ensures forall k :: 0 <= k < |r.commands| && r.commands[k].MakeMkvRip? ==>
              r.commands[k].outDir == p.result.value && r.commands[k].minLength == MovieMinLength
  {
    FinishShape(device, p.result.value, info, p.commands);
    var cs := p.commands + Finish(device, p.result.value, info);
    assert cs[..|p.commands|] == p.commands;
    DvdRun(cs, p.result)
  }
}
