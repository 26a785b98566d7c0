/** Go's `path/filepath.Join` and `Clean` on a Unix system: purely lexical
    path manipulation, as every output path of the workflow is built with it. */
module Paths {
  import opened Text

  /** An element that `Clean` keeps as it is: non-empty, slash-free and neither
      "." nor "..". */
  predicate IsName(e: string) {
    e != "" && e != "." && e != ".." && '/' !in e
  }

  predicate AllNames(es: seq<string>) {
    forall i :: 0 <= i < |es| ==> IsName(es[i])
  }

  /** One element of lexical resolution: "" and "." vanish, ".." removes the
      element before it (or is dropped at the root, or kept when nothing
      removable precedes it in a relative path). */
  function Step(stack: seq<string>, e: string, rooted: bool): seq<string>
  {
    if e == "" || e == "." then stack
    else if e == ".." then
      if |stack| > 0 && stack[|stack| - 1] != ".." then stack[..|stack| - 1]
      else if rooted then stack
      else stack + [".."]
    else stack + [e]
  }

  function Resolve(stack: seq<string>, es: seq<string>, rooted: bool): seq<string>
    decreases |es|
  {
    if |es| == 0 then stack else Resolve(Step(stack, es[0], rooted), es[1..], rooted)
  }

  /** `filepath.Clean`: the shortest lexically equivalent path. It is never
      empty ("." stands for the empty relative path). */
  function Clean(p: string): (r: string)
    ensures r != ""
  {
    var rooted := |p| > 0 && p[0] == '/';
    var kept := Resolve([], Split(p, '/'), rooted);
    if rooted then "/" + JoinSep(kept, '/')
    else if |kept| == 0 then "."
    else
      assert JoinSep(kept, '/') != "" by {
        ResolveNoEmpty([], Split(p, '/'), rooted);
        NonEmptyJoin(kept);
      }
      JoinSep(kept, '/')
  }

  /** `filepath.Join`: the elements from the first non-empty one on, joined
      by "/" and cleaned; "" exactly when every element is empty. */
  function Join(elems: seq<string>): (r: string)
    ensures r == "" <==> forall i :: 0 <= i < |elems| ==> elems[i] == ""
  {
    if |elems| == 0 then ""
    else if elems[0] != "" then Clean(JoinSep(elems, '/'))
    else Join(elems[1..])
  }

  /** A clean absolute path of at least one name, such as "/plex/storage". */
  predicate IsCleanAbs(p: string) {
    |p| > 1 && p[0] == '/' && AllNames(Split(p[1..], '/'))
  }

  /** A clean relative path of at least one name, such as "Drama/Show". */
  predicate IsCleanRel(p: string) {
    AllNames(Split(p, '/'))
  }

  lemma {:induction false} ResolveNoEmpty(st: seq<string>, es: seq<string>, rooted: bool)
    requires forall i :: 0 <= i < |st| ==> st[i] != ""
    ensures forall i :: 0 <= i < |Resolve(st, es, rooted)| ==> Resolve(st, es, rooted)[i] != ""
    decreases |es|
  {
    if |es| > 0 {
      ResolveNoEmpty(Step(st, es[0], rooted), es[1..], rooted);
    }
  }

  lemma NonEmptyJoin(kept: seq<string>)
    requires |kept| > 0
    requires forall i :: 0 <= i < |kept| ==> kept[i] != ""
    ensures JoinSep(kept, '/') != ""
  {
    if |kept| > 1 {
      assert JoinSep(kept, '/') == kept[0] + ['/'] + JoinSep(kept[1..], '/');
    }
  }

  lemma {:induction false} JoinSepAppend(a: seq<string>, b: seq<string>, sep: char)
    requires |a| > 0 && |b| > 0
    ensures JoinSep(a + b, sep) == JoinSep(a, sep) + [sep] + JoinSep(b, sep)
    decreases |a|
  {
    if |a| == 1 {
      assert (a + b)[1..] == b;
    } else {
      assert (a + b)[1..] == a[1..] + b;
      JoinSepAppend(a[1..], b, sep);
    }
  }

  lemma {:induction false} ResolveAppend(st: seq<string>, x: seq<string>, y: seq<string>, rooted: bool)
    ensures Resolve(st, x + y, rooted) == Resolve(Resolve(st, x, rooted), y, rooted)
    decreases |x|
  {
    if |x| == 0 {
      assert x + y == y;
    } else {
      assert (x + y)[0] == x[0];
      assert (x + y)[1..] == x[1..] + y;
      ResolveAppend(Step(st, x[0], rooted), x[1..], y, rooted);
    }
  }

  /** Names are pushed unchanged onto the resolution stack. */
  lemma {:induction false} ResolveNames(st: seq<string>, es: seq<string>, rooted: bool)
    requires AllNames(es)
    ensures Resolve(st, es, rooted) == st + es
    decreases |es|
  {
    if |es| == 0 {
      assert st + es == st;
    } else {
      assert Step(st, es[0], rooted) == st + [es[0]];
      ResolveNames(st + [es[0]], es[1..], rooted);
      assert st + [es[0]] + es[1..] == st + es;
    }
  }

  lemma NoSlashInNames(es: seq<string>)
    requires AllNames(es)
    ensures forall i :: 0 <= i < |es| ==> '/' !in es[i]
  {
  }

  /** Splitting "/" followed by names joined with "/" yields "" and the names. */
  lemma SplitAbs(names: seq<string>)
    requires |names| > 0 && AllNames(names)
    ensures Split("/" + JoinSep(names, '/'), '/') == [""] + names
  {
    JoinSepAppend([""], names, '/');
    assert JoinSep([""], '/') == "";
    assert "/" + JoinSep(names, '/') == JoinSep([""] + names, '/');
    SplitJoinSep([""] + names, '/');
  }

  /** A clean absolute path followed by a clean relative path joins to their
      plain concatenation with one "/", which is again clean. */
  lemma JoinAbsRel(a: string, b: string)
    requires IsCleanAbs(a) && IsCleanRel(b)
    ensures Join([a, b]) == a + "/" + b
    ensures IsCleanAbs(a + "/" + b)
  {
    var A := Split(a[1..], '/');
    var B := Split(b, '/');
    JoinSepAppend(A, B, '/');
    assert a == "/" + JoinSep(A, '/');
    var p := a + "/" + b;
    assert p == "/" + JoinSep(A + B, '/');
    JoinTwo(a, b);
    SplitAbs(A + B);
    ResolveAppend([], [""], A + B, true);
    ResolveNames([], A + B, true);
    assert [] + (A + B) == A + B;
    assert p[1..] == JoinSep(A + B, '/');
    SplitJoinSep(A + B, '/');
  }

  /** The same when the second element starts with a stray "/" (as
      `"~/Videos"[1:]` does): the doubled slash is cleaned away. */
  lemma JoinAbsSlashRel(a: string, b: string)
    requires IsCleanAbs(a) && IsCleanRel(b)
    ensures Join([a, "/" + b]) == a + "/" + b
  {
    var A := Split(a[1..], '/');
    var B := Split(b, '/');
    var p := a + "/" + ("/" + b);
    SlashSplit(a, b, A, B);
    ResolveSkipsEmpty(A, B);
    CleanRooted(p, [""] + A + [""] + B, A + B);
    JoinTwo(a, "/" + b);
    AbsRelConcat(a, b, A, B);
  }

  lemma SlashSplit(a: string, b: string, A: seq<string>, B: seq<string>)
    requires IsCleanAbs(a) && IsCleanRel(b) && A == Split(a[1..], '/') && B == Split(b, '/')
    ensures Split(a + "/" + ("/" + b), '/') == [""] + A + [""] + B
  {
    var ja, jb := JoinSep(A, '/'), JoinSep(B, '/');
    assert a == "/" + ja;
    assert b == jb;
    DoubleSlash(a, b, ja, jb);
    SplitAbsSlash(A, B, a + "/" + ("/" + b));
  }

  lemma DoubleSlash(a: string, b: string, ja: string, jb: string)
    requires a == "/" + ja && b == jb
    ensures a + "/" + ("/" + b) == "/" + ja + "//" + jb
  {
  }

  lemma AbsRelConcat(a: string, b: string, A: seq<string>, B: seq<string>)
    requires IsCleanAbs(a) && IsCleanRel(b) && A == Split(a[1..], '/') && B == Split(b, '/')
    ensures "/" + JoinSep(A + B, '/') == a + "/" + b
  {
    assert a == "/" + JoinSep(A, '/');
    assert b == JoinSep(B, '/');
    JoinSepAppend(A, B, '/');
    SlashConcat(a, b, JoinSep(A, '/'), JoinSep(B, '/'), JoinSep(A + B, '/'));
  }

  lemma SlashConcat(a: string, b: string, ja: string, jb: string, jab: string)
    requires a == "/" + ja && b == jb && jab == ja + "/" + jb
    ensures "/" + jab == a + "/" + b
  {
  }

  /** Unfolds `Clean` on a rooted path whose split and resolution are known. */
  lemma CleanRooted(p: string, es: seq<string>, kept: seq<string>)
    requires |p| > 0 && p[0] == '/'
    requires Split(p, '/') == es && Resolve([], es, true) == kept
    ensures Clean(p) == "/" + JoinSep(kept, '/')
  {
  }

  lemma SplitAbsSlash(A: seq<string>, B: seq<string>, p: string)
    requires |A| > 0 && |B| > 0 && AllNames(A) && AllNames(B)
    requires p == "/" + JoinSep(A, '/') + "//" + JoinSep(B, '/')
    ensures Split(p, '/') == [""] + A + [""] + B
  {
    var ja, jb := JoinSep(A, '/'), JoinSep(B, '/');
    var ea, eb := [""] + A, [""] + B;
    JoinSepAppend([""], A, '/');
    JoinSepAppend([""], B, '/');
    assert JoinSep([""], '/') == "";
    assert JoinSep(ea, '/') == "/" + ja;
    assert JoinSep(eb, '/') == "/" + jb;
    JoinSepAppend(ea, eb, '/');
    var es := ea + eb;
    assert JoinSep(es, '/') == ("/" + ja) + "/" + ("/" + jb);
    assert ("/" + ja) + "/" + ("/" + jb) == "/" + ja + "//" + jb;
    assert es == [""] + A + [""] + B;
    NoSlashAround(A, B);
    SplitJoinSep(es, '/');
    var x := JoinSep(es, '/');
    assert x == "/" + ja + "//" + jb;
    assert Split(x, '/') == es;
  }

  lemma NoSlashAround(A: seq<string>, B: seq<string>)
    requires AllNames(A) && AllNames(B)
    ensures forall i :: 0 <= i < |[""] + A + [""] + B| ==> '/' !in ([""] + A + [""] + B)[i]
  {
    var es := [""] + A + [""] + B;
    forall i | 0 <= i < |es|
      ensures '/' !in es[i]
    {
      if i == 0 || i == |A| + 1 {
      } else if i <= |A| {
        assert es[i] == A[i - 1];
      } else {
        assert es[i] == B[i - |A| - 2];
      }
    }
  }

  lemma ResolveSkipsEmpty(A: seq<string>, B: seq<string>)
    requires AllNames(A) && AllNames(B)
    ensures Resolve([], [""] + A + [""] + B, true) == A + B
  {
    assert [""] + A + [""] + B == [""] + (A + ([""] + B));
    ResolveAppend([], [""], A + ([""] + B), true);
    ResolveAppend([], A, [""] + B, true);
    ResolveNames([], A, true);
    assert [] + A == A;
    ResolveAppend(A, [""], B, true);
    ResolveNames(A, B, true);
  }

  /** Joining three elements is joining the first two and then the third. */
  lemma JoinAbsRelRel(a: string, b: string, c: string)
    requires IsCleanAbs(a) && IsCleanRel(b) && IsCleanRel(c)
    ensures Join([a, b, c]) == a + "/" + b + "/" + c
    ensures IsCleanAbs(a + "/" + b + "/" + c)
  {
    JoinAbsRel(a, b);
    var ab := a + "/" + b;
    JoinAbsRel(ab, c);
    JoinTwo(ab, c);
    JoinThree(a, b, c);
  }

  lemma JoinTwo(a: string, b: string)
    requires a != ""
    ensures Join([a, b]) == Clean(a + "/" + b)
  {
    assert JoinSep([a, b], '/') == a + "/" + b;
  }

  lemma JoinThree(a: string, b: string, c: string)
    requires a != ""
    ensures Join([a, b, c]) == Clean(a + "/" + b + "/" + c)
  {
    assert [a, b, c][1..] == [b, c];
    assert JoinSep([b, c], '/') == b + "/" + c;
    assert JoinSep([a, b, c], '/') == a + "/" + (b + "/" + c);
    assert a + "/" + (b + "/" + c) == a + "/" + b + "/" + c;
    assert Join([a, b, c]) == Clean(JoinSep([a, b, c], '/'));
  }

  /** A single name is a clean relative path. */
  lemma NameIsCleanRel(e: string)
    requires IsName(e)
    ensures IsCleanRel(e)
  {
    assert Split(e, '/') == [e];
  }

  /** Names joined with "/" form a clean relative path, such as
      "Unknown/Show". */
  lemma NamesAreCleanRel(es: seq<string>)
    requires |es| > 0 && AllNames(es)
    ensures IsCleanRel(JoinSep(es, '/'))
  {
    SplitJoinSep(es, '/');
  }
}
