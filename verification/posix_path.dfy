/** The POSIX flavour of Python's `os.path` as the scripts use it: `isabs`,
    `join` (two arguments), `normpath`, `splitext`, `dirname`, `abspath` and
    `relpath`. The process working directory is an explicit parameter. */
module PosixPath {
  import opened Strings

  /** `os.path.isabs`: the path starts with a slash. */
  predicate IsAbs(p: string) {
    |p| > 0 && p[0] == '/'
  }

  /** `os.path.join(a, b)`: an absolute `b` discards `a`; otherwise a slash is
      inserted unless `a` is empty or already ends with one. */
  function Join(a: string, b: string): (r: string)
    ensures IsAbs(b) ==> r == b
    ensures !IsAbs(b) ==> IsPrefix(a, r) && |b| <= |r| && r[|r| - |b|..] == b
    ensures IsAbs(a) || IsAbs(b) ==> IsAbs(r)
  {
    if IsAbs(b) then b
    else if |a| == 0 || a[|a| - 1] == '/' then a + b
    else a + "/" + b
  }

  /** `sep * n`. */
  function Slashes(n: nat): (r: string)
    ensures |r| == n
    ensures forall i :: 0 <= i < n ==> r[i] == '/'
  {
    if n == 0 then "" else "/" + Slashes(n - 1)
  }

  /** `n` empty components, what `split` makes of `n` leading slashes. */
  function Blanks(n: nat): seq<string> {
    if n == 0 then [] else [""] + Blanks(n - 1)
  }

  /** How many leading slashes `normpath` keeps: POSIX gives exactly two
      leading slashes an implementation-defined meaning, while one or three
      and more mean the root. */
  function InitialSlashes(p: string): (k: nat)
    ensures k <= 2
    ensures k == 0 <==> !IsAbs(p)
  {
    if !IsAbs(p) then 0
    else if IsPrefix("//", p) && !IsPrefix("///", p) then 2
    else 1
  }

  /** One turn of `normpath`'s component loop: empty and `.` components
      vanish, `..` cancels the previous name, and a `..` that cannot cancel
      anything is kept for a relative path and dropped at the root. */
  function Push(stack: seq<string>, c: string, initial: nat): seq<string> {
    if c == "" || c == "." then stack
    else if c != ".." || (initial == 0 && |stack| == 0) || (|stack| > 0 && stack[|stack| - 1] == "..") then stack + [c]
    else if |stack| > 0 then stack[..|stack| - 1]
    else stack
  }

  /** The component loop over a whole list. */
  function Fold(stack: seq<string>, comps: seq<string>, initial: nat): (r: seq<string>)
    ensures forall x :: x in r ==> x in stack || x in comps
    decreases |comps|
  {
    if |comps| == 0 then stack
    else Fold(Push(stack, comps[0], initial), comps[1..], initial)
  }

  /** The components `normpath` keeps for `p`. */
  function Components(p: string): seq<string> {
    Fold([], Split(p, "/"), InitialSlashes(p))
  }

  /** `os.path.normpath`. */
  function NormPath(p: string): (r: string)
    ensures |r| > 0
    ensures IsAbs(r) <==> IsAbs(p)
  {
    if p == "" then "."
    else
      var k := InitialSlashes(p);
      var st := Components(p);
      SplitPiecesLackSep(p, '/');
      FoldClean([], Split(p, "/"), k);
      RenderedAbs(k, st);
      var s := Slashes(k) + Strings.Join(st, "/");
      if s == "" then "." else s
  }

  /** Joining two whitespace-free paths gives a whitespace-free path. */
  lemma JoinNoSpace(a: string, b: string)
    requires NoSpace(a) && NoSpace(b)
    ensures NoSpace(Join(a, b))
  {
    NoSpaceConcat(a, "/");
    NoSpaceConcat(a, b);
    NoSpaceConcat(a + "/", b);
  }

  /** `normpath` introduces no whitespace: its output is made of the input's
      components, slashes and `.`. */
  lemma NormPathNoSpace(p: string)
    requires NoSpace(p)
    ensures NoSpace(NormPath(p))
  {
    if p != "" {
      var k := InitialSlashes(p);
      var st := Components(p);
      SplitNoSpace(p, "/");
      assert forall i :: 0 <= i < |st| ==> st[i] in Split(p, "/");
      Strings.JoinNoSpace(st, "/");
      NoSpaceConcat(Slashes(k), Strings.Join(st, "/"));
    }
  }

  /** A component list `normpath` can leave behind: non-empty names without
      slashes, no `.`, every `..` before every other name, and no `..` at all
      under the root. */
  predicate Clean(st: seq<string>, initial: nat) {
    && (forall i :: 0 <= i < |st| ==> st[i] != "" && st[i] != "." && !HasChar(st[i], '/'))
    && (initial > 0 ==> forall i :: 0 <= i < |st| ==> st[i] != "..")
    && (forall i, j :: 0 <= i < j < |st| && st[j] == ".." ==> st[i] == "..")
  }

  lemma PushClean(stack: seq<string>, c: string, initial: nat)
    requires Clean(stack, initial)
    requires !HasChar(c, '/')
    ensures Clean(Push(stack, c, initial), initial)
  {
    var r := Push(stack, c, initial);
    if c == "" || c == "." {
    } else if c != ".." || (initial == 0 && |stack| == 0) || (|stack| > 0 && stack[|stack| - 1] == "..") {
      assert r == stack + [c];
      if c == ".." {
        assert initial == 0;
        forall i | 0 <= i < |stack| ensures stack[i] == ".." {
          if i < |stack| - 1 {
            assert stack[|stack| - 1] == "..";
          }
        }
      }
    } else if |stack| > 0 {
      assert r == stack[..|stack| - 1];
    }
  }

  /** The loop only ever produces clean component lists. */
  lemma {:induction false} FoldClean(stack: seq<string>, comps: seq<string>, initial: nat)
    requires Clean(stack, initial)
    requires forall i :: 0 <= i < |comps| ==> !HasChar(comps[i], '/')
    ensures Clean(Fold(stack, comps, initial), initial)
    decreases |comps|
  {
    if |comps| > 0 {
      PushClean(stack, comps[0], initial);
      FoldClean(Push(stack, comps[0], initial), comps[1..], initial);
    }
  }

  lemma {:induction false} FoldAppend(stack: seq<string>, a: seq<string>, b: seq<string>, initial: nat)
    ensures Fold(stack, a + b, initial) == Fold(Fold(stack, a, initial), b, initial)
    decreases |a|
  {
    if |a| == 0 {
      assert a + b == b;
    } else {
      assert (a + b)[0] == a[0];
      assert (a + b)[1..] == a[1..] + b;
      FoldAppend(Push(stack, a[0], initial), a[1..], b, initial);
    }
  }

  lemma {:induction false} FoldBlanks(stack: seq<string>, n: nat, rest: seq<string>, initial: nat)
    ensures Fold(stack, Blanks(n) + rest, initial) == Fold(stack, rest, initial)
    decreases n
  {
    if n > 0 {
      var comps := Blanks(n) + rest;
      assert comps[0] == "" && comps[1..] == Blanks(n - 1) + rest;
      assert Fold(stack, comps, initial) == Fold(Push(stack, comps[0], initial), comps[1..], initial);
      assert Push(stack, "", initial) == stack;
      FoldBlanks(stack, n - 1, rest, initial);
    } else {
      assert Blanks(n) + rest == rest;
    }
  }

  /** Replaying a clean list onto a prefix of itself changes nothing. */
  lemma {:induction false} FoldReplaysClean(all: seq<string>, n: nat, initial: nat)
    requires Clean(all, initial)
    requires n <= |all|
    ensures Fold(all[..n], all[n..], initial) == all
    decreases |all| - n
  {
    if n == |all| {
      assert all[..n] == all;
    } else {
      var acc := all[..n];
      var c := all[n];
      assert all[n..][0] == c;
      assert all[n..][1..] == all[n + 1..];
      if c == ".." {
        assert initial == 0;
        if n > 0 {
          assert acc[n - 1] == all[n - 1];
        }
      }
      assert Push(acc, c, initial) == all[..n + 1];
      FoldReplaysClean(all, n + 1, initial);
    }
  }

  function DotDots(n: nat): seq<string> {
    if n == 0 then [] else [".."] + DotDots(n - 1)
  }

  /** Under the root, `n` parent references pop `n` names. */
  lemma {:induction false} FoldPops(st: seq<string>, n: nat, initial: nat)
    requires initial > 0
    requires Clean(st, initial)
    requires n <= |st|
    ensures Fold(st, DotDots(n), initial) == st[..|st| - n]
    decreases n
  {
    if n > 0 {
      assert st[|st| - 1] != "..";
      var popped := st[..|st| - 1];
      assert Push(st, "..", initial) == popped;
      assert forall i :: 0 <= i < |popped| ==> popped[i] == st[i];
      FoldPops(popped, n - 1, initial);
      assert popped[..|popped| - (n - 1)] == st[..|st| - n];
    }
  }

  lemma RenderedAbs(k: nat, st: seq<string>)
    requires Clean(st, k)
    ensures IsAbs(Slashes(k) + Strings.Join(st, "/")) <==> k > 0
  {
    if k == 0 && |st| > 0 {
      JoinStart(st);
      assert !HasChar(st[0], '/');
    }
  }

  lemma JoinStart(st: seq<string>)
    requires |st| > 0
    ensures IsPrefix(st[0], Strings.Join(st, "/"))
  {
  }

  lemma {:induction false} SplitAfterSlashes(n: nat, x: string)
    ensures Split(Slashes(n) + x, "/") == Blanks(n) + Split(x, "/")
    decreases n
  {
    if n > 0 {
      var y := Slashes(n - 1) + x;
      assert Slashes(n) == "/" + Slashes(n - 1);
      assert Slashes(n) + x == "/" + y;
      SplitOfSepPrefix(y, '/');
      SplitAfterSlashes(n - 1, x);
      assert Blanks(n) + Split(x, "/") == [""] + (Blanks(n - 1) + Split(x, "/"));
    } else {
      assert Slashes(n) + x == x;
      assert Blanks(n) + Split(x, "/") == Split(x, "/");
    }
  }

  /** The shape of a normalised path with components `st` and `k` leading
      slashes, when that is not the bare `.`. */
  lemma RenderedSplit(k: nat, st: seq<string>)
    requires Clean(st, k)
    requires k <= 2
    requires k > 0 || |st| > 0
    ensures InitialSlashes(Slashes(k) + Strings.Join(st, "/")) == k
    ensures Fold([], Split(Slashes(k) + Strings.Join(st, "/"), "/"), k) == st
  {
    var j := Strings.Join(st, "/");
    var s := Slashes(k) + j;
    if |st| > 0 {
      JoinStart(st);
      assert j[0] == st[0][0];
      assert st[0][0] != '/' by {
        assert !HasChar(st[0], '/');
      }
      assert s[k] == j[0];
    } else {
      assert s == Slashes(k);
    }
    if k == 0 {
      assert !IsAbs(s);
    } else if k == 1 {
      assert s[0] == '/';
      assert !IsPrefix("//", s) by {
        if |s| >= 2 {
          assert s[1] == j[0];
        }
      }
    } else {
      assert s[..2] == "//";
      assert !IsPrefix("///", s) by {
        if |s| >= 3 {
          assert s[2] == j[0];
        }
      }
    }
    SplitAfterSlashes(k, j);
    if |st| > 0 {
      SplitJoin(st, '/');
      FoldBlanks([], k, st, k);
      FoldReplaysClean(st, 0, k);
      assert st[..0] == [] && st[0..] == st;
    } else {
      assert Split(j, "/") == [""];
      assert Blanks(k) + [""] == Blanks(k + 1);
      FoldBlanks([], k + 1, [], k);
      assert Blanks(k + 1) + [] == Blanks(k + 1);
    }
  }

  lemma NormPathDot()
    ensures NormPath(".") == "."
  {
    assert Split(".", "/") == ["."] by {
      assert Split("", "/") == [""];
      assert "."[1..] == "";
      assert ['.'] + "" == ".";
      assert "."[..1] == ".";
      assert "."[0] != "/"[0];
      assert !IsPrefix("/", ".");
      assert "."[1..] == "";
    }
    assert Components(".") == [];
  }

  /** Structure of a non-trivial `normpath` result: the kept leading slashes
      followed by the clean components joined with slashes. */
  lemma NormPathShape(p: string)
    requires p != ""
    ensures Clean(Components(p), InitialSlashes(p))
    ensures var s := Slashes(InitialSlashes(p)) + Strings.Join(Components(p), "/");
            NormPath(p) == if s == "" then "." else s
  {
    SplitPiecesLackSep(p, '/');
    FoldClean([], Split(p, "/"), InitialSlashes(p));
  }

  /** `normpath` is idempotent. */
  lemma NormPathIdempotent(p: string)
    ensures NormPath(NormPath(p)) == NormPath(p)
  {
    if p == "" {
      NormPathDot();
    } else {
      NormPathShape(p);
      var k := InitialSlashes(p);
      var st := Components(p);
      var s := Slashes(k) + Strings.Join(st, "/");
      if s == "" {
        NormPathDot();
      } else {
        RenderedSplit(k, st);
        assert NormPath(p) == s;
        NormPathShape(s);
      }
    }
  }

  /** A path already in `normpath`'s output shape is left alone. */
  lemma NormPathOfRendered(k: nat, st: seq<string>)
    requires 1 <= k <= 2
    requires Clean(st, k)
    ensures NormPath(Slashes(k) + Strings.Join(st, "/")) == Slashes(k) + Strings.Join(st, "/")
  {
    var s := Slashes(k) + Strings.Join(st, "/");
    RenderedSplit(k, st);
    NormPathShape(s);
  }

  /** `os.path.abspath`, with the working directory `cwd` as a parameter. */
  function AbsPath(p: string, cwd: string): (r: string)
    ensures IsAbs(cwd) || IsAbs(p) ==> IsAbs(r)
  {
    if IsAbs(p) then NormPath(p) else NormPath(Join(cwd, p))
  }

  /** An absolute path that is already normalised is its own `abspath`. */
  lemma AbsPathIdempotent(p: string, cwd: string)
    requires IsAbs(cwd)
    ensures AbsPath(AbsPath(p, cwd), cwd) == AbsPath(p, cwd)
  {
    if IsAbs(p) {
      NormPathIdempotent(p);
    } else {
      NormPathIdempotent(Join(cwd, p));
    }
  }

  /** Index of the last `c` in `s`, or -1 (Python `s.rfind(c)`). */
  function LastIndexOf(s: string, c: char): (i: int)
    ensures -1 <= i < |s|
    ensures i >= 0 ==> s[i] == c
    ensures forall j :: i < j < |s| ==> s[j] != c
    decreases |s|
  {
    if |s| == 0 then -1
    else if s[|s| - 1] == c then |s| - 1
    else LastIndexOf(s[..|s| - 1], c)
  }

  /** A tail of `s` past every occurrence of `c` lacks `c`. */
  lemma TailLacks(s: string, i: nat, c: char)
    requires i <= |s| && forall j :: i <= j < |s| ==> s[j] != c
    ensures !HasChar(s[i..], c)
  {
    forall k | 0 <= k < |s[i..]| ensures s[i..][k] != c {
      assert s[i..][k] == s[i + k];
    }
  }

  /** `os.path.splitext`: the extension runs from the last dot of the last
      component, unless everything before that dot in the component is a
      dot too (`.bashrc`, `..h`). */
  function SplitExt(p: string): (r: (string, string))
    ensures r.0 + r.1 == p
    ensures r.1 == "" || (r.1[0] == '.' && !HasChar(r.1[1..], '.') && !HasChar(r.1, '/'))
  {
    var sepIndex := LastIndexOf(p, '/');
    var dotIndex := LastIndexOf(p, '.');
    if dotIndex > sepIndex && exists k :: sepIndex < k < dotIndex && p[k] != '.' then
      var ext := p[dotIndex..];
      TailLacks(p, dotIndex + 1, '.');
      assert ext[1..] == p[dotIndex + 1..];
      TailLacks(p, dotIndex, '/');
      assert p[..dotIndex] + ext == p;
      (p[..dotIndex], ext)
    else (p, "")
  }

  /** `LastIndexOf` is the only index with its three properties. */
  lemma LastIndexOfIs(s: string, c: char, i: int)
    requires -1 <= i < |s|
    requires i >= 0 ==> s[i] == c
    requires forall j :: i < j < |s| ==> s[j] != c
    ensures LastIndexOf(s, c) == i
  {
    var r := LastIndexOf(s, c);
  }

  /** `splitext` finds the extension: a stem whose last component holds a
      character other than `.` keeps everything before the final dot, and a
      dot-led, dot-free and slash-free tail is the extension. */
  lemma SplitExtOf(stem: string, ext: string)
    requires |ext| >= 1 && ext[0] == '.' && !HasChar(ext[1..], '.') && !HasChar(ext, '/')
    requires exists k :: LastIndexOf(stem, '/') < k < |stem| && stem[k] != '.'
    ensures SplitExt(stem + ext) == (stem, ext)
  {
    var p := stem + ext;
    var sep := LastIndexOf(stem, '/');
    forall j | |stem| <= j < |p| ensures p[j] != '/' {
      assert p[j] == ext[j - |stem|];
    }
    LastIndexOfIs(p, '/', sep);
    forall j | |stem| < j < |p| ensures p[j] != '.' {
      assert p[j] == ext[1..][j - |stem| - 1];
    }
    LastIndexOfIs(p, '.', |stem|);
    var k :| sep < k < |stem| && stem[k] != '.';
    assert p[k] == stem[k];
    assert p[..|stem|] == stem && p[|stem|..] == ext;
  }

  /** `splitext` finds no extension when the last component has no dot. */
  lemma SplitExtNone(p: string)
    requires forall k :: LastIndexOf(p, '/') < k < |p| ==> p[k] != '.'
    ensures SplitExt(p) == (p, "")
  {
  }

  /** The extension of `os.path.join(a, b)` lies inside `b`: the join puts a
      slash, or nothing, in front of `b`, and an extension holds no slash. */
  lemma ExtOfJoin(a: string, b: string)
    ensures var ext := SplitExt(Join(a, b)).1; |ext| <= |b| && b[|b| - |ext|..] == ext
  {
    var p := Join(a, b);
    var (stem, ext) := SplitExt(p);
    var i := |p| - |b|;
    assert p[i..] == b;
    assert i == 0 || p[i - 1] == '/';
    assert p[|stem|..] == ext;
    assert b[|b| - |ext|..] == p[|stem|..];
  }

  /** `head.rstrip('/')`. */
  function StripTrailingSlashes(s: string): (r: string)
    ensures IsPrefix(r, s)
    ensures |r| == 0 || r[|r| - 1] != '/'
    ensures forall i :: |r| <= i < |s| ==> s[i] == '/'
    decreases |s|
  {
    if |s| > 0 && s[|s| - 1] == '/' then StripTrailingSlashes(s[..|s| - 1]) else s
  }

  /** `os.path.dirname`: everything up to the last slash, with trailing
      slashes stripped unless the head is nothing but slashes. */
  function DirName(p: string): (r: string)
    ensures IsPrefix(r, p)
    ensures !HasChar(p, '/') ==> r == ""
  {
    var head := p[..LastIndexOf(p, '/') + 1];
    if head != "" && exists i :: 0 <= i < |head| && head[i] != '/' then
      StripTrailingSlashes(head)
    else head
  }

  /** `dirname` undoes `join` of a directory (not ending in a slash) and a
      plain file name. */
  lemma DirNameOfJoin(d: string, name: string)
    requires |d| > 0 && d[|d| - 1] != '/'
    requires !IsAbs(name) && !HasChar(name, '/')
    ensures DirName(Join(d, name)) == d
  {
    var p := Join(d, name);
    assert p == d + "/" + name;
    var i := LastIndexOf(p, '/');
    assert p[|d|] == '/';
    assert forall j :: |d| < j < |p| ==> p[j] == name[j - |d| - 1];
    assert i == |d|;
    var head := p[..i + 1];
    assert head == d + "/";
    assert head[|d| - 1] != '/';
    assert StripTrailingSlashes(head) == d by {
      assert head[..|head| - 1] == d;
    }
  }

  /** `[x for x in p.split('/') if x]`. */
  function NonEmpty(xs: seq<string>): (r: seq<string>)
    ensures forall i :: 0 <= i < |r| ==> r[i] != ""
    ensures forall x :: x in r ==> x in xs
  {
    if |xs| == 0 then []
    else if xs[0] == "" then NonEmpty(xs[1..])
    else [xs[0]] + NonEmpty(xs[1..])
  }

  /** Length of the longest common prefix of two lists
      (`os.path.commonprefix` applied to two lists). */
  function CommonPrefixLength(a: seq<string>, b: seq<string>): (n: nat)
    ensures n <= |a| && n <= |b|
    ensures a[..n] == b[..n]
    ensures n == |a| || n == |b| || a[n] != b[n]
  {
    if |a| == 0 || |b| == 0 || a[0] != b[0] then 0
    else
      var n := 1 + CommonPrefixLength(a[1..], b[1..]);
      assert a[..n] == [a[0]] + a[1..][..n - 1];
      assert b[..n] == [b[0]] + b[1..][..n - 1];
      n
  }

  /** The parts `relpath` works with: the non-empty pieces of `abspath`. */
  function Parts(p: string, cwd: string): seq<string> {
    NonEmpty(Split(AbsPath(p, cwd), "/"))
  }

  /** The relative route from `start` to `path` as a list of components. */
  function RelParts(path: string, start: string, cwd: string): seq<string> {
    var s := Parts(start, cwd);
    var t := Parts(path, cwd);
    var i := CommonPrefixLength(s, t);
    DotDots(|s| - i) + t[i..]
  }

  /** `os.path.relpath(path, start)`: climb out of `start` to the common
      prefix with `path`, then descend; `.` when both are the same. Python
      raises `ValueError` for an empty `path`. The parts are plain names, so
      `os.path.join(*parts)` is `'/'.join(parts)`. */
  function RelPath(path: string, start: string, cwd: string): (r: string)
    requires path != ""
    ensures r != "" && !IsAbs(r)
  {
    var rel := RelParts(path, start, cwd);
    if |rel| == 0 then "."
    else
      RelPartsShape(path, start, cwd);
      JoinStart(rel);
      Strings.Join(rel, "/")
  }

  lemma {:induction false} DotDotsNonEmpty(n: nat)
    ensures |DotDots(n)| == n
    ensures forall i :: 0 <= i < n ==> DotDots(n)[i] == ".."
    decreases n
  {
    if n > 0 {
      DotDotsNonEmpty(n - 1);
    }
  }

  /** Every part is a non-empty, slash-free name. */
  lemma PartsShape(p: string, cwd: string)
    ensures forall x :: x in Parts(p, cwd) ==> x != "" && !HasChar(x, '/')
  {
    var abs := AbsPath(p, cwd);
    SplitPiecesLackSep(abs, '/');
    forall x | x in Parts(p, cwd) ensures x != "" && !HasChar(x, '/') {
      assert x in Split(abs, "/");
    }
  }

  lemma RelPartsShape(path: string, start: string, cwd: string)
    ensures forall i :: 0 <= i < |RelParts(path, start, cwd)| ==>
              RelParts(path, start, cwd)[i] != "" && !HasChar(RelParts(path, start, cwd)[i], '/')
  {
    var s := Parts(start, cwd);
    var t := Parts(path, cwd);
    var i := CommonPrefixLength(s, t);
    DotDotsNonEmpty(|s| - i);
    PartsShape(path, cwd);
    var rel := DotDots(|s| - i) + t[i..];
    forall j | 0 <= j < |rel| ensures rel[j] != "" && !HasChar(rel[j], '/') {
      if j < |s| - i {
        assert rel[j] == "..";
      } else {
        assert rel[j] in t[i..];
      }
    }
  }

  lemma {:induction false} NonEmptyAfterBlanks(n: nat, xs: seq<string>)
    ensures NonEmpty(Blanks(n) + xs) == NonEmpty(xs)
    decreases n
  {
    if n > 0 {
      var ys := Blanks(n) + xs;
      assert ys[0] == "" && ys[1..] == Blanks(n - 1) + xs;
      NonEmptyAfterBlanks(n - 1, xs);
    } else {
      assert Blanks(n) + xs == xs;
    }
  }

  lemma {:induction false} NonEmptyKeepsAll(xs: seq<string>)
    requires forall i :: 0 <= i < |xs| ==> xs[i] != ""
    ensures NonEmpty(xs) == xs
    decreases |xs|
  {
    if |xs| > 0 {
      NonEmptyKeepsAll(xs[1..]);
      assert [xs[0]] + xs[1..] == xs;
    }
  }

  /** A string of `k` slashes (one or two) followed by something that does not
      start with a slash keeps exactly those `k` slashes. */
  lemma InitialOfRendered(k: nat, j: string)
    requires 1 <= k <= 2
    requires |j| == 0 || j[0] != '/'
    ensures InitialSlashes(Slashes(k) + j) == k
  {
    var s := Slashes(k) + j;
    assert s[0] == '/';
    if k == 1 {
      assert !IsPrefix("//", s) by {
        if |s| >= 2 {
          assert s[1] == j[0];
        }
      }
    } else {
      assert s[..2] == "//";
      assert !IsPrefix("///", s) by {
        if |s| >= 3 {
          assert s[2] == j[0];
        }
      }
    }
  }

  lemma {:induction false} JoinEnd(st: seq<string>)
    requires |st| > 0
    ensures var j := Strings.Join(st, "/");
            |st[|st| - 1]| <= |j| && j[|j| - |st[|st| - 1]|..] == st[|st| - 1]
    decreases |st|
  {
    if |st| > 1 {
      JoinEnd(st[1..]);
    }
  }

  lemma {:induction false} JoinConcat(a: seq<string>, b: seq<string>)
    requires |a| > 0 && |b| > 0
    ensures Strings.Join(a, "/") + "/" + Strings.Join(b, "/") == Strings.Join(a + b, "/")
    decreases |a|
  {
    if |a| == 1 {
      assert a + b == [a[0]] + b;
      JoinCons(a[0], b, "/");
    } else {
      JoinConcat(a[1..], b);
      assert a + b == [a[0]] + (a[1..] + b);
      JoinCons(a[0], a[1..] + b, "/");
    }
  }

  /** The shape of every `abspath` result when the working directory is
      absolute: its kept slashes and clean components, which are also the
      parts `relpath` splits it into. */
  lemma AbsShape(p: string, cwd: string)
    requires IsAbs(cwd)
    ensures var a := AbsPath(p, cwd);
            var k := InitialSlashes(a);
            && k > 0
            && Clean(Components(a), k)
            && a == Slashes(k) + Strings.Join(Components(a), "/")
            && Parts(p, cwd) == Components(a)
  {
    var q := if IsAbs(p) then p else Join(cwd, p);
    assert IsAbs(q);
    var a := AbsPath(p, cwd);
    assert a == NormPath(q);
    NormPathShape(q);
    var k := InitialSlashes(q);
    var st := Components(q);
    assert a == Slashes(k) + Strings.Join(st, "/");
    RenderedSplit(k, st);
    assert InitialSlashes(a) == k;
    assert Components(a) == st;
    SplitAfterSlashes(k, Strings.Join(st, "/"));
    if |st| > 0 {
      SplitJoin(st, '/');
      NonEmptyAfterBlanks(k, st);
      NonEmptyKeepsAll(st);
    } else {
      assert Split(Strings.Join(st, "/"), "/") == [""];
      NonEmptyAfterBlanks(k, [""]);
      assert NonEmpty([""]) == [];
    }
  }

  /** A rendering whose last component is a plain name ends without a
      slash. */
  lemma JoinEndsInName(st: seq<string>)
    requires |st| > 0
    requires st[|st| - 1] != "" && !HasChar(st[|st| - 1], '/')
    ensures var j := Strings.Join(st, "/"); |j| > 0 && j[|j| - 1] != '/'
  {
    JoinEnd(st);
    var last := st[|st| - 1];
    var j := Strings.Join(st, "/");
    assert j[|j| - 1] == j[|j| - |last|..][|last| - 1];
  }

  /** A rendering whose first component is a plain name is relative. */
  lemma JoinStartsWithName(route: seq<string>)
    requires |route| > 0
    requires route[0] != "" && !HasChar(route[0], '/')
    ensures !IsAbs(Strings.Join(route, "/"))
  {
    JoinStart(route);
    assert Strings.Join(route, "/")[0] == route[0][0];
  }

  /** `join` of a relative path after one that does not end in a slash
      inserts one slash. */
  lemma JoinWithSlash(a: string, b: string)
    requires |a| > 0 && a[|a| - 1] != '/' && !IsAbs(b)
    ensures Join(a, b) == a + "/" + b
  {
  }

  /** After a rendering that ends in a name, `join` inserts one slash. */
  lemma JoinAfterNameSlash(k: nat, st: seq<string>, route: seq<string>, a: string, rel: string)
    requires |st| > 0 && st[|st| - 1] != "" && !HasChar(st[|st| - 1], '/')
    requires |route| > 0 && route[0] != "" && !HasChar(route[0], '/')
    requires a == Slashes(k) + Strings.Join(st, "/")
    requires rel == Strings.Join(route, "/")
    ensures Join(a, rel) == a + "/" + rel
  {
    var j := Strings.Join(st, "/");
    JoinStartsWithName(route);
    JoinEndsInName(st);
    assert a[|a| - 1] == j[|j| - 1];
    JoinWithSlash(a, rel);
  }

  /** Two renderings glued with a slash render the concatenated lists. */
  lemma RenderedConcat(k: nat, st: seq<string>, route: seq<string>, a: string, rel: string)
    requires |st| > 0 && |route| > 0
    requires a == Slashes(k) + Strings.Join(st, "/")
    requires rel == Strings.Join(route, "/")
    ensures a + "/" + rel == Slashes(k) + Strings.Join(st + route, "/")
  {
    var j := Strings.Join(st, "/");
    JoinConcat(st, route);
    assert a + "/" + rel == Slashes(k) + (j + "/" + rel);
  }

  /** `join` after a path that ends in a name inserts one slash. */
  lemma JoinAfterName(k: nat, st: seq<string>, route: seq<string>, a: string, rel: string)
    requires |st| > 0 && st[|st| - 1] != "" && !HasChar(st[|st| - 1], '/')
    requires |route| > 0 && route[0] != "" && !HasChar(route[0], '/')
    requires a == Slashes(k) + Strings.Join(st, "/")
    requires rel == Strings.Join(route, "/")
    ensures Join(a, rel) == Slashes(k) + Strings.Join(st + route, "/")
  {
    JoinAfterNameSlash(k, st, route, a, rel);
    RenderedConcat(k, st, route, a, rel);
  }

  /** `join` after the bare root appends directly. */
  lemma JoinAfterRoot(k: nat, route: seq<string>, a: string, rel: string)
    requires 1 <= k <= 2
    requires |route| > 0 && route[0] != "" && !HasChar(route[0], '/')
    requires a == Slashes(k) + Strings.Join([], "/")
    requires rel == Strings.Join(route, "/")
    ensures Join(a, rel) == Slashes(k) + Strings.Join([] + route, "/")
  {
    JoinStartsWithName(route);
    assert a == Slashes(k);
    assert a[|a| - 1] == '/';
    assert [] + route == route;
  }

  /** `join` of a rendered absolute path and a rendered relative route is the
      rendering of both component lists together. */
  lemma JoinRendered(k: nat, st: seq<string>, route: seq<string>)
    requires 1 <= k <= 2
    requires Clean(st, k)
    requires |route| > 0
    requires forall i :: 0 <= i < |route| ==> route[i] != "" && !HasChar(route[i], '/')
    ensures Join(Slashes(k) + Strings.Join(st, "/"), Strings.Join(route, "/"))
            == Slashes(k) + Strings.Join(st + route, "/")
  {
    var a := Slashes(k) + Strings.Join(st, "/");
    var rel := Strings.Join(route, "/");
    if |st| == 0 {
      JoinAfterRoot(k, route, a, rel);
    } else {
      JoinAfterName(k, st, route, a, rel);
    }
  }

  /** Normalising the rendering of `st + route` replays `route` on `st`. */
  lemma ComponentsOfRendered(k: nat, st: seq<string>, route: seq<string>)
    requires 1 <= k <= 2
    requires Clean(st, k)
    requires |route| > 0
    requires forall i :: 0 <= i < |route| ==> route[i] != "" && !HasChar(route[i], '/')
    ensures var s := Slashes(k) + Strings.Join(st + route, "/");
            InitialSlashes(s) == k && Components(s) == Fold(st, route, k)
  {
    var all := st + route;
    var body := Strings.Join(all, "/");
    assert all[0] != "" && !HasChar(all[0], '/');
    JoinStart(all);
    assert body[0] == all[0][0];
    InitialOfRendered(k, body);
    assert forall i :: 0 <= i < |all| ==> !HasChar(all[i], '/');
    SplitJoin(all, '/');
    SplitAfterSlashes(k, body);
    FoldBlanks([], k, all, k);
    FoldAppend([], st, route, k);
    FoldReplaysClean(st, 0, k);
    assert st[..0] == [] && st[0..] == st;
  }

  /** Joining a relative route of plain names onto a normalised absolute
      path and normalising replays the route on that path's components. */
  lemma NormPathOfJoin(k: nat, st: seq<string>, route: seq<string>)
    requires 1 <= k <= 2
    requires Clean(st, k)
    requires |route| > 0
    requires forall i :: 0 <= i < |route| ==> route[i] != "" && !HasChar(route[i], '/')
    ensures NormPath(Join(Slashes(k) + Strings.Join(st, "/"), Strings.Join(route, "/")))
            == Slashes(k) + Strings.Join(Fold(st, route, k), "/")
  {
    JoinRendered(k, st, route);
    var s := Slashes(k) + Strings.Join(st + route, "/");
    ComponentsOfRendered(k, st, route);
    NormPathShape(s);
  }

  /** Climbing from `s` to a prefix it shares with `t` and descending again
      arrives at `t`. */
  lemma RouteArrives(k: nat, s: seq<string>, t: seq<string>, i: nat, n: nat, up: seq<string>, down: seq<string>)
    requires 1 <= k <= 2
    requires Clean(s, k) && Clean(t, k)
    requires i <= |s| && i <= |t| && s[..i] == t[..i]
    requires n == |s| - i && up == DotDots(n) && down == t[i..]
    ensures Fold(s, up + down, k) == t
  {
    FoldAppend(s, up, down, k);
    FoldPops(s, n, k);
    assert s[..|s| - n] == t[..i];
    FoldReplaysClean(t, i, k);
  }

  /** `..` is a plain name. */
  lemma DotDotIsName()
    ensures ".." != "" && !HasChar("..", '/')
  {
  }

  /** The parts of a route: `n` times `..`, then names of `t`. */
  lemma RouteParts(k: nat, t: seq<string>, i: nat, n: nat, route: seq<string>)
    requires Clean(t, k)
    requires i <= |t| && |DotDots(n)| == n
    requires route == DotDots(n) + t[i..]
    ensures forall j :: 0 <= j < |route| ==> route[j] != "" && !HasChar(route[j], '/')
  {
    DotDotIsName();
    forall j | 0 <= j < |route| ensures route[j] != "" && !HasChar(route[j], '/') {
      if j < n {
        DotDotsNonEmpty(n);
        assert route[j] == "..";
      } else {
        assert route[j] == t[i + j - n];
      }
    }
  }

  /** Joining `.` onto a normalised absolute path and normalising gives the
      path back. */
  lemma JoinDotResolves(k: nat, s: seq<string>)
    requires 1 <= k <= 2
    requires Clean(s, k)
    ensures NormPath(Join(Slashes(k) + Strings.Join(s, "/"), ".")) == Slashes(k) + Strings.Join(s, "/")
  {
    assert Strings.Join(["."], "/") == ".";
    assert !HasChar(".", '/');
    NormPathOfJoin(k, s, ["."]);
    assert Fold(s, ["."], k) == s;
  }

  /** The route through a shared prefix of length `i`, rendered as `relpath`
      renders it, leads from the rendering of `s` to the rendering of `t`. */
  lemma RouteResolvesAt(k: nat, s: seq<string>, t: seq<string>, i: nat, route: seq<string>)
    requires 1 <= k <= 2
    requires Clean(s, k) && Clean(t, k)
    requires i <= |s| && i <= |t| && s[..i] == t[..i]
    requires route == DotDots(|s| - i) + t[i..]
    ensures NormPath(Join(Slashes(k) + Strings.Join(s, "/"), if route == [] then "." else Strings.Join(route, "/")))
            == Slashes(k) + Strings.Join(t, "/")
  {
    DotDotsNonEmpty(|s| - i);
    if route == [] {
      assert s == s[..i] && t == t[..i];
      JoinDotResolves(k, s);
    } else {
      RouteParts(k, t, i, |s| - i, route);
      NormPathOfJoin(k, s, route);
      RouteArrives(k, s, t, i, |s| - i, DotDots(|s| - i), t[i..]);
    }
  }

  /** `relpath` finds a route: joining `abspath(start)` with the result and
      normalising arrives at `abspath(path)`, whenever both absolute forms
      begin with the same number of slashes. */
  lemma RelPathResolves(path: string, start: string, cwd: string)
    requires path != ""
    requires IsAbs(cwd)
    requires InitialSlashes(AbsPath(start, cwd)) == InitialSlashes(AbsPath(path, cwd))
    ensures NormPath(Join(AbsPath(start, cwd), RelPath(path, start, cwd))) == AbsPath(path, cwd)
  {
    AbsShape(start, cwd);
    AbsShape(path, cwd);
    var s := Parts(start, cwd);
    var t := Parts(path, cwd);
    var i := CommonPrefixLength(s, t);
    RouteResolvesAt(InitialSlashes(AbsPath(start, cwd)), s, t, i, RelParts(path, start, cwd));
  }
}
