/** `abspaths.py`: every entry's `file`, `-I` values and `-c` value are
    resolved against the entry's `directory` with `join` and `normpath`, and
    the command is rebuilt from the parsed tokens. */
module AbsPaths {
  import opened Wrappers
  import opened Strings
  import opened PosixPath
  import opened CompileDb
  import opened CommandLine

  /** `os.path.normpath(os.path.join(directory, p))`. */
  function Resolve(dir: string, p: string): (r: string)
    ensures |r| > 0
    ensures IsAbs(p) ==> r == NormPath(p)
    ensures IsAbs(r) <==> IsAbs(dir) || IsAbs(p)
  {
    NormPath(PosixPath.Join(dir, p))
  }

  /** `Resolve` over a list. */
  function ResolveAll(dir: string, xs: seq<string>): (r: seq<string>)
    ensures |r| == |xs|
    ensures forall i :: 0 <= i < |xs| ==> r[i] == Resolve(dir, xs[i])
    ensures IsAbs(dir) ==> forall i :: 0 <= i < |r| ==> IsAbs(r[i])
  {
    seq(|xs|, i requires 0 <= i < |xs| => Resolve(dir, xs[i]))
  }

  /** `xs` back to front: the same elements, in reverse order. */
  function Reverse<T(!new)>(xs: seq<T>): (r: seq<T>)
    ensures |r| == |xs|
    ensures forall i :: 0 <= i < |xs| ==> r[i] == xs[|xs| - 1 - i]
    ensures forall x :: x in r <==> x in xs
  {
    var r := seq(|xs|, i requires 0 <= i < |xs| => xs[|xs| - 1 - i]);
    assert forall i :: 0 <= i < |xs| ==> r[|xs| - 1 - i] == xs[i];
    r
  }

  /** The loop of abspaths.py:27-29: each resolved include goes, with its
      `-I`, in front of the tokens gathered so far. */
  function PrependIncludes(dir: string, incs: seq<string>, acc: seq<string>): seq<string>
    decreases |incs|
  {
    if |incs| == 0 then acc
    else PrependIncludes(dir, incs[1..], ["-I", Resolve(dir, incs[0])] + acc)
  }

  /** Prepending one pair at a time reverses the includes. */
  lemma {:induction false} PrependReverses(dir: string, incs: seq<string>, acc: seq<string>)
    ensures PrependIncludes(dir, incs, acc) == IncludeArgs(Reverse(ResolveAll(dir, incs))) + acc
    decreases |incs|
  {
    if |incs| == 0 {
      assert IncludeArgs([]) + acc == acc;
    } else {
      var x := Resolve(dir, incs[0]);
      var rest := Reverse(ResolveAll(dir, incs[1..]));
      calc {
        PrependIncludes(dir, incs, acc);
        PrependIncludes(dir, incs[1..], ["-I", x] + acc);
        { PrependReverses(dir, incs[1..], ["-I", x] + acc); }
        IncludeArgs(rest) + (["-I", x] + acc);
        (IncludeArgs(rest) + ["-I", x]) + acc;
        { IncludeArgsSnoc(rest, x); }
        IncludeArgs(rest + [x]) + acc;
        { ReverseResolveCons(dir, incs); }
        IncludeArgs(Reverse(ResolveAll(dir, incs))) + acc;
      }
    }
  }

  lemma ReverseResolveCons(dir: string, incs: seq<string>)
    requires |incs| > 0
    ensures Reverse(ResolveAll(dir, incs)) == Reverse(ResolveAll(dir, incs[1..])) + [Resolve(dir, incs[0])]
  {
    var a := Reverse(ResolveAll(dir, incs));
    var b := Reverse(ResolveAll(dir, incs[1..])) + [Resolve(dir, incs[0])];
    assert |a| == |b|;
    forall i | 0 <= i < |a| ensures a[i] == b[i] {
      if i < |a| - 1 {
        assert incs[1..][|incs| - 2 - i] == incs[|incs| - 1 - i];
      }
    }
  }

  lemma {:induction false} IncludeArgsSnoc(xs: seq<string>, x: string)
    ensures IncludeArgs(xs + [x]) == IncludeArgs(xs) + ["-I", x]
    decreases |xs|
  {
    if |xs| == 0 {
      assert xs + [x] == [x];
    } else {
      assert (xs + [x])[1..] == xs[1..] + [x];
      IncludeArgsSnoc(xs[1..], x);
    }
  }

  /** The token list of the rebuilt command, given the parsed namespace and
      a source file. */
  function RebuiltTokens(dir: string, p: Parsed, src: string): seq<string> {
    PrependIncludes(dir, p.includes, p.unknown) + ["-c", Resolve(dir, src)]
  }

  /** abspaths.py:22-32 for one entry. `file` is resolved first; a parse
      that exits, or a command without `-c`, ends the whole run. */
  function RewriteEntry(e: Entry): (r: Result<Entry, Failure>)
    ensures r.Ok? <==> Parse(Words(e.command), true).Ok? && Parse(Words(e.command), true).value.source.Some?
    ensures r.Ok? ==> r.value.directory == e.directory && r.value.extra == e.extra
    ensures r.Ok? ==> r.value.file == Resolve(e.directory, e.file)
    ensures r.Ok? && IsAbs(e.file) ==> r.value.file == NormPath(e.file)
    ensures Parse(Words(e.command), true).Ok? && Parse(Words(e.command), true).value.source.None? ==>
      r == Err(NoSourceFile(e.file))
  {
    var file := Resolve(e.directory, e.file);
    var p :- Parse(Words(e.command), true);
    if p.source.None? then Err(NoSourceFile(e.file))
    else Ok(Entry(e.directory, file, Strings.Join(RebuiltTokens(e.directory, p, p.source.value), " "), e.extra))
  }

  /** The rebuilt command: the `-I` pairs in reverse order, then the unknown
      tokens in their order, then `-c` and the source, each path resolved
      against `directory`, joined by single spaces; `2k + |unknown| + 2`
      tokens for `k` includes. */
  lemma RewrittenCommand(e: Entry)
    requires RewriteEntry(e).Ok?
    ensures var p := Parse(Words(e.command), true).value;
      var toks := IncludeArgs(Reverse(ResolveAll(e.directory, p.includes))) + p.unknown
        + ["-c", Resolve(e.directory, p.source.value)];
      && RewriteEntry(e).value.command == Strings.Join(toks, " ")
      && |toks| == 2 * |p.includes| + |p.unknown| + 2
  {
    var p := Parse(Words(e.command), true).value;
    PrependReverses(e.directory, p.includes, p.unknown);
  }

  /** The loop over the database: every entry rewritten, in order; the first
      failure aborts the run before anything is written. */
  function RewriteAll(db: seq<Entry>): (r: Result<seq<Entry>, Failure>)
    ensures r.Ok? <==> forall i :: 0 <= i < |db| ==> RewriteEntry(db[i]).Ok?
    ensures r.Ok? ==> |r.value| == |db| && forall i :: 0 <= i < |db| ==> r.value[i] == RewriteEntry(db[i]).value
    ensures r.Err? ==> exists i :: (0 <= i < |db| && RewriteEntry(db[i]) == Err(r.error)
      && forall j :: 0 <= j < i ==> RewriteEntry(db[j]).Ok?)
  {
    MapAll(RewriteEntry, db)
  }

  /** A fallible step applied to every element in order, stopping at the
      first failure. */
  function MapAll<A, B>(f: A -> Result<B, Failure>, xs: seq<A>): (r: Result<seq<B>, Failure>)
    ensures r.Ok? <==> forall i :: 0 <= i < |xs| ==> f(xs[i]).Ok?
    ensures r.Ok? ==> |r.value| == |xs| && forall i :: 0 <= i < |xs| ==> r.value[i] == f(xs[i]).value
    ensures r.Err? ==> exists i :: (0 <= i < |xs| && f(xs[i]).Err? && f(xs[i]).error == r.error
      && forall j :: 0 <= j < i ==> f(xs[j]).Ok?)
  {
    if |xs| == 0 then Ok([])
    else
      var y :- f(xs[0]);
      var rest := MapAll(f, xs[1..]);
      assert forall i :: 1 <= i < |xs| ==> xs[1..][i - 1] == xs[i];
      if rest.Err? then
        var k :| 0 <= k < |xs[1..]| && f(xs[1..][k]).Err? && f(xs[1..][k]).error == rest.error
          && forall j :: 0 <= j < k ==> f(xs[1..][j]).Ok?;
        assert f(xs[k + 1]).Err? && f(xs[k + 1]).error == rest.error;
        Err(rest.error)
      else Ok([y] + rest.value)
  }

  /** A path as the first pass leaves it under an absolute, whitespace-free
      `directory`: absolute and a single whitespace-free token. */
  predicate Settled(x: string) {
    IsAbs(x) && IsWord(x)
  }

  /** Against an absolute directory, a resolved path resolves to itself. */
  lemma ResolveFixes(dir: string, x: string)
    requires IsAbs(dir)
    ensures Resolve(dir, Resolve(dir, x)) == Resolve(dir, x)
  {
    NormPathIdempotent(PosixPath.Join(dir, x));
  }

  /** Resolving against such a directory settles a whitespace-free path. */
  lemma ResolveSettles(dir: string, x: string)
    requires IsAbs(dir) && NoSpace(dir) && NoSpace(x)
    ensures Settled(Resolve(dir, x))
    ensures Resolve(dir, Resolve(dir, x)) == Resolve(dir, x)
  {
    PosixPath.JoinNoSpace(dir, x);
    NormPathNoSpace(PosixPath.Join(dir, x));
    ResolveFixes(dir, x);
  }

  predicate AllWords(ts: seq<string>) {
    forall i :: 0 <= i < |ts| ==> IsWord(ts[i])
  }

  lemma IncludeArgsWords(xs: seq<string>)
    requires AllWords(xs)
    ensures AllWords(IncludeArgs(xs))
    decreases |xs|
  {
    if |xs| > 0 {
      assert IsWord("-I") by {
        assert !IsSpace('-') && !IsSpace('I');
      }
      IncludeArgsWords(xs[1..]);
    }
  }

  /** The tokens of a rebuilt command, all words. */
  lemma RebuiltWords(xs: seq<string>, unknown: seq<string>, src: string)
    requires AllWords(xs) && AllWords(unknown) && IsWord(src)
    ensures AllWords(IncludeArgs(xs) + unknown + ["-c", src])
  {
    IncludeArgsWords(xs);
    assert IsWord("-c") by {
      assert !IsSpace('-') && !IsSpace('c');
    }
  }

  /** A rebuilt command whose paths are settled splits and parses back into
      the includes, unknown tokens and source it was built from. */
  lemma RebuiltParses(xs: seq<string>, unknown: seq<string>, src: string)
    requires forall i :: 0 <= i < |xs| ==> Settled(xs[i])
    requires forall i :: 0 <= i < |unknown| ==> IsWord(unknown[i]) && !Recognised(unknown[i], true)
    requires Settled(src)
    ensures Parse(Words(Strings.Join(IncludeArgs(xs) + unknown + ["-c", src], " ")), true)
      == Ok(Parsed(xs, Some(src), unknown))
  {
    RebuiltWords(xs, unknown, src);
    WordsOfJoin(IncludeArgs(xs) + unknown + ["-c", src]);
    ParseRebuilt(xs, unknown, src);
  }

  /** Two rebuilt commands that differ only in their include lists are equal
      exactly when the include lists are. */
  lemma RebuiltCommandsEqual(a: seq<string>, b: seq<string>, unknown: seq<string>, src: string)
    requires AllWords(a) && AllWords(b) && AllWords(unknown) && IsWord(src)
    ensures (Strings.Join(IncludeArgs(a) + unknown + ["-c", src], " ")
             == Strings.Join(IncludeArgs(b) + unknown + ["-c", src], " ")) <==> a == b
  {
    var ta := IncludeArgs(a) + unknown + ["-c", src];
    var tb := IncludeArgs(b) + unknown + ["-c", src];
    if Strings.Join(ta, " ") == Strings.Join(tb, " ") {
      RebuiltWords(a, unknown, src);
      RebuiltWords(b, unknown, src);
      WordsOfJoin(ta);
      WordsOfJoin(tb);
      assert |a| == |b|;
      assert IncludeArgs(a) == ta[..2 * |a|] == tb[..2 * |b|] == IncludeArgs(b);
      IncludeArgsInjective(a, b);
    }
  }

  /** What the first pass produces under an absolute, whitespace-free
      `directory`: settled includes and source, and the unknown tokens as
      words the parser does not claim. */
  lemma FirstPassParts(e: Entry)
    requires IsAbs(e.directory) && NoSpace(e.directory)
    requires RewriteEntry(e).Ok?
    ensures var p := Parse(Words(e.command), true).value;
      && (forall i :: 0 <= i < |p.includes| ==>
            (Settled(Resolve(e.directory, p.includes[i]))
             && Resolve(e.directory, Resolve(e.directory, p.includes[i])) == Resolve(e.directory, p.includes[i])))
      && Settled(Resolve(e.directory, p.source.value))
      && Resolve(e.directory, Resolve(e.directory, p.source.value)) == Resolve(e.directory, p.source.value)
      && (forall i :: 0 <= i < |p.unknown| ==> IsWord(p.unknown[i]) && !Recognised(p.unknown[i], true))
  {
    var toks := Words(e.command);
    var p := Parse(toks, true).value;
    ParsedNoSpace(toks, true);
    UnknownUnrecognised(toks, true);
    forall i | 0 <= i < |p.includes|
      ensures Settled(Resolve(e.directory, p.includes[i]))
      ensures Resolve(e.directory, Resolve(e.directory, p.includes[i])) == Resolve(e.directory, p.includes[i])
    {
      ResolveSettles(e.directory, p.includes[i]);
    }
    ResolveSettles(e.directory, p.source.value);
  }

  /** `RewriteEntry` given the parse of the command. */
  lemma RewriteOfParsed(e: Entry, p: Parsed, src: string)
    requires Parse(Words(e.command), true) == Ok(p) && p.source == Some(src)
    ensures RewriteEntry(e) == Ok(Entry(e.directory, Resolve(e.directory, e.file),
      Strings.Join(IncludeArgs(Reverse(ResolveAll(e.directory, p.includes))) + p.unknown
        + ["-c", Resolve(e.directory, src)], " "), e.extra))
  {
    PrependReverses(e.directory, p.includes, p.unknown);
  }

  lemma ReverseReverse<T(!new)>(xs: seq<T>)
    ensures Reverse(Reverse(xs)) == xs
  {
  }

  /** A list of paths that each resolve to themselves. */
  lemma ResolveAllFixes(dir: string, xs: seq<string>)
    requires forall i :: 0 <= i < |xs| ==> Resolve(dir, xs[i]) == xs[i]
    ensures ResolveAll(dir, xs) == xs
  {
  }

  /** Every path in `xs` is settled and resolves to itself against `dir`. */
  predicate Fixed(dir: string, xs: seq<string>) {
    forall i :: 0 <= i < |xs| ==> Settled(xs[i]) && Resolve(dir, xs[i]) == xs[i]
  }

  /** Resolved whitespace-free paths are fixed. */
  lemma ResolvedFixed(dir: string, xs: seq<string>, rs: seq<string>)
    requires IsAbs(dir) && NoSpace(dir)
    requires forall i :: 0 <= i < |xs| ==> NoSpace(xs[i])
    requires rs == ResolveAll(dir, xs)
    ensures Fixed(dir, rs)
  {
    forall i | 0 <= i < |rs| ensures Settled(rs[i]) && Resolve(dir, rs[i]) == rs[i] {
      ResolveSettles(dir, xs[i]);
    }
  }

  /** Reversing keeps a list fixed. */
  lemma ReverseFixed(dir: string, xs: seq<string>)
    requires Fixed(dir, xs)
    ensures Fixed(dir, Reverse(xs))
  {
    var r := Reverse(xs);
    forall i | 0 <= i < |r| ensures Settled(r[i]) && Resolve(dir, r[i]) == r[i] {
      assert r[i] == xs[|xs| - 1 - i];
    }
  }

  /** The parts of a first-pass result under an absolute, whitespace-free
      `directory`: reversed includes and source are fixed, and the unknown
      tokens are words the parser does not claim. */
  lemma FirstPassFixed(e: Entry, p: Parsed, rs: seq<string>, src: string)
    requires IsAbs(e.directory) && NoSpace(e.directory)
    requires Parse(Words(e.command), true) == Ok(p) && p.source.Some?
    requires rs == ResolveAll(e.directory, p.includes)
    requires src == Resolve(e.directory, p.source.value)
    ensures Fixed(e.directory, Reverse(rs))
    ensures Settled(src) && Resolve(e.directory, src) == src
    ensures forall i :: 0 <= i < |p.unknown| ==> IsWord(p.unknown[i]) && !Recognised(p.unknown[i], true)
  {
    var toks := Words(e.command);
    ParsedNoSpace(toks, true);
    UnknownUnrecognised(toks, true);
    ResolvedFixed(e.directory, p.includes, rs);
    ReverseFixed(e.directory, rs);
    ResolveSettles(e.directory, p.source.value);
  }

  /** The second run of the script on a first-pass result. */
  lemma SecondPassRewrite(e: Entry, e1: Entry, p: Parsed, rs: seq<string>, src: string)
    requires IsAbs(e.directory) && NoSpace(e.directory)
    requires RewriteEntry(e) == Ok(e1)
    requires Parse(Words(e.command), true) == Ok(p) && p.source.Some?
    requires rs == ResolveAll(e.directory, p.includes)
    requires src == Resolve(e.directory, p.source.value)
    ensures e1.command == Strings.Join(IncludeArgs(Reverse(rs)) + p.unknown + ["-c", src], " ")
    ensures RewriteEntry(e1) == Ok(e1.(command := Strings.Join(IncludeArgs(rs) + p.unknown + ["-c", src], " ")))
  {
    RewriteOfParsed(e, p, p.source.value);
    FirstPassFixed(e, p, rs, src);
    SecondPassOf(e1, Reverse(rs), p.unknown, src);
    ReverseReverse(rs);
    ResolveFixes(e.directory, e.file);
  }

  /** Running the script a second time on its own output, with an absolute,
      whitespace-free `directory`: it succeeds, `file` stays put, the
      include pairs come back in their original order, and the entry is
      unchanged exactly when the resolved include list reads the same
      backwards. With two or more distinct includes the rewrite is not
      idempotent. */
  lemma SecondPass(e: Entry, e1: Entry, p: Parsed, rs: seq<string>, src: string)
    requires IsAbs(e.directory) && NoSpace(e.directory)
    requires RewriteEntry(e) == Ok(e1)
    requires p == Parse(Words(e.command), true).value
    requires rs == ResolveAll(e.directory, p.includes)
    requires src == Resolve(e.directory, p.source.value)
    ensures e1.command == Strings.Join(IncludeArgs(Reverse(rs)) + p.unknown + ["-c", src], " ")
    ensures RewriteEntry(e1) == Ok(e1.(command := Strings.Join(IncludeArgs(rs) + p.unknown + ["-c", src], " ")))
    ensures RewriteEntry(e1) == Ok(e1) <==> rs == Reverse(rs)
  {
    SecondPassRewrite(e, e1, p, rs, src);
    FirstPassFixed(e, p, rs, src);
    ReverseReverse(rs);
    assert AllWords(rs) && AllWords(Reverse(rs)) && AllWords(p.unknown) && IsWord(src) by {
      ReverseFixed(e.directory, Reverse(rs));
    }
    RebuiltCommandsEqual(rs, Reverse(rs), p.unknown, src);
  }

  /** The rewrite of an entry whose command is already rebuilt from settled
      paths: the include pairs come out reversed, everything else resolves
      to itself. */
  lemma SecondPassOf(e1: Entry, xs: seq<string>, unknown: seq<string>, src: string)
    requires IsAbs(e1.directory)
    requires forall i :: 0 <= i < |xs| ==> Settled(xs[i]) && Resolve(e1.directory, xs[i]) == xs[i]
    requires forall i :: 0 <= i < |unknown| ==> IsWord(unknown[i]) && !Recognised(unknown[i], true)
    requires Settled(src) && Resolve(e1.directory, src) == src
    requires e1.command == Strings.Join(IncludeArgs(xs) + unknown + ["-c", src], " ")
    ensures RewriteEntry(e1) == Ok(Entry(e1.directory, Resolve(e1.directory, e1.file),
      Strings.Join(IncludeArgs(Reverse(xs)) + unknown + ["-c", src], " "), e1.extra))
  {
    RebuiltParses(xs, unknown, src);
    RewriteOfParsed(e1, Parsed(xs, Some(src), unknown), src);
    ResolveAllFixes(e1.directory, xs);
  }

  /** Two includes trade places on every run: under the root directory the
      script maps `-I a -I b -c x` to `-I b -I a -c x` for settled paths
      such as `/a`, `/b` and `/x.c`, and maps that back again. */
  lemma SwapsIncludes(a: string, b: string, x: string)
    requires Settled(a) && Resolve("/", a) == a
    requires Settled(b) && Resolve("/", b) == b
    requires Settled(x) && Resolve("/", x) == x
    ensures RewriteEntry(Entry("/", x, "-I " + a + " -I " + b + " -c " + x, map[]))
      == Ok(Entry("/", x, "-I " + b + " -I " + a + " -c " + x, map[]))
    ensures RewriteEntry(Entry("/", x, "-I " + b + " -I " + a + " -c " + x, map[]))
      == Ok(Entry("/", x, "-I " + a + " -I " + b + " -c " + x, map[]))
  {
    SwapOnce(a, b, x);
    SwapOnce(b, a, x);
  }

  lemma SwapOnce(a: string, b: string, x: string)
    requires Settled(a) && Resolve("/", a) == a
    requires Settled(b) && Resolve("/", b) == b
    requires Settled(x) && Resolve("/", x) == x
    ensures RewriteEntry(Entry("/", x, "-I " + a + " -I " + b + " -c " + x, map[]))
      == Ok(Entry("/", x, "-I " + b + " -I " + a + " -c " + x, map[]))
  {
    assert IncludeArgs([a, b]) + [] + ["-c", x] == ["-I", a, "-I", b, "-c", x];
    assert IncludeArgs([b, a]) + [] + ["-c", x] == ["-I", b, "-I", a, "-c", x];
    JoinSix(a, b, x);
    JoinSix(b, a, x);
    SwapRebuilt(a, b, x, Entry("/", x, "-I " + a + " -I " + b + " -c " + x, map[]), "-I " + b + " -I " + a + " -c " + x);
  }

  /** The swap on the rebuilt form of the two-include entry. */
  lemma SwapRebuilt(a: string, b: string, x: string, e: Entry, swapped: string)
    requires Settled(a) && Resolve("/", a) == a
    requires Settled(b) && Resolve("/", b) == b
    requires Settled(x) && Resolve("/", x) == x
    requires e.directory == "/" && e.file == x
    requires e.command == Strings.Join(IncludeArgs([a, b]) + [] + ["-c", x], " ")
    requires swapped == Strings.Join(IncludeArgs([b, a]) + [] + ["-c", x], " ")
    ensures RewriteEntry(e) == Ok(e.(command := swapped))
  {
    assert Reverse([a, b]) == [b, a];
    SecondPassOf(e, [a, b], [], x);
  }

  /** The space-joined command of a two-include witness. */
  lemma JoinSix(a: string, b: string, x: string)
    ensures Strings.Join(["-I", a, "-I", b, "-c", x], " ") == "-I " + a + " -I " + b + " -c " + x
  {
    var t := ["-I", a, "-I", b, "-c", x];
    var t5 := [x];
    var t4 := ["-c"] + t5;
    var t3 := [b] + t4;
    var t2 := ["-I"] + t3;
    var t1 := [a] + t2;
    assert t == ["-I"] + t1;
    JoinCons("-c", t5, " ");
    JoinCons(b, t4, " ");
    JoinCons("-I", t3, " ");
    JoinCons(a, t2, " ");
    JoinCons("-I", t1, " ");
  }

  /** A one-component absolute name resolves to itself against the root and
      is a single token. */
  lemma RenderedFixed(name: string)
    requires name != "" && name != "." && name != ".."
    requires NoSpace(name) && !HasChar(name, '/')
    ensures Settled("/" + name) && Resolve("/", "/" + name) == "/" + name
  {
    assert Clean([name], 1);
    assert Strings.Join([name], "/") == name;
    NormPathOfRendered(1, [name]);
    assert Slashes(1) == "/";
    assert !IsSpace('/');
    NoSpaceConcat("/", name);
  }

  /** The rewrite as evidently intended: the same, except that the `-I`
      pairs keep the order in which they were given. */
  function RewriteEntryInOrder(e: Entry): (r: Result<Entry, Failure>)
    ensures r.Ok? <==> RewriteEntry(e).Ok?
    ensures r.Err? ==> r == RewriteEntry(e)
    ensures r.Ok? ==> r.value.(command := "") == RewriteEntry(e).value.(command := "")
    ensures r.Ok? ==> var p := Parse(Words(e.command), true).value;
      r.value.command == Strings.Join(IncludeArgs(ResolveAll(e.directory, p.includes)) + p.unknown
        + ["-c", Resolve(e.directory, p.source.value)], " ")
  {
    var file := Resolve(e.directory, e.file);
    var p :- Parse(Words(e.command), true);
    if p.source.None? then Err(NoSourceFile(e.file))
    else
      var toks := IncludeArgs(ResolveAll(e.directory, p.includes)) + p.unknown + ["-c", Resolve(e.directory, p.source.value)];
      Ok(Entry(e.directory, file, Strings.Join(toks, " "), e.extra))
  }

  /** With the order kept, a second run under an absolute, whitespace-free
      `directory` changes nothing. */
  lemma InOrderIdempotent(e: Entry, e1: Entry)
    requires IsAbs(e.directory) && NoSpace(e.directory)
    requires RewriteEntryInOrder(e) == Ok(e1)
    ensures RewriteEntryInOrder(e1) == Ok(e1)
  {
    var dir := e.directory;
    var p := Parse(Words(e.command), true).value;
    var rs := ResolveAll(dir, p.includes);
    var src := Resolve(dir, p.source.value);
    FirstPassParts(e);
    RebuiltParses(rs, p.unknown, src);
    assert Parse(Words(e1.command), true) == Ok(Parsed(rs, Some(src), p.unknown));
    ResolveAllFixes(dir, rs);
    ResolveFixes(dir, e.file);
  }
  /** The loop over the database with the order-keeping rewrite. */
  function RewriteAllInOrder(db: seq<Entry>): (r: Result<seq<Entry>, Failure>)
    ensures r.Ok? <==> RewriteAll(db).Ok?
    ensures r.Ok? ==> |r.value| == |db| && forall i :: 0 <= i < |db| ==> r.value[i] == RewriteEntryInOrder(db[i]).value
  {
    MapAll(RewriteEntryInOrder, db)
  }

  /** Running the order-keeping script on its own output changes nothing,
      when every `directory` is absolute and free of whitespace. */
  lemma InOrderAllIdempotent(db: seq<Entry>, db1: seq<Entry>)
    requires forall i :: 0 <= i < |db| ==> IsAbs(db[i].directory) && NoSpace(db[i].directory)
    requires RewriteAllInOrder(db) == Ok(db1)
    ensures RewriteAllInOrder(db1) == Ok(db1)
  {
    forall i | 0 <= i < |db1| ensures RewriteEntryInOrder(db1[i]) == Ok(db1[i]) {
      InOrderIdempotent(db[i], db1[i]);
    }
    var r := RewriteAllInOrder(db1);
    assert r.Ok?;
    assert r.value == db1;
  }
}
