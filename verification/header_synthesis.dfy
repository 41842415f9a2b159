/** Header-entry synthesis, `generate_header_compile_commands.py`: for every
    header found by the directory walk, an entry whose command is borrowed
    from an implementation sibling or from a base source file, with that
    file's path replaced by the header's. The walk is a given list of
    directory listings and file existence a given set of paths. */
module HeaderSynthesis {
  import opened Wrappers
  import opened Strings
  import opened PosixPath
  import opened CompileDb

  const HeaderExts: seq<string> := [".h", ".hpp", ".hxx", ".hh", ".h++", ".hp"]
  const ImplExts: seq<string> := [".c", ".cpp", ".cxx", ".cc", ".c++", ".C"]

  /** One `(dirpath, _, filenames)` triple of `os.walk`; the walks of all
      source directories are concatenated. */
  datatype DirListing = DirListing(dirpath: string, filenames: seq<string>)

  /** The options the synthesis reads. */
  datatype Options = Options(buildDir: string, baseSrcFile: string, nonStandalone: bool, relative: bool)

  /** What the loop body does with one file name. */
  datatype Outcome =
    | NotHeader          // extension not in the header table: skipped
    | Abandon            // the `break` out of the directory's file list
    | Emit(entry: Entry) // one synthesized entry
    | Fail(failure: Failure)

  /** `os.path.join(dirpath, filename)` has a header extension, compared
      exactly and case-sensitively. */
  predicate IsHeaderFile(dirpath: string, filename: string): (r: bool)
    ensures r ==> exists x :: x in HeaderExts && |x| <= |filename| && filename[|filename| - |x|..] == x
  {
    ExtOfJoin(dirpath, filename);
    SplitExt(PosixPath.Join(dirpath, filename)).1 in HeaderExts
  }

  /** A sibling that ends the probe loop: it exists and, when entries for
      non-standalone headers are wanted, has a command. */
  predicate Eligible(p: string, nonStandalone: bool, lookup: string -> Option<string>, onDisk: set<string>) {
    p in onDisk && (nonStandalone ==> lookup(p).Some?)
  }

  /** The probe loop over `IMPL_EXTS` from position `i`. */
  function SiblingFrom(noext: string, i: nat, nonStandalone: bool, lookup: string -> Option<string>, onDisk: set<string>): (r: Option<nat>)
    requires i <= |ImplExts|
    ensures r.Some? ==> i <= r.value < |ImplExts| && Eligible(noext + ImplExts[r.value], nonStandalone, lookup, onDisk)
    ensures r.Some? ==> forall j :: i <= j < r.value ==> !Eligible(noext + ImplExts[j], nonStandalone, lookup, onDisk)
    ensures r.None? ==> forall j :: i <= j < |ImplExts| ==> !Eligible(noext + ImplExts[j], nonStandalone, lookup, onDisk)
    decreases |ImplExts| - i
  {
    if i == |ImplExts| then None
    else if Eligible(noext + ImplExts[i], nonStandalone, lookup, onDisk) then Some(i)
    else SiblingFrom(noext, i + 1, nonStandalone, lookup, onDisk)
  }

  /** Position in `IMPL_EXTS` of the sibling the probe loop stops at: the
      first eligible one. */
  function FirstSibling(noext: string, nonStandalone: bool, lookup: string -> Option<string>, onDisk: set<string>): (r: Option<nat>)
    ensures r.Some? ==> r.value < |ImplExts| && Eligible(noext + ImplExts[r.value], nonStandalone, lookup, onDisk)
    ensures r.Some? ==> forall j :: 0 <= j < r.value ==> !Eligible(noext + ImplExts[j], nonStandalone, lookup, onDisk)
    ensures r.None? <==> forall j :: 0 <= j < |ImplExts| ==> !Eligible(noext + ImplExts[j], nonStandalone, lookup, onDisk)
  {
    SiblingFrom(noext, 0, nonStandalone, lookup, onDisk)
  }

  /** The sibling the loop stops at is the first eligible one and no other. */
  lemma FirstSiblingIs(noext: string, nonStandalone: bool, lookup: string -> Option<string>, onDisk: set<string>, k: nat)
    requires k < |ImplExts| && Eligible(noext + ImplExts[k], nonStandalone, lookup, onDisk)
    requires forall j :: 0 <= j < k ==> !Eligible(noext + ImplExts[j], nonStandalone, lookup, onDisk)
    ensures FirstSibling(noext, nonStandalone, lookup, onDisk) == Some(k)
  {
    var r := FirstSibling(noext, nonStandalone, lookup, onDisk);
    assert r.Some?;
  }

  /** `get_command`: the command stored under `f` in the dictionary. */
  function CommandOf(d: seq<Entry>, f: string): (r: Option<string>)
    ensures r.Some? <==> f in Files(d)
    ensures r.Some? ==> Get(d, f).value.command == r.value
  {
    match Get(d, f)
    case Some(e) => Some(e.command)
    case None => None
  }

  /** The loop body of generate_header_compile_commands.py:43-67 for one
      file, with `o` already prepared and `fallback` the base file's
      command. */
  function ProcessFile(dirpath: string, filename: string, o: Options, fallback: Option<string>,
                       d: seq<Entry>, onDisk: set<string>, cwd: string): (r: Outcome)
    ensures r.NotHeader? <==> !IsHeaderFile(dirpath, filename)
    ensures r.Abandon? <==> (IsHeaderFile(dirpath, filename) && !o.nonStandalone
      && exists j :: 0 <= j < |ImplExts| && SplitExt(PosixPath.Join(dirpath, filename)).0 + ImplExts[j] in onDisk)
    ensures r.Emit? ==> r.entry.directory == o.buildDir && r.entry.extra == map[]
    ensures r.Emit? ==> r.entry.file == if o.relative then PosixPath.Join(dirpath, filename) else AbsPath(PosixPath.Join(dirpath, filename), cwd)
    ensures r.Fail? ==> fallback.None?
  {
    var filepath := PosixPath.Join(dirpath, filename);
    var noext := SplitExt(filepath).0;
    if SplitExt(filepath).1 !in HeaderExts then NotHeader
    else
      var lookup := f => CommandOf(d, f);
      var k := FirstSibling(noext, o.nonStandalone, lookup, onDisk);
      if k.Some? && !o.nonStandalone then Abandon
      else
        var template := if k.Some? then lookup(noext + ImplExts[k.value]) else fallback;
        var target := if k.Some? then noext + ImplExts[k.value] else o.baseSrcFile;
        var header := if o.relative then filepath else AbsPath(filepath, cwd);
        var replaced := if o.relative then target else AbsPath(target, cwd);
        if template.None? then Fail(NoneCommand(header))
        else Emit(Entry(o.buildDir, header, ReplaceAll(template.value, replaced, header), map[]))
  }

  /** The path as the replacement sees it: made absolute unless relative
      paths were asked for. */
  function Shown(p: string, o: Options, cwd: string): (r: string)
    ensures !o.relative && IsAbs(cwd) ==> IsAbs(r)
    ensures o.relative ==> r == p
  {
    if o.relative then p else AbsPath(p, cwd)
  }

  /** With entries for non-standalone headers wanted, a header whose first
      eligible sibling is `stem + IMPL_EXTS[k]` borrows that sibling's
      command, with the sibling's path replaced by the header's. */
  lemma TemplateFromSibling(dirpath: string, filename: string, o: Options, fallback: Option<string>,
                            d: seq<Entry>, onDisk: set<string>, cwd: string, k: nat)
    requires IsHeaderFile(dirpath, filename) && o.nonStandalone
    requires var noext := SplitExt(PosixPath.Join(dirpath, filename)).0;
      && k < |ImplExts| && noext + ImplExts[k] in onDisk && noext + ImplExts[k] in Files(d)
      && forall j :: 0 <= j < k ==> noext + ImplExts[j] !in onDisk || noext + ImplExts[j] !in Files(d)
    ensures var filepath := PosixPath.Join(dirpath, filename);
      var sibling := SplitExt(filepath).0 + ImplExts[k];
      var header := Shown(filepath, o, cwd);
      ProcessFile(dirpath, filename, o, fallback, d, onDisk, cwd)
        == Emit(Entry(o.buildDir, header, ReplaceAll(Get(d, sibling).value.command, Shown(sibling, o, cwd), header), map[]))
  {
    var noext := SplitExt(PosixPath.Join(dirpath, filename)).0;
    FirstSiblingIs(noext, true, f => CommandOf(d, f), onDisk, k);
  }

  /** A header with no eligible sibling borrows the base file's command, with
      the base file's path replaced by the header's; without a command for
      the base file the run fails. */
  lemma TemplateFromBase(dirpath: string, filename: string, o: Options, fallback: Option<string>,
                         d: seq<Entry>, onDisk: set<string>, cwd: string)
    requires IsHeaderFile(dirpath, filename)
    requires var noext := SplitExt(PosixPath.Join(dirpath, filename)).0;
      forall j :: 0 <= j < |ImplExts| ==> noext + ImplExts[j] !in onDisk || (o.nonStandalone && noext + ImplExts[j] !in Files(d))
    ensures var header := Shown(PosixPath.Join(dirpath, filename), o, cwd);
      ProcessFile(dirpath, filename, o, fallback, d, onDisk, cwd)
        == if fallback.None? then Fail(NoneCommand(header))
           else Emit(Entry(o.buildDir, header, ReplaceAll(fallback.value, Shown(o.baseSrcFile, o, cwd), header), map[]))
  {
    var noext := SplitExt(PosixPath.Join(dirpath, filename)).0;
    assert FirstSibling(noext, o.nonStandalone, f => CommandOf(d, f), onDisk).None?;
  }

  /** The loop over one directory's file names: the first failure ends the
      run, and an `Abandon` ends the directory. */
  function GenerateDir(dirpath: string, names: seq<string>, process: (string, string) -> Outcome): (r: Result<seq<Entry>, Failure>)
    ensures r.Err? ==> exists n :: n in names && process(dirpath, n) == Fail(r.error)
    decreases |names|
  {
    if |names| == 0 then Ok([])
    else match process(dirpath, names[0])
      case NotHeader => GenerateDir(dirpath, names[1..], process)
      case Abandon => Ok([])
      case Fail(f) => Err(f)
      case Emit(e) =>
        var rest :- GenerateDir(dirpath, names[1..], process);
        Ok([e] + rest)
  }

  /** The loop over the whole walk. */
  function GenerateWalk(walk: seq<DirListing>, process: (string, string) -> Outcome): (r: Result<seq<Entry>, Failure>)
    ensures r.Err? ==> exists l, n :: l in walk && n in l.filenames && process(l.dirpath, n) == Fail(r.error)
    decreases |walk|
  {
    if |walk| == 0 then Ok([])
    else
      var first :- GenerateDir(walk[0].dirpath, walk[0].filenames, process);
      var rest :- GenerateWalk(walk[1..], process);
      Ok(first + rest)
  }

  /** Output follows file-name order within a directory: until a header is
      abandoned, the entries of `a + b` are those of `a` followed by those of
      `b`, and the first failure ends the run. */
  lemma {:induction false} DirAppend(dirpath: string, a: seq<string>, b: seq<string>, process: (string, string) -> Outcome)
    requires forall i :: 0 <= i < |a| ==> !process(dirpath, a[i]).Abandon?
    ensures GenerateDir(dirpath, a + b, process) == match GenerateDir(dirpath, a, process)
      case Err(f) => Err(f)
      case Ok(x) => match GenerateDir(dirpath, b, process)
        case Err(f) => Err(f)
        case Ok(y) => Ok(x + y)
    decreases |a|
  {
    if |a| == 0 {
      assert a + b == b;
      match GenerateDir(dirpath, b, process)
      case Ok(y) => assert [] + y == y;
      case Err(f) =>
    } else {
      assert (a + b)[0] == a[0];
      assert (a + b)[1..] == a[1..] + b;
      assert forall i :: 0 <= i < |a[1..]| ==> a[1..][i] == a[i + 1];
      DirAppend(dirpath, a[1..], b, process);
      match process(dirpath, a[0]) {
        case Emit(e) =>
          if GenerateDir(dirpath, a, process).Ok? && GenerateDir(dirpath, b, process).Ok? {
            var mid := GenerateDir(dirpath, a[1..], process).value;
            var y := GenerateDir(dirpath, b, process).value;
            assert [e] + (mid + y) == ([e] + mid) + y;
          }
        case NotHeader =>
        case Fail(f) =>
      }
    }
  }

  /** The `break` at line 60 abandons the directory: no file name after an
      abandoned header contributes anything. */
  lemma {:induction false} AbandonDropsRest(dirpath: string, names: seq<string>, process: (string, string) -> Outcome, i: nat)
    requires i < |names| && process(dirpath, names[i]).Abandon?
    ensures GenerateDir(dirpath, names, process) == GenerateDir(dirpath, names[..i], process)
    decreases i
  {
    if i > 0 {
      assert names[..i][0] == names[0];
      assert names[..i][1..] == names[1..][..i - 1];
      AbandonDropsRest(dirpath, names[1..], process, i - 1);
    }
  }

  /** The number of header files in one directory listing. */
  function HeaderCount(dirpath: string, names: seq<string>): nat
    decreases |names|
  {
    if |names| == 0 then 0
    else (if IsHeaderFile(dirpath, names[0]) then 1 else 0) + HeaderCount(dirpath, names[1..])
  }

  /** The number of header files in the whole walk. */
  function WalkHeaderCount(walk: seq<DirListing>): nat
    decreases |walk|
  {
    if |walk| == 0 then 0 else HeaderCount(walk[0].dirpath, walk[0].filenames) + WalkHeaderCount(walk[1..])
  }

  /** A directory yields at most one entry per header file in it. */
  lemma {:induction false} DirBound(dirpath: string, names: seq<string>, process: (string, string) -> Outcome)
    requires forall d, n :: process(d, n).Emit? ==> IsHeaderFile(d, n)
    requires GenerateDir(dirpath, names, process).Ok?
    ensures |GenerateDir(dirpath, names, process).value| <= HeaderCount(dirpath, names)
    decreases |names|
  {
    if |names| > 0 && (process(dirpath, names[0]).NotHeader? || process(dirpath, names[0]).Emit?) {
      DirBound(dirpath, names[1..], process);
    }
  }

  /** The walk yields at most one entry per header file walked. */
  lemma {:induction false} WalkBound(walk: seq<DirListing>, process: (string, string) -> Outcome)
    requires forall d, n :: process(d, n).Emit? ==> IsHeaderFile(d, n)
    requires GenerateWalk(walk, process).Ok?
    ensures |GenerateWalk(walk, process).value| <= WalkHeaderCount(walk)
    decreases |walk|
  {
    if |walk| > 0 {
      DirBound(walk[0].dirpath, walk[0].filenames, process);
      WalkBound(walk[1..], process);
    }
  }

  /** Output follows walk order: walking two lists one after the other gives
      the first's entries followed by the second's. */
  lemma {:induction false} WalkAppend(a: seq<DirListing>, b: seq<DirListing>, process: (string, string) -> Outcome)
    ensures GenerateWalk(a + b, process) == match GenerateWalk(a, process)
      case Err(f) => Err(f)
      case Ok(x) => match GenerateWalk(b, process)
        case Err(f) => Err(f)
        case Ok(y) => Ok(x + y)
    decreases |a|
  {
    if |a| == 0 {
      assert a + b == b;
      match GenerateWalk(b, process)
      case Ok(y) => assert [] + y == y;
      case Err(f) =>
    } else {
      assert (a + b)[0] == a[0];
      assert (a + b)[1..] == a[1..] + b;
      WalkAppend(a[1..], b, process);
      match GenerateWalk(a, process)
      case Err(f) =>
      case Ok(x) =>
        var first := GenerateDir(a[0].dirpath, a[0].filenames, process).value;
        match GenerateWalk(b, process)
        case Err(f) =>
        case Ok(y) =>
          assert first + (GenerateWalk(a[1..], process).value + y) == (first + GenerateWalk(a[1..], process).value) + y;
    }
  }

  /** Every entry of a directory is one the loop body emitted. */
  lemma {:induction false} DirEmitted(dirpath: string, names: seq<string>, process: (string, string) -> Outcome)
    requires GenerateDir(dirpath, names, process).Ok?
    ensures forall e :: e in GenerateDir(dirpath, names, process).value ==>
      exists n :: n in names && process(dirpath, n) == Emit(e)
    decreases |names|
  {
    if |names| > 0 && (process(dirpath, names[0]).NotHeader? || process(dirpath, names[0]).Emit?) {
      DirEmitted(dirpath, names[1..], process);
      assert forall n :: n in names[1..] ==> n in names;
    }
  }

  /** Every entry of the walk is one the loop body emitted for a walked
      file. */
  lemma {:induction false} WalkEmitted(walk: seq<DirListing>, process: (string, string) -> Outcome)
    requires GenerateWalk(walk, process).Ok?
    ensures forall e :: e in GenerateWalk(walk, process).value ==>
      exists l, n :: l in walk && n in l.filenames && process(l.dirpath, n) == Emit(e)
    decreases |walk|
  {
    if |walk| > 0 {
      DirEmitted(walk[0].dirpath, walk[0].filenames, process);
      WalkEmitted(walk[1..], process);
      assert forall l :: l in walk[1..] ==> l in walk;
      assert walk[0] in walk;
    }
  }

  /** generate_header_compile_commands.py:28-30: unless relative paths are
      asked for, the base file and the build directory are made absolute. */
  function Prepare(o: Options, cwd: string): (r: Options)
    ensures r.nonStandalone == o.nonStandalone && r.relative == o.relative
    ensures !o.relative && IsAbs(cwd) ==> IsAbs(r.baseSrcFile) && IsAbs(r.buildDir)
    ensures o.relative ==> r == o
  {
    if o.relative then o
    else o.(baseSrcFile := AbsPath(o.baseSrcFile, cwd), buildDir := AbsPath(o.buildDir, cwd))
  }

  /** The loop body with the prepared options and the base file's command,
      looked up after preparation. */
  function Step(o: Options, d: seq<Entry>, onDisk: set<string>, cwd: string): (string, string) -> Outcome {
    var p := Prepare(o, cwd);
    (dirpath: string, filename: string) => ProcessFile(dirpath, filename, p, CommandOf(d, p.baseSrcFile), d, onDisk, cwd)
  }

  /** `generate_header_compile_commands(args, d)`: at most one entry per
      header walked, each with the prepared build directory as `directory`
      and, unless relative paths are asked for, absolute paths. */
  function Generate(o: Options, d: seq<Entry>, walk: seq<DirListing>, onDisk: set<string>, cwd: string): (r: Result<seq<Entry>, Failure>)
    ensures r.Ok? ==> |r.value| <= WalkHeaderCount(walk)
    ensures r.Ok? ==> forall i :: 0 <= i < |r.value| ==>
      && r.value[i].directory == Prepare(o, cwd).buildDir
      && (!o.relative && IsAbs(cwd) ==> IsAbs(r.value[i].file) && IsAbs(r.value[i].directory))
  {
    var step := Step(o, d, onDisk, cwd);
    var r := GenerateWalk(walk, step);
    if r.Ok? then
      WalkBound(walk, step);
      EntriesShape(o, d, walk, onDisk, cwd);
      r
    else r
  }

  lemma EntriesShape(o: Options, d: seq<Entry>, walk: seq<DirListing>, onDisk: set<string>, cwd: string)
    requires GenerateWalk(walk, Step(o, d, onDisk, cwd)).Ok?
    ensures var es := GenerateWalk(walk, Step(o, d, onDisk, cwd)).value;
      forall i :: 0 <= i < |es| ==>
        && es[i].directory == Prepare(o, cwd).buildDir
        && (!o.relative && IsAbs(cwd) ==> IsAbs(es[i].file) && IsAbs(es[i].directory))
  {
    var step := Step(o, d, onDisk, cwd);
    var p := Prepare(o, cwd);
    var es := GenerateWalk(walk, step).value;
    WalkEmitted(walk, step);
    forall i | 0 <= i < |es|
      ensures es[i].directory == p.buildDir
      ensures !o.relative && IsAbs(cwd) ==> IsAbs(es[i].file) && IsAbs(es[i].directory)
    {
      assert es[i] in es;
      var l, n :| l in walk && n in l.filenames && step(l.dirpath, n) == Emit(es[i]);
      assert ProcessFile(l.dirpath, n, p, CommandOf(d, p.baseSrcFile), d, onDisk, cwd) == Emit(es[i]);
    }
  }
}
