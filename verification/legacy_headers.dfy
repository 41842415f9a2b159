/** `generate-compile-commands-headers.py`, the older synthesis script. It
    walks and probes like the dictionary version, but looks commands up by
    a first-match scan of the database list, looks the base file up exactly
    as given, and in the fallback case replaces the last probed sibling
    path instead of the base file's path. */
module LegacyHeaders {
  import opened Wrappers
  import opened Strings
  import opened PosixPath
  import opened CompileDb
  import opened HeaderSynthesis

  /** `get_cmdline`: the command of the first entry whose `file` is `f`. */
  function GetCmdline(db: seq<Entry>, f: string): (r: Option<string>)
    ensures r.None? <==> f !in Files(db)
    ensures r.Some? ==> r.value == db[FindIndex(db, f)].command
  {
    if |db| == 0 then None
    else if db[0].file == f then Some(db[0].command)
    else GetCmdline(db[1..], f)
  }

  /** First-wins: the entry at position `i`, when no earlier entry has the
      same `file`, is the one `get_cmdline` finds, whatever comes later. */
  lemma FirstOccurrenceWins(db: seq<Entry>, i: nat)
    requires i < |db|
    requires forall j :: 0 <= j < i ==> db[j].file != db[i].file
    ensures GetCmdline(db, db[i].file) == Some(db[i].command)
  {
    FindIndexIs(db, db[i].file, i);
  }

  /** The loop body of generate-compile-commands-headers.py:50-73 for one
      file, with `fallback` the base file's command. */
  function ProcessFile(dirpath: string, filename: string, o: Options, fallback: Option<string>,
                       db: seq<Entry>, onDisk: set<string>, cwd: string): (r: Outcome)
    ensures r.NotHeader? <==> !IsHeaderFile(dirpath, filename)
    ensures r.Abandon? <==> (IsHeaderFile(dirpath, filename) && !o.nonStandalone
      && exists j :: 0 <= j < |ImplExts| && SplitExt(PosixPath.Join(dirpath, filename)).0 + ImplExts[j] in onDisk)
    ensures r.Emit? ==> r.entry.directory == o.buildDir && r.entry.extra == map[]
    ensures r.Emit? ==> r.entry.file == Shown(PosixPath.Join(dirpath, filename), o, cwd)
    ensures r.Fail? ==> fallback.None?
  {
    var filepath := PosixPath.Join(dirpath, filename);
    var noext := SplitExt(filepath).0;
    if SplitExt(filepath).1 !in HeaderExts then NotHeader
    else
      var lookup := f => GetCmdline(db, f);
      var k := FirstSibling(noext, o.nonStandalone, lookup, onDisk);
      if k.Some? && !o.nonStandalone then Abandon
      else
        var cmdline := if k.Some? then lookup(noext + ImplExts[k.value]) else fallback;
        var probed := noext + ImplExts[if k.Some? then k.value else |ImplExts| - 1];
        var header := Shown(filepath, o, cwd);
        if cmdline.None? then Fail(NoneCommand(header))
        else Emit(Entry(o.buildDir, header, ReplaceAll(cmdline.value, Shown(probed, o, cwd), header), map[]))
  }

  /** In the fallback case a missing base command makes `None.replace`
      raise; otherwise the replaced path is `stem + '.C'`, the last sibling
      probed, and not the base file's path. */
  lemma FallbackReplacesLastProbe(dirpath: string, filename: string, o: Options, fallback: Option<string>,
                                  db: seq<Entry>, onDisk: set<string>, cwd: string)
    requires IsHeaderFile(dirpath, filename)
    requires var noext := SplitExt(PosixPath.Join(dirpath, filename)).0;
      forall j :: 0 <= j < |ImplExts| ==> noext + ImplExts[j] !in onDisk || (o.nonStandalone && noext + ImplExts[j] !in Files(db))
    ensures var filepath := PosixPath.Join(dirpath, filename);
      var header := Shown(filepath, o, cwd);
      ProcessFile(dirpath, filename, o, fallback, db, onDisk, cwd)
        == if fallback.None? then Fail(NoneCommand(header))
           else Emit(Entry(o.buildDir, header, ReplaceAll(fallback.value, Shown(SplitExt(filepath).0 + ".C", o, cwd), header), map[]))
  {
    var noext := SplitExt(PosixPath.Join(dirpath, filename)).0;
    assert FirstSibling(noext, o.nonStandalone, f => GetCmdline(db, f), onDisk).None?;
  }

  /** So a base command that never mentions `stem + '.C'` is copied
      unchanged: the header's entry still compiles the base file. */
  lemma FallbackKeepsBaseCommand(dirpath: string, filename: string, o: Options, fallback: Option<string>,
                                 db: seq<Entry>, onDisk: set<string>, cwd: string)
    requires IsHeaderFile(dirpath, filename)
    requires var noext := SplitExt(PosixPath.Join(dirpath, filename)).0;
      forall j :: 0 <= j < |ImplExts| ==> noext + ImplExts[j] !in onDisk || (o.nonStandalone && noext + ImplExts[j] !in Files(db))
    requires fallback.Some?
    requires !Occurs(Shown(SplitExt(PosixPath.Join(dirpath, filename)).0 + ".C", o, cwd), fallback.value)
    ensures ProcessFile(dirpath, filename, o, fallback, db, onDisk, cwd).Emit?
    ensures ProcessFile(dirpath, filename, o, fallback, db, onDisk, cwd).entry.command == fallback.value
  {
    FallbackReplacesLastProbe(dirpath, filename, o, fallback, db, onDisk, cwd);
  }

  /** generate-compile-commands-headers.py:30-31: only the build directory
      is made absolute; the base file is looked up as given. */
  function Prepare(o: Options, cwd: string): (r: Options)
    ensures r.baseSrcFile == o.baseSrcFile && r.nonStandalone == o.nonStandalone && r.relative == o.relative
    ensures !o.relative && IsAbs(cwd) ==> IsAbs(r.buildDir)
    ensures o.relative ==> r == o
  {
    if o.relative then o else o.(buildDir := AbsPath(o.buildDir, cwd))
  }

  function Step(o: Options, db: seq<Entry>, onDisk: set<string>, cwd: string): (string, string) -> Outcome {
    var p := Prepare(o, cwd);
    (dirpath: string, filename: string) => ProcessFile(dirpath, filename, p, GetCmdline(db, p.baseSrcFile), db, onDisk, cwd)
  }

  /** The whole script between loading the database and printing: at most
      one entry per header walked, each with the prepared build directory.
      The walk driver is the one in `HeaderSynthesis`, as the two scripts
      share the loop; only the loop body and the preparation differ. */
  function Generate(o: Options, db: seq<Entry>, walk: seq<DirListing>, onDisk: set<string>, cwd: string): (r: Result<seq<Entry>, Failure>)
    ensures r.Ok? ==> |r.value| <= WalkHeaderCount(walk)
    ensures r.Ok? ==> forall i :: 0 <= i < |r.value| ==>
      && r.value[i].directory == Prepare(o, cwd).buildDir
      && (!o.relative && IsAbs(cwd) ==> IsAbs(r.value[i].file) && IsAbs(r.value[i].directory))
  {
    var step := Step(o, db, onDisk, cwd);
    var r := GenerateWalk(walk, step);
    if r.Ok? then
      WalkBound(walk, step);
      EntriesShape(o, db, walk, onDisk, cwd);
      r
    else r
  }

  lemma EntriesShape(o: Options, db: seq<Entry>, walk: seq<DirListing>, onDisk: set<string>, cwd: string)
    requires GenerateWalk(walk, Step(o, db, onDisk, cwd)).Ok?
    ensures var es := GenerateWalk(walk, Step(o, db, onDisk, cwd)).value;
      forall i :: 0 <= i < |es| ==>
        && es[i].directory == Prepare(o, cwd).buildDir
        && (!o.relative && IsAbs(cwd) ==> IsAbs(es[i].file) && IsAbs(es[i].directory))
  {
    var step := Step(o, db, onDisk, cwd);
    var p := Prepare(o, cwd);
    var es := GenerateWalk(walk, step).value;
    WalkEmitted(walk, step);
    forall i | 0 <= i < |es|
      ensures es[i].directory == p.buildDir
      ensures !o.relative && IsAbs(cwd) ==> IsAbs(es[i].file) && IsAbs(es[i].directory)
    {
      assert es[i] in es;
      var l, n :| l in walk && n in l.filenames && step(l.dirpath, n) == Emit(es[i]);
      assert ProcessFile(l.dirpath, n, p, GetCmdline(db, p.baseSrcFile), db, onDisk, cwd) == Emit(es[i]);
    }
  }
}
