/** `ipaths.py`: for every entry, the directory of its `file` and each of its
    `-I` values, printed one per line relative to the database's directory.
    Nothing is modified; the model returns the lines. */
module IncludePaths {
  import opened Wrappers
  import opened Strings
  import opened PosixPath
  import opened CompileDb
  import opened CommandLine

  /** `get_relpath_with_prefix(path, prefix, curdir)`: an absolute path is
      made relative to `curdir` and the prefix is ignored; a relative one is
      put under the prefix and normalised. */
  function RelWithPrefix(path: string, prefix: string, curdir: string, cwd: string): (r: string)
    ensures r != ""
    ensures IsAbs(path) ==> !IsAbs(r)
    ensures !IsAbs(path) ==> (IsAbs(r) <==> IsAbs(prefix))
  {
    if IsAbs(path) then RelPath(path, curdir, cwd)
    else NormPath(PosixPath.Join(prefix, path))
  }

  /** An absolute path printed relative to `curdir` leads back to itself from
      `curdir`, whatever the prefix. */
  lemma AbsoluteLineResolves(path: string, prefix: string, curdir: string, cwd: string)
    requires IsAbs(path) && IsAbs(cwd)
    requires InitialSlashes(AbsPath(curdir, cwd)) == InitialSlashes(AbsPath(path, cwd))
    ensures NormPath(PosixPath.Join(AbsPath(curdir, cwd), RelWithPrefix(path, prefix, curdir, cwd))) == AbsPath(path, cwd)
  {
    RelPathResolves(path, curdir, cwd);
  }

  /** `dir_rel`: an absolute `directory` relative to the database's
      directory, a relative one as it is. Either way the result is
      relative. */
  function DirRel(directory: string, curdir: string, cwd: string): (r: string)
    ensures !IsAbs(r)
    ensures !IsAbs(directory) ==> r == directory
  {
    if IsAbs(directory) then RelPath(directory, curdir, cwd) else directory
  }

  /** What one entry prints, and the failure that ends the run if its command
      does not parse. */
  datatype Listing = Listing(lines: seq<string>, failure: Option<Failure>)

  /** The lines for a list of include values. */
  function IncludeLines(incs: seq<string>, prefix: string, curdir: string, cwd: string): (r: seq<string>)
    requires !IsAbs(prefix)
    ensures |r| == |incs|
    ensures forall i :: 0 <= i < |r| ==> r[i] != "" && !IsAbs(r[i])
    ensures forall i :: 0 <= i < |incs| ==> r[i] == RelWithPrefix(incs[i], prefix, curdir, cwd)
  {
    seq(|incs|, i requires 0 <= i < |incs| => RelWithPrefix(incs[i], prefix, curdir, cwd))
  }

  /** ipaths.py:29-37 for one entry: the file's directory is printed before
      the command is parsed, then one line per `-I` value in order. Every
      line is a relative path, since `dir_rel` always is. */
  function EntryLines(e: Entry, curdir: string, cwd: string): (r: Listing)
    ensures |r.lines| >= 1
    ensures forall i :: 0 <= i < |r.lines| ==> r.lines[i] != "" && !IsAbs(r.lines[i])
    ensures r.lines[0] == RelWithPrefix(DirName(e.file), DirRel(e.directory, curdir, cwd), curdir, cwd)
    ensures r.failure.Some? <==> Parse(Words(e.command), false).Err?
    ensures r.failure.Some? ==> r.lines == [r.lines[0]]
    ensures r.failure.None? ==>
      r.lines[1..] == IncludeLines(Parse(Words(e.command), false).value.includes, DirRel(e.directory, curdir, cwd), curdir, cwd)
  {
    var prefix := DirRel(e.directory, curdir, cwd);
    var first := RelWithPrefix(DirName(e.file), prefix, curdir, cwd);
    match Parse(Words(e.command), false)
    case Err(f) => Listing([first], Some(f))
    case Ok(p) =>
      var rest := IncludeLines(p.includes, prefix, curdir, cwd);
      assert ([first] + rest)[1..] == rest;
      Listing([first] + rest, None)
  }

  /** The line count of a parsed entry is one plus the number of tokens that
      begin with `-I`. */
  lemma LineCount(e: Entry, curdir: string, cwd: string)
    requires Parse(Words(e.command), false).Ok?
    ensures |EntryLines(e, curdir, cwd).lines| == 1 + CountIncludeOptions(Words(e.command))
  {
    IncludeCount(Words(e.command), false);
  }

  /** Every line is a non-empty relative path. */
  predicate AllRelative(lines: seq<string>) {
    forall i :: 0 <= i < |lines| ==> lines[i] != "" && !IsAbs(lines[i])
  }

  /** The loop over the listings of successive entries: lines concatenated
      in order, and the first failure ends the run after that entry's
      lines. */
  function Combine(ls: seq<Listing>): (r: Listing)
    ensures (forall i :: 0 <= i < |ls| ==> AllRelative(ls[i].lines)) ==> AllRelative(r.lines)
    decreases |ls|
  {
    if |ls| == 0 then Listing([], None)
    else if ls[0].failure.Some? then ls[0]
    else
      var rest := Combine(ls[1..]);
      assert forall i :: 1 <= i < |ls| ==> ls[1..][i - 1] == ls[i];
      Listing(ls[0].lines + rest.lines, rest.failure)
  }

  /** The run completes exactly when no listing fails; otherwise it reports
      the first failure. */
  lemma {:induction false} CombineFailure(ls: seq<Listing>)
    ensures Combine(ls).failure.None? <==> forall i :: 0 <= i < |ls| ==> ls[i].failure.None?
    ensures forall k :: (0 <= k < |ls| && ls[k].failure.Some? && (forall i :: 0 <= i < k ==> ls[i].failure.None?))
               ==> Combine(ls).failure == ls[k].failure
    decreases |ls|
  {
    if |ls| > 0 {
      CombineFailure(ls[1..]);
      assert forall i :: 1 <= i < |ls| ==> ls[1..][i - 1] == ls[i];
    }
  }

  /** Listings run one after the other print the lines of both, in order. */
  lemma {:induction false} CombineAppend(a: seq<Listing>, b: seq<Listing>)
    requires Combine(a).failure.None?
    ensures Combine(a + b) == Listing(Combine(a).lines + Combine(b).lines, Combine(b).failure)
    decreases |a|
  {
    if |a| == 0 {
      assert a + b == b;
    } else {
      assert (a + b)[0] == a[0];
      assert (a + b)[1..] == a[1..] + b;
      CombineAppend(a[1..], b);
      var h := a[0].lines;
      assert h + (Combine(a[1..]).lines + Combine(b).lines) == (h + Combine(a[1..]).lines) + Combine(b).lines;
    }
  }

  /** `[f(x) for x in xs]`. */
  function Map<A(!new), B>(f: A -> B, xs: seq<A>): (r: seq<B>)
    ensures |r| == |xs|
    ensures forall i :: 0 <= i < |xs| ==> r[i] == f(xs[i])
    ensures forall x :: x in xs ==> f(x) in r
  {
    seq(|xs|, i requires 0 <= i < |xs| => f(xs[i]))
  }

  lemma MapAppend<A(!new), B>(f: A -> B, a: seq<A>, b: seq<A>)
    ensures Map(f, a + b) == Map(f, a) + Map(f, b)
  {
    var l := Map(f, a + b);
    var r := Map(f, a) + Map(f, b);
    forall i | 0 <= i < |l| ensures l[i] == r[i] {
      if i < |a| {
        assert (a + b)[i] == a[i];
      } else {
        assert (a + b)[i] == b[i - |a|];
      }
    }
  }

  /** The listing of every entry of `db`, in array order. */
  function Listings(db: seq<Entry>, curdir: string, cwd: string): (r: seq<Listing>)
    ensures |r| == |db|
    ensures forall i :: 0 <= i < |db| ==> r[i] == EntryLines(db[i], curdir, cwd)
    ensures forall i :: 0 <= i < |r| ==> AllRelative(r[i].lines) && (r[i].failure.None? ==> |r[i].lines| >= 1)
  {
    Map(e => EntryLines(e, curdir, cwd), db)
  }

  /** ipaths.py:28-37 over the whole database. Every printed line is a
      non-empty relative path. */
  function ListAll(db: seq<Entry>, curdir: string, cwd: string): (r: Listing)
    ensures AllRelative(r.lines)
  {
    Combine(Listings(db, curdir, cwd))
  }

  /** The run over the database completes exactly when every command
      parses, and otherwise reports the first entry's failure. */
  lemma ListAllFailure(db: seq<Entry>, curdir: string, cwd: string)
    ensures ListAll(db, curdir, cwd).failure.None? <==>
      forall i :: 0 <= i < |db| ==> Parse(Words(db[i].command), false).Ok?
  {
    CombineFailure(Listings(db, curdir, cwd));
  }

  /** Listing two databases one after the other prints the lines of their
      concatenation, in order. */
  lemma ListAllAppend(a: seq<Entry>, b: seq<Entry>, curdir: string, cwd: string)
    requires ListAll(a, curdir, cwd).failure.None?
    ensures ListAll(a + b, curdir, cwd)
      == Listing(ListAll(a, curdir, cwd).lines + ListAll(b, curdir, cwd).lines, ListAll(b, curdir, cwd).failure)
  {
    MapAppend(e => EntryLines(e, curdir, cwd), a, b);
    CombineAppend(Listings(a, curdir, cwd), Listings(b, curdir, cwd));
  }
}
