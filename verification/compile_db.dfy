/** The compilation database: its entries, the exceptions the scripts can
    raise while transforming them, and the `dict` keyed by `file` that
    `read_compile_commands_into_dict` and the merge tool build. */
module CompileDb {
  import opened Wrappers

  /** One object of `compile_commands.json`. `extra` holds every other key of
      the object; the scripts only ever treat values as strings. */
  datatype Entry = Entry(directory: string, file: string, command: string, extra: map<string, string>)

  /** The exceptions reachable on the modelled paths. */
  datatype Failure =
    | MissingValue(option: string)  // argparse: an option given without its argument
    | HelpRequested(token: string)  // argparse: the built-in `-h` option, which exits
    | NoneCommand(header: string)   // `None.replace(...)`: no template command was found
    | NoSourceFile(file: string)    // `os.path.join(directory, None)`: no `-c` argument
    | BadSubstSpec(spec: string)    // `(src, dst) = spec.split(':')` with other than two pieces

  /** The `file` values, in order. */
  function Files(d: seq<Entry>): (r: seq<string>)
    ensures |r| == |d|
    ensures forall i :: 0 <= i < |d| ==> r[i] == d[i].file
    ensures forall e :: e in d ==> e.file in r
  {
    seq(|d|, i requires 0 <= i < |d| => d[i].file)
  }

  /** No two entries share a `file`: the shape of a Python `dict` keyed by
      `file`, kept in insertion order. */
  predicate UniqueFiles(d: seq<Entry>) {
    forall i, j :: 0 <= i < j < |d| ==> d[i].file != d[j].file
  }

  /** Position of the first entry for `f`, or `|d|` when there is none. */
  function FindIndex(d: seq<Entry>, f: string): (i: nat)
    ensures i <= |d|
    ensures forall j :: 0 <= j < i ==> d[j].file != f
    ensures i < |d| ==> d[i].file == f
  {
    if |d| == 0 || d[0].file == f then 0 else 1 + FindIndex(d[1..], f)
  }

  /** `FindIndex` is the only index with its two properties. */
  lemma FindIndexIs(d: seq<Entry>, f: string, k: nat)
    requires k <= |d|
    requires forall j :: 0 <= j < k ==> d[j].file != f
    requires k < |d| ==> d[k].file == f
    ensures FindIndex(d, f) == k
  {
    var i := FindIndex(d, f);
  }

  /** `d.get(f)`: the entry stored under `f`, if any. */
  function Get(d: seq<Entry>, f: string): (r: Option<Entry>)
    ensures r.None? <==> f !in Files(d)
    ensures r.Some? ==> r.value in d && r.value.file == f
  {
    var i := FindIndex(d, f);
    if i < |d| then Some(d[i]) else None
  }

  /** In a dictionary every key is found at its one position. */
  lemma GetUnique(d: seq<Entry>, i: nat)
    requires UniqueFiles(d)
    requires i < |d|
    ensures Get(d, d[i].file) == Some(d[i])
  {
    FindIndexIs(d, d[i].file, i);
  }

  /** `d[e.file] = e`. */
  function Put(d: seq<Entry>, e: Entry): seq<Entry> {
    var i := FindIndex(d, e.file);
    if i < |d| then d[i := e] else d + [e]
  }

  /** Assignment into the dictionary: the new value is found under its key,
      every other key reads as before, an existing key keeps its position
      and a new key goes to the end, and keys stay distinct. */
  lemma PutSpec(d: seq<Entry>, e: Entry)
    ensures Get(Put(d, e), e.file) == Some(e)
    ensures forall f :: f != e.file ==> Get(Put(d, e), f) == Get(d, f)
    ensures Files(Put(d, e)) == if e.file in Files(d) then Files(d) else Files(d) + [e.file]
    ensures UniqueFiles(d) ==> UniqueFiles(Put(d, e))
  {
    PutLookup(d, e);
    PutKeys(d, e);
  }

  /** Lookups after an assignment. */
  lemma PutLookup(d: seq<Entry>, e: Entry)
    ensures Get(Put(d, e), e.file) == Some(e)
    ensures forall f :: f != e.file ==> Get(Put(d, e), f) == Get(d, f)
  {
    var i := FindIndex(d, e.file);
    var r := Put(d, e);
    FindIndexIs(r, e.file, i);
    forall f | f != e.file ensures Get(r, f) == Get(d, f) {
      var k := FindIndex(d, f);
      FindIndexIs(r, f, if k < |d| then k else |r|);
    }
  }

  /** Keys after an assignment. */
  lemma PutKeys(d: seq<Entry>, e: Entry)
    ensures Files(Put(d, e)) == if e.file in Files(d) then Files(d) else Files(d) + [e.file]
    ensures UniqueFiles(d) ==> UniqueFiles(Put(d, e))
  {
    var i := FindIndex(d, e.file);
    var r := Put(d, e);
    if i < |d| {
      assert Files(r) == Files(d);
    } else {
      assert Files(r) == Files(d) + [e.file];
    }
  }

  /** The last entry of `db` whose `file` is `f`: what a dictionary keyed by
      `file` keeps when later assignments overwrite earlier ones. */
  function LastWith(db: seq<Entry>, f: string): Option<Entry> {
    if |db| == 0 then None
    else if db[|db| - 1].file == f then Some(db[|db| - 1])
    else LastWith(db[..|db| - 1], f)
  }

  /** The distinct values of `fs` in the order of their first occurrence. */
  function FirstOccurrences(fs: seq<string>): (r: seq<string>)
    ensures forall x :: x in r <==> x in fs
  {
    if |fs| == 0 then []
    else if fs[|fs| - 1] in fs[..|fs| - 1] then FirstOccurrences(fs[..|fs| - 1])
    else FirstOccurrences(fs[..|fs| - 1]) + [fs[|fs| - 1]]
  }

  /** `for entry in db: d[entry['file']] = entry` starting from an empty
      `dict`: one entry per distinct `file`, the last one in array order
      wins, and keys keep the order in which they were first inserted. */
  function FromList(db: seq<Entry>): (r: seq<Entry>)
    ensures UniqueFiles(r)
    ensures Files(r) == FirstOccurrences(Files(db))
    ensures forall f :: Get(r, f) == LastWith(db, f)
  {
    if |db| == 0 then []
    else
      var init := db[..|db| - 1];
      var e := db[|db| - 1];
      assert Files(db) == Files(init) + [e.file];
      assert Files(db)[..|db| - 1] == Files(init);
      PutSpec(FromList(init), e);
      Put(FromList(init), e)
  }

  /** Inserting `more` into the dictionary built from `db` gives the
      dictionary built from both lists in sequence. */
  lemma {:induction false} PutAllIsFromList(db: seq<Entry>, more: seq<Entry>)
    ensures PutAll(FromList(db), more) == FromList(db + more)
    decreases |more|
  {
    if |more| == 0 {
      assert db + more == db;
    } else {
      var init := more[..|more| - 1];
      PutAllIsFromList(db, init);
      assert (db + more)[..|db + more| - 1] == db + init;
    }
  }

  /** `for entry in more: d[entry['file']] = entry`. */
  function PutAll(d: seq<Entry>, more: seq<Entry>): seq<Entry>
    decreases |more|
  {
    if |more| == 0 then d else Put(PutAll(d, more[..|more| - 1]), more[|more| - 1])
  }

  /** The index form of last-wins: the entry at position `i`, when no later
      entry has the same `file`, is the one the dictionary keeps. */
  lemma {:induction false} LastOccurrenceWins(db: seq<Entry>, i: nat)
    requires i < |db|
    requires forall j :: i < j < |db| ==> db[j].file != db[i].file
    ensures Get(FromList(db), db[i].file) == Some(db[i])
    decreases |db|
  {
    if i < |db| - 1 {
      LastOccurrenceWins(db[..|db| - 1], i);
    }
  }
}
