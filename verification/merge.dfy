/** The merge tool: concatenate several compilation databases, apply the
    `SRC:DST` path substitutions in order, and, when a base source file is
    given, fold the entries into a dictionary keyed by `file` together with
    the synthesized header entries. */
module Merge {
  import opened Wrappers
  import opened Strings
  import opened CompileDb
  import HeaderSynthesis

  /** `compile_commands += json.load(f)` for each input file in turn. */
  function Concat(dbs: seq<seq<Entry>>): (r: seq<Entry>)
    ensures forall i, e :: 0 <= i < |dbs| && e in dbs[i] ==> e in r
    decreases |dbs|
  {
    if |dbs| == 0 then [] else Concat(dbs[..|dbs| - 1]) + dbs[|dbs| - 1]
  }

  /** An entry is in the concatenation exactly when it is in one of the
      inputs. */
  lemma {:induction false} ConcatContains(dbs: seq<seq<Entry>>, e: Entry)
    ensures e in Concat(dbs) <==> exists i :: 0 <= i < |dbs| && e in dbs[i]
    decreases |dbs|
  {
    if |dbs| > 0 {
      var init := dbs[..|dbs| - 1];
      ConcatContains(init, e);
      assert forall i :: 0 <= i < |init| ==> init[i] == dbs[i];
    }
  }

  /** Reading the inputs in two batches reads them all: nothing is dropped,
      reordered or merged by the concatenation. */
  lemma {:induction false} ConcatAppend(a: seq<seq<Entry>>, b: seq<seq<Entry>>)
    ensures Concat(a + b) == Concat(a) + Concat(b)
    decreases |b|
  {
    if |b| == 0 {
      assert a + b == a;
    } else {
      var init := b[..|b| - 1];
      var last := b[|b| - 1];
      ConcatAppend(a, init);
      var ab := a + b;
      assert ab[..|ab| - 1] == a + init && ab[|ab| - 1] == last;
      assert Concat(ab) == Concat(a + init) + last;
      assert Concat(a) + Concat(init) + last == Concat(a) + (Concat(init) + last);
    }
  }

  /** The total number of entries in the inputs. */
  function TotalSize(dbs: seq<seq<Entry>>): nat
    decreases |dbs|
  {
    if |dbs| == 0 then 0 else TotalSize(dbs[..|dbs| - 1]) + |dbs[|dbs| - 1]|
  }

  /** Every entry of every input is kept, duplicates included. */
  lemma {:induction false} ConcatSize(dbs: seq<seq<Entry>>)
    ensures |Concat(dbs)| == TotalSize(dbs)
    decreases |dbs|
  {
    if |dbs| > 0 {
      ConcatSize(dbs[..|dbs| - 1]);
    }
  }

  /** `unescape_backslash_sequences`: `\:` becomes `:`, then `\\` becomes `\`. */
  function Unescape(s: string): (r: string)
    ensures |r| <= |s|
  {
    ReplaceAll(ReplaceAll(s, "\\:", ":"), "\\\\", "\\")
  }

  /** Text without a backslash is left alone. */
  lemma UnescapePlain(s: string)
    requires !HasChar(s, '\\')
    ensures Unescape(s) == s
  {
    AbsentPart("\\:", s, 0);
    AbsentPart("\\\\", s, 0);
  }

  /** On colon-free text the `\:` rule never fires: only `\\` is undone. */
  lemma UnescapeColonFree(s: string)
    requires !HasChar(s, ':')
    ensures Unescape(s) == ReplaceAll(s, "\\\\", "\\")
  {
    AbsentPart("\\:", s, 1);
  }

  /** `(src, dst) = spec.split(':')` followed by unescaping both halves; any
      other number of pieces raises `ValueError` while unpacking. */
  function ParseSpec(spec: string): (r: Result<(string, string), Failure>)
    ensures r.Ok? <==> CountChar(spec, ':') == 1
    ensures r.Err? ==> r.error == BadSubstSpec(spec)
  {
    var ps := Split(spec, ":");
    SplitCount(spec, ':');
    if |ps| == 2 then Ok((Unescape(ps[0]), Unescape(ps[1]))) else Err(BadSubstSpec(spec))
  }

  /** A spec with exactly one colon is read as the text on either side of it,
      with `\\` undone on each side. */
  lemma SpecParts(a: string, b: string)
    requires !HasChar(a, ':') && !HasChar(b, ':')
    ensures ParseSpec(a + ":" + b) == Ok((ReplaceAll(a, "\\\\", "\\"), ReplaceAll(b, "\\\\", "\\")))
  {
    assert Join([a, b], ":") == a + ":" + b by {
      JoinCons(a, [b], ":");
    }
    SplitJoin([a, b], ':');
    UnescapeColonFree(a);
    UnescapeColonFree(b);
  }

  /** The documented `\:` escape cannot protect a colon: the split sees it
      first, so a spec such as `a\:b:c` has two colons and is rejected. */
  lemma EscapedColonRejected(a: string, b: string, c: string)
    ensures ParseSpec(a + "\\:" + b + ":" + c) == Err(BadSubstSpec(a + "\\:" + b + ":" + c))
  {
    CountCharConcat(a, "\\:", ':');
    CountCharConcat(a + "\\:", b, ':');
    CountCharConcat(a + "\\:" + b, ":", ':');
    CountCharConcat(a + "\\:" + b + ":", c, ':');
  }

  /** The pieces of a spec split at the colons that are not escaped, with
      `\\` and `\:` undone inside each piece and any other backslash kept:
      what the escape sequences are meant to achieve. */
  function Pieces(s: string): (r: seq<string>)
    ensures |r| >= 1
    decreases |s|
  {
    if |s| == 0 then [""]
    else if |s| >= 2 && s[0] == '\\' && (s[1] == '\\' || s[1] == ':') then
      var rest := Pieces(s[2..]);
      [[s[1]] + rest[0]] + rest[1..]
    else if s[0] == ':' then [""] + Pieces(s[1..])
    else
      var rest := Pieces(s[1..]);
      [[s[0]] + rest[0]] + rest[1..]
  }

  /** The spec parser the escapes call for: exactly two pieces at unescaped
      colons, each unescaped. */
  function ParseSpecEscaped(spec: string): (r: Result<(string, string), Failure>)
    ensures r.Err? ==> r.error == BadSubstSpec(spec)
  {
    var ps := Pieces(spec);
    if |ps| == 2 then Ok((ps[0], ps[1])) else Err(BadSubstSpec(spec))
  }

  /** Writes a path with `\` as `\\` and `:` as `\:`. */
  function Escape(s: string): (r: string)
    ensures |r| >= |s|
    decreases |s|
  {
    if |s| == 0 then ""
    else (if s[0] == '\\' || s[0] == ':' then ['\\', s[0]] else [s[0]]) + Escape(s[1..])
  }

  /** An escaped `\` or `:` starts its piece with that character. */
  lemma PiecesOfEscapePair(c: char, tail: string)
    requires c == '\\' || c == ':'
    ensures Pieces(['\\', c] + tail) == [[c] + Pieces(tail)[0]] + Pieces(tail)[1..]
  {
    assert (['\\', c] + tail)[2..] == tail;
  }

  /** Any other character starts its piece with itself. */
  lemma PiecesOfPlainChar(c: char, tail: string)
    requires c != '\\' && c != ':'
    ensures Pieces([c] + tail) == [[c] + Pieces(tail)[0]] + Pieces(tail)[1..]
  {
    assert ([c] + tail)[1..] == tail;
  }

  /** Escaping the first character of `x` adds that character to the front
      of the first piece. */
  lemma PiecesOfEscapedStep(x: string, t: string)
    requires |x| > 0
    ensures var pl := Pieces(Escape(x[1..]) + t);
      Pieces(Escape(x) + t) == [[x[0]] + pl[0]] + pl[1..]
  {
    var tail := Escape(x[1..]) + t;
    if x[0] == '\\' || x[0] == ':' {
      assert Escape(x) + t == ['\\', x[0]] + tail;
      PiecesOfEscapePair(x[0], tail);
    } else {
      assert Escape(x) + t == [x[0]] + tail;
      PiecesOfPlainChar(x[0], tail);
    }
  }

  /** An escaped path contributes exactly itself to the piece it starts. */
  lemma {:induction false} PiecesOfEscaped(x: string, t: string)
    ensures Pieces(Escape(x) + t) == [x + Pieces(t)[0]] + Pieces(t)[1..]
    decreases |x|
  {
    var pt := Pieces(t);
    if |x| == 0 {
      assert Escape(x) + t == t;
      assert x + pt[0] == pt[0];
      assert [pt[0]] + pt[1..] == pt;
    } else {
      PiecesOfEscaped(x[1..], t);
      PiecesOfEscapedStep(x, t);
      assert [x[0]] + (x[1..] + pt[0]) == x + pt[0];
    }
  }

  /** With the escapes honoured, any two paths survive being written as
      `SRC:DST`, colons and backslashes included. */
  lemma EscapedSpecRoundTrip(src: string, dst: string)
    ensures ParseSpecEscaped(Escape(src) + ":" + Escape(dst)) == Ok((src, dst))
  {
    var t := Escape(dst);
    PiecesOfEscaped(dst, "");
    assert t + "" == t;
    assert dst + "" == dst;
    assert Pieces(t) == [dst];
    assert (":" + t)[1..] == t;
    assert Pieces(":" + t) == [""] + [dst];
    PiecesOfEscaped(src, ":" + t);
    assert Escape(src) + ":" + t == Escape(src) + (":" + t);
    assert src + "" == src;
  }

  /** Without a backslash the two parsers agree: the correction only changes
      how escapes are read. */
  lemma {:induction false} PiecesPlain(s: string)
    requires !HasChar(s, '\\')
    ensures Pieces(s) == Split(s, ":")
    decreases |s|
  {
    if |s| > 0 {
      assert !HasChar(s[1..], '\\') by {
        forall i | 0 <= i < |s[1..]| ensures s[1..][i] != '\\' {
          assert s[1..][i] == s[i + 1];
        }
      }
      PiecesPlain(s[1..]);
      assert s[0] != '\\';
    }
  }

  /** On specs without a backslash the corrected parser is the one the
      tool uses. */
  lemma ParseSpecPlain(spec: string)
    requires !HasChar(spec, '\\')
    ensures ParseSpecEscaped(spec) == ParseSpec(spec)
  {
    PiecesPlain(spec);
    var ps := Split(spec, ":");
    SplitPiecesLackSep(spec, ':');
    if |ps| == 2 {
      assert !HasChar(ps[0], '\\') && !HasChar(ps[1], '\\') by {
        JoinSplit(spec, ":");
        JoinCons(ps[0], ps[1..], ":");
        assert spec == ps[0] + ":" + ps[1];
        assert forall i :: 0 <= i < |ps[0]| ==> ps[0][i] == spec[i];
        assert forall i :: 0 <= i < |ps[1]| ==> ps[1][i] == spec[|ps[0]| + 1 + i];
      }
      UnescapePlain(ps[0]);
      UnescapePlain(ps[1]);
    }
  }

  /** `for key in entry: entry[key] = entry[key].replace(src, dst)`. */
  function SubstEntry(e: Entry, src: string, dst: string): (r: Entry)
    ensures r.extra.Keys == e.extra.Keys
    ensures src == dst ==> r == e
  {
    Entry(ReplaceAll(e.directory, src, dst), ReplaceAll(e.file, src, dst), ReplaceAll(e.command, src, dst),
      map k | k in e.extra :: ReplaceAll(e.extra[k], src, dst))
  }

  /** A source path that occurs in no value of an entry leaves the entry as
      it was. */
  lemma SubstAbsent(e: Entry, src: string, dst: string)
    requires |src| > 0
    requires !Occurs(src, e.directory) && !Occurs(src, e.file) && !Occurs(src, e.command)
    requires forall k :: k in e.extra ==> !Occurs(src, e.extra[k])
    ensures SubstEntry(e, src, dst) == e
  {
    assert SubstEntry(e, src, dst).extra == e.extra;
  }

  /** One substitution applied to every entry. */
  function SubstEach(db: seq<Entry>, src: string, dst: string): (r: seq<Entry>)
    ensures |r| == |db|
    ensures forall i :: 0 <= i < |db| ==> r[i] == SubstEntry(db[i], src, dst)
    ensures src == dst ==> r == db
    ensures forall e :: e in db ==> SubstEntry(e, src, dst) in r
  {
    seq(|db|, i requires 0 <= i < |db| => SubstEntry(db[i], src, dst))
  }

  /** Substitution commutes with the concatenation of
      merge_compile_commands.py:27-30: substituting in the merged list is
      merging the substituted lists. */
  lemma SubstEachAppend(a: seq<Entry>, b: seq<Entry>, src: string, dst: string)
    ensures SubstEach(a + b, src, dst) == SubstEach(a, src, dst) + SubstEach(b, src, dst)
  {
    var l := SubstEach(a + b, src, dst);
    var r := SubstEach(a, src, dst) + SubstEach(b, src, dst);
    forall i | 0 <= i < |l| ensures l[i] == r[i] {
      if i < |a| {
        assert (a + b)[i] == a[i];
      } else {
        assert (a + b)[i] == b[i - |a|];
      }
    }
  }

  /** A source path that occurs in no value of any entry leaves the whole
      database as it was. */
  lemma SubstEachAbsent(db: seq<Entry>, src: string, dst: string)
    requires |src| > 0
    requires forall e :: e in db ==>
      && !Occurs(src, e.directory) && !Occurs(src, e.file) && !Occurs(src, e.command)
      && forall k :: k in e.extra ==> !Occurs(src, e.extra[k])
    ensures SubstEach(db, src, dst) == db
  {
    forall i | 0 <= i < |db| ensures SubstEach(db, src, dst)[i] == db[i] {
      assert db[i] in db;
      SubstAbsent(db[i], src, dst);
    }
  }

  /** Every spec parses. */
  predicate AllSpecsParse(specs: seq<string>) {
    forall i :: 0 <= i < |specs| ==> ParseSpec(specs[i]).Ok?
  }

  /** The substitution loop: each spec in order is parsed and applied to
      every entry; a malformed spec aborts the run. */
  function SubstAll(db: seq<Entry>, specs: seq<string>): (r: Result<seq<Entry>, Failure>)
    ensures r.Ok? <==> AllSpecsParse(specs)
    ensures r.Ok? ==> |r.value| == |db|
    ensures r.Ok? ==> forall i :: 0 <= i < |db| ==> r.value[i].extra.Keys == db[i].extra.Keys
    ensures r.Err? ==> r.error.BadSubstSpec? && r.error.spec in specs && ParseSpec(r.error.spec).Err?
    decreases |specs|
  {
    if |specs| == 0 then Ok(db)
    else
      assert forall i :: 1 <= i < |specs| ==> specs[1..][i - 1] == specs[i];
      var p :- ParseSpec(specs[0]);
      SubstAll(SubstEach(db, p.0, p.1), specs[1..])
  }

  /** Applying two batches of specs is applying the first batch and then the
      second: the substitutions compose in command-line order. */
  lemma {:induction false} SubstAllAppend(db: seq<Entry>, a: seq<string>, b: seq<string>)
    requires AllSpecsParse(a)
    ensures SubstAll(db, a + b) == SubstAll(SubstAll(db, a).value, b)
    decreases |a|
  {
    if |a| == 0 {
      assert a + b == b;
    } else {
      var p := ParseSpec(a[0]).value;
      assert (a + b)[0] == a[0];
      assert (a + b)[1..] == a[1..] + b;
      assert AllSpecsParse(a[1..]) by {
        forall i | 0 <= i < |a[1..]| ensures ParseSpec(a[1..][i]).Ok? {
          assert a[1..][i] == a[i + 1];
        }
      }
      SubstAllAppend(SubstEach(db, p.0, p.1), a[1..], b);
    }
  }

  /** One well-formed spec replaces its source path by its destination path
      in every value of every entry. */
  lemma SubstOne(db: seq<Entry>, spec: string)
    requires ParseSpec(spec).Ok?
    ensures SubstAll(db, [spec]) == Ok(SubstEach(db, ParseSpec(spec).value.0, ParseSpec(spec).value.1))
  {
    assert [spec][1..] == [];
  }

  /** A spec that maps a path to itself changes nothing. */
  lemma SubstSelf(db: seq<Entry>, spec: string)
    requires ParseSpec(spec).Ok? && ParseSpec(spec).value.0 == ParseSpec(spec).value.1
    ensures SubstAll(db, [spec]) == Ok(db)
  {
    var p := ParseSpec(spec).value;
    forall i | 0 <= i < |db| ensures SubstEach(db, p.0, p.1)[i] == db[i] {
      assert SubstEntry(db[i], p.0, p.1).extra == db[i].extra;
    }
    assert SubstEach(db, p.0, p.1) == db;
    assert [spec][1..] == [];
  }

  /** The substitution loop with the escape-aware spec parser: a spec may
      name a path containing `:` by writing it as `\:`. */
  function SubstAllEscaped(db: seq<Entry>, specs: seq<string>): (r: Result<seq<Entry>, Failure>)
    ensures r.Ok? <==> forall i :: 0 <= i < |specs| ==> ParseSpecEscaped(specs[i]).Ok?
    ensures r.Ok? ==> |r.value| == |db|
    ensures r.Err? ==> r.error.BadSubstSpec? && r.error.spec in specs && ParseSpecEscaped(r.error.spec).Err?
    decreases |specs|
  {
    if |specs| == 0 then Ok(db)
    else
      assert forall i :: 1 <= i < |specs| ==> specs[1..][i - 1] == specs[i];
      var p :- ParseSpecEscaped(specs[0]);
      SubstAllEscaped(SubstEach(db, p.0, p.1), specs[1..])
  }

  /** An escaped spec substitutes exactly the paths it was written from,
      whatever `:` or `\` they contain. */
  lemma EscapedSubstApplies(db: seq<Entry>, src: string, dst: string)
    ensures SubstAllEscaped(db, [Escape(src) + ":" + Escape(dst)]) == Ok(SubstEach(db, src, dst))
  {
    EscapedSpecRoundTrip(src, dst);
    assert [Escape(src) + ":" + Escape(dst)][1..] == [];
  }

  /** On specs without a backslash the escape-aware loop and the loop as
      written agree. */
  lemma {:induction false} SubstAllEscapedPlain(db: seq<Entry>, specs: seq<string>)
    requires forall i :: 0 <= i < |specs| ==> !HasChar(specs[i], '\\')
    ensures SubstAllEscaped(db, specs) == SubstAll(db, specs)
    decreases |specs|
  {
    if |specs| > 0 {
      ParseSpecPlain(specs[0]);
      assert forall i :: 0 <= i < |specs[1..]| ==> specs[1..][i] == specs[i + 1];
      var p := ParseSpec(specs[0]);
      if p.Ok? {
        SubstAllEscapedPlain(SubstEach(db, p.value.0, p.value.1), specs[1..]);
      }
    }
  }

  /** The whole tool, after the inputs have been read. `o.baseSrcFile == ""`
      stands for an absent `-B`; `walk`, `onDisk` and `cwd` stand for the
      directory walk, the file system and the working directory. */
  function Merge(dbs: seq<seq<Entry>>, specs: seq<string>, o: HeaderSynthesis.Options,
                 walk: seq<HeaderSynthesis.DirListing>, onDisk: set<string>, cwd: string): (r: Result<seq<Entry>, Failure>)
    ensures AllSpecsParse(specs) && o.baseSrcFile == "" ==> r.Ok? && |r.value| == TotalSize(dbs)
    ensures o.baseSrcFile == "" ==> r == SubstAll(Concat(dbs), specs)
    ensures r.Ok? && o.baseSrcFile != "" ==> UniqueFiles(r.value)
    ensures !AllSpecsParse(specs) ==> r.Err? && r.error.BadSubstSpec?
  {
    var db :- SubstAll(Concat(dbs), specs);
    ConcatSize(dbs);
    if o.baseSrcFile == "" then Ok(db)
    else
      var d := FromList(db);
      var extra :- HeaderSynthesis.Generate(o, d, walk, onDisk, cwd);
      PutAllIsFromList(db, extra);
      Ok(PutAll(d, extra))
  }

  /** With a base source file, the result is the dictionary built from the
      substituted entries followed by the synthesized ones: for every file,
      the last of them in that order. */
  lemma MergeLastWins(dbs: seq<seq<Entry>>, specs: seq<string>, o: HeaderSynthesis.Options,
                      walk: seq<HeaderSynthesis.DirListing>, onDisk: set<string>, cwd: string,
                      db: seq<Entry>, extra: seq<Entry>)
    requires o.baseSrcFile != ""
    requires SubstAll(Concat(dbs), specs) == Ok(db)
    requires HeaderSynthesis.Generate(o, FromList(db), walk, onDisk, cwd) == Ok(extra)
    ensures Merge(dbs, specs, o, walk, onDisk, cwd) == Ok(FromList(db + extra))
    ensures forall f :: Get(Merge(dbs, specs, o, walk, onDisk, cwd).value, f) == LastWith(db + extra, f)
  {
    PutAllIsFromList(db, extra);
  }

  /** A synthesized header entry replaces any database entry for the same
      file, unless a later synthesized entry replaces it in turn; it is
      stored as generated, after the substitutions. */
  lemma SynthesizedWins(dbs: seq<seq<Entry>>, specs: seq<string>, o: HeaderSynthesis.Options,
                        walk: seq<HeaderSynthesis.DirListing>, onDisk: set<string>, cwd: string,
                        db: seq<Entry>, extra: seq<Entry>, i: nat)
    requires o.baseSrcFile != ""
    requires SubstAll(Concat(dbs), specs) == Ok(db)
    requires HeaderSynthesis.Generate(o, FromList(db), walk, onDisk, cwd) == Ok(extra)
    requires i < |extra|
    requires forall j :: i < j < |extra| ==> extra[j].file != extra[i].file
    ensures Get(Merge(dbs, specs, o, walk, onDisk, cwd).value, extra[i].file) == Some(extra[i])
  {
    MergeLastWins(dbs, specs, o, walk, onDisk, cwd, db, extra);
    var all := db + extra;
    assert all[|db| + i] == extra[i];
    LastOccurrenceWins(all, |db| + i);
  }
}
