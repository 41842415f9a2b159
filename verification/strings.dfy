/** Python `str` operations the scripts rely on: `split(sep)`, `sep.join(xs)`,
    `replace(old, new)` and the argument-less `split()` on whitespace. */
module Strings {

  /** `p` is a prefix of `s` (Python `s.startswith(p)`). */
  predicate IsPrefix(p: string, s: string) {
    |p| <= |s| && s[..|p|] == p
  }

  /** `n` occurs somewhere in `s` (Python `n in s`). */
  predicate Occurs(n: string, s: string)
    decreases |s|
  {
    IsPrefix(n, s) || (|s| > 0 && Occurs(n, s[1..]))
  }

  /** `s` contains the character `c`. */
  predicate HasChar(s: string, c: char) {
    exists i :: 0 <= i < |s| && s[i] == c
  }

  /** A needle with a character that `s` lacks does not occur in `s`. */
  lemma {:induction false} AbsentPart(n: string, s: string, k: nat)
    requires k < |n| && !HasChar(s, n[k])
    ensures !Occurs(n, s)
    decreases |s|
  {
    if |s| > 0 {
      assert !HasChar(s[1..], n[k]) by {
        forall i | 0 <= i < |s[1..]| ensures s[1..][i] != n[k] {
          assert s[1..][i] == s[i + 1];
        }
      }
      AbsentPart(n, s[1..], k);
    }
  }

  /** The number of times `c` occurs in `s`. */
  function CountChar(s: string, c: char): (n: nat)
    ensures n == 0 <==> !HasChar(s, c)
    decreases |s|
  {
    if |s| == 0 then 0
    else
      assert forall i :: 1 <= i < |s| ==> s[1..][i - 1] == s[i];
      (if s[0] == c then 1 else 0) + CountChar(s[1..], c)
  }

  /** `s.split(sep)` for a non-empty separator: the pieces between the
      leftmost non-overlapping occurrences of `sep`. Python raises
      `ValueError` on an empty separator. */
  function Split(s: string, sep: string): (r: seq<string>)
    requires |sep| > 0
    ensures |r| >= 1
    decreases |s|
  {
    if IsPrefix(sep, s) then [""] + Split(s[|sep|..], sep)
    else if |s| == 0 then [""]
    else
      var rest := Split(s[1..], sep);
      [[s[0]] + rest[0]] + rest[1..]
  }

  /** `sep.join(xs)`. */
  function Join(xs: seq<string>, sep: string): (r: string)
    ensures |xs| >= 1 ==> IsPrefix(xs[0], r)
    decreases |xs|
  {
    if |xs| == 0 then ""
    else if |xs| == 1 then xs[0]
    else xs[0] + sep + Join(xs[1..], sep)
  }

  /** `s.replace(old, new)`: every leftmost non-overlapping occurrence of
      `old` is replaced by `new`; an empty `old` puts `new` before every
      character and at the end. */
  function ReplaceAll(s: string, needle: string, repl: string): (r: string)
    ensures |needle| > 0 && !Occurs(needle, s) ==> r == s
    ensures needle == repl ==> r == s
    ensures 0 < |needle| && |repl| <= |needle| ==> |r| <= |s|
    decreases |s|
  {
    if |needle| == 0 then InsertAround(s, repl)
    else if IsPrefix(needle, s) then repl + ReplaceAll(s[|needle|..], needle, repl)
    else if |s| == 0 then ""
    else [s[0]] + ReplaceAll(s[1..], needle, repl)
  }

  /** `s.replace("", new)`. */
  function InsertAround(s: string, repl: string): (r: string)
    ensures |r| == |s| + (|s| + 1) * |repl|
    ensures repl == "" ==> r == s
    decreases |s|
  {
    if |s| == 0 then repl else repl + [s[0]] + InsertAround(s[1..], repl)
  }

  lemma JoinCons(x: string, xs: seq<string>, sep: string)
    requires |xs| >= 1
    ensures Join([x] + xs, sep) == x + sep + Join(xs, sep)
  {
    assert ([x] + xs)[1..] == xs;
  }

  lemma JoinHeadPrefix(c: char, xs: seq<string>, sep: string)
    requires |xs| >= 1
    ensures Join([[c] + xs[0]] + xs[1..], sep) == [c] + Join(xs, sep)
  {
    if |xs| == 1 {
    } else {
      JoinCons([c] + xs[0], xs[1..], sep);
      JoinCons(xs[0], xs[1..], sep);
      assert [xs[0]] + xs[1..] == xs;
    }
  }

  /** Joining the pieces of a split with the same separator gives back the
      original string. */
  lemma {:induction false} JoinSplit(s: string, sep: string)
    requires |sep| > 0
    ensures Join(Split(s, sep), sep) == s
    decreases |s|
  {
    if IsPrefix(sep, s) {
      var tail := s[|sep|..];
      JoinSplit(tail, sep);
      JoinSplitAtSep(s, sep);
      assert s == sep + tail;
    } else if |s| > 0 {
      JoinSplit(s[1..], sep);
      JoinSplitAtChar(s, sep);
      assert s == [s[0]] + s[1..];
    }
  }

  /** A leading separator survives splitting and joining. */
  lemma JoinSplitAtSep(s: string, sep: string)
    requires |sep| > 0 && IsPrefix(sep, s)
    ensures Join(Split(s, sep), sep) == sep + Join(Split(s[|sep|..], sep), sep)
  {
    JoinCons("", Split(s[|sep|..], sep), sep);
    assert "" + sep == sep;
  }

  /** So does a leading character that does not start a separator. */
  lemma JoinSplitAtChar(s: string, sep: string)
    requires |sep| > 0 && !IsPrefix(sep, s) && |s| > 0
    ensures Join(Split(s, sep), sep) == [s[0]] + Join(Split(s[1..], sep), sep)
  {
    JoinHeadPrefix(s[0], Split(s[1..], sep), sep);
  }

  /** Python documents `s.replace(old, new)` as `new.join(s.split(old))`:
      the replacement agrees with that reference definition. */
  lemma {:induction false} ReplaceIsJoinOfSplit(s: string, needle: string, repl: string)
    requires |needle| > 0
    ensures ReplaceAll(s, needle, repl) == Join(Split(s, needle), repl)
    decreases |s|
  {
    if IsPrefix(needle, s) {
      var tail := s[|needle|..];
      ReplaceIsJoinOfSplit(tail, needle, repl);
      JoinCons("", Split(tail, needle), repl);
    } else if |s| == 0 {
    } else {
      ReplaceIsJoinOfSplit(s[1..], needle, repl);
      JoinHeadPrefix(s[0], Split(s[1..], needle), repl);
    }
  }

  lemma SplitOfCharPrefix(c: char, s: string, sep: char)
    requires c != sep
    ensures Split([c] + s, [sep]) == [[c] + Split(s, [sep])[0]] + Split(s, [sep])[1..]
  {
    assert !IsPrefix([sep], [c] + s);
    assert ([c] + s)[1..] == s;
  }

  lemma SplitOfSepPrefix(s: string, sep: char)
    ensures Split([sep] + s, [sep]) == [""] + Split(s, [sep])
  {
    assert IsPrefix([sep], [sep] + s);
    assert ([sep] + s)[1..] == s;
  }

  /** Splitting `x + sep + rest` on a one-character separator absent from
      `x` yields `x` followed by the pieces of `rest`. */
  lemma {:induction false} SplitAfterPiece(x: string, rest: string, sep: char)
    requires !HasChar(x, sep)
    ensures Split(x + [sep] + rest, [sep]) == [x] + Split(rest, [sep])
    decreases |x|
  {
    if |x| == 0 {
      assert x + [sep] + rest == [sep] + rest;
      SplitOfSepPrefix(rest, sep);
    } else {
      var t := x[1..];
      assert !HasChar(t, sep) by {
        forall i | 0 <= i < |t| ensures t[i] != sep {
          assert t[i] == x[i + 1];
        }
      }
      assert x[0] != sep;
      SplitAfterPiece(t, rest, sep);
      assert x + [sep] + rest == [x[0]] + (t + [sep] + rest);
      SplitOfCharPrefix(x[0], t + [sep] + rest, sep);
      assert [x[0]] + t == x;
    }
  }

  /** A string without the separator character is a single piece. */
  lemma {:induction false} SplitNoSep(x: string, sep: char)
    requires !HasChar(x, sep)
    ensures Split(x, [sep]) == [x]
    decreases |x|
  {
    if |x| == 0 {
    } else {
      var t := x[1..];
      assert !HasChar(t, sep) by {
        forall i | 0 <= i < |t| ensures t[i] != sep {
          assert t[i] == x[i + 1];
        }
      }
      assert x[0] != sep;
      SplitNoSep(t, sep);
      assert x == [x[0]] + t;
      SplitOfCharPrefix(x[0], t, sep);
    }
  }

  /** Splitting on a one-character separator undoes joining with it, as long
      as no piece contains that character. */
  lemma {:induction false} SplitJoin(xs: seq<string>, sep: char)
    requires |xs| >= 1
    requires forall i :: 0 <= i < |xs| ==> !HasChar(xs[i], sep)
    ensures Split(Join(xs, [sep]), [sep]) == xs
    decreases |xs|
  {
    if |xs| == 1 {
      SplitNoSep(xs[0], sep);
    } else {
      SplitJoin(xs[1..], sep);
      SplitAfterPiece(xs[0], Join(xs[1..], [sep]), sep);
      assert [xs[0]] + xs[1..] == xs;
    }
  }

  /** Every piece of a split on a one-character separator is free of it. */
  lemma {:induction false} SplitPiecesLackSep(s: string, sep: char)
    ensures forall i :: 0 <= i < |Split(s, [sep])| ==> !HasChar(Split(s, [sep])[i], sep)
    decreases |s|
  {
    if IsPrefix([sep], s) {
      SplitPiecesLackSep(s[1..], sep);
    } else if |s| == 0 {
    } else {
      SplitPiecesLackSep(s[1..], sep);
      var rest := Split(s[1..], [sep]);
      var head := [s[0]] + rest[0];
      assert s[0] != sep;
      assert !HasChar(head, sep) by {
        forall i | 0 <= i < |head| ensures head[i] != sep {
          if i > 0 { assert head[i] == rest[0][i - 1]; }
        }
      }
    }
  }

  /** A split on a one-character separator has one piece more than the
      separator has occurrences. */
  lemma {:induction false} SplitCount(s: string, sep: char)
    ensures |Split(s, [sep])| == CountChar(s, sep) + 1
    decreases |s|
  {
    if |s| > 0 {
      SplitCount(s[1..], sep);
    }
  }

  /** Occurrences of a character add up over a concatenation. */
  lemma {:induction false} CountCharConcat(a: string, b: string, c: char)
    ensures CountChar(a + b, c) == CountChar(a, c) + CountChar(b, c)
    decreases |a|
  {
    if |a| > 0 {
      CountCharConcat(a[1..], b, c);
      assert (a + b)[1..] == a[1..] + b;
    } else {
      assert a + b == b;
    }
  }

  /** Characters Python's `str.isspace` accepts, the separators of the
      argument-less `str.split()`. */
  predicate IsSpace(c: char) {
    ('\U{9}' <= c <= '\U{D}') || ('\U{1C}' <= c <= ' ')
    || c == '\U{85}' || c == '\U{A0}' || c == '\U{1680}'
    || ('\U{2000}' <= c <= '\U{200A}') || c == '\U{2028}' || c == '\U{2029}'
    || c == '\U{202F}' || c == '\U{205F}' || c == '\U{3000}'
  }

  /** `s` has no whitespace character. */
  predicate NoSpace(s: string) {
    forall i :: 0 <= i < |s| ==> !IsSpace(s[i])
  }

  /** A token `str.split()` can produce: non-empty, no whitespace. */
  predicate IsWord(w: string) {
    |w| > 0 && NoSpace(w)
  }

  lemma NoSpaceConcat(a: string, b: string)
    requires NoSpace(a) && NoSpace(b)
    ensures NoSpace(a + b)
  {
    forall i | 0 <= i < |a + b| ensures !IsSpace((a + b)[i]) {
      if i >= |a| {
        assert (a + b)[i] == b[i - |a|];
      }
    }
  }

  /** The pieces of a split of a whitespace-free string are whitespace-free. */
  lemma {:induction false} SplitNoSpace(s: string, sep: string)
    requires |sep| > 0
    requires NoSpace(s)
    ensures forall i :: 0 <= i < |Split(s, sep)| ==> NoSpace(Split(s, sep)[i])
    decreases |s|
  {
    if IsPrefix(sep, s) {
      SplitNoSpace(s[|sep|..], sep);
    } else if |s| == 0 {
    } else {
      SplitNoSpace(s[1..], sep);
      var rest := Split(s[1..], sep);
      NoSpaceConcat([s[0]], rest[0]);
    }
  }

  /** Joining whitespace-free pieces with a whitespace-free separator. */
  lemma {:induction false} JoinNoSpace(xs: seq<string>, sep: string)
    requires NoSpace(sep)
    requires forall i :: 0 <= i < |xs| ==> NoSpace(xs[i])
    ensures NoSpace(Join(xs, sep))
    decreases |xs|
  {
    if |xs| > 1 {
      JoinNoSpace(xs[1..], sep);
      NoSpaceConcat(xs[0], sep);
      NoSpaceConcat(xs[0] + sep, Join(xs[1..], sep));
    }
  }

  /** Length of the leading run of non-whitespace characters. */
  function WordLength(s: string): (n: nat)
    ensures n <= |s|
    ensures forall i :: 0 <= i < n ==> !IsSpace(s[i])
    ensures n == |s| || IsSpace(s[n])
    decreases |s|
  {
    if |s| == 0 || IsSpace(s[0]) then 0 else 1 + WordLength(s[1..])
  }

  /** `s.split()`: the maximal runs of non-whitespace characters, in order. */
  function Words(s: string): (r: seq<string>)
    ensures forall i :: 0 <= i < |r| ==> IsWord(r[i])
    decreases |s|
  {
    if |s| == 0 then []
    else if IsSpace(s[0]) then Words(s[1..])
    else
      var n := WordLength(s);
      [s[..n]] + Words(s[n..])
  }

  lemma {:induction false} WordLengthOfWord(w: string, rest: string)
    requires IsWord(w)
    requires |rest| == 0 || IsSpace(rest[0])
    ensures WordLength(w + rest) == |w|
    decreases |w|
  {
    var s := w + rest;
    if |w| == 1 {
      assert s[1..] == rest;
    } else {
      assert s[1..] == w[1..] + rest;
      WordLengthOfWord(w[1..], rest);
    }
  }

  /** `" ".join(ws).split() == ws` whenever every element is a word: the
      command rebuilt by joining tokens with single spaces tokenizes back to
      the same tokens. */
  lemma {:induction false} WordsOfJoin(ws: seq<string>)
    requires forall i :: 0 <= i < |ws| ==> IsWord(ws[i])
    ensures Words(Join(ws, " ")) == ws
    decreases |ws|
  {
    if |ws| == 0 {
    } else if |ws| == 1 {
      var w := ws[0];
      WordLengthOfWord(w, "");
      assert w + "" == w;
      assert w[..|w|] == w;
      assert w[|w|..] == "";
    } else {
      var w := ws[0];
      var rest := Join(ws[1..], " ");
      var s := w + " " + rest;
      assert Join(ws, " ") == s;
      WordLengthOfWord(w, " " + rest);
      assert w + (" " + rest) == s;
      assert s[..|w|] == w;
      assert s[|w|..] == " " + rest;
      assert (" " + rest)[1..] == rest;
      WordsOfJoin(ws[1..]);
      assert [w] + ws[1..] == ws;
    }
  }
}
