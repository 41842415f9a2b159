/** The token extractor both rewriting scripts build with
    `argparse.ArgumentParser()` and `parse_known_args`: an appending `-I`
    option, a `-c` option when the parser declares one, and argparse's
    built-in `-h`. Every other token is handed back, in order, as unknown. */
module CommandLine {
  import opened Wrappers
  import opened Strings
  import opened CompileDb

  /** The namespace and the list of unrecognised tokens. */
  datatype Parsed = Parsed(includes: seq<string>, source: Option<string>, unknown: seq<string>)

  predicate IsDigit(c: char) {
    '0' <= c <= '9'
  }

  predicate Digits(s: string) {
    forall i :: 0 <= i < |s| ==> IsDigit(s[i])
  }

  /** argparse's negative-number pattern `^-\d+$|^-\d*\.\d+$`. */
  predicate NegativeNumber(t: string) {
    && |t| >= 2 && t[0] == '-'
    && (|| Digits(t[1..])
        || exists k :: 1 <= k < |t| - 1 && t[k] == '.' && Digits(t[1..k]) && Digits(t[k + 1..]))
  }

  /** A token argparse classifies as an option string, which therefore cannot
      serve as the argument of a preceding option. */
  predicate LooksLikeOption(t: string) {
    |t| >= 2 && t[0] == '-' && !NegativeNumber(t)
  }

  /** `t` begins with the single-dash option `-c`: argparse recognises a
      single-dash option by the first two characters of a token. */
  predicate Opens(t: string, c: char) {
    |t| >= 2 && t[0] == '-' && t[1] == c
  }

  /** A token the parser consumes as one of its own options. */
  predicate Recognised(t: string, withSource: bool) {
    Opens(t, 'h') || Opens(t, 'I') || (withSource && Opens(t, 'c'))
  }

  /** The argument of the option that opens `tokens`: attached (`-Ivalue`,
      `-I=value`) or the next token, which must not look like an option.
      The second component counts the tokens consumed. */
  function TakeValue(tokens: seq<string>): (r: Result<(string, nat), Failure>)
    requires |tokens| > 0 && |tokens[0]| >= 2
    ensures r.Ok? ==> 1 <= r.value.1 <= 2 && r.value.1 <= |tokens|
    ensures r.Ok? && r.value.1 == 1 ==> |tokens[0]| > 2 && r.value.0 == (if tokens[0][2] == '=' then tokens[0][3..] else tokens[0][2..])
    ensures r.Ok? && r.value.1 == 2 ==> r.value.0 == tokens[1] && !LooksLikeOption(tokens[1])
    ensures r.Ok? <==> |tokens[0]| > 2 || (|tokens| >= 2 && !LooksLikeOption(tokens[1]))
    ensures |tokens[0]| > 2 ==> r.Ok? && r.value.1 == 1
    ensures r.Err? ==> r.error == MissingValue(tokens[0])
  {
    var t := tokens[0];
    if |t| > 2 then Ok((if t[2] == '=' then t[3..] else t[2..], 1))
    else if |tokens| >= 2 && !LooksLikeOption(tokens[1]) then Ok((tokens[1], 2))
    else Err(MissingValue(t))
  }

  /** `parse_known_args(tokens)`: `-I` values in order, the last `-c` value,
      and the tokens no option claimed. The first failing token ends the
      parse, as argparse exits there. */
  function Parse(tokens: seq<string>, withSource: bool): (r: Result<Parsed, Failure>)
    ensures r.Ok? && !withSource ==> r.value.source.None?
    ensures r.Ok? ==> |r.value.includes| + |r.value.unknown| <= |tokens|
    decreases |tokens|
  {
    if |tokens| == 0 then Ok(Parsed([], None, []))
    else
      var t := tokens[0];
      if Opens(t, 'h') then Err(HelpRequested(t))
      else if Recognised(t, withSource) then
        var vn :- TakeValue(tokens);
        var rest :- Parse(tokens[vn.1..], withSource);
        if Opens(t, 'I') then Ok(rest.(includes := [vn.0] + rest.includes))
        else Ok(rest.(source := if rest.source.Some? then rest.source else Some(vn.0)))
      else
        var rest :- Parse(tokens[1..], withSource);
        Ok(rest.(unknown := [t] + rest.unknown))
  }

  /** Every token handed back is one of the input tokens that no option of
      the parser claims. */
  lemma {:induction false} UnknownUnrecognised(tokens: seq<string>, withSource: bool)
    requires Parse(tokens, withSource).Ok?
    ensures var u := Parse(tokens, withSource).value.unknown;
      forall i :: 0 <= i < |u| ==> u[i] in tokens && !Recognised(u[i], withSource)
    decreases |tokens|
  {
    if |tokens| > 0 {
      var n := if Recognised(tokens[0], withSource) then TakeValue(tokens).value.1 else 1;
      UnknownUnrecognised(tokens[n..], withSource);
      assert forall x :: x in tokens[n..] ==> x in tokens;
    }
  }

  /** Option arguments are whole tokens or tails of tokens, so whitespace-free
      tokens give whitespace-free values. */
  lemma {:induction false} ParsedNoSpace(tokens: seq<string>, withSource: bool)
    requires forall i :: 0 <= i < |tokens| ==> NoSpace(tokens[i])
    requires Parse(tokens, withSource).Ok?
    ensures var p := Parse(tokens, withSource).value;
      && (forall i :: 0 <= i < |p.includes| ==> NoSpace(p.includes[i]))
      && (p.source.Some? ==> NoSpace(p.source.value))
    decreases |tokens|
  {
    if |tokens| > 0 {
      var n := if Recognised(tokens[0], withSource) then TakeValue(tokens).value.1 else 1;
      ParsedNoSpace(tokens[n..], withSource);
      if Recognised(tokens[0], withSource) {
        var v := TakeValue(tokens).value.0;
        assert NoSpace(v) by {
          var t := tokens[0];
          if |t| > 2 {
            assert forall j :: 0 <= j < |t[2..]| ==> t[2..][j] == t[j + 2];
            assert forall j :: 0 <= j < |t[3..]| ==> t[3..][j] == t[j + 3];
          } else {
            assert v == tokens[1];
          }
        }
      }
    }
  }

  /** The `-I value` pairs for `xs`, in order. */
  function IncludeArgs(xs: seq<string>): (r: seq<string>)
    ensures |r| == 2 * |xs|
  {
    if |xs| == 0 then [] else ["-I", xs[0]] + IncludeArgs(xs[1..])
  }

  /** Different include lists give different token lists. */
  lemma {:induction false} IncludeArgsInjective(a: seq<string>, b: seq<string>)
    requires IncludeArgs(a) == IncludeArgs(b)
    ensures a == b
    decreases |a|
  {
    if |a| > 0 {
      assert |b| > 0;
      assert a[0] == IncludeArgs(a)[1] == IncludeArgs(b)[1] == b[0];
      assert IncludeArgs(a[1..]) == IncludeArgs(a)[2..] == IncludeArgs(b)[2..] == IncludeArgs(b[1..]);
      IncludeArgsInjective(a[1..], b[1..]);
      assert a == [a[0]] + a[1..];
      assert b == [b[0]] + b[1..];
    }
  }

  /** One unrecognised token joins the front of the unknown list. */
  lemma UnknownStep(tokens: seq<string>, withSource: bool)
    requires |tokens| > 0 && !Recognised(tokens[0], withSource)
    ensures Parse(tokens, withSource) == match Parse(tokens[1..], withSource)
      case Ok(p) => Ok(Parsed(p.includes, p.source, [tokens[0]] + p.unknown))
      case Err(e) => Err(e)
  {
  }

  /** One `-I value` pair joins the front of the include list. */
  lemma IncludeStep(tokens: seq<string>, withSource: bool)
    requires |tokens| >= 2 && tokens[0] == "-I" && !LooksLikeOption(tokens[1])
    ensures Parse(tokens, withSource) == match Parse(tokens[2..], withSource)
      case Ok(p) => Ok(Parsed([tokens[1]] + p.includes, p.source, p.unknown))
      case Err(e) => Err(e)
  {
    assert TakeValue(tokens) == Ok((tokens[1], 2));
  }

  /** Unrecognised tokens in front of a list pass straight to the unknown
      list and change nothing else. */
  lemma {:induction false} ParsePlain(plain: seq<string>, tail: seq<string>, withSource: bool)
    requires forall i :: 0 <= i < |plain| ==> !Recognised(plain[i], withSource)
    ensures Parse(plain + tail, withSource) == match Parse(tail, withSource)
      case Ok(p) => Ok(Parsed(p.includes, p.source, plain + p.unknown))
      case Err(e) => Err(e)
    decreases |plain|
  {
    if |plain| == 0 {
      assert plain + tail == tail;
      match Parse(tail, withSource)
      case Ok(p) => assert plain + p.unknown == p.unknown;
      case Err(e) =>
    } else {
      var toks := plain + tail;
      assert toks[0] == plain[0];
      assert toks[1..] == plain[1..] + tail;
      UnknownStep(toks, withSource);
      ParsePlain(plain[1..], tail, withSource);
      match Parse(tail, withSource)
      case Ok(p) => assert [plain[0]] + (plain[1..] + p.unknown) == plain + p.unknown;
      case Err(e) =>
    }
  }

  /** The first pair of a rebuilt include list. */
  lemma IncludePairStep(xs: seq<string>, tail: seq<string>, withSource: bool)
    requires |xs| > 0 && !LooksLikeOption(xs[0])
    ensures Parse(IncludeArgs(xs) + tail, withSource) == match Parse(IncludeArgs(xs[1..]) + tail, withSource)
      case Ok(p) => Ok(Parsed([xs[0]] + p.includes, p.source, p.unknown))
      case Err(e) => Err(e)
  {
    var more := IncludeArgs(xs[1..]) + tail;
    var toks := ["-I", xs[0]] + more;
    assert IncludeArgs(xs) + tail == toks;
    assert toks[2..] == more;
    IncludeStep(toks, withSource);
  }

  /** `-I value` pairs whose values do not look like options are collected
      in order in front of whatever the rest of the list yields. */
  lemma {:induction false} ParseIncludes(xs: seq<string>, tail: seq<string>, withSource: bool)
    requires forall i :: 0 <= i < |xs| ==> !LooksLikeOption(xs[i])
    ensures Parse(IncludeArgs(xs) + tail, withSource) == match Parse(tail, withSource)
      case Ok(p) => Ok(Parsed(xs + p.includes, p.source, p.unknown))
      case Err(e) => Err(e)
    decreases |xs|
  {
    if |xs| == 0 {
      assert IncludeArgs(xs) + tail == tail;
      match Parse(tail, withSource)
      case Ok(p) => assert xs + p.includes == p.includes;
      case Err(e) =>
    } else {
      ParseIncludes(xs[1..], tail, withSource);
      IncludesGrow(xs, tail, withSource);
    }
  }

  /** The induction step of `ParseIncludes`: one more pair in front. */
  lemma IncludesGrow(xs: seq<string>, tail: seq<string>, withSource: bool)
    requires |xs| > 0 && !LooksLikeOption(xs[0])
    requires Parse(IncludeArgs(xs[1..]) + tail, withSource) == match Parse(tail, withSource)
      case Ok(p) => Ok(Parsed(xs[1..] + p.includes, p.source, p.unknown))
      case Err(e) => Err(e)
    ensures Parse(IncludeArgs(xs) + tail, withSource) == match Parse(tail, withSource)
      case Ok(p) => Ok(Parsed(xs + p.includes, p.source, p.unknown))
      case Err(e) => Err(e)
  {
    IncludePairStep(xs, tail, withSource);
    var r := Parse(tail, withSource);
    if r.Ok? {
      assert [xs[0]] + (xs[1..] + r.value.includes) == xs + r.value.includes;
    }
  }

  /** A lone `-c value` pair. */
  lemma SourceOnly(src: string)
    requires !LooksLikeOption(src)
    ensures Parse(["-c", src], true) == Ok(Parsed([], Some(src), []))
  {
    var toks := ["-c", src];
    assert TakeValue(toks) == Ok((src, 2));
    assert toks[2..] == [];
  }

  /** The token list the absolutising script rebuilds parses back into its
      parts: includes, unknown tokens and source file. */
  lemma ParseRebuilt(xs: seq<string>, plain: seq<string>, src: string)
    requires forall i :: 0 <= i < |xs| ==> !LooksLikeOption(xs[i])
    requires forall i :: 0 <= i < |plain| ==> !Recognised(plain[i], true)
    requires !LooksLikeOption(src)
    ensures Parse(IncludeArgs(xs) + plain + ["-c", src], true) == Ok(Parsed(xs, Some(src), plain))
  {
    var last := ["-c", src];
    SourceOnly(src);
    ParsePlain(plain, last, true);
    assert plain + [] == plain;
    ParseIncludes(xs, plain + last, true);
    assert xs + [] == xs;
    assert IncludeArgs(xs) + plain + last == IncludeArgs(xs) + (plain + last);
  }

  /** The number of tokens that begin with `-I`. */
  function CountIncludeOptions(tokens: seq<string>): nat {
    if |tokens| == 0 then 0
    else (if Opens(tokens[0], 'I') then 1 else 0) + CountIncludeOptions(tokens[1..])
  }

  /** A successful parse finds exactly one include per token that begins with
      `-I`: an option's argument can never itself begin with `-I`. */
  lemma {:induction false} IncludeCount(tokens: seq<string>, withSource: bool)
    requires Parse(tokens, withSource).Ok?
    ensures |Parse(tokens, withSource).value.includes| == CountIncludeOptions(tokens)
    decreases |tokens|
  {
    if |tokens| > 0 {
      var t := tokens[0];
      if Recognised(t, withSource) {
        var vn := TakeValue(tokens).value;
        IncludeCount(tokens[vn.1..], withSource);
        if vn.1 == 2 {
          assert !Opens(tokens[1], 'I');
          assert tokens[2..] == tokens[1..][1..];
        }
      } else {
        IncludeCount(tokens[1..], withSource);
      }
    }
  }
}
