# Compilation-database helper scripts, modelled in Dafny

This project models five small Python tools that read and rewrite a clang
compilation database, a `compile_commands.json` array of entries with
`directory`, `file` and `command` keys.

- **`generate_header_compile_commands.py`** synthesizes entries for header files.
  - It walks source directories.
  - It probes each header's sibling implementation files in the order `.c .cpp .cxx .cc .c++ .C`.
  - With `-i`, it borrows the command of the first sibling that exists and has a command.
  - Without `-i`, a header with any sibling on disk gets no entry. The `break` at generate_header_compile_commands.py:59-60 then abandons the rest of that directory's file list.
  - A header with no qualifying sibling borrows the base source file's command.
  - In each borrowed command, the borrowed file's path is rewritten to the header's.
- **`generate-compile-commands-headers.py`** is the older copy of the same loop. It looks entries up first-match in the array.
- **`merge_compile_commands.py`** does three things:
  - concatenates databases;
  - applies `SRC:DST` path substitutions to every value;
  - optionally adds the synthesized header entries through a dictionary keyed by `file`, where the last assignment wins.
- **`abspaths.py`** resolves `file`, every `-I` value and the `-c` value against the entry's `directory`, then rebuilds the command.
- **`ipaths.py`** prints each entry's file directory and `-I` values relative to the database's directory.

The model is purely functional.

- **Python semantics, written out:**
  - `str.split`, `str.join` and `str.replace`, including `replace` with an empty needle;
  - whitespace `split()`;
  - the `posixpath` functions `isabs`, `join`, `normpath`, `abspath`, `relpath`, `splitext` and `dirname`;
  - a dictionary as an insertion-ordered, key-unique sequence;
  - the argparse token classification that `parse_known_args` applies to `-I`, `-c` and `-h`.
- **Exceptions:** each exception the scripts can raise on these paths is a `Failure` value.
- **Parameters:** the directory walk, the file system (`os.path.exists`) and the working directory (`os.getcwd`) are parameters. They are `walk`, `onDisk` and `cwd`.

Module layout:

- `wrappers.dfy` holds `Option` and `Result`.
- `strings.dfy` holds the string functions.
- `posix_path.dfy` holds the path functions.
- `compile_db.dfy` holds entries, failures and the dictionary.
- `command_line.dfy` holds the argparse extractor.
- There is one module per script: `header_synthesis.dfy`, `legacy_headers.dfy`, `merge.dfy`, `abspaths.dfy` and `ipaths.dfy`.

Three behaviours of the code that the model keeps as written:

1. `abspaths.py` emits the resolved `-I` pairs in reverse order, then the unrecognised tokens, then `-c` and the resolved source.
2. `merge_compile_commands.py` splits a substitution spec at every colon before unescaping. So `a\:b:c` raises an unpacking error instead of naming the source path `a:b`.
3. A header with no template command makes the synthesis call `None.replace`, which raises; no entry is produced.

## Model

| member | source | states |
|---|---|---|
| Strings.ReplaceAll | merge_compile_commands.py:39 | `str.replace`: an absent non-empty needle, or a needle replaced by itself, leaves the string unchanged |
| Strings.Split | merge_compile_commands.py:34 | `str.split(sep)` always yields at least one piece; `Strings.SplitJoin` and `Strings.JoinSplit` prove it inverse to `join` |
| Strings.Join | abspaths.py:32 | `sep.join(xs)` starts with the first element |
| Strings.ReplaceIsJoinOfSplit | merge_compile_commands.py:39 | replacing a non-empty needle is splitting at it and joining with the replacement |
| Strings.SplitCount | merge_compile_commands.py:34 | a split at one character yields one more piece than the character's occurrences |
| Strings.WordsOfJoin | abspaths.py:25-32 | whitespace `split()` of a space-joined list of words gives back the list |
| Strings.Words | abspaths.py:26 | whitespace `split()` yields only non-empty, whitespace-free words |
| PosixPath.NormPath | abspaths.py:23-24 | `normpath` never returns the empty string and keeps a path absolute exactly when it was |
| PosixPath.NormPathIdempotent | abspaths.py:23-24 | normalising a normalised path changes nothing |
| PosixPath.Join | ipaths.py:13 | `join` returns an absolute second argument as is; otherwise it extends the first argument and ends with the second |
| PosixPath.AbsPath | generate_header_compile_commands.py:61-63 | `abspath` gives an absolute path whenever the working directory or the path is absolute |
| PosixPath.AbsPathIdempotent | generate_header_compile_commands.py:28-30 | `abspath` of an absolute result is the same path |
| PosixPath.SplitExt | generate_header_compile_commands.py:44 | `splitext` splits the path into stem and extension; the extension is empty or a dot with no further dot or slash |
| PosixPath.SplitExtOf | generate_header_compile_commands.py:44 | `splitext` of a stem followed by a dot-led, dot-free, slash-free tail returns exactly that stem and tail, provided the stem's last component has a non-dot character |
| PosixPath.SplitExtNone | generate_header_compile_commands.py:44 | `splitext` returns an empty extension when the last component has no dot |
| PosixPath.ExtOfJoin | generate_header_compile_commands.py:43-44 | the extension of `join(dirpath, filename)` is a tail of `filename` |
| PosixPath.DirName | ipaths.py:33 | `dirname` returns a prefix of the path, and the empty string for a path without a slash |
| PosixPath.DirNameOfJoin | ipaths.py:33 | the directory of `join(d, name)`, for a plain name, is `d` |
| PosixPath.RelPath | ipaths.py:11 | `relpath` returns a non-empty relative path |
| PosixPath.RelPathResolves | ipaths.py:11 | joining the start directory with `relpath(path, start)` and normalising leads back to `abspath(path)` |
| CompileDb.FromList | generate_header_compile_commands.py:19-24 | the dict built from an array: keys are distinct, keys appear in first-insertion order, and each key holds the last entry with that `file` |
| CompileDb.PutSpec | merge_compile_commands.py:44 | assignment stores the entry under its key and leaves other keys alone; an old key keeps its position, a new key goes last |
| CompileDb.PutAllIsFromList | merge_compile_commands.py:42-46 | assigning a second array into the dict built from the first gives the dict of both arrays in sequence |
| CompileDb.LastOccurrenceWins | merge_compile_commands.py:43-44 | an entry with no later entry for the same `file` is the one the dict keeps |
| CommandLine.TakeValue | abspaths.py:18-21 | an option's argument is the rest of its token (after an `=` when one follows the option letter), or the next token if that token does not look like an option; otherwise the error names the option |
| CommandLine.Parse | abspaths.py:25-26 | `parse_known_args` without a `-c` option never reports a source, and claims at most one include or unknown token per input token |
| CommandLine.UnknownUnrecognised | abspaths.py:25-26 | every token returned as unknown is an input token that the `-I`, `-c` and `-h` options do not claim |
| CommandLine.ParseRebuilt | abspaths.py:27-32 | `-I` pairs, unclaimed tokens and `-c value` parse back into exactly those includes, source and unknown tokens |
| CommandLine.IncludeArgsInjective | abspaths.py:27-29 | different include lists give different `-I` token lists |
| CommandLine.IncludeCount | ipaths.py:35-36 | a successful parse finds exactly one include per token that opens with `-I` |
| AbsPaths.Resolve | abspaths.py:23-24 | resolving never gives the empty string, normalises an absolute path, and is absolute exactly when the directory or the path is |
| AbsPaths.RewriteEntry | abspaths.py:22-32 | the rewrite succeeds exactly when the command parses with a `-c` value; it resolves `file` and keeps `directory` and other keys; a missing `-c` fails with the entry's `file` |
| AbsPaths.RewrittenCommand | abspaths.py:27-32 | the new command is the resolved `-I` pairs in reverse order, then the unknown tokens, then `-c` and the resolved source |
| AbsPaths.PrependReverses | abspaths.py:27-29 | prepending one pair per include yields the include pairs reversed |
| AbsPaths.RewriteAll | abspaths.py:22-32 | the database is rewritten entry by entry in order; it fails exactly when some entry fails, with the error of the first one |
| AbsPaths.ResolveFixes | abspaths.py:23-24 | against an absolute directory a resolved path resolves to itself |
| AbsPaths.SecondPass | abspaths.py:27-32 | a second run reverses the includes back, so it returns its input exactly when the resolved include list is a palindrome |
| AbsPaths.SwapsIncludes | abspaths.py:27-29 | under `/`, the commands `-I a -I b -c x` and `-I b -I a -c x` turn into each other on every run |
| AbsPaths.RewriteEntryInOrder | abspaths.py:22-32 | the corrected rewrite keeps everything that `RewriteEntry` produces except the command, whose `-I` pairs stay in source order |
| AbsPaths.RewriteAllInOrder | abspaths.py:22-32 | the corrected loop succeeds exactly when the script's loop does, and rewrites each entry with the corrected entry rewrite, in order |
| AbsPaths.InOrderIdempotent | abspaths.py:22-32 | with an absolute, whitespace-free `directory`, the corrected rewrite is idempotent |
| AbsPaths.InOrderAllIdempotent | abspaths.py:22-32 | the corrected rewrite of a whole database is idempotent |
| HeaderSynthesis.FirstSibling | generate_header_compile_commands.py:46-55 | the probe stops at the first existing sibling that is eligible (it has a command when `-i` is set), and it finds none only if no sibling is eligible |
| HeaderSynthesis.CommandOf | generate_header_compile_commands.py:32-35 | `get_command` finds a command exactly for keys of the dict, and it is the stored entry's |
| HeaderSynthesis.IsHeaderFile | generate_header_compile_commands.py:43-45 | a file counts as a header only if its name ends in one of the header extensions |
| HeaderSynthesis.ProcessFile | generate_header_compile_commands.py:43-67 | a non-header is skipped; without `-i`, a header with an existing sibling ends the directory; an emitted entry carries the build directory and the header path; failure needs a missing base command |
| HeaderSynthesis.TemplateFromSibling | generate_header_compile_commands.py:47-55 | with `-i`, the entry is the first eligible sibling's command with that sibling's path replaced by the header's |
| HeaderSynthesis.TemplateFromBase | generate_header_compile_commands.py:56-58 | with no eligible sibling, the entry is the base file's command with the base path replaced by the header's, or `None.replace` fails |
| HeaderSynthesis.GenerateDir | generate_header_compile_commands.py:42-67 | a directory's failure is the failure of one of its file names |
| HeaderSynthesis.DirAppend | generate_header_compile_commands.py:42-67 | entries follow file-name order: until a header is abandoned, the file names `a + b` give the entries of `a` then those of `b`, and the first failure ends the run |
| HeaderSynthesis.AbandonDropsRest | generate_header_compile_commands.py:59-60 | the `break` drops every later file name of that directory |
| HeaderSynthesis.WalkBound | generate_header_compile_commands.py:40-45 | the walk yields at most one entry per header file walked |
| HeaderSynthesis.GenerateWalk | generate_header_compile_commands.py:40-41 | a failed walk failed on one of the walked file names |
| HeaderSynthesis.WalkAppend | generate_header_compile_commands.py:40-41 | entries follow walk order: two walks one after the other give the first's entries then the second's, and the first failure ends the run |
| HeaderSynthesis.WalkEmitted | generate_header_compile_commands.py:65-67 | every entry of the walk was emitted by the loop body for a walked file |
| HeaderSynthesis.Prepare | generate_header_compile_commands.py:28-30 | unless relative paths are asked for, the base file and the build directory become absolute |
| HeaderSynthesis.Generate | generate_header_compile_commands.py:27-69 | at most one entry per header; every entry has the prepared build directory and, in absolute mode, absolute paths |
| LegacyHeaders.GetCmdline | generate-compile-commands-headers.py:37-41 | `get_cmdline` finds a command exactly when some entry has that `file`, and returns the first such entry's |
| LegacyHeaders.FirstOccurrenceWins | generate-compile-commands-headers.py:37-41 | the first entry for a file supplies its command |
| LegacyHeaders.ProcessFile | generate-compile-commands-headers.py:50-73 | a non-header is skipped; without `-i`, a header with an existing sibling ends the directory; an emitted entry carries the build directory and the header path; failure needs a missing base command |
| LegacyHeaders.FallbackReplacesLastProbe | generate-compile-commands-headers.py:44-73 | in the fallback case a missing base command fails with `None.replace`; otherwise the replaced path is the last probe, `stem + '.C'`, not the base file |
| LegacyHeaders.FallbackKeepsBaseCommand | generate-compile-commands-headers.py:63-73 | so a base command that does not mention `stem + '.C'` is copied unchanged into the header's entry |
| LegacyHeaders.Prepare | generate-compile-commands-headers.py:30-31 | only the build directory is made absolute |
| LegacyHeaders.Generate | generate-compile-commands-headers.py:47-73 | at most one entry per header, each with the prepared build directory and, in absolute mode, absolute paths |
| IncludePaths.RelWithPrefix | ipaths.py:9-13 | the line is never empty; an absolute path becomes relative; a relative path stays relative exactly when the prefix is |
| IncludePaths.AbsoluteLineResolves | ipaths.py:10-11 | an absolute path printed relative to the database directory leads back to the path from there |
| IncludePaths.DirRel | ipaths.py:29-32 | the directory prefix is relative, and a relative `directory` is used as is |
| IncludePaths.EntryLines | ipaths.py:29-37 | the file's directory comes first, then one line per `-I` value in order; a parse failure stops after the first line; every line is a non-empty relative path |
| IncludePaths.LineCount | ipaths.py:33-37 | a parsed entry prints one line plus one per `-I` token |
| IncludePaths.ListAll | ipaths.py:28-37 | every printed line is a non-empty relative path |
| IncludePaths.ListAllFailure | ipaths.py:28-37 | the run completes exactly when every command parses |
| IncludePaths.ListAllAppend | ipaths.py:28-37 | two databases listed one after the other print the first's lines then the second's |
| Merge.ConcatContains | merge_compile_commands.py:27-30 | an entry is in the concatenation exactly when it is in one of the databases |
| Merge.ConcatAppend | merge_compile_commands.py:27-30 | concatenating two lists of databases is concatenating their concatenations |
| Merge.ConcatSize | merge_compile_commands.py:27-30 | the concatenation has as many entries as all databases together |
| Merge.Concat | merge_compile_commands.py:27-30 | every entry of every database is in the concatenation |
| Merge.Unescape | merge_compile_commands.py:12-15 | unescaping never lengthens a string |
| Merge.UnescapePlain | merge_compile_commands.py:12-15 | unescaping a backslash-free string changes nothing |
| Merge.ParseSpec | merge_compile_commands.py:34-36 | a spec is accepted exactly when it has one colon; otherwise it fails naming the spec |
| Merge.SpecParts | merge_compile_commands.py:34-36 | for colon-free halves the pieces are the two halves with `\\` unescaped |
| Merge.EscapedColonRejected | merge_compile_commands.py:34-36 | a spec with an escaped colon and one plain colon is rejected |
| Merge.ParseSpecEscaped | merge_compile_commands.py:12-15 | the corrected parser splits only at unescaped colons; its failure names the spec |
| Merge.EscapedSpecRoundTrip | merge_compile_commands.py:12-15 | the corrected parser returns exactly the two paths an escaped spec was written from |
| Merge.ParseSpecPlain | merge_compile_commands.py:34-36 | on backslash-free specs the corrected and the original parser agree |
| Merge.SubstEntry | merge_compile_commands.py:38-39 | substitution keeps every entry's set of keys |
| Merge.SubstAbsent | merge_compile_commands.py:37-39 | an entry that does not contain the source path is unchanged |
| Merge.SubstEach | merge_compile_commands.py:37-39 | one spec keeps the entry count and substitutes each entry in place; a spec mapping a path to itself leaves the database unchanged |
| Merge.SubstEachAppend | merge_compile_commands.py:27-39 | substitution commutes with concatenation: substituting in the merged list is merging the substituted lists |
| Merge.SubstEachAbsent | merge_compile_commands.py:37-39 | a source path that occurs in no value of any entry leaves the whole database unchanged |
| Merge.SubstAll | merge_compile_commands.py:32-39 | substitution succeeds exactly when every spec parses; it keeps the entry count and every entry's keys; failure names a malformed spec |
| Merge.SubstAllAppend | merge_compile_commands.py:33 | the specs apply in command-line order: two batches are the first batch then the second |
| Merge.SubstOne | merge_compile_commands.py:33-39 | one well-formed spec replaces its parsed source path by its destination path in every value of every entry |
| Merge.SubstSelf | merge_compile_commands.py:37-39 | a spec that maps a path to itself changes nothing |
| Merge.SubstAllEscaped | merge_compile_commands.py:32-39 | the corrected loop succeeds exactly when every spec parses under the escape-aware parser |
| Merge.EscapedSubstApplies | merge_compile_commands.py:32-39 | the corrected loop substitutes exactly the paths an escaped spec names |
| Merge.SubstAllEscapedPlain | merge_compile_commands.py:32-39 | on backslash-free specs the corrected loop and the original loop agree |
| Merge.Merge | merge_compile_commands.py:27-47 | without `-B` the result is the substituted concatenation, in order, with as many entries as all databases together; with `-B`, files are unique; a malformed spec fails |
| Merge.MergeLastWins | merge_compile_commands.py:41-47 | with `-B`, the result is the dict of the substituted entries followed by the synthesized ones, and each file holds the last entry in that order |
| Merge.SynthesizedWins | merge_compile_commands.py:45-46 | a synthesized entry replaces any database entry for the same file, unless a later synthesized entry replaces it in turn |

## Left out

- Reading and writing JSON, the files' existence checks and the `error: file ... does not exist` message are left out. Each script's logic starts from the decoded array and ends with the array or lines it would write.
- The script-level argument parsing is left out.
  - The model starts from the namespace values: build directory, base file, `-i`, `-r`, `-S` and the source directories.
  - An absent `-B` and `-B ''` are both the empty string, and both are false in the test at merge_compile_commands.py:41.
- The directory walk, `os.path.exists` and the working directory are parameters: `walk`, `onDisk` and `cwd`. The model does not compute them.
- The loop over `src_dir` is folded into the walk parameter, which lists the directories of every source directory in turn. This also covers the `'.'` default, a string whose iteration yields `'.'` itself.
- Entries without a `file`, `directory` or `command` key, and values that are not strings, are left out. The scripts raise `KeyError` or `AttributeError` there. `Entry` has only string values.
- CommandLine.Parse: leaves out the `--` separator, the long option `--help` with its abbreviations, and argparse's handling of tokens that contain spaces. Whitespace `split()` never produces the last kind. The negative-number test that decides whether a token after `-I` or `-c` is a value reads ASCII digits only. Python's `\d` also matches other Unicode decimal digits, so a token such as `-٣` is a value in argparse and an option here.
- PosixPath.RelPath: requires a non-empty path. `os.path.relpath('')` raises `ValueError`, but `ipaths.py` only calls it on absolute paths.
- PosixPath.RelPathResolves and IncludePaths.AbsoluteLineResolves: these assume that both paths begin with the same number of slashes. POSIX gives a leading `//` its own meaning, so across different counts the round trip is not claimed.
- AbsPaths.InOrderIdempotent, AbsPaths.InOrderAllIdempotent and AbsPaths.SecondPass: these are stated for an absolute, whitespace-free `directory`. A relative directory resolves again on every run, and a space inside a path changes the whitespace split.
- The order of keys inside a JSON object is not modelled. `Entry` keeps the three named keys apart from the rest.
- Byte-level encodings are left out. Strings are sequences of characters.

## Findings

| source | as written | input that shows it | evidently intended | confidence | as-written member | corrected member |
|---|---|---|---|---|---|---|
| generate-compile-commands-headers.py:63-70 | on fallback `impl_filepath` keeps the last probed sibling `stem + '.C'`, so the base command's path is never replaced | relative mode, header `d/x.h` with no sibling, base `a.c` with command `cc -c a.c`: the entry's command stays `cc -c a.c` | replace the base file's path, giving `cc -c d/x.h` (as generate_header_compile_commands.py:58 does) | high (not executed) | LegacyHeaders.FallbackKeepsBaseCommand | HeaderSynthesis.TemplateFromBase |
| abspaths.py:27-29 | each include is prepended, so the rebuilt command lists the `-I` pairs in reverse, and a second run reverses them back | directory `/`, command `-I /a -I /b -c /x.c`: the first run gives `-I /b -I /a -c /x.c`, the second gives the original | keep include order, which decides header search precedence, so that a second run changes nothing | high (not executed) | AbsPaths.SwapsIncludes | AbsPaths.InOrderIdempotent |
| merge_compile_commands.py:34-36 | the spec is split at every `:` before `\:` is unescaped, so an escaped colon still splits | spec `a\:b:c`: three pieces, and the unpacking raises `ValueError` | split only at unescaped colons, giving source `a:b` and destination `c` | high (not executed) | Merge.EscapedColonRejected | Merge.EscapedSpecRoundTrip |

- How the corrected members fit into the model:
  - The merge tool calls the newer synthesis (HeaderSynthesis), which already replaces the base file's path.
  - AbsPaths.RewriteAllInOrder and Merge.SubstAllEscaped are the corrected whole-database loops.
  - AbsPaths.RewriteAll and Merge.Merge stay as the scripts are written.
