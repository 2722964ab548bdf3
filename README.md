# translate_examples: a Dafny model

`scripts/translate_examples.py` is a documentation-build step. For every
`examples/*.mjs` file it runs the source-to-source transform in a `node`
process, highlights the original and the transformed JavaScript with
pygments, makes the right-hand panel as tall as the original has lines, and
writes a two-column HTML table to `.html-includes/side-by-side/<name>.html`.

This project models the string and path handling of that script and the
batch loop around it:

- `results.dfy`: `Option` and `Result`.
- `text.dfy` (module `Text`): `startswith`/`endswith`, counting a character,
  `str.split` on one separator character (with `join` as its inverse), and
  Python's decimal rendering of a non-negative `int` (with a digit parser as
  its inverse).
- `paths.dfy` (module `Paths`): POSIX `os.path.join` of two parts,
  `os.path.basename`, the slice `s[:-4]`, and the output path of an example.
- `discovery.dfy` (module `Discovery`): the `.mjs` filter over the listing.
- `layout.dfy` (module `Layout`): `n_lines`, the height rewrite of the
  highlighted translation, the table template, and the rendering of one
  example.
- `pipeline.dfy` (module `Pipeline`): one example's processing as a value
  (`ProcessFile`), the whole run as a function (`Run`), the loop itself as
  the method `WriteExamples`, and `TranslateExamples`, which filters the
  listing and calls that loop. It also holds the run-level lemmas: fail-fast,
  every file written, nothing else touched, idempotence, and a worked
  example.

The outside world is passed in as parameters. The directory listing is a
`seq<string>` in whatever order `os.listdir` gives. File contents, as
Python reads them, are a function from path to text. The node transform is a
function `string -> Option<string>` from the example's path to what node
prints before `console.log`'s line break, where `None` means a non-zero exit.
Node reads the file itself (line 40), so the model does not tie its input to
the text Python reads. The pygments
highlighter is a function `string -> string`. The output directory is a
`map<string, string>` from path to content, which each iteration updates.

`Run` is defined over any per-file step function; `TranslateExamples`
instantiates it with `ProcessFile`. The run-level lemmas therefore hold for
every transform and highlighter.

A text of two lines that ends in a line break, such as
`"let a = 1;\nlet b = 2;\n"`, counts as three, because
`len(original.split('\n'))` also counts the empty segment after the last
break. `Pipeline.FooLineCount` proves this count, and `Pipeline.FooExample`
shows the resulting height of `3ex`.

## Model

| member | source | states |
|---|---|---|
| `Discovery.MjsNames` | scripts/translate_examples.py:26-28 | the filtered list is no longer than the listing, and every name in it ends with `.mjs` |
| `Discovery.MjsFiles` | scripts/translate_examples.py:26-28 | there is one path per kept name, in the same order; each path ends with its name, and so with `.mjs`; a name without `/` (as `os.listdir` gives) lies directly in the examples directory |
| `Discovery.MjsNamesMembership` | scripts/translate_examples.py:26-28 | an entry is kept if and only if it is in the listing and ends with `.mjs` |
| `Discovery.MjsNamesMultiplicity` | scripts/translate_examples.py:26-28 | each `.mjs` entry is kept as many times as it is listed; every other entry is dropped |
| `Discovery.MjsNamesIsSubsequence` | scripts/translate_examples.py:26-28 | the kept entries are a subsequence of the listing, so their relative listing order is preserved |
| `Discovery.MjsNamesDistinct` | scripts/translate_examples.py:26-28 | a listing without repeats yields a filtered list without repeats |
| `Text.Split` | scripts/translate_examples.py:49 | `s.split(sep)` always yields at least one segment |
| `Text.SplitLength` | scripts/translate_examples.py:49 | `s.split(sep)` has one more segment than `s` has separators |
| `Text.SplitSegmentsFree` | scripts/translate_examples.py:49 | no segment produced by `split` contains the separator |
| `Text.JoinWithSplit` | scripts/translate_examples.py:49 | joining the segments with the separator gives back the text, so `split` loses nothing |
| `Layout.LineCount` | scripts/translate_examples.py:49 | `n_lines` equals the number of `'\n'` in the original text plus one, so it is at least 1 |
| `Layout.LineCountOfEmpty` | scripts/translate_examples.py:49 | the empty text counts as one line |
| `Layout.LineCountOfLine` | scripts/translate_examples.py:49 | a text without `'\n'` counts as one line |
| `Layout.LineCountAppendNewline` | scripts/translate_examples.py:49 | appending `'\n'` raises the count by exactly one |
| `Layout.LineCountOfLines` | scripts/translate_examples.py:49 | two texts joined by a `'\n'` have the sum of their counts |
| `Text.Decimal` | scripts/translate_examples.py:52 | `str(n)` is a non-empty string of digits that starts with `0` only when `n` is 0 |
| `Text.DecimalRoundTrip` | scripts/translate_examples.py:52 | reading back the digits of `str(n)` gives `n` |
| `Text.CanonicalDecimalRoundTrip` | scripts/translate_examples.py:52 | every digit string without a leading zero (or `"0"`) is `str` of the number it denotes, so such a numeral is read back uniquely |
| `Layout.StyledWrapper` | scripts/translate_examples.py:52 | the new opening tag starts with `<div class="highlight"` followed by a space, and ends with `ex">`; between `height: ` and `ex">` is a numeral without leading zeros whose value is `n` |
| `Layout.Restyle` | scripts/translate_examples.py:50-52 | the rewrite succeeds if and only if the fragment starts with `<div class="highlight">`; the result starts with `<div class="highlight"`, ends with the fragment's remainder after that prefix, and no longer starts with the full prefix |
| `Layout.RestyleRoundTrip` | scripts/translate_examples.py:52 | the rewritten fragment parses back to exactly the height `n` and the unchanged remainder of the original fragment |
| `Layout.ParseStyledWrapperOf` | scripts/translate_examples.py:52 | a rewritten opening tag with height `n` followed by any text parses back to `n` and that text |
| `Layout.ParseStyledWrapperExact` | scripts/translate_examples.py:52 | every string the tag parser accepts is exactly a rewritten opening tag followed by the rest, so the parser is the inverse of the rewrite |
| `Layout.Compose` | scripts/translate_examples.py:54 | the table starts with the fixed opening `<table class="example-display">…<td class="left" width="50%">` and ends with `</td></tr></table>` |
| `Layout.ComposeSplitRoundTrip` | scripts/translate_examples.py:54 | the table holds the left fragment verbatim, then `</td><td class="right" width="50%">`, then the right fragment verbatim |
| `Layout.SplitComposeRoundTrip` | scripts/translate_examples.py:54 | every string accepted by the cell splitter is the composition of the two cells it returns |
| `Layout.Render` | scripts/translate_examples.py:45-54 | one example renders if and only if the highlighted translation starts with `<div class="highlight">`; the result is then a whole table |
| `Layout.RenderShape` | scripts/translate_examples.py:45-54 | a rendered table splits back into its cells; the left cell is the highlighted original, and the right cell is the highlighted translation's remainder, with the original's line count (not the translation's) as its height |
| `Paths.Join` | scripts/translate_examples.py:56-58 | `os.path.join(a, b)` always ends with `b` |
| `Paths.JoinRelative` | scripts/translate_examples.py:26-28 | joining a name without `/` gives the directory, with a `/` added unless it is empty or already ends in one, followed by the name |
| `Paths.Basename` | scripts/translate_examples.py:56-58 | `os.path.basename(p)` is the longest suffix of `p` that contains no `/` |
| `Paths.DropLast` | scripts/translate_examples.py:57 | `s[:-4]` drops the last four characters, or all of a shorter string |
| `Paths.OutputPath` | scripts/translate_examples.py:56-58 | for any input path, the output path lies directly in the output directory (a slash-free name after its join prefix), and it ends with `.html` |
| `Paths.OutputPathOfEntry` | scripts/translate_examples.py:56-58 | for an entry `<stem>.mjs`, the output path is the output directory's join prefix followed by `<stem>.html` |
| `Paths.OutputFileOfEntry` | scripts/translate_examples.py:56-58 | the output file's basename is the input name with `.mjs` replaced by `.html`, and the path ends in `.html` |
| `Paths.OutputPathInjective` | scripts/translate_examples.py:56-58 | distinct `.mjs` entry names give distinct output paths |
| `Pipeline.Translate` | scripts/translate_examples.py:37-42 | the translation exists exactly when node's transform of the file at the path succeeds, and it is the transformed code followed by console.log's line break |
| `Pipeline.ProcessFile` | scripts/translate_examples.py:37-58 | a processed example's artifact lies at the example's output path; an error names the example, and it is a transform failure exactly when the transform failed |
| `Pipeline.ProcessFileShape` | scripts/translate_examples.py:43-54 | one example succeeds exactly when the transform succeeds and the highlighted translation has the prefix; its table is determined by the original text and its translation alone |
| `Pipeline.Run` | scripts/translate_examples.py:35-61 | a run never removes a file from the output directory |
| `Pipeline.WriteExamples` | scripts/translate_examples.py:35-61 | the loop leaves exactly the output directory and error that `Run` specifies |
| `Pipeline.TranslateExamples` | scripts/translate_examples.py:26-61 | the run fails if and only if some example fails; on failure, only the examples before the first failing one are written; on success over a listing of distinct names, each `<stem>.mjs` has its own table at `<out_dir>/<stem>.html` |
| `Pipeline.RunSucceedsIff` | scripts/translate_examples.py:35-61 | a run ends without an error if and only if every example is processed successfully |
| `Pipeline.RunStopsAtFirstFailure` | scripts/translate_examples.py:35-61 | a failed run stops at the first failing example; the files already written stay, and nothing is written for that example or any later one |
| `Pipeline.RunWritesEachFile` | scripts/translate_examples.py:35-61 | a successful run with distinct output paths writes each example's table at its own path, adds no other path, and leaves every other file unchanged |
| `Pipeline.RunOverwrites` | scripts/translate_examples.py:60-61 | a run overwrites the output directory's old contents with what a run over an empty directory writes, and fails the same way |
| `Pipeline.RunIdempotent` | scripts/translate_examples.py:35-61 | running a second time on unchanged inputs leaves the output directory and the outcome as one run left them |
| `Pipeline.MjsFilesDistinctOutputs` | scripts/translate_examples.py:26-58 | a listing of distinct entry names gives distinct output paths for all discovered examples |
| `Pipeline.FooLineCount` | scripts/translate_examples.py:49 | `"let a = 1;\nlet b = 2;\n"` counts as 3 lines |
| `Pipeline.FooOutputPath` | scripts/translate_examples.py:56-58 | `foo.mjs` in the examples directory is written to `foo.html` directly in the output directory |
| `Pipeline.FooExample` | scripts/translate_examples.py:45-58 | with a transform that prints the source unchanged, `foo.mjs` is written to `foo.html`, its left cell is the highlighted source, and its right panel's height is 3 |

## Left out

- Node subprocess (lines 37-42): modelled as `transform: string -> Option<string>` applied to the example's path; what node reads from that path is left inside the function. The flags, process start-up, stderr and the exit-status details are not modelled; any failure is `TransformFailed`.
- Pygments (lines 45-46): `highlight` is an arbitrary function. Only the prefix contract is checked, as the assertion does. The lexer and formatter internals are not modelled.
- Bytes versus text: `check_output` returns bytes, which pygments decodes. The model treats the translation as text, the same as the original.
- Filesystem I/O: the listing is a parameter, so a missing directory cannot arise. `os.makedirs` and its tolerated `FileExistsError` are not modelled, because the output directory is a map that always exists. Read errors and write errors are not modelled, and a write always stores the whole string.
- Newline translation and UTF-8 decoding on `open(..., 'r')`: `contents` gives the text as Python reads it, after universal-newline translation. Node's own read of the file (line 40) does no such translation; the model keeps the two reads apart and does not relate them.
- Project-root discovery through `realpath(__file__)` (lines 22-30): `examplesDir` and `outDir` are parameters.
- Progress printing to stderr (line 36): diagnostics only.
- Python `assert` under `-O`: the model always runs the prefix check (line 51). With assertions disabled, the script would write a table built from the wrong prefix.
- Pipeline.TranslateExamples: its per-path statement on success assumes what `os.listdir` guarantees, namely distinct names without a `/`. A listing that breaks this simply gets no such statement.
