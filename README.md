# mkdoc, modelled in Dafny

mkdoc turns a markdown file into an HTML page. It converts the markdown with
the `markdown` library and puts the resulting body into a template at the
`{%body%}` marker. It then rewrites the page with regular expressions:

- every code paragraph `<p><code>…</code></p>` becomes a preformatted block `<pre><code>…</code></pre>`;
- six heading passes, `h6` first and `h1` last, wrap the content after each closing heading tag in `<section>`.

The output path defaults to the input's name before its first dot, plus
`.html`. In watch mode a loop polls the input file and renders it again
whenever a newer save changed its content.

The project models three parts of `mkdoc.py`.

- **The text pipeline of `make`** (modules `Text`, `Edits`, `Scan`, `Render`).
  - `Scan.Apply` is one `re.sub` of a pattern `head(.*?)(tail|…)` compiled with DOTALL. It takes the leftmost match and the shortest lazy run up to the first alternative that follows. It replaces the match and carries on after it.
  - Every replacement is recorded as an edit script of kept characters and swapped pieces (`Edits.Piece`). This is how "the pass only inserts" and "one section per match" are stated.
  - `Render.Make` chains the marker substitution, the code rewrite and the six heading passes in the program's order.
- **The watch loop** (module `Watch`).
  - `Watch.Decide` is one iteration as a pure function of `(last_update, last_hash)` and what the iteration observed.
  - The class `Watch.Watcher` holds the two fields. Its `Step` method is proved against `Decide`, and `WatchLoop` runs the steps until shutdown.
  - Lemmas about `Watch.Run` state what a sequence of iterations guarantees.
- **The default output path** (module `Cli`).
  - `Cli.Stem` is `rsplit(".")[0]`, characterised as the unique dot-free prefix that ends at a dot or at the end of the path.
  - `Cli.OutputPath` makes the choice between `-o` and the derived name.

A text is *closed* at level N when, read from left to right, every `</hN>` is followed by
a stop of pass N (an opening heading tag of level N or lower, or `</body>`) before
any other `</hN>` begins. `Render.Read` is that reading, a three-state automaton
(`Shut`, `Open`, `Broken`). In a closed page every closing heading tag gets
exactly one section (`Render.RestructureEveryHeading`). A page that is not closed
gets at most one section per closing heading tag (`Render.RestructureSections`).

`Wrappers` holds the `Option` type. `Text` holds the substring search that the passes are built on.

## Model

| member | source | states |
|---|---|---|
| Text.Find | mkdoc.py:8-15 | The lazy run `(.*?)` followed by an alternation: the position found is within the text and the alternative found there is the first in pattern order that begins there. `Text.FindLeftmost` shows that no earlier position has one. |
| Scan.FindMatch | mkdoc.py:8-15 | The match `re.sub` takes ends within the text, and its terminator is one of the pattern's alternatives. `Scan.FindMatchEarliest` shows it is the leftmost match. |
| Scan.Rewrite | mkdoc.py:59-68 | Every replacement swaps something. A heading replacement only inserts. A code replacement has two pieces more than the lazy run has characters. `Scan.RewriteSource` and `Scan.RewriteTarget` give the text it reads and writes. |
| Scan.RewriteSource | mkdoc.py:59-68 | A replacement reads exactly the text it matched: the head, the lazy run and the ending alternative. |
| Scan.RewriteTarget | mkdoc.py:59-68 | A replacement writes the replacement text for a whole-match pattern, `open\1close` for the code pattern, and `head open \1 close \2` for a heading pattern, with `\1` the lazy run and `\2` the ending alternative. |
| Scan.Script | mkdoc.py:59-68 | The edit script of one `re.sub` is only kept characters exactly when the pattern finds no match. |
| Scan.Apply | mkdoc.py:59-68 | `re.sub` returns its input unchanged when the pattern does not match. `Scan.ApplyAtFirstMatch` and `Scan.ScriptSource` characterise the rest. |
| Scan.Matches | mkdoc.py:59-68 | The number of replacements is zero exactly when nothing matches, and at most one per character, since each match consumes its head. |
| Scan.FindMatchEarliest | mkdoc.py:8-15 | The match `re.sub` takes is at the leftmost index where the pattern matches at all; when none is found, the pattern matches nowhere. |
| Text.FindLeftmost | mkdoc.py:10-15 | The lazy run ends at the leftmost position where the alternation matches, trying the alternatives in pattern order; when nothing is found, the alternation matches at no position. |
| Scan.ApplyAtFirstMatch | mkdoc.py:62-68 | The result of a pass is the text before the first match, that match's replacement, and the pass applied to what follows the consumed terminator. |
| Scan.ApplyOnce | mkdoc.py:62-68 | For a head that cannot overlap itself, with no head before it and the shortest run `x` ended by `t`, the pass over `a + head + x + t + c` gives `a`, the replacement of `x`/`t`, and the pass over `c`. |
| Scan.ScriptSource | mkdoc.py:62-68 | Reading a pass's edit script on its input side gives back exactly the text the pass was given: nothing is dropped or reordered. |
| Scan.ApplyLength | mkdoc.py:62-68 | For a replacement of fixed size, the output is longer than the input by the same amount for each match. |
| Scan.NoMatchUnchanged | mkdoc.py:62-68 | A pass replaces nothing exactly when the pattern matches nowhere, and then returns its input. |
| Scan.ApplyWithoutHead | mkdoc.py:62-68 | A text without the pattern's leading literal comes back unchanged. |
| Scan.MatchesAtMostHeads | mkdoc.py:62-68 | A pass makes at most one replacement per occurrence of its leading literal. |
| Scan.MatchesEveryHead | mkdoc.py:59 | For a literal that cannot overlap itself, such as `{%body%}`, every occurrence is replaced: the replacements equal the occurrences. |
| Scan.ApplyIdle | mkdoc.py:59 | Replacing a literal with itself returns the text unchanged. |
| Scan.EncloseInsertsOnly | mkdoc.py:62-67 | A pass whose replacement is `head open \1 close \2` keeps every character and inserts only `open` and `close`. |
| Scan.EnclosePerMatch | mkdoc.py:62-67 | Such a pass inserts exactly one `open` and one `close` per match. |
| Render.MarkerRule | mkdoc.py:7 | The marker pattern never overlaps itself, and each substitution changes the length by the body's length minus that of `{%body%}`. |
| Render.HeadingRule | mkdoc.py:10-15 | The pattern of level N starts with `</hN>`, which never overlaps itself. It and every alternative are tags that no pass adds or removes. |
| Render.Stops | mkdoc.py:10-15 | Pass N has N + 1 alternatives, ending with `</body>`, and each is a tag that no pass adds or removes. `Render.StopsMembers` lists them. |
| Render.Substitute | mkdoc.py:59 | The wrapped page is longer than the template by the body's length minus the marker's, once per marker. |
| Render.CodeBlocks | mkdoc.py:68 | The pattern `<p><code>(.*?)</code></p>` (mkdoc.py:8) makes the text four characters longer per match. The count of every heading tag and of `</body>` is unchanged. |
| Render.Sectioned | mkdoc.py:62-67 | Pass N makes the text 23 characters longer per match. The count of every heading tag and of `</body>` is unchanged, so later passes see the same tags. |
| Render.Restructure | mkdoc.py:62-69 | The restructured page has exactly as many occurrences of each heading tag and of `</body>` as the wrapped page. |
| Render.Make | mkdoc.py:53-69 | The page written has exactly the heading tags and `</body>` of the template with the body substituted. |
| Render.HeadingKeepsTags | mkdoc.py:62-67 | A heading pass neither adds nor removes an occurrence of `<hK>`, `</hK>` or `</body>`. Its insertions start and end with a line break, which no tag holds, and hold no heading tag and no `</body>`. |
| Render.CodeKeepsTags | mkdoc.py:68 | The code pass neither adds nor removes an occurrence of `<hK>`, `</hK>` or `</body>`. |
| Render.Before | mkdoc.py:62-67 | The text each heading pass receives has the same heading tags and `</body>` as the code-rewritten page. |
| Render.RestructureSections | mkdoc.py:62-69 | Pass 6 reads the code-rewritten page, and each later pass reads what the previous one wrote. Every pass keeps all it reads and inserts only section texts, so deleting them pass by pass gives back that page. Pass N matches at most once per `</hN>` of that page. The result is 23 characters longer per section inserted. |
| Render.SubstituteEveryMarker | mkdoc.py:59 | `{%body%}` (mkdoc.py:7) is replaced at every occurrence: the replacements equal the markers. |
| Render.SubstituteWithoutMarker | mkdoc.py:59 | A template without the marker comes back unchanged; the body is dropped. |
| Render.SubstituteMarkerItself | mkdoc.py:59 | Substituting the marker for itself returns the template. |
| Render.SubstituteOnce | mkdoc.py:59 | A template `pre + {%body%} + post` with one marker becomes `pre + body + post`. |
| Render.CodeBlocksWithoutCode | mkdoc.py:68 | Text without `<p><code>` comes back unchanged. |
| Render.CodeBlocksOnce | mkdoc.py:68 | The first `<p><code>` and the first `</code></p>` after it become `<pre><code>` and `</code></pre>` around the same text, across line breaks; the pass continues after it. |
| Render.StopsMembers | mkdoc.py:10-15 | The alternatives of pass N are the opening tags of levels 1 to N and `</body>`. |
| Render.StopsExclusive | mkdoc.py:10-15 | At most one alternative of a heading pattern can begin at any position, so their order does not matter. |
| Render.SectionedInsertsOnly | mkdoc.py:62-67 | Heading pass N keeps every character of its input and inserts only `\n<section>\n` and `\n</section>\n`, so deleting them gives back the input. |
| Render.SectionsPerMatch | mkdoc.py:62-67 | Pass N inserts one opening and one closing section per match, and matches at most once per `</hN>`. |
| Render.SectionPerHeading | mkdoc.py:62-67 | In a text closed at level N, pass N matches exactly once per `</hN>`: every closing heading tag gets its section. |
| Render.CodeKeepsReading | mkdoc.py:68 | The code pass leaves the left-to-right reading of every level unchanged, from any state: `<pre><code>` and `</code></pre>` hold no heading tag and no `</body>`, and they sit where `<p><code>` and `</code></p>` were. |
| Render.HeadingKeepsReading | mkdoc.py:62-67 | A heading pass of any level leaves the reading of every level unchanged, from any state. |
| Render.ClosedKept | mkdoc.py:62-67 | Inserting the sections of any level keeps a text closed at every level, and a text that was not closed stays not closed. |
| Render.BeforeKeepsReading | mkdoc.py:62-69 | The text each heading pass receives reads the same as the code-rewritten page, at every level and from any state. |
| Render.SectionPerLevel | mkdoc.py:62-69 | When the wrapped page is closed at level N, pass N of the pipeline matches exactly once per `</hN>` of that page. |
| Render.RestructureEveryHeading | mkdoc.py:62-69 | When the wrapped page is closed at every level, every heading pass matches exactly once per closing heading tag of that page, so each `</hN>` gets exactly one section. |
| Render.SectionedWithoutHeading | mkdoc.py:62-67 | Text without `</hN>` is left unchanged by pass N. |
| Render.SectionedOnce | mkdoc.py:62-67 | The content after `</hN>` up to the next stop is wrapped in a section and the stop is kept after it. |
| Render.SectionedWithoutStop | mkdoc.py:10-15 | Content after the last `</hN>` that no stop follows, such as a page without `</body>`, is not wrapped. |
| Render.RestructureWithoutHeadings | mkdoc.py:62-69 | A page with no closing heading tag gets no `<section>`: the restructuring is the code pass alone. |
| Render.RestructurePlain | mkdoc.py:62-69 | A page with no code paragraph and no closing heading tag gets no `<section>` and is unchanged. |
| Render.MakePlainBody | mkdoc.py:53-69 | With one marker and a body free of headings and code paragraphs, the page is the template with the marker replaced by the body. |
| Render.MakeExample | mkdoc.py:53-69 | `<h1>Title</h1>\n<p>Hello</p>` in `<html><body>{%body%}</body></html>` gives `<html><body><h1>Title</h1>\n<section>\n\n<p>Hello</p>\n</section>\n</body></html>`. |
| Watch.Decide | mkdoc.py:32-49 | Without a newer save nothing changes and nothing renders. A newer save always updates `last_update`. A render happens exactly when the new hash differs from `last_hash`, which then takes the new hash; otherwise `last_hash` is kept. |
| Watch.Watcher.constructor | mkdoc.py:29-30 | The watcher starts from the file's current mtime and hash. |
| Watch.Watcher.Step | mkdoc.py:32-49 | One iteration updates the two fields and reports the outcome exactly as `Decide` says. Both fields change before a render is attempted. |
| Watch.Run | mkdoc.py:31-50 | Iterations run in order from the state the previous one left, with one outcome per poll. |
| Watch.WatchLoop | mkdoc.py:31-50 | The loop leaves the watcher in the state, and with the outcomes, of `Run` over the polls. |
| Watch.RenderedChain | mkdoc.py:38-47 | Two renders in a row never have the same digest, and the first differs from the initial hash: a failed render is not retried until the content changes. |
| Watch.SameContentNeverRenders | mkdoc.py:38-40 | Saves that leave the content's digest unchanged never render, however many there are. |
| Watch.LastUpdateIsLatest | mkdoc.py:34-36 | The remembered mtime ends as the latest mtime the loop saw, or the initial one. |
| Cli.Stem | mkdoc.py:96 | `rsplit(".")[0]` is a prefix without a dot that ends at a dot or at the end of the path. |
| Cli.StemUnique | mkdoc.py:96 | That prefix is unique: it is the text before the first dot. |
| Cli.StemAtFirstDot | mkdoc.py:96 | Everything from the first dot on is dropped, whatever follows. |
| Cli.OutputPath | mkdoc.py:93-96 | A non-empty `-o` is used verbatim; otherwise the path is the input's stem followed by `.html`. |
| Cli.DefaultOutput | mkdoc.py:93-96 | With `-o` absent or empty, `a.rest` gives `a.html` for a dot-free `a`. |
| Cli.OutputNotes | mkdoc.py:96 | `notes.md` gives `notes.html`. |
| Cli.OutputTwoDots | mkdoc.py:96 | `a.b.md` gives `a.html`. |
| Cli.OutputNoDot | mkdoc.py:96 | `README` gives `README.html`. |
| Cli.OutputDotDirectory | mkdoc.py:96 | `./x.md` gives `.html`. |

## Left out

- Make: requires that the body hold no backslash. `re.sub` reads backslash escapes in its replacement string (mkdoc.py:59), so such a body would be reinterpreted or rejected. The model substitutes the body literally.
- The markdown conversion (mkdoc.py:55-56) belongs to a foreign library. The model takes its output as an arbitrary string.
- `filehash` (mkdoc.py:17-25) is SHA-1 over chunked reads. The model uses the watcher's `digest`, a deterministic function of the file's bytes.
- File I/O and `os.stat` (mkdoc.py:29, 34, 45-46, 72-73, 85-86, 109-110) are not modelled. Each iteration receives the mtime and the bytes as a `Poll`, with `None` where the call raised.
- The re-read of the text at mkdoc.py:44-46 and the write at mkdoc.py:72-73 are not modelled. A `Render` outcome means the state is updated and a render is attempted. If the re-read raises, `make` never runs, and the state has already changed.
- The mtime is a float in Python; the model uses an integer.
- The initial `os.stat` and `filehash` (mkdoc.py:29-30) are modelled only when they succeed. A failure there ends the thread before the loop starts.
- The `Thread`, `Event`, `sleep` and `join` calls and `KeyboardInterrupt` (mkdoc.py:31, 50, 99-106) are about timing and concurrency. The loop runs over a finite sequence of polls, whose end stands for `shutdown` being set.
- The loop's checks are Python `assert` statements (mkdoc.py:35, 39). The model keeps them as branches, which holds unless Python runs with `-O`: that strips them, and every iteration would render.
- `getArgs` (mkdoc.py:75-81), the `print` calls and the choice between watching and a single `make` (mkdoc.py:97-111) are command-line and console plumbing.
- `get_template` (mkdoc.py:83-87) is a file read. Its default `{%body%}` survives only if the read fails, and the failure is not caught.
- Headings that carry attributes, such as `<h1 id="x">`, are left out. The patterns match bare tags only, and the model matches exactly what the patterns match, so such a tag is never a stop.
