# A verified model of the lecture-site builder

This project models two parts of the *Coding Essentials for Astronomers* lecture-site repository. The first is the
build script `build_site.py`, which turns the lecture notebooks into HTML pages and a JSON catalog. The second is the
fallback persistent containers in `rpds/__init__.py`.

From the build script the model covers:

- the fallback cell executor `_fill_missing_outputs`;
- its per-cell rules:
  - `_should_skip_cell`;
  - `_extract_import_aliases`;
  - `_run_python_cell`, over an abstract execution outcome;
- the page slug `_slugify`;
- the excerpt truncation of `_first_markdown_excerpt`;
- the page rewrites of `_inject_header_and_footer`;
- the construction and sorting of the catalog entries in `build`.

From the containers it covers:

- `HashTrieMap.convert`, `insert`, `remove` and `update`;
- `HashTrieSet.insert`, `discard` and `update`;
- `List(...)` and `List.push_front`.

The modules follow the structure of the program:

| file | module | what it holds |
|---|---|---|
| `base.dfy` | `Base` | `Option` and `Result` |
| `text.dfy` | `Text` | the Python `str` operations the script uses: `isspace`, `strip`, `lstrip`, `in`, `find`, `replace(…, 1)`, `split()` and the `\b` word boundary |
| `dicts.dfy` | `Dicts` | a dictionary built by successive assignments |
| `cells.dfy` | `Cells` | notebook cells and outputs; the execution outcome; `_run_python_cell`, `_should_skip_cell`, `_extract_import_aliases` |
| `fallback.dfy` | `Fallback` | `_fill_missing_outputs`: a `Notebook` class whose `cells` field the driver loop rewrites in place, proved against a fold of one visit per cell |
| `slug.dfy` | `Slug` | `_slugify` and the decimal formatting of lecture numbers |
| `excerpt.dfy` | `Excerpt` | `_first_markdown_excerpt`, with its cleaning regexes as a parameter |
| `page.dfy` | `Page` | `_inject_header_and_footer` as its five rewrites |
| `catalog.dfy` | `Catalog` | `NOTEBOOK_PATTERN`, the summary and quiz-link tables, the catalog entries and their sort |
| `rpds.dfy` | `Rpds` | the three containers, as values |

Running Python is not modelled. That means `ast.parse`, `compile`, `exec`, `eval`, the shared environment and the
stream redirection. Instead, for cell `i`, `outcome(i)` says how the run ended:

- it completed;
- a `SyntaxError`;
- a `ModuleNotFoundError`;
- another `ImportError`;
- a `NameError`;
- any other `Exception`.

`parse(source)` stands for the top-level statements `ast.parse` returns. The model derives everything else from
these, including the outputs, the counter, the signals, the poisoned names and which cells are written.

Three behaviours of the code are worth stating on their own:

- **Poisoned names must occur as whole words.** A cell is skipped only when a poisoned name occurs in it as a whole
  word (`\b…\b`), not whenever the name occurs anywhere in the text.
- **An empty module name is not a missing module.** Two cases give a signal that is not truthy:
  - a `ModuleNotFoundError` whose `name` is `None` or empty;
  - another `ImportError` whose `name` is `None` or empty and whose message is empty or starts with a space.

  Any other `ImportError` poisons the first space-separated word of its message (`Cells.ImportSignalEmpty`). After
  a non-truthy signal the driver treats the run like a success: it writes the outputs, and nothing is poisoned and
  nothing halts.
- **The checks run in a different order.** The driver tests the skip rule before it tests for an existing
  `execution_count` or outputs. The outcome is the same either way.

## Model

| member | source | states |
|---|---|---|
| Text.LStrip | build_site.py:186 | `lstrip()` drops exactly the leading whitespace: the result is a suffix, everything dropped is whitespace, and the result does not start with whitespace |
| Text.Strip | build_site.py:325 | `strip()` is empty exactly when the source is blank, and otherwise neither starts nor ends with whitespace |
| Text.Occurs | build_site.py:190 | `token in source` holds exactly when the token occurs at some index |
| Text.FindFrom | build_site.py:365 | `find` gives an occurrence at or after the start, and no earlier one exists; -1 only when there is none |
| Text.FindChar | build_site.py:367 | the first index at or after the start holding the character, or -1 when none does |
| Text.ReplaceFirst | build_site.py:363 | `replace(pat, rep, 1)` leaves a text without `pat` alone and otherwise replaces exactly the first occurrence |
| Text.SearchWord | build_site.py:193 | `re.search(\b w \b)` holds exactly when `w` occurs somewhere with a word boundary on both sides |
| Text.Split | build_site.py:355 | every piece of `split()` is a non-empty run without whitespace |
| Text.SplitRuns | build_site.py:355 | a string is a piece of `split()` exactly when it is a maximal run of non-whitespace somewhere in the text: non-empty, free of whitespace, with whitespace or an end of the text on each side |
| Text.SplitConcat | build_site.py:355 | the pieces of `split()`, written one after the other, give the text with its whitespace removed, in order |
| Text.SplitCons | build_site.py:355 | splitting `w + " " + rest` for a single word `w` gives `w` followed by the pieces of `rest` |
| Dicts.FromPairsSpec | build_site.py:305-313 | a dict built by assignments has exactly the assigned keys, each mapped to the value of its last assignment |
| Cells.FirstField | build_site.py:237 | `str(exc).split(" ")[0]` is a space-free prefix of the message ending at its first space or its end |
| Cells.Streams | build_site.py:278-283 | the captured streams give at most two stream outputs. The stdout output is present exactly when stdout is non-empty, and likewise for stderr. Each output carries its whole buffer, and stdout comes before stderr |
| Cells.ImportSignalEmpty | build_site.py:237 | the signal of another `ImportError` is empty exactly when its `name` is `None` or empty and its message is empty or starts with a space; otherwise it is the non-empty `name`, or else the message's first word |
| Cells.RunCell | build_site.py:198-294 | how the counter and the signal depend on the outcome. The counter is unchanged only after a syntax error. A syntax error gives no outputs and `__skip__`. A `NameError` gives one stdout notice and `__halt__`. A missing module gives one notice and its name. Another import error gives one notice, and its signal is the `name` attribute when that is non-empty, else the first space-separated field of the message. Success and other exceptions give no signal. Another exception gives its streams then the `error` output. Outputs are empty only after a syntax error or a silent success |
| Cells.RunCellOutputs | build_site.py:222-292 | every stream output carries text, an `execute_result` is the last output and carries the counter, and an `error` is the last output |
| Cells.CompletedOutputs | build_site.py:277-292 | on success the captured streams lead. They are followed by exactly one more output, `execute_result` with the counter and the captured value, when a value was captured, and by none otherwise. There is no `error` |
| Cells.RunPythonCell | build_site.py:198-294 | the imperative cell runner, which appends outputs branch by branch, returns exactly what `RunCell` specifies |
| Cells.ShouldSkipCell | build_site.py:185-195 | true exactly when the left-stripped source starts with `%` or `!`, or the source contains `input(` or `getpass(`, or some poisoned name occurs in it as a whole word |
| Cells.MagicPrefix | build_site.py:186-188 | the three `startswith` tests (`%%`, `%`, `!`) on the left-stripped source hold exactly when its first non-space character is `%` or `!` |
| Cells.StmtBindings | build_site.py:303-313 | `import m as a` binds `a` (or `m`) to `m`; `from m import x as a` binds `a` (or `x`) to `m`; `from . import` and other statements bind nothing |
| Cells.LastBinding | build_site.py:303-313 | the value kept for a name comes from its last binding in statement order |
| Cells.ImportAliasesSpec | build_site.py:297-314 | an unparsable source gives `{}`. Otherwise a name is a key exactly when some top-level import binds it, and its value is the module of its latest binding |
| Cells.ExtractImportAliases | build_site.py:297-314 | the nested loops over statements and names return exactly `ImportAliases` |
| Fallback.Poison | build_site.py:342-345 | the poisoned names grow by the missing module and by every alias of the cell bound to exactly that module, each new one mapped to the module |
| Fallback.RecordMissingModule | build_site.py:342-345 | the loop over the cell's aliases leaves exactly `Poison` |
| Fallback.RunVisitSpec | build_site.py:335-348 | for a cell that is run: a syntax error leaves it unchanged, otherwise it gets the outputs and the count before the run; the counter advances unless a syntax error occurred; only `__halt__`/`__skip__` halt; only another truthy signal poisons |
| Fallback.VisitSpec | build_site.py:321-348 | a cell the driver passes over is left as it is with the state unchanged, and a cell it runs is described as in `RunVisitSpec` |
| Fallback.PassOver | build_site.py:322-333 | a cell that is not code, blank, skip-listed, already counted or already holding outputs is copied and changes nothing |
| Fallback.NextState | build_site.py:336-341 | after a halting visit the remaining cells are exactly the input's |
| Fallback.FillCell | build_site.py:317-348 | each result cell is its input cell unless the driver attempted it, and then it gets that run's outputs and the counter before the run, except after a syntax error |
| Fallback.FillFrame | build_site.py:321-348 | the driver changes only eligible cells (code, not blank, no `execution_count`, no outputs), and only by filling them |
| Fallback.FillCountTotal | build_site.py:319-348 | the final counter is 1 plus the number of cells filled |
| Fallback.FillCounts | build_site.py:335-348 | a filled cell's `execution_count` is 1 plus the number of cells filled before it |
| Fallback.FillCountsIncrease | build_site.py:319-348 | filled cells get execution counts that start at 1 and strictly increase in cell order |
| Fallback.HaltedRun | build_site.py:340-341 | once halted, every later cell is left as it is |
| Fallback.FillHalt | build_site.py:340-341 | the cells after a halting cell come out unchanged |
| Fallback.HaltCause | build_site.py:336-341 | the driver halts only at a cell it ran whose signal was `__halt__` or `__skip__` |
| Fallback.NameErrorHalts | build_site.py:336-341 | a `NameError` halts the pass; that cell gets its single notice and the counter, and every later cell is untouched |
| Fallback.SyntaxErrorHalts | build_site.py:336-341 | a syntax error halts the pass and leaves that cell and every later one untouched |
| Fallback.PoisonGrows | build_site.py:342-345 | the poisoned names only grow |
| Fallback.MissingModulePoisons | build_site.py:336-346 | another truthy signal does not halt and poisons exactly `Poison(missing, the cell's aliases, module)` |
| Fallback.QuietRun | build_site.py:336-348 | a run without a truthy signal neither halts nor poisons |
| Fallback.PoisonedCellUntouched | build_site.py:327-328 | a later cell mentioning a poisoned name as a whole word is left as it is |
| Fallback.Notebook.constructor | build_site.py:321 | the notebook holds the given cells |
| Fallback.Notebook.FillMissingOutputs | build_site.py:317-348 | the loop with its counter, poisoned names, `continue` and `break` leaves the cells the fold `Run` describes |
| Fallback.ProcessCell | build_site.py:321-348 | one pass of the loop body computes exactly `VisitCell`: the written cell, the next counter, the poisoned names and the halt flag |
| Fallback.RunEligible | build_site.py:334-348 | the body for a cell that is run computes exactly `VisitCell` |
| Slug.Decimal | build_site.py:441 | `str(number)` is a non-empty string of decimal digits. It starts with `0` exactly when the number is zero, so it has no leading zero |
| Slug.DecimalRoundTrip | build_site.py:438-441 | `int` of `str(number)` is the number |
| Slug.Pad2 | build_site.py:121 | `{number:02d}` has at least two decimal digits, and a leading zero only when it is exactly two digits long |
| Slug.Pad2RoundTrip | build_site.py:121 | the padded digits read back as the number |
| Slug.Collapse | build_site.py:123 | collapsing hyphen runs keeps the first and last characters and never lengthens |
| Slug.TrimLeft | build_site.py:123 | the left half of `strip("-")` drops exactly the leading hyphens |
| Slug.TrimRight | build_site.py:123 | the right half of `strip("-")` drops exactly the trailing hyphens |
| Slug.ReplaceRunsChars | build_site.py:122 | after replacing runs outside `[a-z0-9-]` only slug characters remain |
| Slug.CollapseChars | build_site.py:123 | after collapsing no `--` remains, and the alphabet is kept |
| Slug.ReplaceRunsAlnums | build_site.py:122 | replacing runs with hyphens keeps the letters and digits, in order |
| Slug.CollapseAlnums | build_site.py:123 | collapsing hyphens keeps the letters and digits |
| Slug.TrimAlnums | build_site.py:123 | stripping hyphens keeps the letters and digits |
| Slug.LowerHyphenatedAlnums | build_site.py:121 | `lower().replace("_", "-")` has the letters and digits of the lower-cased title |
| Slug.SlugPrefix | build_site.py:121 | `lecture<NN>` starts with `l` and is all letters and digits |
| Slug.RewritePrefixed | build_site.py:122-123 | the rewrite of `lecture<NN>-…` is `lecture<NN>` or starts with `lecture<NN>-` |
| Slug.RewriteShape | build_site.py:122-123 | the rewrite yields only `[a-z0-9-]`, no `--` and no outer hyphen |
| Slug.RewriteAlnums | build_site.py:122-123 | the rewrite keeps the letters and digits |
| Slug.SlugifyPrefix | build_site.py:120-124 | the slug is `lecture<NN>` or starts with `lecture<NN>-` |
| Slug.SlugifyShape | build_site.py:120-124 | the slug is non-empty, made of `[a-z0-9-]`, without `--` and without a leading or trailing hyphen |
| Slug.SlugifyAlnums | build_site.py:120-124 | the slug's letters and digits are those of `lecture<NN>` followed by those of the lower-cased title |
| Slug.CollapseReplaceRuns | build_site.py:122-123 | replacing runs outside `[a-z0-9-]` and then collapsing hyphens turns every maximal run of characters other than letters and digits into exactly one hyphen, and keeps the letters and digits |
| Slug.MarkedParts | build_site.py:122-123 | that marked text is an optional leading hyphen, then the maximal letter-and-digit runs joined by single hyphens, then an optional trailing hyphen |
| Slug.RewriteWords | build_site.py:122-123 | the rewrite is the maximal runs of letters and digits, joined by single hyphens |
| Slug.SlugifyWords | build_site.py:120-124 | the slug is the maximal runs of letters and digits of `lecture<NN>-<lower-cased title>`, joined by single hyphens |
| Excerpt.LastSpace | build_site.py:140 | the index of the last space, or -1 when there is none |
| Excerpt.Truncate | build_site.py:139-140 | a text of at most 180 characters is kept whole. A longer one becomes at most 178 characters ending in `…`. Before the ellipsis it is a prefix of the text: the first 177 characters when they hold no space, and otherwise the part before the last space among them |
| Excerpt.ExcerptFromFirst | build_site.py:128-141 | the excerpt is taken from the first markdown cell whose stripped source is not empty |
| Excerpt.ExcerptEmpty | build_site.py:128-142 | without such a cell the excerpt is empty |
| Excerpt.FirstMarkdownExcerpt | build_site.py:127-142 | the loop over the cells returns exactly `ExcerptOf`, of at most 180 characters |
| Page.NewClassesSpec | build_site.py:355-358 | the new class list holds `lecture-page`, and its classes are the old ones, with `lecture-page` in front when it was missing |
| Page.NewClassesNoQuote | build_site.py:355-359 | the new class list holds a quote only where the old one did |
| Page.TagEnd | build_site.py:361 | the first `>` at or after an index, or the end: what `[^>]*` can span |
| Page.LastClosedClass | build_site.py:361 | the last `class="…"` with a closing quote in a range, or -1 |
| Page.BodyClassAt | build_site.py:361 | the pattern matches at `<body` with the last closed `class="` before the tag's `>`, and with no such attribute it fails there |
| Page.FirstBodyMatch | build_site.py:361 | the `<body` index where the leftmost match starts: the pattern matches there and at no earlier index, and the result is -1 exactly when it matches nowhere |
| Page.FirstBodyClass | build_site.py:361 | the `class="` of a match, found by the leftmost search, or -1 exactly when the pattern matches nowhere |
| Page.AddBodyClassNoBody | build_site.py:361-363 | a page without `<body` is unchanged |
| Page.AddBodyClassSpec | build_site.py:353-363 | a page with `<body` ends up with a body tag whose class attribute lists `lecture-page`. With a match, that tag is the leftmost match's, with its class attribute where it was. Without one, it is the first `<body`, with the new attribute right after it |
| Page.AddBodyClassMatched | build_site.py:353-361 | when the pattern matches, the tag of the leftmost match lists `lecture-page` at the same place |
| Page.MatchedClass | build_site.py:353-361 | rewriting the class list of a matched tag keeps the tag matched and makes it list `lecture-page` |
| Page.AddBodyClassFallback | build_site.py:362-363 | without a match, the first `<body` becomes `<body class="lecture-page"`. The text before and after it is unchanged, and the new tag lists `lecture-page` |
| Page.FallbackClass | build_site.py:363 | `replace("<body", …, 1)` splices the class into the first `<body` and that tag lists `lecture-page` |
| Page.InsertHeaderSpec | build_site.py:365-370 | without a closed body tag the page is unchanged. Otherwise a newline and the header follow that tag's `>` directly, the tag ends where it did, and the text before and after is the old text |
| Page.InsertFooterSpec | build_site.py:372 | the footer goes right before the first `</body>`, which stays; without one nothing changes |
| Page.QuoteIndex | build_site.py:380 | the first quote, or -1, with no quote before it |
| Page.MatchLength | build_site.py:374-383 | the length of a match at the start is bounded by the text and every match starts with `d` |
| Page.MatchLengthLight | build_site.py:374-378 | the light pattern matches at the start exactly when `data-jp-theme-light="true"` starts there, and then spans exactly that text |
| Page.MatchLengthName | build_site.py:379-383 | a theme-name match spans `data-jp-theme-name="`, at least one non-quote character and the first quote after them, and any such span is the one measured |
| Page.SubAllUnmatched | build_site.py:374-383 | a rewrite whose pattern matches nowhere leaves the text unchanged |
| Page.SwitchLightReplace | build_site.py:374-378 | the light rewrite is the same as replacing every `data-jp-theme-light="true"`, left to right without overlap, by `data-jp-theme-light="false"` |
| Page.ThemeUnchanged | build_site.py:374-383 | a page in which neither theme pattern starts anywhere passes both rewrites unchanged |
| Page.SwitchLightSpec | build_site.py:374-378 | after the first theme rewrite no `data-jp-theme-light="true"` is left |
| Page.NoLightTrue | build_site.py:374-383 | the light rewrite leaves no `"true"` flag, and the theme-name rewrite creates none |
| Page.SwitchNameSpec | build_site.py:379-383 | after the second theme rewrite every place the theme-name pattern matches reads `data-jp-theme-name="JupyterLab Dark"` |
| Page.InjectThemeSpec | build_site.py:351-384 | the finished page has no light flag set to `"true"`, and every matched theme name is the dark one. When neither theme pattern occurs in the page with its class, header and footer, the finished page is exactly that page |
| Page.NameRewriteDropsClass | build_site.py:379-383 | there is a page listing `lecture-page` whose class attribute the theme-name rewrite removes: an unclosed theme-name value in the body tag spans the `class="` after it |
| Rpds.Convert | rpds/__init__.py:28-32 | a `HashTrieMap` is returned as it is; a mapping gives a map with the same entries |
| Rpds.ConvertPairs | rpds/__init__.py:28-32 | a sequence of pairs gives exactly its keys, each with the value of its last pair |
| Rpds.Insert | rpds/__init__.py:34-37 | the keys grow by `key`, `key` maps to `value`, and every other entry is kept |
| Rpds.Remove | rpds/__init__.py:39-42 | `KeyError(key)` exactly when the key is absent; otherwise the same entries without `key` |
| Rpds.Update | rpds/__init__.py:44-47 | a right-biased merge: the union of the keys, `other`'s values on its keys and the receiver's elsewhere |
| Rpds.RemoveInserted | rpds/__init__.py:34-42 | removing a freshly inserted key gives back the receiver |
| Rpds.InsertRemoved | rpds/__init__.py:34-42 | re-inserting a removed key with its old value gives back the receiver |
| Rpds.UpdateIsInserts | rpds/__init__.py:44-47 | updating with pairs equals inserting them one by one in order |
| Rpds.UpdateSelf | rpds/__init__.py:44-47 | updating a map with itself changes nothing |
| Rpds.SetInsert | rpds/__init__.py:53-56 | the result is the receiver plus `value` |
| Rpds.SetDiscard | rpds/__init__.py:58-61 | the result is the receiver minus `value`, and an absent value changes nothing rather than failing |
| Rpds.SetUpdate | rpds/__init__.py:63-66 | the result is the receiver plus the elements of `other` |
| Rpds.DiscardInserted | rpds/__init__.py:53-61 | discarding a freshly inserted element gives back the receiver |
| Rpds.InsertDiscarded | rpds/__init__.py:53-61 | re-inserting a discarded element gives back the receiver |
| Rpds.SetUpdateIsInserts | rpds/__init__.py:63-66 | updating equals inserting the elements one by one |
| Rpds.NewList | rpds/__init__.py:72-75 | `List(None)` is empty and `List(it)` has the items of `it` in order |
| Rpds.PushFront | rpds/__init__.py:77-78 | one item longer, headed by `value`, with the receiver as its tail |
| Rpds.PushFrontAllReverses | rpds/__init__.py:77-78 | pushing items to the front one by one yields them in reverse order before the receiver |
| Catalog.DigitRun | build_site.py:25 | the maximal run of digits from an index, which `(\d+)` takes |
| Catalog.MatchExactSound | build_site.py:25 | what the matcher accepts is three well-formed groups joined by `Lecture`, `_`, `_` |
| Catalog.MatchExactJoined | build_site.py:25 | any three well-formed groups so joined are accepted and recovered exactly |
| Catalog.MatchStemSound | build_site.py:25 | every match of a stem satisfies the pattern, with the one trailing newline `$` allows |
| Catalog.MatchStemComplete | build_site.py:25 | every stem of the pattern's shape is matched, with its groups recovered |
| Catalog.SiteTablesSpec | build_site.py:27-94 | the site tables have non-empty summaries for lectures 1 to 17 and quiz links, all under the quiz site, for lectures 2 to 13 |
| Catalog.SummaryKeys | build_site.py:27-79 | the curated summaries cover exactly lectures 1 to 17 and none is empty |
| Catalog.QuizKeys | build_site.py:81-94 | the quiz links cover exactly lectures 2 to 13 and all start with the quiz site address |
| Catalog.SummaryRule | build_site.py:463-515 | the curated blurb if any. Otherwise, for a page built afresh, the excerpt when it is not empty. Otherwise the default. Never empty |
| Catalog.QuizLinkRule | build_site.py:513-515 | `quiz_link` is present exactly when the table lists the lecture, and is that link |
| Catalog.EntryForMatches | build_site.py:433-437 | a notebook yields an entry exactly when its stem has the pattern's shape |
| Catalog.SlugFacts | build_site.py:443 | the entry's slug starts with `lecture<NN>` and has slug shape |
| Catalog.EntryForSpec | build_site.py:434-444 | a matching stem's entry is built from its groups, with the number read from the first group |
| Catalog.EntryOfWellFormed | build_site.py:503-517 | every entry has a non-empty summary that is the curated one when there is one, a quiz link exactly when listed, a `Lecture <n>: ` title, and a slug-shaped slug naming `lectures/<slug>.html` |
| Catalog.EntryForWellFormed | build_site.py:433-517 | every entry `build` appends is well formed |
| Catalog.CollectSpec | build_site.py:432-517 | the collected entries are exactly the entries of the matching notebooks, and there are as many of them as there are notebooks whose name matches |
| Catalog.InsertSpec | build_site.py:519 | inserting by number into a sorted list keeps it sorted and adds exactly the entry |
| Catalog.SortByNumberSpec | build_site.py:519 | the sort is ordered by number and a permutation of its input |
| Catalog.SortByNumberStable | build_site.py:519 | the sort is stable: entries with the same number keep their relative order |
| Catalog.CatalogSpec | build_site.py:432-519 | the catalog is sorted by number, a stable permutation of the collected entries, and every entry is well formed |
| Catalog.BuildCatalog | build_site.py:432-519 | the loop that appends one entry per matching notebook, followed by the sort, yields exactly the sorted collection, whose length is the number of notebooks whose name matches |
| Catalog.SiteCatalogSpec | build_site.py:503-519 | with the site's tables, lectures 1 to 17 carry their curated blurb and exactly lectures 2 to 13 carry a quiz link |

## Left out

- Python execution (`ast.parse`, `compile`, `exec`, `eval`, the shared environment, stream redirection and
  `traceback.format_exc`) is foreign code. It appears only through the outcome of each run and the parsed statements.
- `nbformat`, `nbconvert` and `ExecutePreprocessor` are foreign libraries, so `_execute_notebook` is not modelled.
  The executed cells are an input of the catalog.
- Filesystem I/O, `glob`, `print` and the JSON dump in `build` are I/O.
  - The notebooks are taken as a sequence in the order `sorted(glob(...))` gives.
  - Whether a page's HTML already exists is an input.
- `_format_date` and `_format_title` rely on `datetime` calendar rules and on `str.title()` Unicode casing. They are
  parameters of the catalog (`Formatters`).
- The markdown-cleaning regexes inside `_first_markdown_excerpt` depend on `re`'s lazy and DOTALL matching. They are
  the parameter `clean`.
- `_scrub_course_details` is not modelled, for the same reason.
- The `<title>` rewrite and the head injection in `build` are left out: they are further regex rewrites of the page
  and are not part of the catalog entry.
- `docs/assets/copy.js` and the `md-*.js` slide bundles are not part of this model. They are browser UI and generated
  slide code.
- `Catalog.MatchStem` treats `\d` as ASCII digits. With a `str` pattern, Python's `\d` also accepts other Unicode
  decimal digits.
- `Text.SearchWord`: `\b` uses ASCII word characters. Python's `\w` on `str` also counts non-ASCII letters and digits.
- `Slug.Slugify` lowers ASCII letters only. The notebook-name pattern admits only ASCII in the title it is given.
- `Text.Split`: proved are the membership of each piece (`Text.SplitRuns`: exactly the maximal non-whitespace runs) and
  their concatenation (`Text.SplitConcat`). That the i-th piece is the i-th run from the left, and so the number of
  pieces, is not stated as one lemma.
- `Page.InjectThemeSpec`: the page's `lecture-page` class, header and footer are promised to come through the theme
  rewrites unchanged only when neither theme pattern starts anywhere in the page. Otherwise they need not: an
  unclosed theme-name value inside the body tag spans the `class="` after it (`Page.NameRewriteDropsClass`), and a
  header or footer holding theme attributes is rewritten too.
- `Page.SwitchName` is a regex rewrite with no literal-replace counterpart. `Page.MatchLengthName` states what one
  match spans, and `Page.SwitchNameSpec` what every match becomes.
- `Rpds.Convert` returns a value equal to its argument, not the same object. Object identity and Python subclass
  checks have no counterpart for values.
- `Rpds` containers are values, so "the receiver is unchanged" holds by construction and is not stated separately.
- `Page.AddBodyClassMatched`: states that the matched tag lists `lecture-page` at the same place, not that the text
  outside its class list is unchanged. That is the definition of the splice it performs.
- `Page.InsertHeaderSpec`: the `>` search starts after `<body`, not at it. `<body` holds no `>`, so the result is the
  same.
- A `BaseException` that is not an `Exception` (`exit()`, `sys.exit`, `KeyboardInterrupt`) escapes the handler at
  `build_site.py:261`. It then escapes `_fill_missing_outputs` (called at `build_site.py:181`, outside the `try`) and
  aborts the build. The outcomes model only `Exception` subclasses, so this abort is not captured.
- `Cells.RunCell` is total, but three calls in `_run_python_cell` can raise outside every handler:
  - `repr(expr_value)` in the `else:` clause (`build_site.py:288`);
  - `str(exc)` inside the `ImportError` and generic handlers (`build_site.py:237`, `build_site.py:273`);
  - `getattr(exc, 'name', str(exc))` in the `NameError` handler (`build_site.py:256`).
  A `__repr__` or `__str__` that raises escapes `_fill_missing_outputs` and aborts the build. `Completed` always
  carries a string, so this abort is not captured.
- `Catalog.Formatters`: `_format_date` (`build_site.py:115-117`) raises `ValueError` on eight digits that are not a
  calendar date, and nothing in `build` (`build_site.py:442`) catches it, so the build aborts. The model's `date`
  formatter is total and does not capture that abort.
