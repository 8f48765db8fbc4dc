# plaintext-interpreter: a verified model of the text-to-HTML pipeline

plaintext-interpreter turns a lightly tagged text file into an HTML page. The
pipeline has four parts:

- It scans the text for blocks (`<h1>`..`<h6>`, `<p>`, `<ul>`, `<ol>`, `<code>`, `<table>`).
- It rewrites each block with three content processors:
  - code spans are HTML-escaped;
  - `{a,b,c}` groups become list items;
  - `[[c1|c2]]` lines become a table.
- It records the headings as titles with generated ids.
- It reports on the favicon files.

A live-reload server watches the input file, re-runs the conversion and tells the
connected browsers to reload.

This project models that core in Dafny and proves properties of it:

| file | module | models |
|---|---|---|
| `text_util.dfy` | `TextUtil` | the Python string operations the code relies on: `in`, `startswith`, `replace`, `strip`, `split`, `join`, `str(int)`, `lower`, `html.escape` |
| `processors.dfy` | `Processors` | `src/processors.py`. It includes Python's lazy `re.sub` over `(open)(.*?)(close)` without `DOTALL`. The table processor is a method with a loop. |
| `validators.dfy` | `Validators` | `src/validators.py`: the ICO, PNG and SVG checks and the extension lookup |
| `html_converter.dfy` | `HtmlConverter` | from `src/html_converter.py`: `process_titles` (a method with a loop), title and id generation, `_process_content`, the assets mapping, and the favicon / web-manifest report |
| `legacy_converter.dfy` | `LegacyConverter` | the older `plaintext_to_html.py`: its duplicated rewriters, its block scan, the trailing paragraph and the navigation panel. The file writes become a sequence of `Write`s. |
| `live_editor.dfy` | `LiveEditor` | `src/live_editor.py`, as classes: the debounced handler, the bounded queue, the client set, one step of the change loop, and shutdown |

The model takes these inputs in place of the machinery it leaves out:

- **Block matches.** The configured title pattern and the legacy block pattern are not
  re-implemented. Their matches are given as a sequence of `(start, end)` spans. The spans lie
  in the text, in order, and do not overlap (`WellFormed`).
- **Heading text.** BeautifulSoup's text extraction is a function parameter `extract`.
- **The file system.** File existence, file contents, whether a conversion succeeds and
  whether a WebSocket send succeeds are all parameters.
- **Configuration.** The loaded settings are the fields of `Config`. Its processor list is
  the one the constructor stores after `processors or [...]` has replaced an empty
  argument by the three defaults (`MakeConfig`), so the list is never empty.

Where the specification text and the code disagree, the model follows the code:

- **List wrapping.** The `<ul>` wrapping of shorthand lists is described as reachable. In
  `ListProcessor.process` it can never fire: the guard demands a list tag, and the brace
  rewrite keeps it (`Processors.ListProcessNeverWraps`).
- **Trailing text.** The escaped trailing paragraph belongs to the legacy converter only.
  `process_titles` copies the trailing text verbatim.

## Model

| member | source | states |
|---|---|---|
| Processors.LazyBody | src/processors.py:11 | The lazy `.*?` stops at the first closing tag. No newline or earlier closing tag lies before it. When no closing tag is reachable without a newline, there is no match. |
| Processors.SubLazyNoOpen | src/processors.py:10-14 | A text without the opening tag is returned unchanged by the substitution. |
| Processors.SubLazyConcat | src/processors.py:10-14 | A prefix in which no match starts is copied unchanged, even when it holds the opening delimiter's first character. |
| Processors.SubLazyOneInBlock | src/processors.py:10-14 | One match between a prefix with no match start and a suffix without the opening delimiter: only the match is replaced, and the text around it is kept. |
| Processors.SubLazyOneMatch | src/processors.py:10-14 | A text `open + body + close + rest`, where the body has no newline and no early closing tag, becomes `repl(body)` followed by the substitution of `rest`. |
| Processors.LazyBodyFirst | src/processors.py:11 | The first reachable closing tag is the one the lazy match uses. |
| Processors.SubLazyKeeps | src/processors.py:10-24 | A substring sharing no character with the delimiters, which the replacement keeps, survives the substitution. |
| Processors.CodeProcessIsSubstitution | src/processors.py:8-14 | The `<code>` guard is only a shortcut: the result always equals the substitution. Without `<code>` the input comes back unchanged. |
| Processors.EscapeOneCodeSpan | src/processors.py:10-14 | A single `<code>X</code>` becomes `<code>` + escape(X) + `</code>`. |
| Processors.CodeProcessSpan | src/processors.py:8-14 | The code processor escapes the inside of one span whose body has no newline and no early `</code>`. |
| Processors.CodeProcessOneSpan | src/processors.py:8-14 | A span whose body holds no newline and no `<` is escaped as a whole. |
| Processors.CodeSpanInBlock | src/processors.py:8-14 | In a block, the text before a span (where no match starts) and after it (with no `<code>`) is kept, and only the span's body is escaped. |
| Processors.CodeSpanInParagraph | src/processors.py:8-14 | `<p>x <code>B</code></p>` becomes `<p>x <code>` + escape(B) + `</code></p>`: the `<p>` is kept unchanged. |
| Processors.CodeProcessEscapesTag | src/processors.py:8-14 | A span holding one lower-case tag, such as `<code><script></code>`, becomes `<code>&lt;script&gt;</code>`: the tag is escaped. |
| Processors.CodeProcessNotIdempotent | src/processors.py:10-14 | `<code>&</code>` becomes `<code>&amp;</code>` after one pass and `<code>&amp;amp;</code>` after two. |
| Processors.ListItemsShape | src/processors.py:22 | A brace group becomes `<li>` + the group with every comma replaced by `</li><li>` + `</li>`. It has (number of commas + 1) items, and no item is trimmed or escaped. |
| Processors.ListItemsEmpty | src/processors.py:22 | `{}` yields `<li></li>`. |
| Processors.ListItemsKeepTag | src/processors.py:22 | Rewriting a brace group never removes a `<ul>` or `<ol>` inside it. |
| Processors.RewriteBracesKeepsListTag | src/processors.py:20-24 | The brace rewrite keeps every `<ul>`/`<ol>` tag of its input. |
| Processors.ListProcessNeverWraps | src/processors.py:18-25 | The list processor returns its input without `<ul>`/`<ol>`. Otherwise it returns exactly the rewritten text: the wrap on line 25 never fires. |
| Processors.ListProcessBlock | src/processors.py:16-25 | `<ul>{body}</ul>` with a single-line body becomes `<ul>` + the items + `</ul>`. |
| Processors.TableProcess | src/processors.py:28-56 | The method returns the table rendering of its input. |
| Processors.CollectParts | src/processors.py:35-53 | The loop appends the header, an implicit `<tbody>`, the rows, and the closing tags, flipping `tbody_open` as it goes. |
| Processors.TableFraming | src/processors.py:29-56 | Without `<table>` the input is unchanged. Otherwise the output starts with the responsive div and `<table class="content-table">`, and ends with `</table>` and the closing div. |
| Processors.OpenedIff | src/processors.py:36-48 | `tbody_open` ends true exactly when some line is a header line or a data row. |
| Processors.TbodyClosedOnce | src/processors.py:39-52 | `</tbody>` appears exactly once if a header line or data row was seen, and otherwise never. |
| Processors.HeaderWithoutCellsStillCloses | src/processors.py:39-63 | A `<thead>` line without cells emits an empty header, yet `</tbody>` is still emitted, with no opening tag. |
| Processors.RowsInOrder | src/processors.py:38-69 | The rows in the output are exactly one rendered row per data-row line, in input order. |
| Processors.LinePartsShape | src/processors.py:38-49 | One line contributes no `</tbody>`. It contributes a `<tr>` part exactly when it is a data row. |
| Processors.RowCellCount | src/processors.py:66 | A row has (number of `\|` + 1) cells. |
| Processors.RenderRowShape | src/processors.py:67-69 | A row starts with `<tr><td class="row-header">` + first cell + `</td>` and ends with `</tr>`. |
| Processors.ProcessHeaderShape | src/processors.py:58-63 | The header output is empty exactly when the line, without `<thead>`/`</thead>`, holds no `[[`. Otherwise it starts with `<thead>`. |
| Processors.HeaderRowCells | src/processors.py:58-62 | A header with cells renders one `<th scope="col">` per `\|`-separated stripped cell, in order, (number of `\|` + 1) of them, and ends by opening `<tbody>`. |
| Processors.TagRemovalSinglePass | src/processors.py:32 | The tag removal is a single pass: `<ta<table>ble>` still holds `<table>` afterwards. |
| Processors.Run | src/processors.py:7-29 | Running a processor yields its function's result. |
| Processors.ApplyWithoutTrigger | src/processors.py:8-30 | Each processor leaves a block without its own trigger (`<code>`; `<ul>` or `<ol>`; `<table>`) unchanged, whatever the other triggers. |
| Validators.ReadUpTo | src/validators.py:8-17 | `f.read(n)` yields the first `min(n, len)` bytes. |
| Validators.IcoValidIff | src/validators.py:7-11 | The ICO check holds exactly when the file has at least four bytes and they are `00 00 01 00`. |
| Validators.PngValidIff | src/validators.py:16-19 | The PNG check holds exactly when the first eight bytes are the PNG signature of section 3.1 of RFC 2083. |
| Validators.SvgCaseInsensitive | src/validators.py:24-25 | The SVG check ignores letter case. |
| Validators.SvgOrderNotChecked | src/validators.py:25 | `</svg><svg` passes: the order of the two tags is not checked. |
| Validators.FailedReadIsInvalid | src/validators.py:10-27 | A read that raises makes every validator return false. |
| Validators.GetValidatorIff | src/validators.py:30-38 | The lookup finds a validator exactly for `.ico`, `.png` and `.svg` in any case, and finds nothing otherwise. |
| Validators.GetValidatorRoundTrip | src/validators.py:30-38 | Each registered key finds its own validator, and lower-casing the extension changes nothing. |
| Validators.GetValidatorUpperCase | src/validators.py:38 | `.PNG` finds the PNG validator. |
| HtmlConverter.TagName | src/html_converter.py:109 | `re.match(r'<(\w+)', s)` matches exactly when `s` starts with `<` and a word character. It captures the longest run of word characters. |
| HtmlConverter.HeadingLevel | src/html_converter.py:127-129 | `<h([1-6])` matches exactly when the text starts `<h1`..`<h6`, and the level is that digit. |
| HtmlConverter.ProcessSingleTitle | src/html_converter.py:125-137 | A title exists exactly when the tag starts with `<h` and a digit 1..6. Its level is 1..6 and is that digit. Its text is the extracted text, and its id is the prefix + (match ordinal + 1). |
| HtmlConverter.TitleOf | src/html_converter.py:110-115 | A title is recorded for an allowed `h...` tag that opens with `<h[1-6]`. Its level is 1..6, its text is the extracted text, and its id is the prefix + ordinal. |
| HtmlConverter.AddIdWithoutExactTag | src/html_converter.py:139-144 | A heading whose opening tag carries attributes is left unchanged. |
| HtmlConverter.AddIdOnOpeningTag | src/html_converter.py:139-144 | An exact `<hN>` opening tag receives `id="…"`. |
| HtmlConverter.ProcessContent | src/html_converter.py:146-150 | The processors run in list order, each on the previous one's output. |
| HtmlConverter.MakeConfig | src/html_converter.py:42-46 | The stored processor list is never empty: an empty argument is replaced by the defaults, and a non-empty one is kept. |
| HtmlConverter.DefaultOrder | src/html_converter.py:42-46 | By default a block is code-escaped, then list-rewritten, then table-rendered. |
| HtmlConverter.LastEnd | src/html_converter.py:105-122 | `last_index` is at most the text length and at most the end of the last match. |
| HtmlConverter.ProcessTitles | src/html_converter.py:98-123 | The loop produces the passthrough slices interleaved with the processed allowed blocks, then the rest of the text. Id injection comes before processing. |
| HtmlConverter.NoAllowedMatch | src/html_converter.py:104-123 | With no allowed match the content is unchanged and no title is recorded. |
| HtmlConverter.DisallowedSurvives | src/html_converter.py:111-122 | A match whose tag is not allowed appears verbatim in the output. |
| HtmlConverter.TitlesIndexed | src/html_converter.py:107-115 | The k-th title is the one built for the k-th recorded match ordinal. |
| HtmlConverter.TitleIndicesIncrease | src/html_converter.py:107 | The recorded ordinals increase strictly. |
| HtmlConverter.TitleIndicesIff | src/html_converter.py:107-115 | A match's ordinal is recorded exactly when that match yields a title. |
| HtmlConverter.TitleIds | src/html_converter.py:107-135 | Title ids are the prefix + (ordinal + 1), counting every match. They are pairwise distinct and increase in document order, and every level is 1..6. |
| HtmlConverter.HeadingTitle | src/html_converter.py:109-137 | An allowed bare `<hD>` block yields a title of level `D`. |
| HtmlConverter.ThreeHeadings | tests/test_process_titles.py:9-15 | `<h1>`, `<h2>`, `<h3>` blocks in a row give levels 1, 2, 3 and ids `section1`..`section3`. |
| HtmlConverter.MixedBlockOrdinal | src/html_converter.py:107-135 | After a `<p>` block, a heading gets `section2`. |
| HtmlConverter.CalculateAssetsPaths | src/html_converter.py:444-451 | The paths are `assets/css`, `assets/js` and `assets/images`, whatever the output path. |
| HtmlConverter.ManifestValidIff | src/html_converter.py:188-203 | The manifest passes exactly when it is an object with `name` and a non-empty `icons` list, each icon holding `src`, `sizes` and `type`. |
| HtmlConverter.FaviconReport.ValidateWebmanifest | src/html_converter.py:181-206 | The method adds `site.webmanifest` to `missing` when absent, and to `invalid` once when unparsable or failing a check. |
| HtmlConverter.VerifyFaviconResources | src/html_converter.py:161-179 | The method fills `missing` with the absent required files and `invalid` with the present files its validator rejects, in order, then adds the manifest verdict. |
| HtmlConverter.Name | src/html_converter.py:168-173 | The file name is the last path component. |
| HtmlConverter.LastDot | src/html_converter.py:173 | The index of the last `.`, or -1 when there is none. |
| HtmlConverter.Suffix | src/html_converter.py:173 | The suffix is non-empty exactly when the last dot is neither the first nor the last character of the name, and it is then the name from that dot on: a dot-led tail with no further dot, shorter than the name. |
| HtmlConverter.MissingFilesIff | src/html_converter.py:165-169 | A required file is missing exactly when it does not exist. |
| HtmlConverter.InvalidFilesIff | src/html_converter.py:171-174 | A required file is invalid exactly when it exists, a validator exists for its suffix, and that validator rejects it. An absent file is never validated. |
| HtmlConverter.MissingAndInvalidDisjoint | src/html_converter.py:165-174 | No required file is both missing and invalid. |
| HtmlConverter.ManifestReportedOnce | src/html_converter.py:181-206 | The manifest is reported at most once: missing exactly when absent, invalid exactly when unparsable or failing a check. |
| LegacyConverter.HandleCodeIsCodeProcess | plaintext_to_html.py:364-372 | The legacy code rewriter, whose two branches are identical, equals `CodeProcessor.process` on every input. |
| LegacyConverter.HandleList | plaintext_to_html.py:374-383 | The result always holds a list tag. It is the rewritten text itself exactly when that text already holds `<ul>`/`<ol>`, and is otherwise that text wrapped in `<ul>…</ul>`. |
| LegacyConverter.HandleListOnListBlock | plaintext_to_html.py:374-383 | On a block holding a list tag, as in the scan, there is no wrapping, and the result equals `ListProcessor.process`. |
| LegacyConverter.ProcessBlock | plaintext_to_html.py:298-314 | Code escaping comes first, then list rewriting, then heading id injection. A heading gets level 1..6 and id `section` + (previous match end + 1). A `<h` block without a digit 1-6 fails. |
| LegacyConverter.Scan | plaintext_to_html.py:295-320 | After the scan, `index` is at most the text length. |
| LegacyConverter.ScanBlocks | plaintext_to_html.py:295-320 | The loop yields the blocks, headings, final `index`, and failure of the scan. |
| LegacyConverter.WriteNavigation | plaintext_to_html.py:333-336 | The loop writes one escaped entry per heading, in order. |
| LegacyConverter.Convert | plaintext_to_html.py:288-336 | The writes are the head, the blocks, the trailing paragraph, and the navigation panel. A failing block stops the writes there. |
| LegacyConverter.ScanWritesBlocks | plaintext_to_html.py:295-320 | Without a failure exactly the matched blocks are written, each processed with the previous match's end, and the text between matches is dropped. |
| LegacyConverter.HeadingsIndexed | plaintext_to_html.py:296-320 | Headings come in document order, with ids `section` + (previous match end + 1) and levels 1..6. |
| LegacyConverter.PrevIncreases | plaintext_to_html.py:320 | With non-empty matches the offset before each match increases strictly. |
| LegacyConverter.LegacyIdsDistinct | plaintext_to_html.py:296-320 | Heading ids are pairwise distinct, and only a heading that is the first match gets `section1`. |
| LegacyConverter.NavPaddingRange | plaintext_to_html.py:333-334 | Every navigation padding lies in 10..110. |
| LegacyConverter.TrailingIff | plaintext_to_html.py:322-325 | The trailing paragraph is written exactly when the rest holds a non-whitespace character, and its text holds no markup character. |
| LegacyConverter.NoMatchDocument | plaintext_to_html.py:322-325 | Without matches the body is only the escaped paragraph of the whole input, when it is not blank. |
| LiveEditor.ChangeQueue.PutNowait | src/live_editor.py:26-40 | The method appends unless the queue is full, in which case nothing is stored. The queue never exceeds its size. |
| LiveEditor.ChangeQueue.Get | src/live_editor.py:56 | The method removes and returns the oldest item. |
| LiveEditor.OnModifiedSpec | src/live_editor.py:20-28 | A rejected event changes nothing. On acceptance the timestamp is set, and the path is appended when the queue has room and dropped when it holds 100 items, so the queue stays within 100. |
| LiveEditor.FileChangeHandler.OnModified | src/live_editor.py:20-28 | The handler's new timestamp and queue are those of `OnModifiedSpec`. |
| LiveEditor.DebounceSpacing | src/live_editor.py:22-24 | Accepted events are at least 500 ms apart and after the starting timestamp. The queue never exceeds 100 items. |
| LiveEditor.FirstEventAccepted | src/live_editor.py:17-23 | With the timestamp starting at 0, the first event at time >= 500 ms is accepted. |
| LiveEditor.DroppedEventStillDebounces | src/live_editor.py:24-28 | On a full queue the path is dropped, but the timestamp advances, so the next event within 500 ms is rejected. |
| LiveEditor.NotifySurvivors | src/live_editor.py:95-105 | After pruning, a client remains exactly when its send succeeded. |
| LiveEditor.LiveEditor.NotifyClients | src/live_editor.py:95-105 | Every client is attempted, and the set becomes the old set minus the clients whose send raised. |
| LiveEditor.LiveEditor.Connect | src/live_editor.py:84 | A connecting client is added. |
| LiveEditor.LiveEditor.Disconnect | src/live_editor.py:90-92 | A client whose channel ends is removed. |
| LiveEditor.LiveEditor.ProcessChangesStep | src/live_editor.py:56-72 | The step dequeues one item. A stop observed after the dequeue ends the step. Otherwise clients are notified only after a successful conversion. A failed conversion leaves the clients untouched. |
| LiveEditor.LiveEditor.OnShutdown | src/live_editor.py:342-367 | Afterwards `running` is false, the client set, the tasks and the queue are empty, and every old client was closed. |
| TextUtil.HtmlEscape | src/processors.py:12 | `html.escape` output holds no `< > " '` and is never shorter than its input. |
| TextUtil.HtmlEscapeEntities | src/processors.py:12 | Every `&` of `html.escape` output begins one of the five entities. |
| TextUtil.UnescapeEscape | src/processors.py:12 | Escaping is inverted by decoding the five entities. |
| TextUtil.SplitJoinRoundTrip | src/processors.py:22 | Splitting on a character and joining with it gives back the text. |
| TextUtil.StripEmptyIff | plaintext_to_html.py:323 | `strip()` is empty exactly when every character is whitespace. |
| TextUtil.PrefixedNatInjective | src/html_converter.py:135 | Different ordinals give different ids under the same prefix. |

## Left out

- The regular-expression engine and the configured title pattern: the model takes the
  matches as an input. The same holds for the legacy block pattern.
- BeautifulSoup's text extraction and `prettify`: heading text is the parameter `extract`.
- Configuration loading, the Jinja templates, navigation rendering, `convert`/`convert_async`,
  file reading and writing, path and template validation, asset copying with retries, and
  asset integrity checks: all of this is file-system and template plumbing.
- `verify_favicon_resources`: file existence and file contents are parameters. Path
  normalisation (`.` segments, trailing separators) is not modelled. The path separator is `/`.
- `_validate_webmanifest`: JSON numbers are integers, and the JSON parser itself is not
  modelled. `field in value` on a number, boolean or null raises in Python. The model
  treats it as false, which gives the same verdict: the manifest is invalid.
- The live editor's asyncio tasks, lock, watchdog observer thread, aiohttp routes, WebSocket
  I/O, `serve_output`, `start` and the browser launch. `time.time()` floats are integer
  milliseconds. Concurrent changes of the client set during `notify_clients` are not modelled.
- LiveEditor.LiveEditor.ProcessChangesStep: a `get` on an empty queue blocks in the program.
  The model starts the step only once an item is there. Only one iteration is modelled, not
  the loop around it.
- Exceptions other than the missing heading digit in the legacy scan: conversion failures
  in the live loop are a parameter.
- TextUtil.Lower: only ASCII letters are lower-cased. Python's `\w` is taken as ASCII word
  characters. `strip()` uses the Unicode whitespace set of `str.isspace`.
- `templates/assets/js/script.js`, `main.py`, `src/utils/logging_utils.py`, `src/interfaces.py`
  and the inline CSS/JS text of `plaintext_to_html.py`. The inline text appears only as named
  fixed chunks of output.
- Processors.TableFraming: the claim that every `<table>`/`</table>` substring disappears
  from the table body is not stated, because it does not hold. `str.replace` removes
  occurrences in a single pass, so tags that nested removal re-forms survive
  (`Processors.TagRemovalSinglePass`).
