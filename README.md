# Notion notes toolkit: Markdown-to-Notion converter and documentation scraper

This project models, in Dafny, the core of two Python scripts used to move documentation pages
into Notion.

- `notes/Notion/unified_notion_manager.py` converts Markdown into Notion blocks. The model covers:
  - `build_rich_text`: inline tokens to rich-text spans, with bold, italic, strikethrough, links
    and inline code;
  - `parse_md_to_notion_blocks`: the cursor loop over markdown-it's flat token list. It emits
    headings, paragraphs, bulleted items, quotes and GitHub-style alert callouts, tables, code
    blocks with a normalised language, and images. It caps the result at 100 blocks and returns
    `[]` after any exception;
  - the natural sort key that orders a folder's entries before upload;
  - the fenced-code tag scan;
  - the parsing of the comma-separated, 1-based selection typed at the cleanup prompt.
- `notes/Notion/final_web_scraper.py` turns HTML elements into Markdown. The model covers the
  converters for `<a>`, `<img>`, `<pre>`, the inline wrappers and `<div>` alerts, the SQL heuristic, the
  Markdown post-processing (footer truncation, intro cleanup, chrome removal) and the file-name
  cleaner.

## Layout

- `wrappers.dfy`: `Option` and `Result`.
- `text.dfy`: the parts of Python's `str` the scripts rely on, with their lemmas:
  - `isspace`, `strip`, `split()`, `splitlines`, `join`, `replace`, `in` and `startswith`;
  - ASCII case mapping.
- `tokens.dfy`: the markdown-it token, and the three exceptions the converter can raise.
- `rich_text.dfy`: `build_rich_text` as a specification function and as the source's loop.
- `alerts.dfy`: the five alert kinds, their markers `[!KIND]`, icons and colours, and the detection
  order.
- `code_language.dfy`: Notion's language list, the alias table and the language normaliser.
- `notion_blocks.dfy`: `parse_md_to_notion_blocks`. It has:
  - one specification function per branch, `Step` for one turn and `Run` for the whole loop;
  - the loop and each branch's inner loop as methods, proved equal to those functions.
- `notion_blocks_props.dfy`: what each branch and the whole conversion promise.
- `table_props.dfy`: the rows and cells a table block holds, and when the table branch raises.
- `manager_helpers.dfy`: the natural sort key, the fence-tag scan and the prompt selection.
- `scraper.dfy`: the scraper's converters, `_is_sql`, `postprocess_markdown` and
  `clean_filename`.

Modelling choices:

- **Markdown input.** markdown-it's tokenizer is not modelled. `parse_md_to_notion_blocks` is
  modelled on the token list it returns.
- **Exceptions.** `Failure` stands for the exceptions the source can raise:
  - `IndexError` from `tag[1]` or from `split()[0]` of a blank info string;
  - `ValueError` from `int(tag[1])`;
  - `NameError` from `current_row` before any `tr_open`.
- **Marker removal.** The in-place rewrite of a quoted inline's children (lines 110-112) is
  modelled as an update of the token list the loop carries. A later turn that meets the same
  token again sees the rewritten content, as in the source.
- **Row aliasing.** `current_row` outlives a table, as a function-local in Python does. Rows
  appended by `tr_close` share the list that later cells extend, and the scan keeps count of how
  many collected rows share the open one.

Behaviours of the code a reader might not expect:

- the `console`, `log`, `output` and `dotnetcli` aliases map to `shell`;
- a heading is emitted whenever an `inline` follows, even with no spans;
- a `text` token with empty content still gives a span;
- a list item or blockquote without its closing token moves the cursor by 1, so the following
  tokens are visited again.

## Model

| member | source | states |
|---|---|---|
| Alerts.Marker | notes/Notion/unified_notion_manager.py:108 | the marker of a kind is `[`, `!`, its name, `]`, three characters longer than the name and without line breaks |
| Alerts.MarkerTexts | notes/Notion/unified_notion_manager.py:101-105 | table entries, as examples: the five markers read `[!NOTE]`, `[!TIP]`, `[!IMPORTANT]`, `[!WARNING]`, `[!CAUTION]` |
| Alerts.NamesDistinct | notes/Notion/unified_notion_manager.py:101-105 | different kinds have different names and different markers |
| Alerts.DetectAlertSpec | notes/Notion/unified_notion_manager.py:100-105 | the alert chain picks kind k exactly when k's marker occurs in the raw text and no earlier kind's does; it picks none exactly when no marker occurs |
| Alerts.StylesDistinct | notes/Notion/unified_notion_manager.py:101-105 | each kind has its own icon and its own background colour |
| CodeLanguage.Normalize | notes/Notion/unified_notion_manager.py:156-157 | the language is always one Notion accepts, and it is the input, the input's alias target, or `plain text` |
| CodeLanguage.AliasTargetsValid | notes/Notion/unified_notion_manager.py:146-154 | every alias target is in the list of valid languages |
| CodeLanguage.NormalizeAlias | notes/Notion/unified_notion_manager.py:156-157 | an alias is replaced by its target |
| CodeLanguage.NormalizeKeepsValid | notes/Notion/unified_notion_manager.py:156-157 | a valid language that is not an alias is kept as written |
| CodeLanguage.NormalizeUnknown | notes/Notion/unified_notion_manager.py:156-157 | a name that is neither an alias nor valid falls back to `plain text` |
| CodeLanguage.PlainTextNoAlias | notes/Notion/unified_notion_manager.py:147-154 | table entry, as an example: `plain text` is not an alias key |
| CodeLanguage.PlainTextValid | notes/Notion/unified_notion_manager.py:146 | table entry, as an example: `plain text` is in the list of valid languages |
| CodeLanguage.PlainTextKept | notes/Notion/unified_notion_manager.py:139-157 | the default language survives normalisation unchanged |
| CodeLanguage.BlockLanguage | notes/Notion/unified_notion_manager.py:139-157 | a code block's language, when no exception is raised, is a valid Notion language |
| CodeLanguage.BlockLanguageCases | notes/Notion/unified_notion_manager.py:139-141 | an indented block or a fence without info gets `plain text`; a fence with info raises `IndexError` exactly when the info is all whitespace, and otherwise takes its first word (non-empty, no whitespace), lower-cased and normalised |
| CodeLanguage.CodeText | notes/Notion/unified_notion_manager.py:159 | the code text is a prefix of the content, at most 2000 characters, the whole content when it fits and exactly 2000 otherwise |
| CodeLanguage.AliasEntries | notes/Notion/unified_notion_manager.py:147-154 | table entries, as examples: `cs` maps to `c#`, `zsh` to `bash`, `console` to `shell` |
| CodeLanguage.AliasExamples | notes/Notion/unified_notion_manager.py:147-157 | `cs`, `zsh` and `console` normalise to `c#`, `bash` and `shell` |
| ManagerHelpers.NextDigit | notes/Notion/unified_notion_manager.py:189 | the regex scan finds the first digit at or after a position, with no digit before it |
| ManagerHelpers.DigitRunEnd | notes/Notion/unified_notion_manager.py:189 | a digit run extends to the first non-digit, and every character before that is a digit |
| ManagerHelpers.SegmentsFromAlternating | notes/Notion/unified_notion_manager.py:189 | the pieces of `re.split(r'(\d+)', s)` from a position alternate digit-free text and non-empty digit runs, odd in number |
| ManagerHelpers.SegmentsFromJoin | notes/Notion/unified_notion_manager.py:189 | the pieces from a position concatenate back to the rest of the string |
| ManagerHelpers.SegmentsShape | notes/Notion/unified_notion_manager.py:189 | the split of a whole name alternates text and digit runs and concatenates back to the name |
| ManagerHelpers.NaturalSortKeyShape | notes/Notion/unified_notion_manager.py:188-189 | the key has one part per piece: lower-cased text at even positions, the value of the digit run at odd positions |
| ManagerHelpers.KeysComparable | notes/Notion/unified_notion_manager.py:188-191 | any two keys hold a number at the same positions, so `sorted` never compares a number with a string |
| ManagerHelpers.NaturalSortKeyExample | notes/Notion/unified_notion_manager.py:188-189 | `Ch10.md` gets the key `["ch", 10, ".md"]` |
| ManagerHelpers.TagEnd | notes/Notion/unified_notion_manager.py:282 | the tag group runs to the first character outside `[a-zA-Z0-9#+-]` |
| ManagerHelpers.FenceTagChars | notes/Notion/unified_notion_manager.py:282-284 | a matched tag is non-empty, made of tag characters, with no upper-case letter |
| ManagerHelpers.FenceTagOf | notes/Notion/unified_notion_manager.py:282-284 | whitespace, a fence, a run of tag characters and anything that does not continue the run yields exactly that run, lower-cased |
| ManagerHelpers.FenceTagNeedsFence | notes/Notion/unified_notion_manager.py:282 | a line whose first non-blank character is not a backquote yields no tag |
| ManagerHelpers.ParseIntOfDigits | notes/Notion/unified_notion_manager.py:247 | `int` of a run of digits is its value, and with a leading `-` the negated value |
| ManagerHelpers.ParseIntPadded | notes/Notion/unified_notion_manager.py:247 | `int` of a digit run with an optional `+` or `-` and whitespace on either side, as in the pieces of `1, 3`, is its value, negated after `-` |
| ManagerHelpers.ParseIntRoundTrip | notes/Notion/unified_notion_manager.py:247 | `int(str(n))` is `n` |
| ManagerHelpers.ZeroBased | notes/Notion/unified_notion_manager.py:247 | a successful conversion gives one index per comma-separated piece, and the `n`-th index is `int` of the `n`-th piece minus 1 |
| ManagerHelpers.ZeroBasedFails | notes/Notion/unified_notion_manager.py:247-251 | the conversion fails exactly when some piece is not an integer |
| ManagerHelpers.ZeroBasedOfDecimals | notes/Notion/unified_notion_manager.py:247 | the decimal numbers `ns` convert to `n - 1` for each `n`, in order |
| ManagerHelpers.InRange | notes/Notion/unified_notion_manager.py:248 | every kept index is below the number of items |
| ManagerHelpers.InRangeMembers | notes/Notion/unified_notion_manager.py:248 | an index is kept exactly when it was typed and lies in `0 <= i < len(items)` |
| ManagerHelpers.KeepInRangeSpec | notes/Notion/unified_notion_manager.py:248 | the selected items are the items at the in-range indices, in the order typed |
| ManagerHelpers.SplitOnOfJoin | notes/Notion/unified_notion_manager.py:247 | `split(",")` of a comma-joined list of comma-free pieces gives the pieces back |
| ManagerHelpers.SelectionRejects | notes/Notion/unified_notion_manager.py:243-251 | an answer other than `ALL` is rejected as invalid input exactly when some comma-separated piece is not an integer |
| ManagerHelpers.SelectionOfNumbers | notes/Notion/unified_notion_manager.py:241-248 | typing 1-based numbers separated by commas selects the item each names, in order, skipping `0` and numbers past the end |
| RichText.EmitIndices | notes/Notion/unified_notion_manager.py:43-47 | every listed position holds a `text` or `code_inline` token |
| RichText.BuildRichText | notes/Notion/unified_notion_manager.py:38-56 | the source's loop over the flags and the link returns the spans of the specification |
| RichText.SpansAt | notes/Notion/unified_notion_manager.py:43-47 | one span per `text` / `code_inline` token, in order, each built from the state just before that token |
| RichText.EmitIndicesExact | notes/Notion/unified_notion_manager.py:43-47 | the span positions strictly increase and include every `text` / `code_inline` token |
| RichText.OpenedLastStep | notes/Notion/unified_notion_manager.py:48-53 | after one more token a flag is on exactly when that token opens it, or it neither closes it and the flag was on before |
| RichText.StyleFlags | notes/Notion/unified_notion_manager.py:40-53 | bold, italic and strikethrough are on exactly when their last open/close token is an open; underline, code and colour never change |
| RichText.LinkedLastStep | notes/Notion/unified_notion_manager.py:54-55 | after one more token, the last `link_open` has a given `href` exactly when that token is such a `link_open`, or it is no link token and that held before |
| RichText.StyleLink | notes/Notion/unified_notion_manager.py:41-55 | the current link is the `href` of the last `link_open` unless a `link_close` follows it |
| RichText.SpanStyles | notes/Notion/unified_notion_manager.py:44-47 | a span keeps its token's content; inline code is red, code-only and unlinked; text is never code or underlined, keeps the default colour and only links to a non-empty URL |
| RichText.SpansSnoc | notes/Notion/unified_notion_manager.py:43-55 | one more token updates the state by its effect and adds at most its own span |
| RichText.SpansFromInitial | notes/Notion/unified_notion_manager.py:40-55 | once the state is back to plain, the rest converts as if on its own |
| RichText.BoldExample | notes/Notion/unified_notion_manager.py:48-49 | `**bold**` gives one bold span and leaves the state plain |
| RichText.ItalicExample | notes/Notion/unified_notion_manager.py:50-51 | a plain span followed by `*em*` gives a plain span then an italic one |
| RichText.MixedExample | notes/Notion/unified_notion_manager.py:38-56 | bold, plain, italic, plain and inline-code spans for a mixed line |
| NotionBlocks.FindKind | notes/Notion/unified_notion_manager.py:125-126 | the search for a closing token finds the first token of that type, or none with no such token after the start |
| NotionBlocks.FirstInline | notes/Notion/unified_notion_manager.py:85-90 | the `found_text` flag picks the first `inline` of the scope, or none when the scope holds none |
| NotionBlocks.HeadingLevel | notes/Notion/unified_notion_manager.py:67 | the heading level is at most 3 |
| NotionBlocks.MaxLen | notes/Notion/unified_notion_manager.py:135 | the table width is the length of a longest row, 0 without rows |
| NotionBlocks.Step | notes/Notion/unified_notion_manager.py:63-169 | every turn that raises nothing moves the cursor forward and keeps the token count |
| NotionBlocks.Cap | notes/Notion/unified_notion_manager.py:170 | `blocks[:100]` is a prefix of at most 100 blocks, all of them when there are fewer |
| NotionBlocks.DocumentBlocks | notes/Notion/unified_notion_manager.py:58-172 | the result is `[]` after an exception, and otherwise the first blocks of the run, all of them or exactly 100 |
| NotionBlocks.ListItemBranch | notes/Notion/unified_notion_manager.py:82-91 | the `for j` loop with `break` and `found_text` computes the list-item turn |
| NotionBlocks.StripChildContent | notes/Notion/unified_notion_manager.py:111-112 | one child's marker removal, as specified |
| NotionBlocks.StripMarker | notes/Notion/unified_notion_manager.py:110-112 | the loop over the children rewrites them as specified, in place |
| NotionBlocks.QuoteInline | notes/Notion/unified_notion_manager.py:98-118 | the alert chain, the marker removal and the callout-or-quote block, as specified |
| NotionBlocks.BlockquoteBranch | notes/Notion/unified_notion_manager.py:93-120 | the inner loop computes the blockquote turn, including the rewritten token list |
| NotionBlocks.TableBranch | notes/Notion/unified_notion_manager.py:122-136 | the close search and the row/cell loop compute the table turn |
| NotionBlocks.TableRows | notes/Notion/unified_notion_manager.py:127-133 | the row/cell loop computes the specified scan, including the `NameError` of a row end or a cell before any `tr_open` |
| NotionBlocks.CodeBranch | notes/Notion/unified_notion_manager.py:138-160 | the code branch computes the code turn |
| NotionBlocks.Dispatch | notes/Notion/unified_notion_manager.py:64-169 | the `if`/`elif` chain computes one turn |
| NotionBlocks.ParseMdToNotionBlocks | notes/Notion/unified_notion_manager.py:58-172 | the `while` loop with its `try` returns the specified document blocks |
| NotionBlocksProps.HeadingStep | notes/Notion/unified_notion_manager.py:66-71 | a heading of level `min(digit, 3)` is emitted exactly when an `inline` follows; the cursor moves by 3 |
| NotionBlocksProps.HeadingTagErrors | notes/Notion/unified_notion_manager.py:67 | a tag shorter than two raises `IndexError`; a non-digit second character raises `ValueError` |
| NotionBlocksProps.ParagraphStep | notes/Notion/unified_notion_manager.py:73-79 | a paragraph is emitted exactly when an `inline` follows whose content is not blank; the cursor moves by 3 |
| NotionBlocksProps.ListItemStep | notes/Notion/unified_notion_manager.py:82-91 | one bulleted item from the first `inline` of the scope, none without one; the cursor lands past the close, or moves by 1 without one |
| NotionBlocksProps.BlockquoteStep | notes/Notion/unified_notion_manager.py:93-120 | the first `inline` of the scope becomes the callout of the detected kind, built from its children without the marker, or a quote; only that token is rewritten; nothing is emitted without an inline |
| NotionBlocksProps.StripTagEffect | notes/Notion/unified_notion_manager.py:110-112 | only `text` children containing the marker change: their content is a stripped piece of the content with the marker removed; other fields stay |
| NotionBlocksProps.TableRowsCount | notes/Notion/unified_notion_manager.py:127-133 | a scan that raises nothing collects one row per `tr_close` |
| TableProps.TableContents | notes/Notion/unified_notion_manager.py:122-136 | for a closed table laid out as rows, the `n`-th row of the emitted table holds exactly the cells, in order, of the cell openers followed by an `inline` between the `n`-th `tr_open` and its `tr_close`; with no rows nothing is emitted; the cursor lands past the close |
| TableProps.TableRaises | notes/Notion/unified_notion_manager.py:122-133 | the table turn raises exactly when `current_row` was never bound, the table is closed, and a `tr_close` or a cell opener followed by an `inline` comes before the first `tr_open`; the exception is `NameError` |
| TableProps.SkipRow | notes/Notion/unified_notion_manager.py:127-133 | a `tr_open` and its `tr_close` add one collected row holding the cells between them |
| TableProps.SkipCells | notes/Notion/unified_notion_manager.py:130-133 | inside a row, each cell opener followed by an `inline` appends that inline's spans to `current_row`, in order |
| TableProps.BoundNeverRaises | notes/Notion/unified_notion_manager.py:127-133 | once `current_row` is bound the row/cell loop cannot raise |
| TableProps.UnboundUntilRow | notes/Notion/unified_notion_manager.py:127-133 | before any `tr_open`, the first `tr_close` or cell raises `NameError`, and other tokens are skipped |
| NotionBlocksProps.TableStep | notes/Notion/unified_notion_manager.py:122-136 | without a close nothing is emitted and the cursor moves by 1; otherwise the cursor lands past the close and a table is emitted exactly when a row ended, with one row per `tr_close`, the longest row's width, a column header and no row header |
| NotionBlocksProps.CodeStep | notes/Notion/unified_notion_manager.py:138-160 | a code block raises exactly for a fence whose info is non-empty and blank; otherwise one code block with a valid language and the first 2000 characters, the cursor moving by 1 |
| NotionBlocksProps.BlankFenceRaises | notes/Notion/unified_notion_manager.py:140-141 | a non-empty blank info string raises `IndexError` |
| NotionBlocksProps.BlankFenceInfoGivesNothing | notes/Notion/unified_notion_manager.py:141-172 | a document holding such a fence converts to `[]` |
| NotionBlocksProps.CellBeforeRowGivesNothing | notes/Notion/unified_notion_manager.py:129-133 | a table cell before any `tr_open` makes the document convert to `[]` |
| NotionBlocksProps.InlineStep | notes/Notion/unified_notion_manager.py:162-167 | a bare `inline` emits its image blocks and moves the cursor by 1 |
| NotionBlocksProps.ImagesSpec | notes/Notion/unified_notion_manager.py:163-166 | the image blocks are exactly `[Image(cs[k].src) for k in idx]`, where `idx` lists in increasing order every position whose child is an `image` with a non-empty `src` |
| NotionBlocksProps.ImagesMembers | notes/Notion/unified_notion_manager.py:163-166 | there are no more image blocks than children, each comes from an `image` child with a non-empty `src`, and each such child's image is among them |
| NotionBlocksProps.SkippedStep | notes/Notion/unified_notion_manager.py:81-169 | a list opener and any token type the chain does not name emit nothing and move the cursor by 1 |
| NotionBlocksProps.CapExact | notes/Notion/unified_notion_manager.py:170 | a run of 100 blocks or more is cut to exactly its first 100 |
| NotionBlocksProps.AlertStripping | notes/Notion/unified_notion_manager.py:93-120 | a blockquote whose paragraph reads `[!WARNING] ` and text becomes one warning callout of that text alone, and the cursor lands past the close |
| NotionBlocksProps.WarningCallout | notes/Notion/unified_notion_manager.py:93-120 | the same for any token list whose scope holds that inline first |
| NotionBlocksProps.WarningQuote | notes/Notion/unified_notion_manager.py:104-115 | the inline `[!WARNING] ` and text gives the warning callout of that text |
| NotionBlocksProps.WarningDetected | notes/Notion/unified_notion_manager.py:101-104 | `[!WARNING] ` and text without `[` is detected as a warning |
| NotionBlocksProps.WarningStripped | notes/Notion/unified_notion_manager.py:110-112 | removing the marker from that text leaves the text |
| NotionBlocksProps.AlertQuote | notes/Notion/unified_notion_manager.py:107-115 | a detected kind gives its callout, built from the children without its marker, with its icon and colour |
| NotionBlocksProps.PlainTextSpan | notes/Notion/unified_notion_manager.py:44-45 | a lone text token is one plain, unlinked span |
| NotionBlocksProps.WarningStyle | notes/Notion/unified_notion_manager.py:104 | table entry, as an example: the warning kind's icon is the warning sign and its colour the orange background |
| Scraper.RemoveForbidden | notes/Notion/final_web_scraper.py:224 | what is left has no forbidden character and only characters of the input, and input without one is unchanged |
| Scraper.RemoveForbiddenChar | notes/Notion/final_web_scraper.py:224 | one character is removed exactly when it is one of `\ / * ? : " < > \|` and kept otherwise |
| Scraper.RemoveForbiddenAppend | notes/Notion/final_web_scraper.py:224 | the substitution distributes over concatenation, so together with the one-character case it keeps exactly the allowed characters, in order |
| Scraper.CleanedWords | notes/Notion/final_web_scraper.py:226 | the joined words have nothing to strip and are empty exactly when there are no words |
| Scraper.UntitledWellFormed | notes/Notion/final_web_scraper.py:227 | the fallback `Untitled` is a well-formed name |
| Scraper.JoinedWordsName | notes/Notion/final_web_scraper.py:226-227 | joined words have nothing to strip and are well-formed unless empty |
| Scraper.JoinedWordsAllowed | notes/Notion/final_web_scraper.py:224-226 | joining the words brings in no forbidden character |
| Scraper.CleanFilenameWellFormed | notes/Notion/final_web_scraper.py:223-227 | every name is non-empty, has no forbidden character and no outer whitespace, and its only whitespace is single spaces between words |
| Scraper.CleanFilenameFixes | notes/Notion/final_web_scraper.py:223-227 | space-joined words without forbidden characters are their own clean name |
| Scraper.CleanFilenameIdempotent | notes/Notion/final_web_scraper.py:223-227 | cleaning a clean name changes nothing |
| Scraper.KeywordCountOne | notes/Notion/final_web_scraper.py:102 | at least one keyword is counted exactly when one occurs |
| Scraper.KeywordCountTwo | notes/Notion/final_web_scraper.py:102-103 | at least two are counted exactly when two different keywords occur |
| Scraper.IsSqlSpec | notes/Notion/final_web_scraper.py:100-103 | a text is SQL exactly when two different keywords occur in its upper-cased form |
| Scraper.KeywordCountMonotone | notes/Notion/final_web_scraper.py:102 | a text containing every keyword another contains counts at least as many |
| Scraper.IsSqlAppend | notes/Notion/final_web_scraper.py:100-103 | appending text never takes the SQL tag away |
| Scraper.WrappersUnwrap | notes/Notion/final_web_scraper.py:56-69 | empty text gives empty Markdown; other text comes back intact from between its wrapper's markers |
| Scraper.ConvertALink | notes/Notion/final_web_scraper.py:23-28 | an `http` target is kept whatever the base URL, a link is always written, and the target reads back from between `[caption](` and `)`, the caption being the text or, when that is empty, the target |
| Scraper.ConvertARelative | notes/Notion/final_web_scraper.py:23-28 | a relative target is replaced by its resolved form, which reads back from the link; a resolved form that is empty leaves the text alone |
| Scraper.ConvertANoLink | notes/Notion/final_web_scraper.py:23-28 | without a target the text comes back bare, and with empty text the missing or empty `href` itself; the result is `None` exactly when both `href` and text are missing |
| Scraper.ConvertImgSource | notes/Notion/final_web_scraper.py:30-35 | the source is `src`, else `data-src`, else `data-original`, empty ones counting as missing; the image is dropped exactly when there is no source or a relative source resolves to an empty string |
| Scraper.ConvertImgAbsolute | notes/Notion/final_web_scraper.py:33-35 | an `http` source is written unchanged whatever the base URL, and the Markdown reads back to the chosen source |
| Scraper.UpperAllHas | notes/Notion/final_web_scraper.py:73 | a name is among the upper-cased classes exactly when some class upper-cases to it |
| Scraper.HasClassOfNames | notes/Notion/final_web_scraper.py:75-79 | the class names that mark each kind, as the chain tests them |
| Scraper.DivAlertSpec | notes/Notion/final_web_scraper.py:73-79 | a div is alert k exactly when a class names k, in any case, and none names an earlier kind; it is no alert exactly when no class names any kind |
| Scraper.AlertBodyDropsWord | notes/Notion/final_web_scraper.py:87-90 | when the stripped text starts with the type name in any case (even inside a longer word), that prefix is cut and the rest stripped |
| Scraper.AlertBodyKeepsText | notes/Notion/final_web_scraper.py:87-89 | text not starting with the type word only loses its outer whitespace |
| Scraper.ConvertDivShape | notes/Notion/final_web_scraper.py:81-98 | a non-alert div passes its text through; an alert opens with the `[!KIND]` line, quotes every body line and ends with a blank line |
| Scraper.ConvertDivDetected | notes/Notion/final_web_scraper.py:92-95 | the scraper's alert blockquote carries its marker, so the uploader detects it as that kind or an earlier one |
| Scraper.MarkedDetected | notes/Notion/unified_notion_manager.py:100-105 | text holding the marker of k is detected as k or an earlier kind |
| Scraper.ConvertPre | notes/Notion/final_web_scraper.py:37-54 | the loop over the classes computes the specified fenced block |
| Scraper.LangOfLast | notes/Notion/final_web_scraper.py:42-45 | the last `lang-` class decides the language, with every `lang-` removed from it |
| Scraper.LangOfNone | notes/Notion/final_web_scraper.py:42-45 | without a `lang-` class there is no language |
| Scraper.PreLanguageSql | notes/Notion/final_web_scraper.py:47-48 | a block without a language is labelled `sql` exactly when the heuristic says so |
| Scraper.PreFenceTag | notes/Notion/final_web_scraper.py:54 | the uploader's tag scan reads back the written fence, both on the whole block and on the fence line the line-by-line scan meets: the lower-cased language when made of tag characters, nothing for an unlabelled block |
| Scraper.FenceLineTag | notes/Notion/unified_notion_manager.py:281-284 | on the fence line, line break included, the tag regex finds the lower-cased language when it is made of tag characters, and nothing for an unlabelled fence |
| Scraper.FenceTagBeforeLine | notes/Notion/final_web_scraper.py:54 | the same, for a fence written after a blank line |
| Scraper.UnlabelledFence | notes/Notion/final_web_scraper.py:54 | an unlabelled fence carries no tag |
| Scraper.LeadingEnd | notes/Notion/final_web_scraper.py:196 | the intro cleanup stops at the first line not dropped, and every line before it is dropped |
| Scraper.DropLeading | notes/Notion/final_web_scraper.py:196 | the cleanup never adds lines |
| Scraper.DropLeadingSpec | notes/Notion/final_web_scraper.py:196 | what is left is a suffix that does not start with a droppable line, and every line dropped passes the drop test (blankness for `postprocess_markdown`) |
| Scraper.TruncateFooter | notes/Notion/final_web_scraper.py:189-192 | the marker loop computes the specified truncation |
| Scraper.PopBlankLines | notes/Notion/final_web_scraper.py:195-196 | the `pop(0)` loop computes the specified intro cleanup |
| Scraper.DropChrome | notes/Notion/final_web_scraper.py:198-201 | the `continue` loop computes the specified filter |
| Scraper.PostprocessMarkdown | notes/Notion/final_web_scraper.py:187-203 | the three stages and the join compute the specified article |
| Scraper.CutAtSpec | notes/Notion/final_web_scraper.py:191-192 | cutting keeps a piece of the text in which the marker no longer occurs |
| Scraper.TruncatedAvoids | notes/Notion/final_web_scraper.py:189-192 | after cutting at each marker in turn, none occurs, and what is left is a piece of the text |
| Scraper.CleanedAvoids | notes/Notion/final_web_scraper.py:195-203 | a pattern without line breaks that no line contains is not in the joined cleaned lines |
| Scraper.KeptAvoid | notes/Notion/final_web_scraper.py:196-201 | dropping and filtering lines keeps every remaining line free of a pattern all lines avoided |
| Scraper.PostprocessedNoFooter | notes/Notion/final_web_scraper.py:187-203 | the cleaned article contains none of the footer markers |
| Scraper.FilterIndicesSpec | notes/Notion/final_web_scraper.py:198-201 | the kept lines are the input lines at increasing positions, and a position is kept exactly when its line is accepted |
| Scraper.CleanedSubsequence | notes/Notion/final_web_scraper.py:195-201 | the cleaned lines are the input lines at increasing positions |
| Scraper.KeptSubsequence | notes/Notion/final_web_scraper.py:196-201 | the same for any drop and keep tests |
| Scraper.CleanedComplete | notes/Notion/final_web_scraper.py:195-201 | the skipped leading lines are blank, and after them a line is kept exactly when it does not strip to `Back to top` or `On this page` |
| Scraper.KeptComplete | notes/Notion/final_web_scraper.py:196-201 | the same for any drop and keep tests |
| Scraper.CleanedNoChrome | notes/Notion/final_web_scraper.py:200 | no cleaned line is navigation chrome |
| Scraper.KeptAccepted | notes/Notion/final_web_scraper.py:199-201 | every kept line is one the test accepts |

## Left out

- The markdown-it parser (`md.parse`, line 60) is not part of this model. The converter is modelled
  on the token list it returns.
- Notion API calls, HTTP requests and file I/O are not modelled, and neither are the interactive
  prompts and the menu. This covers `create_page`, `fetch_all`, archiving, `fetch_html` and
  `scrape`. Of `upload_recursive`, only the sort key is modelled; the directory walk is not.
- `urljoin(self.base_url, …)` in `convert_a` and `convert_img` is a `resolve` parameter. URL resolution itself is
  not modelled.
- BeautifulSoup's tree surgery is not modelled: `extract_main_content`, `preprocess_html`, the
  HTML-to-Markdown driver. The converters are modelled on the values BeautifulSoup hands them, such
  as the class list, the converted inner text and the attributes.
- The JavaScript and CSS injection scripts are not part of this model.
- Case mapping (`lower`, `upper`) is modelled for ASCII letters only. Digits for `isdigit`, `\d` and
  `int` are ASCII only. `int` is modelled without underscores between digits.
- ManagerHelpers.ParseIntRoundTrip: states the round trip for non-negative numbers only. Negative
  numbers are covered by `ParseIntOfDigits`.
- NotionBlocks.TableRows: `current_row` is carried from one table to the next. A cell of a later
  table can still extend a row list already emitted in an earlier table's block, and that change to
  an earlier block is not modelled.
- Lines 163-166 read `attrGet("src")` of every `image` child of an `inline` token. The model reads
  the child's `src` field.
