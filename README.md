# Insider-transaction event summaries, modelled in Dafny

This project models the event-description pipeline of `preprocessing/preprocess_texts.py`. The
pipeline reads stock-exchange disclosure events, each a dictionary with an `event_desc`, a
`notify_date`, an `exer_date` and other keys. It turns every insider-transaction disclosure
into a one-line summary such as
`Jane Doe (Director) executed BUY 1000 shares (10.00% of initial) on 2024-01-02 from 10000 shares (1.5%) to 11000 shares (1.65%). Acquired: 1000 shares (+0.15% change).`

The model has three layers:

- `preprocess_events_to_text` is the filter. It keeps the events whose description carries the
  phrase `Name of person/ corporation that conducts the transfer:` and not the words
  `Financial Statement`, and it appends `Notify: …, Exec: …` to each kept description.
- `preprocess_events_texts` is the summariser. It folds the lines of a text into blocks, one
  per disclosure item, with a mutable buffer. It drops the financial-statement blocks. It
  reads ten fields from every other block with ten regular-expression lookups, each of which
  gives `""` when it finds nothing. It adds two optional percentage suffixes, renders a fixed
  template and joins the summaries with newlines.
- `process_events_for_display` is the orchestrator. It replaces the description of every
  transaction event by the first line of its summary. It recovers the execution date from that
  line, clears the notification date and copies every other event unchanged.

Modules, in dependency order:

- `Wrappers`: `Option`.
- `Strings`: Python's `str.isspace`, `strip`, `splitlines`, `split`, `join`, `in`, `upper`
  and `replace(c, "")` on `seq<char>`.
- `Lists`: the filter-and-map and map list builders, written so that a loop can follow them.
- `Scanners`: each regular expression as a dedicated scanner. A ghost account of what it
  means for the expression to match, and of which match Python's backtracking engine reports,
  is proved to agree with the scanner.
- `Metrics`: `float()` on the strings the extractor can produce, and the `.2f` renderings.
- `Segmenter`: the partition of the lines into blocks, and the buffer loop.
- `Summaries`: fields, template, the summary text and the summariser method.
- `Events`: the event record, the filter method and the orchestrator method.

The four loops of the source (lines 8, 33, 44 and 104) are methods: `PreprocessEventsToText`,
`FoldLines`, `PreprocessEventsTexts` and `ProcessEventsForDisplay`. Each is proved equal to a specification function,
and the properties are lemmas about those functions. The field getters, the metric suffixes
and the template are functions.

## Model

| member | source | states |
|---|---|---|
| Events.PreprocessEventsToText | preprocessing/preprocess_texts.py:4-25 | the loop returns `SelectedTexts(events)`: the kept events' enhanced descriptions, in input order |
| Events.SelectedTextsSpec | preprocessing/preprocess_texts.py:8-23 | the output distributes over concatenation of the input; one event gives its description plus ` Notify: n, Exec: e` exactly when it lacks `Financial Statement` and has the anchor phrase, and nothing otherwise |
| Events.SelectedTextsMembers | preprocessing/preprocess_texts.py:9-23 | every returned string is some input event's description, free of `Financial Statement` and holding the anchor, followed by its two dates; missing keys read as `""` |
| Segmenter.IsAnchorLineMeaning | preprocessing/preprocess_texts.py:34 | a line flushes the buffer exactly when some all-whitespace prefix of it is followed by `- Name of person/ corporation that conducts the transfer:` |
| Segmenter.Segment | preprocessing/preprocess_texts.py:29-40 | the segmenting loop returns `Blocks(TextLines(text))`, the blocks of the lines of `text.strip()` |
| Segmenter.FoldLines | preprocessing/preprocess_texts.py:32-40 | the loop over the mutable buffer returns `Blocks(lines)`: flush the stripped buffer before a cut line when the buffer is non-empty, append `" " + line.strip()` always, flush the rest at the end |
| Segmenter.FoldFlush | preprocessing/preprocess_texts.py:34-38 | one loop turn on a cut line after the first line appends the stripped buffer to the blocks and restarts the buffer with that line |
| Segmenter.FoldAppend | preprocessing/preprocess_texts.py:38 | one loop turn on any other line appends `" " + line.strip()` to the buffer and leaves the blocks alone |
| Segmenter.GroupsBy | preprocessing/preprocess_texts.py:33-40 | there are no groups exactly when there are no lines, and no group is empty |
| Segmenter.GroupsPartition | preprocessing/preprocess_texts.py:33-40 | the groups flattened give back the lines: no line is lost, duplicated or reordered |
| Segmenter.GroupsCutAt | preprocessing/preprocess_texts.py:34-38 | every group but the first starts with a cut line, and no group holds a cut line after its first line |
| Segmenter.GroupsUnique | preprocessing/preprocess_texts.py:33-40 | any grouping of the lines with those cuts is the one the fold computes |
| Segmenter.GroupsStartWithFirstLine | preprocessing/preprocess_texts.py:32-38 | the first group starts with the first line, so a preamble before the first anchor line becomes block 0 |
| Segmenter.NoBlocksIffBlank | preprocessing/preprocess_texts.py:30-40 | a whitespace-only text gives no blocks, and every other text gives at least one |
| Segmenter.BlockIsJoin | preprocessing/preprocess_texts.py:36-40 | each block is its stripped lines joined by single spaces, stripped once more |
| Segmenter.BlocksJoinAsLines | preprocessing/preprocess_texts.py:30-40 | when no line is blank, the blocks joined by single spaces equal the stripped lines joined by single spaces |
| Segmenter.LaterBlocksStartWithAnchor | preprocessing/preprocess_texts.py:34-38 | every block after the first starts with `- Name of person/ corporation that conducts the transfer:` |
| Segmenter.BufferIsJoin | preprocessing/preprocess_texts.py:38 | the buffer of a group is a space followed by its stripped lines joined by single spaces |
| Scanners.Search | preprocessing/preprocess_texts.py:49 | the result is the first position from `from` where the scanner matches; none matches before it, and none at all when the result is `None` |
| Scanners.MatchAtIsRegexMatch | preprocessing/preprocess_texts.py:52-67 | at a position the scanner returns a group exactly when the regular expression matches there, and the group is the one Python's backtracking reports (greedy `\s*`, lazy `.*?`) |
| Scanners.DecompositionUnique | preprocessing/preprocess_texts.py:52-67 | at a position at most one group is the one Python reports, so the captured text is determined |
| Scanners.SearchIsLeftmostMatch | preprocessing/preprocess_texts.py:49 | `Search` is `re.search`: the leftmost position where the pattern matches and the preferred group there, or no match anywhere |
| Scanners.GetIsStrippedLeftmostGroup | preprocessing/preprocess_texts.py:48-50 | the getter gives `""` when the pattern matches nowhere, and otherwise the stripped group of the leftmost match; it never fails |
| Scanners.DashGroupShape | preprocessing/preprocess_texts.py:52-54 | a `tag\s*(.*?)\s*-` group holds no `-` and no newline: it stops before the first `-` |
| Scanners.CountGroupShape | preprocessing/preprocess_texts.py:57-65 | a count group holds only digits and commas, plus `-` for the acquired count |
| Scanners.PercentGroupShape | preprocessing/preprocess_texts.py:59 | a percent group is a non-empty run of digits and dots followed by `%` |
| Scanners.DateGroupShape | preprocessing/preprocess_texts.py:67 | a date group has the shape `DDDD-DD-DD` |
| Scanners.LazyPercentIsLeftmost | preprocessing/preprocess_texts.py:59 | the lazy `.*?([\d.]+%)` scanner finds a match exactly when one exists, and the one with the shortest prefix |
| Summaries.ExtractFieldsShape | preprocessing/preprocess_texts.py:52-67 | for any block, name, position and type hold no `-` and no newline; the four counts are digits without commas (with `-` for acquired); the percentages are `""` or `[\d.]+%`; the date is `""` or `DDDD-DD-DD` |
| Summaries.CountShape | preprocessing/preprocess_texts.py:57-65 | a count field with its commas removed holds only digits, and `-` when signed |
| Summaries.WellShapedParseable | preprocessing/preprocess_texts.py:71-81 | the fields handed to `float()` are over the characters the model of `float()` covers |
| Metrics.NatToString | preprocessing/preprocess_texts.py:82 | the decimal rendering is non-empty digits denoting `n`, with no leading zero |
| Metrics.ParseFloatSucceeds | preprocessing/preprocess_texts.py:71-81 | `float()` on a string over `[\d.]` succeeds exactly when it has at most one dot and at least one digit |
| Metrics.ParseFloatNatToString | preprocessing/preprocess_texts.py:80-81 | `float()` reads back a rendered whole number |
| Metrics.ParseFloatFixed2 | preprocessing/preprocess_texts.py:74 | `float()` reads back `q.dd` as `q + dd/100` |
| Metrics.RoundHalfEven | preprocessing/preprocess_texts.py:74 | the result is within half of `x`, and on a tie it is even |
| Metrics.Fixed2DigitsValue | preprocessing/preprocess_texts.py:74 | the `.2f` digits end in a dot and two decimals and read back within 0.005 of the magnitude |
| Metrics.FormatFixed2Sign | preprocessing/preprocess_texts.py:74 | `+.2f` shows `-` for negatives and `+` otherwise; `.2f` shows no sign for non-negatives |
| Metrics.PctChangeSuffixPresent | preprocessing/preprocess_texts.py:70-76 | the change suffix is non-empty exactly when both percentages, `%` removed, are decimal literals |
| Metrics.PctChangeSuffixValue | preprocessing/preprocess_texts.py:71-74 | when present, the change suffix is ` (` then the sign of `after - before` then its rounded digits then `% change)` |
| Metrics.DigitsValueZero | preprocessing/preprocess_texts.py:80-81 | a digit string denotes zero exactly when all its digits are `0` |
| Metrics.RegisteredPctSuffixPresent | preprocessing/preprocess_texts.py:79-84 | the registered suffix is non-empty exactly when both counts are non-empty and the initial count is not zero |
| Metrics.RegisteredPctSuffixValue | preprocessing/preprocess_texts.py:80-82 | when present, the registered suffix shows registered over initial times 100 with two decimals |
| Metrics.SuffixesOneLine | preprocessing/preprocess_texts.py:74-82 | neither suffix holds a newline |
| Strings.UpperSpec | preprocessing/preprocess_texts.py:87 | `upper` keeps the length, turns each lower-case ASCII letter into its capital (32 code points lower) and leaves every other character alone; so none is left lower-case, a second `upper` changes nothing and line breaks stay put |
| Strings.RemoveChar | preprocessing/preprocess_texts.py:58-65 | the result has no `c` and keeps every other character of the input |
| Strings.RemoveCharSpec | preprocessing/preprocess_texts.py:58-65 | `replace(c, "")` distributes over concatenation and drops one character exactly when it is `c`, so every other character stays, in order and as often as it occurs |
| Strings.StripSpec | preprocessing/preprocess_texts.py:30 | `strip` gives `""` exactly on all-whitespace input, otherwise a slice that starts and ends with non-whitespace; what it cuts off at either end is whitespace |
| Strings.SplitLinesKeepsText | preprocessing/preprocess_texts.py:30 | the lines of `splitlines` put together are the text with its line breaks removed |
| Strings.SplitLinesSpec | preprocessing/preprocess_texts.py:30 | `splitlines` cuts at every line break: a break-free line is one line, and a break-free line, a break and the rest give that line followed by the lines of the rest, with `\r\n` counting as one break |
| Strings.JoinSplit | preprocessing/preprocess_texts.py:113 | joining the pieces of `split(c)` with `c` gives back the text |
| Strings.SplitJoin | preprocessing/preprocess_texts.py:94 | splitting a `c`-join of pieces free of `c` gives back the pieces |
| Summaries.RenderOneLine | preprocessing/preprocess_texts.py:86-90 | for well-shaped fields the template is one line, ends with the template's full stop and is not blank |
| Summaries.SummaryOneLine | preprocessing/preprocess_texts.py:48-90 | the summary of any block is one non-blank line |
| Summaries.KeptSummariesSpec | preprocessing/preprocess_texts.py:44-92 | every block without `Financial Statement` yields exactly its summary, the others none, in block order |
| Summaries.KeptSummariesFirst | preprocessing/preprocess_texts.py:44-92 | there is no summary exactly when every block is a financial statement; otherwise the first summary is that of the first other block |
| Summaries.KeptSummariesOneLine | preprocessing/preprocess_texts.py:44-92 | no summary holds a newline or is blank |
| Summaries.SummaryTextLines | preprocessing/preprocess_texts.py:94 | the output is `""` when nothing is kept, and otherwise splits at newlines into exactly the summaries, in order |
| Summaries.PreprocessEventsTexts | preprocessing/preprocess_texts.py:28-94 | the summariser returns `SummaryText(text)`: the summaries of the kept blocks of the text joined by newlines |
| Lists.KeepMapAppend | preprocessing/preprocess_texts.py:44-92 | filter-and-map distributes over concatenation |
| Lists.KeepMapEmpty | preprocessing/preprocess_texts.py:44-46 | filter-and-map gives nothing exactly when no element is kept |
| Lists.KeepMapFirst | preprocessing/preprocess_texts.py:44-46 | the first result comes from the first kept element |
| Lists.KeepMapMembers | preprocessing/preprocess_texts.py:8-23 | every result is the image of a kept element |
| Lists.Mapped | preprocessing/preprocess_texts.py:104-126 | the map keeps the length and maps element by element, in order |
| Events.ProcessEventsForDisplay | preprocessing/preprocess_texts.py:97-128 | the loop returns `Mapped(events, ProcessEvent)`: as many events as in the input, each processed in place and in order |
| Events.ProcessEventFrame | preprocessing/preprocess_texts.py:105-126 | every other key keeps its value; an event without the anchor comes back unchanged; a transaction event gets `notify_date` `""` and a description and an execution date; an event whose other keys do not repeat the three named ones keeps that property |
| Events.NonBlankLinesOfNonBlank | preprocessing/preprocess_texts.py:113 | with no blank line, the non-blank stripped lines are all the lines, stripped, in order |
| Events.FirstNonBlankLine | preprocessing/preprocess_texts.py:112-114 | the first non-blank line of one-line summaries joined by newlines is the first summary, stripped; there is none when there are no summaries |
| Events.PreambleSummaryChosen | preprocessing/preprocess_texts.py:110-114 | text before the first anchor line is kept: when the first block is not a financial statement, the new description is its stripped summary |
| Events.ChosenDescIsFirstSummary | preprocessing/preprocess_texts.py:110-114 | the new description is the stripped summary of the first block that is not a financial statement, or the old description when there is no such block |
| Events.RecoveredExerIsLeftmostDate | preprocessing/preprocess_texts.py:116-122 | the new `exer_date` is the date of the leftmost `on DDDD-DD-DD` match in the new description, or the old `exer_date` when there is no match |

Text before the first anchor line is not dropped. It forms block 0 (`Segmenter.GroupsStartWithFirstLine`), and unless it mentions `Financial Statement`, its summary becomes the event's new description (`Events.PreambleSummaryChosen`). The code does this, and the model follows it.

## Left out

- `preprocessing/load_data.py` and `database/connection.py` are not part of this model. They do network fetches, sleeping, pandas reshaping, SQL reads and writes, and engine configuration.
- Event values are strings. Non-string values such as pandas `NaN` in `event_desc` are not modelled. The other keys' values are kept verbatim as an opaque type.
- Dictionary key order and the identity of the shallow copy (`event.copy()`) are not modelled. An event is a value, so "copied unchanged" is equality.
- The regular expressions are modelled as the twelve patterns in use, not as a general engine: the ten field lookups (lines 52-67), the anchor-line `re.match` (line 34, `Segmenter.IsAnchorLine`) and `on (\d{4}-\d{2}-\d{2})` (line 117, `Events.OnDatePattern`). `\d` is ASCII digits only; Python's `str` patterns also accept other Unicode decimal digits.
- `upper` changes only ASCII letters. Python also upper-cases other scripts and can change a string's length (`ß`).
- Metrics.ParseFloat: models Python's `float()` only on strings over `[0-9.]`. The extractor can only pass such strings (Summaries.ExtractFieldsShape). Signs, exponents, whitespace, underscores, `inf` and `nan` are not covered.
- Metrics.Fixed2DigitsValue: numbers are exact rationals, rounded to hundredths with ties to even. Python rounds the nearest IEEE double, which can differ on ties and in the last digit. Only the value within 0.005 and the shape of the rendering are claimed.
- Metrics.RegisteredPctSuffixValue: the ratio is computed on exact numbers. Python's `float()` of a count above 2^53 is rounded, so its rendered ratio can differ from the model's in many digits, not only the last.
- Metrics.PctChangeSuffixValue: very large counts or percentages overflow in Python: `float()` of 309 digits or more gives `inf` without raising, and the `* 100` of line 81 can overflow a registered count of a few digits fewer when the initial count is small. Python then renders `inf` or `nan` (` (inf% of initial)`, ` (nan% of initial)`, `+inf`, `+nan`), while the model always renders finite digits. The presence lemmas are not affected, since `float()` does not raise on overflow.
- The exceptions caught at lines 75 and 83 are modelled as `Option`/`""` results. No other exception can arise from the modelled code.
- Segmenter.BlocksJoinAsLines: is stated only for lines none of which is blank. When a block ends with a blank line, that block's `strip()` drops the space the line added. The blocks joined by spaces then have one space fewer than the stripped lines joined by spaces for each blank line that ends a block (two for `x`, a blank line, a blank line, then an anchor line). The unconditional facts are Segmenter.GroupsPartition (no line lost or repeated) and Segmenter.BlockIsJoin. The model follows the code here.
- Running the orchestrator twice is not claimed to leave the result unchanged. A summary keeps the name, position and type verbatim, so it can again hold the anchor phrase and be summarised again.
