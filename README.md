# npci-upi-notify, modelled in Dafny

npci-upi-notify watches NPCI's public table of third-party UPI applications
(TPAPs). Each run fetches the table. It turns the table into a list of
entries: a serial number, the application name, its go-live date, its partner
banks with their UPI handles, and a link. It compares that list with the copy
stored in a GitHub gist. It posts a Discord webhook message for every entry
whose serial number the stored copy lacks. Then it writes the new list back
to the gist.

This project models the core of `index.js`:

- `strings.dfy` (module `Strings`): the JavaScript string operations the
  parser relies on. `\s`, `trim`, `replace(/\s+/g, " ")`, `/^\d+$/`,
  leftmost search and `split` are written out on `seq<char>`.
- `markup.dfy` (module `Markup`): the regular expressions of
  `parseTableToJSON`. Each is written as the leftmost-match search the
  engine performs: cells `<td[^>]*>(.*?)<\/td>` with a lazy body that stops
  at a line terminator, tag removal, and the first `href="…"` value.
- `table_parser.dfy` (module `TableParser`): the row loop of
  `parseTableToJSON` as a method. It is proved equal to a fold over the rows
  (`Scan`). The fold is proved equal to an independent grouping of rows into
  entries (`Grouped`).
- `change_detector.dfy` (module `ChangeDetector`): the comparison with the
  stored document and the choice of new entries.
- `notifier.dfy` (module `Notifier`): the webhook message for one entry.
- `orchestrator.dfy` (module `Orchestrator`): the ordered remote effects of
  one run, which are the posts followed by the write.
- `wrappers.dfy` (module `Wrappers`): `Option`, which stands for JavaScript's
  `undefined`.

`JSON.stringify(…, null, 2)` and `JSON.parse` are parameters of
`ChangeDetector.Detect`. `parse` answers `None` where `JSON.parse` would
throw.

Two consequences of the code are worth stating:

- Serial numbers are not checked for uniqueness. Two rows with the same
  digits give two entries (`TableParser.RepeatedSerialNumberKept`).
- A second detection with the same table and the same stored document
  reports the same entries again. Only a run after the write finds nothing
  (`ChangeDetector.RerunAfterWriteIsUnchanged`).

## Model

| member | source | states |
|---|---|---|
| Strings.DigitsExamples | index.js:93 | `/^\d+$/` accepts "0" and "2024" and rejects "", " 12", "12a" and "-1" |
| Strings.DigitsAreClean | index.js:93 | a serial number that passes `/^\d+$/` is clean text with no `<`, `=` or `"` |
| Strings.ReplaceNewlines | index.js:65 | `replace(/\n/g, " ")`: same length; each `\n` becomes a space and every other character is kept |
| Strings.CollapseShrinks | index.js:65 | `replace(/\s+/g, " ")` never lengthens the text, and gives "" only for "" |
| Strings.CollapseKeepsText | index.js:65 | `replace(/\s+/g, " ")` keeps every non-whitespace character, in order |
| Strings.CollapseKeepsEnds | index.js:65 | the collapsed text starts (ends) with whitespace exactly when the input does |
| Strings.CollapseLeavesSingleSpaces | index.js:65 | after collapsing, every whitespace character is a plain space and no two are adjacent |
| Strings.CollapseAroundSpaces | index.js:65 | a whitespace run between two stretches of text becomes exactly one space, so inner whitespace is kept as one space |
| Strings.CollapseAfterNewlineReplace | index.js:65 | replacing `\n` by a space before collapsing changes nothing |
| Strings.TrimRemovesEnds | index.js:83 | `trim()`: the result has no whitespace at either end and is "" exactly when the input is all whitespace. Otherwise it is one stretch of the input, inner whitespace included, with only whitespace cut off on either side, so every non-whitespace character is kept in order |
| Strings.TrimOfTrimmed | index.js:83 | `trim()` leaves text without whitespace at its ends unchanged |
| Strings.TrimCollapseIsClean | index.js:82-83 | collapse-then-trim gives text that is trimmed and has single plain spaces only |
| Strings.CleanIsFixed | index.js:82-83 | clean text is a fixed point of collapse-then-trim |
| Strings.Find | index.js:79-81 | the leftmost occurrence of a literal at or after a position, or none when there is none |
| Strings.Split | index.js:70 | `split(sep)`: at least one part, and no part contains the separator |
| Strings.JoinSplit | index.js:70 | joining the parts of `split(sep)` with `sep` gives back the string |
| Strings.SplitJoin | index.js:70 | for a separator that cannot overlap itself, such as `<tr>`, `split(sep)` of parts joined by `sep` gives the parts back when no part contains `sep` |
| Strings.JoinClean | index.js:70 | clean parts joined by a clean separator give clean text |
| Markup.CleanMarkup | index.js:65 | the cleaned table markup is the collapsed and trimmed markup: trimmed, single plain spaces only, every non-whitespace character kept in order |
| Markup.CleanMarkupKeepsClean | index.js:65 | markup that is already clean comes out of the cleaning unchanged |
| Markup.DataSegments | index.js:70 | no data segment contains `<tr>`, and there is a data segment only when the markup contains `<tr>` |
| Markup.DataSegmentsJoin | index.js:70 | the data segments are the `<tr>` parts after the first two, and with fewer than two parts there is no `<tr>` and no data segment |
| Markup.TagAt | index.js:78-80 | a match of `open[^>]*>` at a position starts with `open` and ends just past a `>` |
| Markup.TagAtFirstGt | index.js:78-80 | the match ends at the first `>` after `open`, and there is none exactly when `open` is absent or no `>` follows it |
| Markup.FirstTag | index.js:78-80 | the leftmost `open[^>]*>` match; no match starts before it |
| Markup.RemoveFirstTagUnchanged | index.js:78-80 | `replace(/open[^>]*>/, "")` leaves the text unchanged exactly when it holds no such tag |
| Markup.RemoveLeadingTag | index.js:78-80 | a tag at the start of the text is the one removed, and the rest is kept |
| Markup.NoTagUnchanged | index.js:80 | text without `<` has no tag to remove |
| Markup.RemoveFirstUnchanged | index.js:79-81 | for a non-empty literal `lit`, `replace(lit, "")` leaves the text unchanged exactly when `lit` does not occur, and otherwise removes one occurrence's length |
| Markup.RemoveFirstAt | index.js:79-81 | the occurrence removed is the first one |
| Markup.LazyClose | index.js:75 | the lazy `(.*?)<\/td>` ends at a `</td>` at or after the body's start |
| Markup.LazyCloseFirst | index.js:75 | it is the first `</td>`, with no line terminator before it, and there is none exactly when a line terminator precedes every later `</td>` |
| Markup.CellAt | index.js:75 | a cell match at a position spans at least the nine characters of `<td>` and `</td>` |
| Markup.CellAtFirstClose | index.js:75 | a cell match runs from the opening tag to the first `</td>` after it with no line terminator between; there is none exactly when the opening tag is absent or a line terminator precedes every later `</td>` |
| Markup.MatchShape | index.js:75 | a cell match starts with `<td` and ends with `</td>` |
| Markup.MatchesOrdered | index.js:75 | the global `match` loop reports only real matches, in increasing order, none overlapping the previous one |
| Markup.MatchesComplete | index.js:75 | the global `match` loop misses no match: every position where the pattern matches lies inside a reported match |
| Markup.MatchesNone | index.js:75 | with no match anywhere the loop reports nothing, which `|| []` turns into an empty list |
| Markup.CellMatchesOrdered | index.js:75 | every reported cell match is a real one, inside the row, in increasing order, without overlap |
| Markup.CellMatchesComplete | index.js:75 | no cell match of the row is missed |
| Markup.ScanCells | index.js:75 | one matched text per reported cell match |
| Markup.ScanCellsShape | index.js:75 | every matched text starts with `<td` and ends with `</td>` |
| Markup.NoOpenTagNoCells | index.js:75 | markup with no `<td` has no cell |
| Markup.ScanCellsOfRow | index.js:75 | a row of `<td>…</td>` cells, each after the one space the cleaning leaves of the indentation, with no `</td>` or line break inside a cell, matches exactly those cells, in order |
| Markup.CellText | index.js:76-84 | the text of a cell is trimmed and has single plain spaces only |
| Markup.CellTextOfPlain | index.js:76-84 | the text of a cell holding plain text is that text, collapsed and trimmed |
| Markup.CellTextOfLink | index.js:76-84 | the text of a cell holding one link is the link's text, collapsed and trimmed |
| Markup.CellOfPlainText | index.js:76-84 | a `<td>` cell holding clean text without `<` yields that text |
| Markup.CellOfLinkText | index.js:76-84 | a `<td>` cell holding a link around clean text without `<` yields that text |
| Markup.ExtractCells | index.js:75-85 | one clean text per cell match of the row |
| Markup.ExtractCellsOfRow | index.js:75-85 | the texts of a row of space-separated `<td>…</td>` cells, followed by any text without `<td`, are the texts of those cells, in order |
| Markup.PlainRowCells | index.js:75-85 | a row of space-separated cells holding clean text without `<` gives exactly those texts, in order |
| Markup.LinkedRowCells | index.js:75-85 | a row of space-separated cells whose second cell is a link gives the plain texts, the link's text included, in order |
| Markup.BlankRowHasNoCells | index.js:73-90 | a blank segment has no cell, so skipping it and skipping a cell-less row agree |
| Markup.HrefAt | index.js:87 | `href="([^"]+)"` at a position captures a non-empty value without `"` that occurs there between the quotes |
| Markup.HrefAtFindsValue | index.js:87 | conversely, `href="v"` with a non-empty `v` free of `"` matches there and captures `v` |
| Markup.FirstHrefIndex | index.js:87 | the leftmost `href="…"` match; none starts before it |
| Markup.FirstHrefLeftmost | index.js:87-88 | the URL has no `"`; it is "" exactly when no `href="…"` with a non-empty value occurs, and otherwise is the value of the leftmost one |
| Markup.FirstHrefAfter | index.js:87-88 | the first `href="v"` of a row, with no `=` before it, gives the URL `v` |
| Markup.NoHrefWithoutEquals | index.js:87-88 | a row without `=` has the URL "" |
| Markup.LinkedRowHref | index.js:87-88 | a row whose second cell links to `url`, with no `=` in its first cell, has the URL `url` |
| TableParser.ReadRow | index.js:75-88 | a row has one clean text per cell match, and its URL is "" exactly when it has no `href="…"` match |
| TableParser.NewEntryOpens | index.js:98-109 | an opening row's entry has the row's first cell (all digits) as serial number, the second and third cells as name and go-live date, and the one pair of the fourth and fifth cells, each `undefined` when the row is shorter; its link is the `href` value when there is one, else the sixth cell, and is undefined exactly when neither exists |
| TableParser.StepKeepsEmitted | index.js:90-115 | one iteration never withdraws an emitted entry; the output grows by one entry exactly on an opening row, and any other row keeps `result` and whether an entry is open |
| TableParser.ParseTableToJson | index.js:64-123 | the loop's result equals the fold `Scan` over the rows read from the cleaned markup |
| TableParser.FeedClose | index.js:72-120 | running the loop from any state and pushing the open entry gives the finished entries, then the open entry with its remaining continuation pairs, then the grouped rest |
| TableParser.StartCase | index.js:93-109 | an opening row closes the open entry and starts a new one, and this keeps that invariant |
| TableParser.ContinueCase | index.js:110-115 | a continuation row appends its pair to the open entry, and this keeps that invariant |
| TableParser.ScanIsGrouped | index.js:64-123 | the parser's output equals the independent grouping: one entry per opening row, with the pairs of the continuation rows up to the next opening row |
| TableParser.Starts | index.js:93 | the rows whose first cell is all digits, in order |
| TableParser.GroupedFollowsStarts | index.js:93-109 | the grouping has one entry per opening row, each opened by that row |
| TableParser.EntriesFollowOpeningRows | index.js:92-109 | the parser gives one entry per row whose first cell is all digits, in table order. Each entry's serial number is that first cell (non-empty digits), its fields come from that row, and it has at least one pair |
| TableParser.ContinuationsOfRun | index.js:110-115 | N continuation rows before the next opening row contribute exactly their N pairs, in order |
| TableParser.ContinuationRowsAddBanks | index.js:102-115 | an opening row followed by N continuation rows gives an entry with N+1 pairs: the row's own pair first, then one per continuation row in order |
| TableParser.IgnoredRowsKeepState | index.js:72-116 | a blank segment, a row without cells, or a non-opening row with no entry open or with fewer than two cells leaves `result` and `currentEntry` unchanged |
| TableParser.TableMarkupRows | index.js:65-72 | markup whose cleaning gives a lead, a header and data segments joined by `<tr>`, none holding `<tr>`, is read as exactly its data segments, in order |
| TableParser.CleanTableMarkupRows | index.js:65-72 | table markup that is already clean is read as exactly its data segments, in order |
| TableParser.SpacedTableIsClean | index.js:65 | pieces with single spaces between tags, joined by `<tr>` and starting and ending with a tag, make markup the cleaning leaves unchanged |
| TableParser.PlainRowReads | index.js:75-88 | a row of space-separated plain cells, ended by any text without `<td`, `<tr>` or `=`, reads as those texts with the URL "" |
| TableParser.LinkedRowReads | index.js:75-88 | a row of space-separated cells whose second cell links to `url`, ended by any text without `<td` or `<tr>`, reads as its plain texts with the URL `url`, for any clean URL without `<`, `>` or `"` (a query string with `=` included); only the first cell must be free of `=` |
| TableParser.QueryStringLinkReads | index.js:75-88 | a row linking to `https://x.com/?a=b` reads with that whole URL |
| TableParser.TableOfOneEntry | index.js:64-123 | any markup whose cleaning gives a header, an opening row whose name links to `url` (any clean URL without `<`, `>` or `"`) and one continuation row, cells separated by spaces, parses to one entry: the opening row's fields, the two pairs in row order, and the link |
| TableParser.IndentedTableReads | index.js:64-123 | an indented table as the cleaning leaves it, one space between tags, with an opening row and a continuation row, parses to one entry with both pairs and the link |
| TableParser.OpeningThenContinuation | index.js:93-120 | an opening row and a continuation row give one entry carrying both pairs in order |
| TableParser.ShortNumericRow | index.js:98-109 | an opening row with two cells gives `undefined` date, bank, handle and link rather than failing |
| TableParser.OneEntryTwoBanks | index.js:93-120 | an opening row with a link and one continuation row give one entry with two pairs and that link |
| TableParser.RepeatedSerialNumberKept | index.js:93-96 | two opening rows with the same digits give two entries with the same serial number |
| TableParser.NumericBankNameOpensEntry | index.js:93-115 | a would-be continuation row whose first cell is all digits opens a new entry instead |
| ChangeDetector.NewEntries | index.js:174-177 | an entry is reported exactly when it is in the current list and no stored entry has its serial number |
| ChangeDetector.NewEntriesKeepOrder | index.js:174-177 | the reported entries keep the table's order |
| ChangeDetector.NewEntriesCount | index.js:174-177 | each entry with an unseen serial number is reported as often as it occurs; one with a known serial number never |
| ChangeDetector.Detect | index.js:164-206 | the run is unchanged exactly when the serialized table equals the stored document; it fails exactly when they differ and the document does not parse; otherwise it writes the serialized table and reports exactly the entries with an unseen serial number |
| ChangeDetector.SameContentShortCircuits | index.js:170-206 | identical serialized content means nothing reported, nothing written, and the stored document not parsed |
| ChangeDetector.DifferentContentReportsUnseenSerials | index.js:170-203 | differing content whose stored document parses means the entries with unseen serial numbers are reported, in order, and the new content is written |
| ChangeDetector.KnownSerialsReportNothing | index.js:174-203 | when every serial number is already stored, nothing is reported (field changes are not reported) but the new content is still written |
| ChangeDetector.AllKnownNoneNew | index.js:174-177 | with every serial number stored, the new-entry list is empty |
| ChangeDetector.RerunAfterWriteIsUnchanged | index.js:164-206 | a run after the write, on the same table, finds nothing to do |
| ChangeDetector.SecondSerialIsNew | index.js:174-177 | stored "1" against current "1" and "2" reports only "2" |
| Notifier.Description | index.js:186 | the description starts with the name and go-live lines and ends with the partner-bank heading, and has anything between them exactly when the link starts with "https://" |
| Notifier.Fields | index.js:188-192 | one inline field per pair, in order, named after the bank with the handle as value |
| Notifier.Payload | index.js:181-195 | the message has null content and one embed with the fixed title, the entry's description and null colour, whose fields follow the entry's pairs one for one |
| Notifier.LinkShownOnlyWhenSecure | index.js:186 | a link starting with "https://" appears as a "Link:" line after the go-live date; any other link leaves the text as if there were no link |
| Orchestrator.Announce | index.js:179-203 | at most one post per new entry plus the write; every effect but the last is a post; the last effect is the write exactly when every new entry has a link |
| Orchestrator.LinkedPrefix | index.js:180-186 | the number of new entries before the first one whose link is `undefined` |
| Orchestrator.AnnounceThenWrite | index.js:179-203 | one post per new entry in order, up to the first entry whose link is `undefined`, where the message cannot be built. The write is the last effect, and it happens exactly when every new entry has a link, including when there is none. A rejected post or a failed write is not modelled |
| Orchestrator.NoEffectsWithoutChange | index.js:170-206 | unchanged content or an unparseable stored document gives no post and no write |
| Orchestrator.WriteIsLast | index.js:203 | a write can only be the last effect, and it writes the new content |

## Left out

- Fetching the NPCI page, with up to three retries one second apart (index.js:21-36), is left out. It is remote I/O, so the model starts from the table's markup.
- Locating the table in the page with cheerio, and its errors for a missing page, table or table content (index.js:38-62), are left out. It relies on a third-party HTML parser.
- Reading and writing the gist through Octokit (index.js:125-159) is left out. It is remote I/O, so the stored document is a parameter and the write is an `Orchestrator.Action`.
- A post the webhook rejects (index.js:181) or a gist write that fails (index.js:203) throws and ends the run, so a rejected post also prevents the write. The model treats every post and every write as succeeding; its actions are the effects the run attempts.
- The webhook transport and the one-second pause between posts (index.js:181-197) are left out. They are remote I/O and timing, so a post is an `Orchestrator.Action` carrying its message.
- Loading the environment and checking the required variables (index.js:6-19) are left out. They configure the program and compute nothing.
- Console logging is left out.
- `JSON.stringify` and `JSON.parse` are parameters, not definitions. Their round trip is not modelled, and a stored document is assumed to parse into entries with a `srNo` field.
- Strings are sequences of characters, while JavaScript's are UTF-16 code units. Characters outside the Basic Multilingual Plane count as one character here.
- ChangeDetector.NewEntries: the stored items are compared by `srNo` only, as in the code. No other shape of stored JSON item is modelled.
- Markup.ScanCellsOfRow: this lemma and the row and table lemmas built on it (TableParser.PlainRowReads, TableParser.LinkedRowReads, TableParser.TableOfOneEntry) cover cells each preceded by exactly one space, the form an indented table takes after the cleaning of index.js:65. Cells written back to back, or with other text between them, are read by the same functions, but no lemma states their result.
- Uniqueness and increasing order of serial numbers are not proved. The code does not ensure them.
