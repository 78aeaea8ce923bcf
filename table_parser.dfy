/**
  parseTableToJSON (index.js:64-123): the rows of the table are read one by
  one; a row whose first cell is all digits opens a new entry, a later row
  with at least two cells adds a `{bank, handleName}` pair to the open entry,
  and every other row is passed over.

  The loop is specified by a fold, Scan, over the rows (Step is one
  iteration, Close the final push). Grouped is an independent description of
  the same output, one entry per opening row carrying the pairs of the rows
  up to the next opening row; ScanIsGrouped connects the two.
 */
module TableParser {
  import opened Wrappers
  import opened Strings
  import opened Markup

  /** One `{bank, handleName}` pair; a missing cell is JavaScript's `undefined`. */
  datatype Bank = Bank(bank: Option<string>, handleName: Option<string>)

  /** One application of the table, with the field names the stored JSON uses. */
  datatype Entry = Entry(
    srNo: string,
    tpap: Option<string>,
    goLive: Option<string>,
    pspBanks: seq<Bank>,
    linksURL: Option<string>)

  /** A `<tr>` segment as the loop sees it: the texts of its cells and its first `href` value ("" when it has none). */
  datatype Row = Row(cells: seq<string>, url: string)

  /** The loop's variables: `result` and `currentEntry` (None for `null`). */
  datatype Acc = Acc(result: seq<Entry>, current: Option<Entry>)

  /** index.js:75-88 for one segment. */
  function ReadRow(segment: string): (r: Row)
    ensures |r.cells| == |CellMatches(segment, 0)|
    ensures forall k :: 0 <= k < |r.cells| ==> IsClean(r.cells[k])
    ensures r.url == [] <==> forall q :: 0 <= q <= |segment| ==> HrefAt(segment, q).None?
  {
    FirstHrefLeftmost(segment);
    Row(ExtractCells(segment), FirstHref(segment))
  }

  function ReadRows(segments: seq<string>): seq<Row> {
    seq(|segments|, i requires 0 <= i < |segments| => ReadRow(segments[i]))
  }

  /** The rows the loop of index.js:72 runs over. */
  function TableRows(tableHtml: string): seq<Row> {
    ReadRows(DataSegments(CleanMarkup(tableHtml)))
  }

  /** `cells[i]`, which is `undefined` past the end of the array. */
  function CellOf(cells: seq<string>, i: nat): Option<string> {
    if i < |cells| then Some(cells[i]) else None
  }

  /** index.js:93: the row opens a new entry. */
  predicate StartsEntry(row: Row) {
    |row.cells| > 0 && IsDigits(row.cells[0])
  }

  /** index.js:98-109: the entry an opening row creates. */
  function NewEntry(row: Row): Entry
    requires StartsEntry(row)
  {
    var c := row.cells;
    Entry(c[0], CellOf(c, 1), CellOf(c, 2), [Bank(CellOf(c, 3), CellOf(c, 4))],
          if row.url != [] then Some(row.url) else CellOf(c, 5))
  }

  /** index.js:111-114: the pair a continuation row adds. */
  function ContinuationBank(row: Row): Bank
    requires |row.cells| >= 2
  {
    Bank(Some(row.cells[0]), Some(row.cells[1]))
  }

  function AddBank(e: Entry, b: Bank): Entry {
    e.(pspBanks := e.pspBanks + [b])
  }

  /** index.js:118-120 (and 94-96): the result with the open entry, if any, pushed. */
  function Close(acc: Acc): seq<Entry> {
    match acc.current
    case None => acc.result
    case Some(e) => acc.result + [e]
  }

  /** One iteration of the loop of index.js:72-116, on a row that has been read. */
  function Step(acc: Acc, row: Row): Acc {
    if |row.cells| == 0 then acc
    else if IsDigits(row.cells[0]) then Acc(Close(acc), Some(NewEntry(row)))
    else if acc.current.Some? && |row.cells| >= 2 then
      Acc(acc.result, Some(AddBank(acc.current.value, ContinuationBank(row))))
    else acc
  }

  /**
    The entry an opening row creates: its serial number is the row's first
    cell, it has the row's one pair, and its link is the row's `href` value
    when there is one, else the sixth cell, and undefined when neither exists.
   */
  lemma NewEntryOpens(row: Row)
    requires StartsEntry(row)
    ensures var e := NewEntry(row);
            && e.srNo == row.cells[0] && IsDigits(e.srNo)
            && e.tpap == CellOf(row.cells, 1) && e.goLive == CellOf(row.cells, 2)
            && e.pspBanks == [Bank(CellOf(row.cells, 3), CellOf(row.cells, 4))]
            && (row.url != [] ==> e.linksURL == Some(row.url))
            && (row.url == [] ==> e.linksURL == CellOf(row.cells, 5))
            && (e.linksURL.Some? <==> row.url != [] || |row.cells| > 5)
  {
  }

  /**
    One iteration never withdraws an emitted entry, and the finished output
    grows by one entry exactly on an opening row; any other row leaves
    `result`, and whether an entry is open, as they were.
   */
  lemma StepKeepsEmitted(acc: Acc, row: Row)
    ensures acc.result <= Step(acc, row).result
    ensures |Close(Step(acc, row))| == |Close(acc)| + (if StartsEntry(row) then 1 else 0)
    ensures !StartsEntry(row) ==> Step(acc, row).result == acc.result && (Step(acc, row).current.Some? <==> acc.current.Some?)
  {
  }

  /** The loop run from state `acc` over `rows`. */
  function Feed(acc: Acc, rows: seq<Row>): Acc
    decreases |rows|
  {
    if rows == [] then acc else Feed(Step(acc, rows[0]), rows[1..])
  }

  /** What parseTableToJSON returns for the rows. */
  function Scan(rows: seq<Row>): seq<Entry> {
    Close(Feed(Acc([], None), rows))
  }

  /** index.js:64-123. */
  method ParseTableToJson(tableHtml: string) returns (entries: seq<Entry>)
    ensures entries == Scan(TableRows(tableHtml))
  {
    var segments := DataSegments(CleanMarkup(tableHtml));
    ghost var rows := TableRows(tableHtml);
    var result: seq<Entry> := [];
    var current: Option<Entry> := None;
    for i := 0 to |segments|
      invariant Close(Feed(Acc(result, current), rows[i..])) == Scan(rows)
    {
      var row := segments[i];
      assert rows[i] == ReadRow(row) && rows[i..][1..] == rows[i + 1..];
      if Trim(row) == [] {
        BlankRowHasNoCells(row);
        continue;
      }
      var cells := ExtractCells(row);
      var url := FirstHref(row);
      if |cells| == 0 {
        continue;
      }
      var firstCell := cells[0];
      if IsDigits(firstCell) {
        if current.Some? {
          result := result + [current.value];
        }
        current := Some(Entry(firstCell, CellOf(cells, 1), CellOf(cells, 2),
                              [Bank(CellOf(cells, 3), CellOf(cells, 4))],
                              if url != [] then Some(url) else CellOf(cells, 5)));
      } else if current.Some? && |cells| >= 2 {
        var entry := current.value;
        current := Some(entry.(pspBanks := entry.pspBanks + [Bank(Some(cells[0]), Some(cells[1]))]));
      }
    }
    if current.Some? {
      result := result + [current.value];
    }
    entries := result;
  }

  // ---------------------------------------------------------------------
  // The same output described row group by row group

  /** The pairs that the rows before the next opening row add to an open entry. */
  function Continuations(rows: seq<Row>): seq<Bank> {
    if rows == [] || StartsEntry(rows[0]) then []
    else (if |rows[0].cells| >= 2 then [ContinuationBank(rows[0])] else []) + Continuations(rows[1..])
  }

  function Extend(e: Entry, banks: seq<Bank>): Entry {
    e.(pspBanks := e.pspBanks + banks)
  }

  /** One entry per opening row, carrying the pairs of the rows that follow it up to the next opening row. */
  function Grouped(rows: seq<Row>): seq<Entry> {
    if rows == [] then []
    else if StartsEntry(rows[0]) then [Extend(NewEntry(rows[0]), Continuations(rows[1..]))] + Grouped(rows[1..])
    else Grouped(rows[1..])
  }

  /** The open entry, completed with the pairs `rows` will still add to it. */
  function Pending(current: Option<Entry>, rows: seq<Row>): seq<Entry> {
    match current
    case None => []
    case Some(e) => [Extend(e, Continuations(rows))]
  }

  /** Running the loop from any state: what is emitted, then the completed open entry, then the groups of the rest. */
  lemma {:induction false} FeedClose(acc: Acc, rows: seq<Row>)
    ensures Close(Feed(acc, rows)) == acc.result + Pending(acc.current, rows) + Grouped(rows)
    decreases |rows|
  {
    if rows == [] {
      if acc.current.Some? {
        assert Extend(acc.current.value, []) == acc.current.value;
      }
    } else {
      var r, rs := rows[0], rows[1..];
      var next := Step(acc, r);
      assert Feed(acc, rows) == Feed(next, rs);
      FeedClose(next, rs);
      if StartsEntry(r) {
        StartCase(acc, rows);
      } else if acc.current.Some? && |r.cells| >= 2 {
        ContinueCase(acc, rows);
      } else {
        assert next == acc;
        if acc.current.Some? {
          assert Continuations(rows) == Continuations(rs);
        }
        assert Grouped(rows) == Grouped(rs);
      }
    }
  }

  /** FeedClose, one opening row: the open entry is complete, and the row opens the next group. */
  lemma StartCase(acc: Acc, rows: seq<Row>)
    requires rows != [] && StartsEntry(rows[0])
    ensures Step(acc, rows[0]).result + Pending(Step(acc, rows[0]).current, rows[1..]) + Grouped(rows[1..])
            == acc.result + Pending(acc.current, rows) + Grouped(rows)
  {
    assert Continuations(rows) == [];
  }

  /** FeedClose, one continuation row: its pair moves from the rest's pairs into the open entry. */
  lemma ContinueCase(acc: Acc, rows: seq<Row>)
    requires rows != [] && |rows[0].cells| >= 2 && !IsDigits(rows[0].cells[0]) && acc.current.Some?
    ensures Step(acc, rows[0]).result + Pending(Step(acc, rows[0]).current, rows[1..]) + Grouped(rows[1..])
            == acc.result + Pending(acc.current, rows) + Grouped(rows)
  {
    var r, rs := rows[0], rows[1..];
    var e := acc.current.value;
    var b := ContinuationBank(r);
    assert Continuations(rows) == [b] + Continuations(rs);
    assert Grouped(rows) == Grouped(rs);
    assert e.pspBanks + [b] + Continuations(rs) == e.pspBanks + ([b] + Continuations(rs));
    assert Extend(AddBank(e, b), Continuations(rs)) == Extend(e, [b] + Continuations(rs));
  }

  /** The loop's output is exactly the row groups. */
  lemma ScanIsGrouped(rows: seq<Row>)
    ensures Scan(rows) == Grouped(rows)
  {
    FeedClose(Acc([], None), rows);
  }

  // ---------------------------------------------------------------------
  // Properties of the output

  /** The opening rows, in table order. */
  function Starts(rows: seq<Row>): (starts: seq<Row>)
    ensures forall k :: 0 <= k < |starts| ==> StartsEntry(starts[k])
  {
    if rows == [] then []
    else (if StartsEntry(rows[0]) then [rows[0]] else []) + Starts(rows[1..])
  }

  /** `e` carries the serial number, name, date, first pair and link of opening row `row`. */
  predicate OpenedBy(e: Entry, row: Row)
    requires StartsEntry(row)
  {
    && e.srNo == row.cells[0]
    && e.tpap == CellOf(row.cells, 1)
    && e.goLive == CellOf(row.cells, 2)
    && |e.pspBanks| >= 1
    && e.pspBanks[0] == Bank(CellOf(row.cells, 3), CellOf(row.cells, 4))
    && e.linksURL == (if row.url != [] then Some(row.url) else CellOf(row.cells, 5))
  }

  /** Pairs added after the first one leave an entry opened by its row. */
  lemma ExtendedEntryOpened(row: Row, banks: seq<Bank>)
    requires StartsEntry(row)
    ensures OpenedBy(Extend(NewEntry(row), banks), row)
  {
    NewEntryOpens(row);
  }

  /** An entry opened by its row, in front of entries opened by their rows in turn, keeps them in turn. */
  lemma OpenedInTurn(e: Entry, row: Row, entries: seq<Entry>, starts: seq<Row>)
    requires StartsEntry(row) && OpenedBy(e, row) && |entries| == |starts|
    requires forall k :: 0 <= k < |starts| ==> StartsEntry(starts[k])
    requires forall k :: 0 <= k < |entries| ==> OpenedBy(entries[k], starts[k])
    ensures forall k :: 0 <= k < |[e] + entries| ==> OpenedBy(([e] + entries)[k], ([row] + starts)[k])
  {
    forall k | 0 < k < |[e] + entries| ensures OpenedBy(([e] + entries)[k], ([row] + starts)[k]) {
      assert ([e] + entries)[k] == entries[k - 1] && ([row] + starts)[k] == starts[k - 1];
    }
  }

  lemma {:induction false} GroupedFollowsStarts(rows: seq<Row>)
    ensures |Grouped(rows)| == |Starts(rows)|
    ensures forall k :: 0 <= k < |Grouped(rows)| ==> OpenedBy(Grouped(rows)[k], Starts(rows)[k])
  {
    if rows != [] {
      GroupedFollowsStarts(rows[1..]);
      var groups, starts := Grouped(rows[1..]), Starts(rows[1..]);
      if StartsEntry(rows[0]) {
        var e := Extend(NewEntry(rows[0]), Continuations(rows[1..]));
        assert Grouped(rows) == [e] + groups;
        assert Starts(rows) == [rows[0]] + starts;
        ExtendedEntryOpened(rows[0], Continuations(rows[1..]));
        OpenedInTurn(e, rows[0], groups, starts);
      } else {
        assert Starts(rows) == [] + starts;
      }
    }
  }

  /**
    One entry per row whose first cell is all digits, in row order, each
    opened by that row: its serial number is that first cell (so non-empty and
    all digits), it has at least one pair, and its link is the row's first
    `href` value when there is one and the sixth cell otherwise.
   */
  lemma EntriesFollowOpeningRows(rows: seq<Row>)
    ensures |Scan(rows)| == |Starts(rows)|
    ensures forall k :: 0 <= k < |Scan(rows)| ==> OpenedBy(Scan(rows)[k], Starts(rows)[k])
    ensures forall k :: 0 <= k < |Scan(rows)| ==> IsDigits(Scan(rows)[k].srNo) && |Scan(rows)[k].pspBanks| >= 1
  {
    ScanIsGrouped(rows);
    GroupedFollowsStarts(rows);
  }

  lemma {:induction false} ContinuationsOfRun(conts: seq<Row>, rest: seq<Row>)
    requires forall j :: 0 <= j < |conts| ==> |conts[j].cells| >= 2 && !IsDigits(conts[j].cells[0])
    requires rest == [] || StartsEntry(rest[0])
    ensures |Continuations(conts + rest)| == |conts|
    ensures forall j :: 0 <= j < |conts| ==> Continuations(conts + rest)[j] == ContinuationBank(conts[j])
  {
    if conts != [] {
      assert (conts + rest)[1..] == conts[1..] + rest;
      ContinuationsOfRun(conts[1..], rest);
    } else {
      assert conts + rest == rest;
    }
  }

  /**
    An opening row followed by N continuation rows, then the end of the table
    or another opening row: the first entry has exactly N + 1 pairs, the
    opening row's own pair first and then one `(cells[0], cells[1])` pair per
    continuation row, in row order.
   */
  lemma ContinuationRowsAddBanks(start: Row, conts: seq<Row>, rest: seq<Row>)
    requires StartsEntry(start)
    requires forall j :: 0 <= j < |conts| ==> |conts[j].cells| >= 2 && !IsDigits(conts[j].cells[0])
    requires rest == [] || StartsEntry(rest[0])
    ensures |Scan([start] + conts + rest)| >= 1
    ensures var e := Scan([start] + conts + rest)[0];
            && |e.pspBanks| == |conts| + 1
            && e.pspBanks[0] == Bank(CellOf(start.cells, 3), CellOf(start.cells, 4))
            && forall j :: 0 <= j < |conts| ==> e.pspBanks[j + 1] == ContinuationBank(conts[j])
  {
    var rows := [start] + conts + rest;
    ScanIsGrouped(rows);
    assert rows[0] == start && rows[1..] == conts + rest;
    ContinuationsOfRun(conts, rest);
  }

  /**
    index.js:73, 90, 110: rows the loop passes over leave `result` and
    `currentEntry` as they were: a blank segment, a row without cells, a row
    not opening an entry while none is open, and a non-opening row with fewer
    than two cells.
   */
  lemma IgnoredRowsKeepState(acc: Acc, segment: string)
    requires var row := ReadRow(segment);
             || Trim(segment) == []
             || |row.cells| == 0
             || (!IsDigits(row.cells[0]) && (acc.current.None? || |row.cells| < 2))
    ensures Step(acc, ReadRow(segment)) == acc
  {
    if Trim(segment) == [] {
      BlankRowHasNoCells(segment);
    }
  }

  // ---------------------------------------------------------------------
  // From markup to entries

  /** Cell text that is clean and holds neither `<` (a tag) nor `=` (an `href`). */
  predicate PlainText(t: string) {
    IsClean(t) && '<' !in t && '=' !in t
  }

  /**
    What follows the last cell of a row up to the next `<tr>`: the closing
    `</tr>` and whatever the cleaning leaves after it, with no `<td` and no `<tr>`.
   */
  predicate RowClose(t: string) {
    !Contains(t, "<td") && !Contains(t, "<tr>")
  }

  /** A table's markup: the segment before the first `<tr>`, the header row, then one segment per data row. */
  function TableMarkup(lead: string, header: string, rows: seq<string>): string {
    Join([lead, header] + rows, "<tr>")
  }

  /** The markup of a data row of plain cells, up to the next `<tr>`. */
  function PlainRowMarkup(cells: seq<string>, close: string): string {
    CellsMarkup(cells) + close
  }

  /** The markup of a data row whose second cell links its text to `url`, up to the next `<tr>`. */
  function LinkedRowMarkup(cells: seq<string>, url: string, close: string): string
    requires |cells| >= 2
  {
    CellsMarkup(LinkedCells(cells, url)) + close
  }

  /**
    Markup whose cleaning gives a lead, a header and data segments joined by
    `<tr>`, none holding `<tr>`: the loop runs over exactly the data segments,
    in order.
   */
  lemma TableMarkupRows(html: string, lead: string, header: string, rows: seq<string>)
    requires CleanMarkup(html) == TableMarkup(lead, header, rows)
    requires !Contains(lead, "<tr>") && !Contains(header, "<tr>")
    requires forall k :: 0 <= k < |rows| ==> !Contains(rows[k], "<tr>")
    ensures TableRows(html) == ReadRows(rows)
  {
    var parts := [lead, header] + rows;
    TagLiterals();
    SplitJoin(parts, "<tr>");
    assert parts[2..] == rows;
  }

  /** Table markup that is already clean is read as its data segments. */
  lemma CleanTableMarkupRows(lead: string, header: string, rows: seq<string>)
    requires IsClean(TableMarkup(lead, header, rows))
    requires !Contains(lead, "<tr>") && !Contains(header, "<tr>")
    requires forall k :: 0 <= k < |rows| ==> !Contains(rows[k], "<tr>")
    ensures TableRows(TableMarkup(lead, header, rows)) == ReadRows(rows)
  {
    CleanMarkupKeepsClean(TableMarkup(lead, header, rows));
    TableMarkupRows(TableMarkup(lead, header, rows), lead, header, rows);
  }

  /**
    Single-spaced pieces joined by `<tr>`, starting and ending with a tag,
    make clean markup: the form that the cleaning of index.js:65 gives an
    indented table, with one space left of each run of indentation.
   */
  lemma SpacedTableIsClean(lead: string, header: string, rows: seq<string>)
    requires SingleSpaced(lead) && !StartsWithSpace(lead) && SingleSpaced(header)
    requires forall k :: 0 <= k < |rows| ==> SingleSpaced(rows[k])
    requires !EndsWithSpace(if rows == [] then header else rows[|rows| - 1])
    ensures IsClean(TableMarkup(lead, header, rows))
  {
    var parts := [lead, header] + rows;
    TagLiteralsClean();
    SingleSpacedJoin(parts, "<tr>");
  }

  /** A row of clean cells with a single-spaced end is single-spaced, and ends with a space only where its end does. */
  lemma PlainRowSpaced(cells: seq<string>, close: string)
    requires forall k :: 0 <= k < |cells| ==> IsClean(cells[k])
    requires close != [] && SingleSpaced(close)
    ensures SingleSpaced(PlainRowMarkup(cells, close))
    ensures EndsWithSpace(PlainRowMarkup(cells, close)) <==> EndsWithSpace(close)
  {
    CellsMarkupSingleSpaced(cells);
    SingleSpacedConcat(CellsMarkup(cells), close);
  }

  /** The same holds of a row whose second cell is a link. */
  lemma LinkedRowSpaced(cells: seq<string>, url: string, close: string)
    requires |cells| >= 2 && forall k :: 0 <= k < |cells| ==> IsClean(cells[k]) && '<' !in cells[k]
    requires IsClean(url) && '<' !in url && '>' !in url
    requires close != [] && SingleSpaced(close)
    ensures SingleSpaced(LinkedRowMarkup(cells, url, close))
    ensures EndsWithSpace(LinkedRowMarkup(cells, url, close)) <==> EndsWithSpace(close)
  {
    LinkMarkupFacts(url, cells[1]);
    PlainRowSpaced(LinkedCells(cells, url), close);
  }

  /** Plain text neither holds nor ends in part of `<tr>`. */
  lemma PlainTextNoRowTag(t: string)
    requires '<' !in t
    ensures !Contains(t, "<tr>") && EndsClearOf(t, "<tr>")
  {
    LacksFirstChar(t, "<tr>");
    forall i | 0 <= i < |t| ensures t[i] != '<' {
      assert t[i] in t;
    }
  }

  /** A row of plain cells reads as those cells with no URL, and its markup holds no `<tr>`. */
  lemma PlainRowReads(cells: seq<string>, close: string)
    requires forall k :: 0 <= k < |cells| ==> PlainText(cells[k])
    requires RowClose(close) && '=' !in close
    ensures ReadRow(PlainRowMarkup(cells, close)) == Row(cells, "")
    ensures !Contains(PlainRowMarkup(cells, close), "<tr>")
  {
    TagLiterals();
    PlainRowCells(cells, close);
    CellsMarkupLacks(cells, '=');
    NoHrefWithoutEquals(PlainRowMarkup(cells, close));
    forall k | 0 <= k < |cells| ensures !Contains(cells[k], "<tr>") && EndsClearOf(cells[k], "<tr>") {
      PlainTextNoRowTag(cells[k]);
    }
    CellsMarkupNoRowTag(cells, close);
  }

  /**
    A row whose second cell links to `url` reads as its plain cells with that
    URL, and its markup holds no `<tr>`. Only the first cell, which comes
    before the link, must be free of `=`.
   */
  lemma LinkedRowReads(cells: seq<string>, url: string, close: string)
    requires |cells| >= 2 && forall k :: 0 <= k < |cells| ==> IsClean(cells[k]) && '<' !in cells[k]
    requires '=' !in cells[0]
    requires url != [] && IsClean(url) && '<' !in url && '"' !in url && '>' !in url
    requires RowClose(close)
    ensures ReadRow(LinkedRowMarkup(cells, url, close)) == Row(cells, url)
    ensures !Contains(LinkedRowMarkup(cells, url, close), "<tr>")
  {
    var inners := LinkedCells(cells, url);
    TagLiterals();
    LinkedRowCells(cells, url, close);
    LinkedRowHref(cells, url, close);
    LinkMarkupFacts(url, cells[1]);
    forall k | 0 <= k < |inners| ensures !Contains(inners[k], "<tr>") && EndsClearOf(inners[k], "<tr>") {
      if k != 1 {
        PlainTextNoRowTag(cells[k]);
      }
    }
    CellsMarkupNoRowTag(inners, close);
  }

  /**
    Markup whose cleaning gives a header, an opening row whose name links to
    `url`, and one continuation row: the parser gives one entry, with the
    opening row's fields, the two pairs in row order, and the link.
   */
  lemma TableOfOneEntry(html: string, lead: string, header: string, opening: seq<string>, url: string,
                        continuation: seq<string>, close0: string, close1: string)
    requires |opening| >= 2 && IsDigits(opening[0])
    requires CleanMarkup(html)
          == TableMarkup(lead, header, [LinkedRowMarkup(opening, url, close0), PlainRowMarkup(continuation, close1)])
    requires !Contains(lead, "<tr>") && !Contains(header, "<tr>")
    requires forall k :: 0 <= k < |opening| ==> IsClean(opening[k]) && '<' !in opening[k]
    requires url != [] && IsClean(url) && '<' !in url && '"' !in url && '>' !in url
    requires |continuation| >= 2 && !IsDigits(continuation[0])
    requires forall k :: 0 <= k < |continuation| ==> PlainText(continuation[k])
    requires RowClose(close0) && RowClose(close1) && '=' !in close1
    ensures Scan(TableRows(html))
         == [Entry(opening[0], Some(opening[1]), CellOf(opening, 2),
                   [Bank(CellOf(opening, 3), CellOf(opening, 4)), Bank(Some(continuation[0]), Some(continuation[1]))],
                   Some(url))]
  {
    TwoRowTable(html, lead, header, opening, url, continuation, close0, close1);
    OpeningThenContinuation(opening, url, continuation);
  }

  /** The table of TableOfOneEntry reads as its two data rows. */
  lemma TwoRowTable(html: string, lead: string, header: string, opening: seq<string>, url: string,
                    continuation: seq<string>, close0: string, close1: string)
    requires |opening| >= 2 && IsDigits(opening[0])
    requires CleanMarkup(html)
          == TableMarkup(lead, header, [LinkedRowMarkup(opening, url, close0), PlainRowMarkup(continuation, close1)])
    requires !Contains(lead, "<tr>") && !Contains(header, "<tr>")
    requires forall k :: 0 <= k < |opening| ==> IsClean(opening[k]) && '<' !in opening[k]
    requires url != [] && IsClean(url) && '<' !in url && '"' !in url && '>' !in url
    requires forall k :: 0 <= k < |continuation| ==> PlainText(continuation[k])
    requires RowClose(close0) && RowClose(close1) && '=' !in close1
    ensures TableRows(html) == [Row(opening, url), Row(continuation, "")]
  {
    DigitsAreClean(opening[0]);
    LinkedRowReads(opening, url, close0);
    PlainRowReads(continuation, close1);
    TwoSegmentTable(html, lead, header, LinkedRowMarkup(opening, url, close0), PlainRowMarkup(continuation, close1));
  }

  /** Markup of two data segments reads as those two rows. */
  lemma TwoSegmentTable(html: string, lead: string, header: string, s0: string, s1: string)
    requires CleanMarkup(html) == TableMarkup(lead, header, [s0, s1])
    requires !Contains(lead, "<tr>") && !Contains(header, "<tr>") && !Contains(s0, "<tr>") && !Contains(s1, "<tr>")
    ensures TableRows(html) == [ReadRow(s0), ReadRow(s1)]
  {
    TableMarkupRows(html, lead, header, [s0, s1]);
    ReadTwoRows(s0, s1);
  }

  lemma ReadTwoRows(s0: string, s1: string)
    ensures ReadRows([s0, s1]) == [ReadRow(s0), ReadRow(s1)]
  {
  }

  /** An opening row and a continuation row give one entry carrying both pairs. */
  lemma OpeningThenContinuation(opening: seq<string>, url: string, continuation: seq<string>)
    requires |opening| >= 2 && IsDigits(opening[0]) && url != []
    requires |continuation| >= 2 && !IsDigits(continuation[0])
    ensures Scan([Row(opening, url), Row(continuation, "")])
         == [Entry(opening[0], Some(opening[1]), CellOf(opening, 2),
                   [Bank(CellOf(opening, 3), CellOf(opening, 4)), Bank(Some(continuation[0]), Some(continuation[1]))],
                   Some(url))]
  {
    var rows := [Row(opening, url), Row(continuation, "")];
    assert Starts(rows) == [rows[0]] by {
      assert rows[1..] == [rows[1]] && rows[1..][1..] == [];
      assert Starts([rows[1]]) == [] + Starts([]);
    }
    EntriesFollowOpeningRows(rows);
    assert [rows[0]] + [rows[1]] + [] == rows;
    ContinuationRowsAddBanks(rows[0], [rows[1]], []);
    var e := Scan(rows)[0];
    assert e.pspBanks == [Bank(CellOf(opening, 3), CellOf(opening, 4)), Bank(Some(continuation[0]), Some(continuation[1]))];
    assert Scan(rows) == [e];
  }

  // ---------------------------------------------------------------------
  // Worked examples

  /** A numeric row with only two cells: the missing fields stay undefined and nothing fails. */
  lemma ShortNumericRow()
    ensures Scan([Row(["7", "App"], "")]) == [Entry("7", Some("App"), None, [Bank(None, None)], None)]
  {
    assert IsDigits("7");
  }

  /** An opening row with a link and one continuation row give one entry with two pairs. */
  lemma OneEntryTwoBanks()
    ensures Scan([Row(["1", "App A", "2020-01-01", "Bank X", "@bankx"], "https://x.com"),
                  Row(["Bank Y", "@banky"], "")])
         == [Entry("1", Some("App A"), Some("2020-01-01"),
                   [Bank(Some("Bank X"), Some("@bankx")), Bank(Some("Bank Y"), Some("@banky"))],
                   Some("https://x.com"))]
  {
    var r0 := Row(["1", "App A", "2020-01-01", "Bank X", "@bankx"], "https://x.com");
    var r1 := Row(["Bank Y", "@banky"], "");
    assert IsDigits("1");
    assert !IsDigits("Bank Y") by { assert "Bank Y"[0] == 'B'; }
    var a1 := Step(Acc([], None), r0);
    assert a1 == Acc([], Some(NewEntry(r0)));
    var a2 := Step(a1, r1);
    assert a2 == Acc([], Some(AddBank(NewEntry(r0), ContinuationBank(r1))));
    assert [r0, r1][1..] == [r1] && [r1][1..] == [];
    assert Feed(Acc([], None), [r0, r1]) == Feed(a1, [r1]);
    assert Feed(a1, [r1]) == Feed(a2, []) == a2;
    assert "https://x.com" != [];
    assert NewEntry(r0) == Entry("1", Some("App A"), Some("2020-01-01"), [Bank(Some("Bank X"), Some("@bankx"))], Some("https://x.com"));
    assert Scan([r0, r1]) == Close(a2);
    assert ContinuationBank(r1) == Bank(Some("Bank Y"), Some("@banky"));
    assert Close(a2) == [AddBank(NewEntry(r0), ContinuationBank(r1))];
    assert [Bank(Some("Bank X"), Some("@bankx"))] + [Bank(Some("Bank Y"), Some("@banky"))]
        == [Bank(Some("Bank X"), Some("@bankx")), Bank(Some("Bank Y"), Some("@banky"))];
  }

  /**
    An indented table after the cleaning of index.js:65, one space between
    tags: an opening row with a linked name and a continuation row give one
    entry carrying both pairs and the link.
   */
  lemma IndentedTableReads()
    ensures Scan(TableRows(TableMarkup("<table>", " <th>No</th> </tr> ",
                                       [LinkedRowMarkup(["1", "App", "2020", "BankX", "@x"], "https://x.com", " </tr> "),
                                        PlainRowMarkup(["BankY", "@y"], " </tr> </table>")])))
         == [Entry("1", Some("App"), Some("2020"), [Bank(Some("BankX"), Some("@x")), Bank(Some("BankY"), Some("@y"))],
                   Some("https://x.com"))]
  {
    var opening, continuation, url := ["1", "App", "2020", "BankX", "@x"], ["BankY", "@y"], "https://x.com";
    var close0, close1 := " </tr> ", " </tr> </table>";
    var s0, s1 := LinkedRowMarkup(opening, url, close0), PlainRowMarkup(continuation, close1);
    var html := TableMarkup("<table>", " <th>No</th> </tr> ", [s0, s1]);
    ExampleEntryParts();
    ExampleTableIsClean();
    CleanMarkupKeepsClean(html);
    TableOfOneEntry(html, "<table>", " <th>No</th> </tr> ", opening, url, continuation, close0, close1);
  }

  /** The pieces of IndentedTableReads meet what TableOfOneEntry asks of them. */
  lemma ExampleEntryParts()
    ensures var opening := ["1", "App", "2020", "BankX", "@x"];
            |opening| >= 2 && IsDigits(opening[0]) && forall k :: 0 <= k < |opening| ==> IsClean(opening[k]) && '<' !in opening[k]
    ensures var continuation := ["BankY", "@y"];
            |continuation| >= 2 && !IsDigits(continuation[0]) && forall k :: 0 <= k < |continuation| ==> PlainText(continuation[k])
    ensures var url := "https://x.com"; url != [] && IsClean(url) && '<' !in url && '"' !in url && '>' !in url
    ensures !Contains("<table>", "<tr>") && !Contains(" <th>No</th> </tr> ", "<tr>")
    ensures RowClose(" </tr> ") && RowClose(" </tr> </table>") && '=' !in " </tr> </table>"
  {
    ExampleOpeningCells();
    ExampleContinuationCells();
    ExampleUrl();
    ExampleLead();
    ExampleHeader();
    ExampleRowEnd();
    ExampleTableEnd();
  }

  /** The markup of IndentedTableReads is clean, so the cleaning leaves it as it is. */
  lemma ExampleTableIsClean()
    ensures IsClean(TableMarkup("<table>", " <th>No</th> </tr> ",
                                [LinkedRowMarkup(["1", "App", "2020", "BankX", "@x"], "https://x.com", " </tr> "),
                                 PlainRowMarkup(["BankY", "@y"], " </tr> </table>")]))
  {
    var s0 := LinkedRowMarkup(["1", "App", "2020", "BankX", "@x"], "https://x.com", " </tr> ");
    var s1 := PlainRowMarkup(["BankY", "@y"], " </tr> </table>");
    ExampleLead();
    ExampleHeader();
    ExampleOpeningRowSpaced();
    ExampleContinuationRowSpaced();
    SpacedTableIsClean("<table>", " <th>No</th> </tr> ", [s0, s1]);
  }

  lemma ExampleOpeningRowSpaced()
    ensures SingleSpaced(LinkedRowMarkup(["1", "App", "2020", "BankX", "@x"], "https://x.com", " </tr> "))
  {
    ExampleOpeningCells();
    ExampleUrl();
    ExampleRowEnd();
    LinkedRowSpaced(["1", "App", "2020", "BankX", "@x"], "https://x.com", " </tr> ");
  }

  lemma ExampleContinuationRowSpaced()
    ensures SingleSpaced(PlainRowMarkup(["BankY", "@y"], " </tr> </table>"))
    ensures !EndsWithSpace(PlainRowMarkup(["BankY", "@y"], " </tr> </table>"))
  {
    ExampleContinuationCells();
    ExampleTableEnd();
    PlainRowSpaced(["BankY", "@y"], " </tr> </table>");
  }

  /** The opening row of IndentedTableReads: a serial number and plain texts. */
  lemma ExampleOpeningCells()
    ensures var opening := ["1", "App", "2020", "BankX", "@x"];
            |opening| == 5 && IsDigits(opening[0]) && forall k :: 0 <= k < |opening| ==> PlainText(opening[k])
  {
    VisibleIsClean("1");
    VisibleIsClean("App");
    VisibleIsClean("2020");
    VisibleIsClean("BankX");
    VisibleIsClean("@x");
  }

  /** The continuation row of IndentedTableReads: plain texts, the first not a number. */
  lemma ExampleContinuationCells()
    ensures var continuation := ["BankY", "@y"];
            |continuation| == 2 && !IsDigits(continuation[0]) && forall k :: 0 <= k < |continuation| ==> PlainText(continuation[k])
  {
    VisibleIsClean("BankY");
    VisibleIsClean("@y");
    assert !IsDigit("BankY"[0]);
  }

  /** The link of IndentedTableReads. */
  lemma ExampleUrl()
    ensures var url := "https://x.com"; url != [] && IsClean(url) && '<' !in url && '"' !in url && '>' !in url
  {
    VisibleIsClean("https://x.com");
  }

  /** The lead of IndentedTableReads: one tag. */
  lemma ExampleLead()
    ensures SingleSpaced("<table>") && !StartsWithSpace("<table>") && !Contains("<table>", "<tr>")
  {
    VisibleIsClean("<table>");
    ExampleTagsLack("<tr>");
  }

  /** The header of IndentedTableReads: one heading cell and the row's end, one space between tags. */
  lemma ExampleHeader()
    ensures SingleSpaced(" <th>No</th> </tr> ") && !Contains(" <th>No</th> </tr> ", "<tr>")
  {
    ExampleHeaderLacks();
    ExampleRowEnd();
    VisibleIsClean("<th>No</th>");
    SingleSpacedConcat(" ", "<th>No</th>");
    SingleSpacedConcat(" " + "<th>No</th>", " </tr> ");
    assert " " + "<th>No</th>" + " </tr> " == " <th>No</th> </tr> ";
  }

  /** The end of the opening row of IndentedTableReads. */
  lemma ExampleRowEnd()
    ensures SingleSpaced(" </tr> ") && RowClose(" </tr> ")
  {
    ExampleRowEndLacks("<tr>");
    ExampleRowEndLacks("<td");
  }

  /** The end of the last row of IndentedTableReads, which also closes the table. */
  lemma ExampleTableEnd()
    ensures SingleSpaced(" </tr> </table>") && !EndsWithSpace(" </tr> </table>") && '=' !in " </tr> </table>"
    ensures RowClose(" </tr> </table>")
  {
    ExampleTableEndLacks("<tr>");
    ExampleTableEndLacks("<td");
    ExampleRowEnd();
    VisibleIsClean("</table>");
    SingleSpacedConcat(" </tr> ", "</table>");
    assert " </tr> " + "</table>" == " </tr> </table>";
  }

  /** The tags of IndentedTableReads neither hold nor end in part of `<tr>` or `<td`, and neither does one space. */
  lemma ExampleTagsLack(pat: string)
    requires pat == "<tr>" || pat == "<td"
    ensures !Contains(" ", pat) && EndsClearOf(" ", pat)
    ensures !Contains("</tr>", pat) && EndsClearOf("</tr>", pat)
    ensures !Contains("<table>", pat) && EndsClearOf("<table>", pat)
    ensures !Contains("</table>", pat) && EndsClearOf("</table>", pat)
    ensures !Contains("<th>No", pat) && EndsClearOf("<th>No", pat)
    ensures !Contains("</th>", pat) && EndsClearOf("</th>", pat)
  {
    LacksFirstChar(" ", pat);
    assert "</tr>"[1..] == "/tr>" && "</tr>"[1] != pat[1];
    OnlyFirstMayStart("</tr>", pat);
    assert "<table>"[1..] == "table>" && "<table>"[2] != pat[2];
    OnlyFirstMayStart("<table>", pat);
    assert "</table>"[1..] == "/table>" && "</table>"[1] != pat[1];
    OnlyFirstMayStart("</table>", pat);
    assert "<th>No"[1..] == "th>No" && "<th>No"[2] != pat[2];
    OnlyFirstMayStart("<th>No", pat);
    assert "</th>"[1..] == "/th>" && "</th>"[1] != pat[1];
    OnlyFirstMayStart("</th>", pat);
  }

  lemma ExampleHeaderLacks()
    ensures !Contains(" <th>No</th> </tr> ", "<tr>")
  {
    ExampleTagsLack("<tr>");
    NoContainsConcat(" ", "<th>No", "<tr>");
    NoContainsConcat(" " + "<th>No", "</th>", "<tr>");
    NoContainsConcat(" " + "<th>No" + "</th>", " ", "<tr>");
    NoContainsConcat(" " + "<th>No" + "</th>" + " ", "</tr>", "<tr>");
    NoContainsConcat(" " + "<th>No" + "</th>" + " " + "</tr>", " ", "<tr>");
    assert " " + "<th>No" + "</th>" + " " + "</tr>" + " " == " <th>No</th> </tr> ";
  }

  lemma ExampleRowEndLacks(pat: string)
    requires pat == "<tr>" || pat == "<td"
    ensures !Contains(" </tr> ", pat)
  {
    ExampleTagsLack(pat);
    NoContainsConcat(" ", "</tr>", pat);
    NoContainsConcat(" " + "</tr>", " ", pat);
    assert " " + "</tr>" + " " == " </tr> ";
  }

  lemma ExampleTableEndLacks(pat: string)
    requires pat == "<tr>" || pat == "<td"
    ensures !Contains(" </tr> </table>", pat)
  {
    ExampleTagsLack(pat);
    NoContainsConcat(" ", "</tr>", pat);
    NoContainsConcat(" " + "</tr>", " ", pat);
    NoContainsConcat(" " + "</tr>" + " ", "</table>", pat);
    assert " " + "</tr>" + " " + "</table>" == " </tr> </table>";
  }

  /** A link with a query string is read like any other: the row's URL is the whole `href` value. */
  lemma QueryStringLinkReads()
    ensures ReadRow(LinkedRowMarkup(["1", "App"], "https://x.com/?a=b", "</tr>")) == Row(["1", "App"], "https://x.com/?a=b")
  {
    QueryStringUrlClean();
    QueryStringUrlChars();
    ExampleCellsPlain();
    TagLiterals();
    LinkedRowReads(["1", "App"], "https://x.com/?a=b", "</tr>");
  }

  lemma QueryStringUrlClean()
    ensures IsClean("https://x.com/?a=b")
  {
    VisibleIsClean("https://x.com/?a=b");
  }

  lemma QueryStringUrlChars()
    ensures var url := "https://x.com/?a=b";
            url != [] && '<' !in url && '"' !in url && '>' !in url && url[16] == '='
  {
  }

  lemma ExampleCellsPlain()
    ensures var cells := ["1", "App"];
            |cells| >= 2 && forall k :: 0 <= k < |cells| ==> PlainText(cells[k])
  {
    VisibleIsClean("1");
    VisibleIsClean("App");
  }

  /** Serial numbers are not checked for uniqueness: a repeated one gives a second entry. */
  lemma RepeatedSerialNumberKept()
    ensures var out := Scan([Row(["1", "A"], ""), Row(["1", "B"], "")]);
            |out| == 2 && out[0].srNo == out[1].srNo == "1"
  {
    assert IsDigits("1");
  }

  /** A continuation row whose bank name is all digits is taken for an opening row. */
  lemma NumericBankNameOpensEntry()
    ensures var out := Scan([Row(["1", "App", "2020", "Bank X", "@x"], ""), Row(["42", "@y"], "")]);
            |out| == 2 && |out[0].pspBanks| == 1 && out[1].srNo == "42" && out[1].goLive == None
  {
    assert IsDigits("1") && IsDigits("42");
  }
}
