/**
  The regular expressions parseTableToJSON applies to the table markup
  (index.js:65-88), each written out as the leftmost-match search the
  JavaScript engine performs.
 */
module Markup {
  import opened Wrappers
  import opened Strings

  /**
    index.js:65: newlines become spaces, every whitespace run becomes one
    space, and the ends are trimmed. The newline step changes nothing, so the
    result is the collapsed and trimmed markup, with every non-whitespace
    character kept in order.
   */
  function CleanMarkup(html: string): (r: string)
    ensures IsClean(r)
    ensures Strip(r) == Strip(html)
    ensures r == Trim(Collapse(html))
  {
    TrimCollapseIsClean(ReplaceNewlines(html));
    CollapseAfterNewlineReplace(html);
    CollapseKeepsText(html);
    TrimRemovesEnds(Collapse(ReplaceNewlines(html)));
    Trim(Collapse(ReplaceNewlines(html)))
  }

  /** Markup that is already clean comes out of the cleaning unchanged. */
  lemma CleanMarkupKeepsClean(html: string)
    requires IsClean(html)
    ensures CleanMarkup(html) == html
  {
    CleanIsFixed(html);
  }

  /** index.js:70: the `<tr>` segments after the first two (the header). */
  function DataSegments(clean: string): (segs: seq<string>)
    ensures forall k :: 0 <= k < |segs| ==> !Contains(segs[k], "<tr>")
    ensures segs != [] ==> Contains(clean, "<tr>")
  {
    var parts := Split(clean, "<tr>");
    SplitWhole(clean, "<tr>");
    if |parts| < 2 then [] else parts[2..]
  }

  /** Splitting the cleaned markup into segments and skipping two of them loses exactly those two. */
  lemma DataSegmentsJoin(clean: string)
    ensures var parts := Split(clean, "<tr>");
            |parts| >= 2 ==> Join(parts, "<tr>") == clean && DataSegments(clean) == parts[2..]
    ensures |Split(clean, "<tr>")| < 2 ==> DataSegments(clean) == [] && !Contains(clean, "<tr>")
  {
    JoinSplit(clean, "<tr>");
    var parts := Split(clean, "<tr>");
    if |parts| < 2 {
      assert parts == [clean];
    }
  }

  /**
    `open[^>]*>` at index `p`: `[^>]*` runs up to the first `>` after `open`,
    so the match ends just past that `>`. Returns that end.
   */
  function TagAt(s: string, open: string, p: nat): (r: Option<nat>)
    ensures r.Some? ==> OccursAt(s, open, p) && p + |open| < r.value <= |s| && s[r.value - 1] == '>'
  {
    if !OccursAt(s, open, p) then None
    else match FindChar(s, '>', p + |open|)
      case None => None
      case Some(k) => Some(k + 1)
  }

  /** The tag ends just past the first `>` after `open`; it fails when `open` is absent or no `>` follows. */
  lemma TagAtFirstGt(s: string, open: string, p: nat)
    ensures var r := TagAt(s, open, p);
            r.Some? ==> forall j :: p + |open| <= j < r.value - 1 ==> s[j] != '>'
    ensures var r := TagAt(s, open, p);
            r.None? <==> !OccursAt(s, open, p) || forall j :: p + |open| <= j < |s| ==> s[j] != '>'
  {
  }

  /** The leftmost match of `open[^>]*>` at or after `p`, as (start, end). */
  function FirstTag(s: string, open: string, p: nat): (r: Option<(nat, nat)>)
    requires p <= |s|
    ensures r.Some? ==> p <= r.value.0 && TagAt(s, open, r.value.0) == Some(r.value.1)
    ensures forall q :: p <= q <= |s| && (r.None? || q < r.value.0) ==> TagAt(s, open, q).None?
    decreases |s| - p
  {
    match TagAt(s, open, p)
    case Some(e) => Some((p, e))
    case None => if p == |s| then None else FirstTag(s, open, p + 1)
  }

  /** `s.replace(/open[^>]*>/, "")`: remove the leftmost such tag, if any. */
  function RemoveFirstTag(s: string, open: string): string
  {
    match FirstTag(s, open, 0)
    case None => s
    case Some((a, b)) => s[..a] + s[b..]
  }

  /** The text is unchanged exactly when it holds no such tag. */
  lemma RemoveFirstTagUnchanged(s: string, open: string)
    ensures RemoveFirstTag(s, open) == s <==> forall q :: 0 <= q <= |s| ==> TagAt(s, open, q).None?
  {
  }

  /** A tag at the very start of the text is the one that is removed. */
  lemma RemoveLeadingTag(open: string, attrs: string, rest: string)
    requires '>' !in attrs
    ensures RemoveFirstTag(open + attrs + ">" + rest, open) == rest
  {
    var s := open + attrs + ">" + rest;
    var n := |open| + |attrs|;
    assert s[..|open|] == open;
    forall j | |open| <= j < n ensures s[j] != '>' {
      assert s[j] == attrs[j - |open|];
      assert attrs[j - |open|] in attrs;
    }
    assert s[n] == '>';
    assert TagAt(s, open, 0) == Some(n + 1);
    assert s[n + 1..] == rest;
  }

  /** The same, for a tag in front of a body and a closing literal. */
  lemma RemoveLeadingTagBefore(open: string, attrs: string, body: string, close: string)
    requires '>' !in attrs
    ensures RemoveFirstTag(open + attrs + ">" + body + close, open) == body + close
  {
    RemoveLeadingTag(open, attrs, body + close);
    assert open + attrs + ">" + body + close == open + attrs + ">" + (body + close);
  }

  /** Text without the tag's first character has no such tag to remove. */
  lemma NoTagUnchanged(s: string, open: string)
    requires |open| > 0 && open[0] !in s
    ensures RemoveFirstTag(s, open) == s
  {
    LacksFirstChar(s, open);
    forall q | 0 <= q <= |s| ensures TagAt(s, open, q).None? {
      assert !OccursAt(s, open, q);
    }
    RemoveFirstTagUnchanged(s, open);
  }

  /** `s.replace(lit, "")` for a literal pattern: remove its leftmost occurrence, if any. */
  function RemoveFirst(s: string, lit: string): string
  {
    match Find(s, lit, 0)
    case None => s
    case Some(i) => s[..i] + s[i + |lit|..]
  }

  /** The text is unchanged exactly when the literal does not occur; otherwise one occurrence's length is removed. */
  lemma RemoveFirstUnchanged(s: string, lit: string)
    ensures |lit| > 0 ==> (RemoveFirst(s, lit) == s <==> !Contains(s, lit))
    ensures Contains(s, lit) ==> |RemoveFirst(s, lit)| + |lit| == |s|
  {
    match Find(s, lit, 0)
    case None =>
    case Some(i) =>
      assert OccursAt(s, lit, i);
  }

  /** The occurrence that is removed is the first one. */
  lemma RemoveFirstAt(x: string, lit: string, y: string)
    requires Unbordered(lit) && !Contains(x, lit)
    ensures RemoveFirst(x + lit + y, lit) == x + y
  {
    var s := x + lit + y;
    FindAfter(x, lit, y);
    assert s[..|x|] == x && s[|x| + |lit|..] == y;
  }

  /** A literal that ends the text, and occurs nowhere before, is what is removed. */
  lemma RemoveFirstAtEnd(x: string, lit: string)
    requires Unbordered(lit) && !Contains(x, lit)
    ensures RemoveFirst(x + lit, lit) == x
  {
    RemoveFirstAt(x, lit, "");
    assert x + lit + "" == x + lit && x + "" == x;
  }

  /**
    The lazy `(.*?)<\/td>` after the opening tag: the first `</td>` at or after
    `m`, provided no line terminator (which `.` does not match) comes first.
    There is none exactly when every `</td>` from `m` on has a line
    terminator before it.
   */
  function LazyClose(s: string, m: nat): (r: Option<nat>)
    ensures r.Some? ==> m <= r.value && OccursAt(s, "</td>", r.value)
    decreases |s| - m
  {
    if OccursAt(s, "</td>", m) then Some(m)
    else if m >= |s| then None
    else if IsLineTerminator(s[m]) then None
    else LazyClose(s, m + 1)
  }

  /** LazyClose finds the first `</td>` with no line terminator before it, and fails only when a line terminator precedes every `</td>`. */
  lemma {:induction false} LazyCloseFirst(s: string, m: nat)
    ensures var r := LazyClose(s, m);
            r.Some? ==> forall j :: m <= j < r.value ==> !OccursAt(s, "</td>", j) && !IsLineTerminator(s[j])
    ensures var r := LazyClose(s, m);
            r.None? ==> forall j :: m <= j && OccursAt(s, "</td>", j) ==> exists i :: m <= i < j && IsLineTerminator(s[i])
    decreases |s| - m
  {
    if !OccursAt(s, "</td>", m) && m < |s| {
      if IsLineTerminator(s[m]) {
        assert forall j :: m < j && OccursAt(s, "</td>", j) ==> m <= m < j && IsLineTerminator(s[m]);
      } else {
        LazyCloseFirst(s, m + 1);
      }
    }
  }

  /** `<td[^>]*>(.*?)<\/td>` at index `p`: the end of the match. */
  function CellAt(s: string, p: nat): (r: Option<nat>)
    ensures r.Some? ==> p + 9 <= r.value <= |s|
  {
    match TagAt(s, "<td", p)
    case None => None
    case Some(k) =>
      match LazyClose(s, k)
      case None => None
      case Some(m) => Some(m + 5)
  }

  /**
    A cell match runs from the opening tag to the first `</td>` after it,
    with no line terminator in between; there is no match exactly when the
    opening tag is absent or every `</td>` after it has a line terminator
    before it.
   */
  lemma CellAtFirstClose(s: string, p: nat)
    ensures var t, r := TagAt(s, "<td", p), CellAt(s, p);
            r.Some? ==> && t.Some? && t.value <= r.value - 5
                        && forall j :: t.value <= j < r.value - 5 ==> !OccursAt(s, "</td>", j) && !IsLineTerminator(s[j])
    ensures var t, r := TagAt(s, "<td", p), CellAt(s, p);
            r.None? <==> || t.None?
                         || forall j :: t.value <= j && OccursAt(s, "</td>", j) ==> exists i :: t.value <= i < j && IsLineTerminator(s[i])
  {
    var t := TagAt(s, "<td", p);
    if t.Some? {
      LazyCloseFirst(s, t.value);
    }
  }

  /** A sticky matcher over a text of length `n`: a match at `x` ends after `x`, within the text. */
  ghost predicate Advancing(n: nat, at: nat -> Option<nat>) {
    forall x: nat :: at(x).Some? ==> x < at(x).value <= n
  }

  /**
    The loop behind `match` with the global flag: try the sticky matcher `at`
    at each index from `p` on; after a match, resume where it ended. The
    (start, end) of every match, leftmost first.
   */
  function Matches(n: nat, at: nat -> Option<nat>, p: nat): seq<(nat, nat)>
    requires p <= n && Advancing(n, at)
    decreases n - p
  {
    if p == n then []
    else match at(p)
      case None => Matches(n, at, p + 1)
      case Some(e) => [(p, e)] + Matches(n, at, e)
  }

  /** Every match found is a match of `at`, lies from `p` on, and starts where or after the previous one ended. */
  lemma {:induction false} MatchesOrdered(n: nat, at: nat -> Option<nat>, p: nat)
    requires p <= n && Advancing(n, at)
    ensures forall k :: 0 <= k < |Matches(n, at, p)| ==>
              p <= Matches(n, at, p)[k].0 < Matches(n, at, p)[k].1 <= n
              && at(Matches(n, at, p)[k].0) == Some(Matches(n, at, p)[k].1)
    ensures forall k :: 0 < k < |Matches(n, at, p)| ==> Matches(n, at, p)[k - 1].1 <= Matches(n, at, p)[k].0
    decreases n - p
  {
    if p < n {
      var spans := Matches(n, at, p);
      match at(p)
      case None =>
        MatchesOrdered(n, at, p + 1);
      case Some(e) =>
        MatchesOrdered(n, at, e);
        var rest := Matches(n, at, e);
        assert spans == [(p, e)] + rest;
        forall k | 0 < k < |spans| ensures spans[k] == rest[k - 1] {
        }
    }
  }

  /** No match is missed: every index where `at` matches lies inside one of the matches found. */
  lemma {:induction false} MatchesComplete(n: nat, at: nat -> Option<nat>, p: nat, q: nat)
    requires p <= q < n && Advancing(n, at) && at(q).Some?
    ensures exists k :: 0 <= k < |Matches(n, at, p)| && Matches(n, at, p)[k].0 <= q < Matches(n, at, p)[k].1
    decreases n - p
  {
    var spans := Matches(n, at, p);
    match at(p)
    case None =>
      MatchesComplete(n, at, p + 1, q);
    case Some(e) =>
      var rest := Matches(n, at, e);
      assert spans == [(p, e)] + rest;
      if q < e {
        assert spans[0].0 <= q < spans[0].1;
      } else {
        MatchesComplete(n, at, e, q);
        var k :| 0 <= k < |rest| && rest[k].0 <= q < rest[k].1;
        assert spans[k + 1] == rest[k];
      }
  }

  /** With no match of `at` from `p` on, nothing is found. */
  lemma {:induction false} MatchesNone(n: nat, at: nat -> Option<nat>, p: nat)
    requires p <= n && Advancing(n, at)
    requires forall x: nat :: p <= x < n ==> at(x).None?
    ensures Matches(n, at, p) == []
    decreases n - p
  {
    if p < n {
      MatchesNone(n, at, p + 1);
    }
  }

  /** The cell pattern as a sticky matcher on `s`. */
  function CellMatcher(s: string): (at: nat -> Option<nat>)
    ensures Advancing(|s|, at)
    ensures forall x: nat :: at(x) == CellAt(s, x)
  {
    x => CellAt(s, x)
  }

  /**
    The (start, end) of every match of `/<td[^>]*>(.*?)<\/td>/g` from index
    `p` on, leftmost first, each search resuming where the last match ended.
   */
  function CellMatches(s: string, p: nat): seq<(nat, nat)>
    requires p <= |s|
  {
    Matches(|s|, CellMatcher(s), p)
  }

  /** Every match found is a cell match, lies in `s` from `p` on, and starts where or after the previous one ended. */
  lemma CellMatchesOrdered(s: string, p: nat)
    requires p <= |s|
    ensures forall k :: 0 <= k < |CellMatches(s, p)| ==>
              p <= CellMatches(s, p)[k].0 && CellMatches(s, p)[k].0 + 9 <= CellMatches(s, p)[k].1 <= |s|
    ensures forall k :: 0 <= k < |CellMatches(s, p)| ==> CellAt(s, CellMatches(s, p)[k].0) == Some(CellMatches(s, p)[k].1)
    ensures forall k :: 0 < k < |CellMatches(s, p)| ==> CellMatches(s, p)[k - 1].1 <= CellMatches(s, p)[k].0
  {
    MatchesOrdered(|s|, CellMatcher(s), p);
  }

  /** No match is missed: every index where a cell matches lies inside one of the matches found. */
  lemma CellMatchesComplete(s: string, p: nat, q: nat)
    requires p <= q < |s| && CellAt(s, q).Some?
    ensures exists k :: 0 <= k < |CellMatches(s, p)| && CellMatches(s, p)[k].0 <= q < CellMatches(s, p)[k].1
  {
    MatchesComplete(|s|, CellMatcher(s), p, q);
    var spans := Matches(|s|, CellMatcher(s), p);
    var k :| 0 <= k < |spans| && spans[k].0 <= q < spans[k].1;
    assert CellMatches(s, p)[k] == spans[k];
  }

  /** `row.match(/<td[^>]*>(.*?)<\/td>/g) || []` from index `p` on: the matched text of every match, one per match found. */
  function ScanCells(s: string, p: nat): (cells: seq<string>)
    requires p <= |s|
    ensures |cells| == |CellMatches(s, p)|
  {
    var spans := CellMatches(s, p);
    CellMatchesOrdered(s, p);
    seq(|spans|, k requires 0 <= k < |spans| => s[spans[k].0..spans[k].1])
  }

  /** Every matched cell text starts with `<td` and ends with `</td>`. */
  lemma ScanCellsShape(s: string, p: nat)
    requires p <= |s|
    ensures forall k :: 0 <= k < |ScanCells(s, p)| ==>
              OccursAt(ScanCells(s, p)[k], "<td", 0) && OccursAt(ScanCells(s, p)[k], "</td>", |ScanCells(s, p)[k]| - 5)
  {
    forall k | 0 <= k < |ScanCells(s, p)|
      ensures OccursAt(ScanCells(s, p)[k], "<td", 0) && OccursAt(ScanCells(s, p)[k], "</td>", |ScanCells(s, p)[k]| - 5)
    {
      var a, b := CellMatches(s, p)[k].0, CellMatches(s, p)[k].1;
      assert CellAt(s, a) == Some(b) && ScanCells(s, p)[k] == s[a..b] by {
        CellMatchesOrdered(s, p);
      }
      MatchShape(s, a, b);
    }
  }

  /** The text of a cell match starts with `<td` and ends with `</td>`. */
  lemma MatchShape(s: string, p: nat, e: nat)
    requires CellAt(s, p) == Some(e)
    ensures p + 9 <= e <= |s| && OccursAt(s[p..e], "<td", 0) && OccursAt(s[p..e], "</td>", e - p - 5)
  {
    assert OccursAt(s, "<td", p) && OccursAt(s, "</td>", e - 5);
    OccursInSlice(s, "<td", p, e, 0);
    OccursInSlice(s, "</td>", p, e, e - 5 - p);
  }

  lemma OccursInSlice(s: string, pat: string, p: nat, e: nat, i: nat)
    requires p <= e <= |s| && p + i + |pat| <= e && OccursAt(s, pat, p + i)
    ensures OccursAt(s[p..e], pat, i)
  {
    var t := s[p..e];
    forall k | 0 <= k < |pat| ensures t[i..i + |pat|][k] == pat[k] {
      assert t[i..i + |pat|][k] == t[i + k] == s[p + i + k] == s[p + i..p + i + |pat|][k];
    }
  }

  /** Markup with no `<td` from `p` on holds no cell. */
  lemma NoOpenTagNoCells(s: string, p: nat)
    requires p <= |s|
    requires forall q :: p <= q <= |s| ==> !OccursAt(s, "<td", q)
    ensures ScanCells(s, p) == []
  {
    forall x: nat | p <= x < |s| ensures CellMatcher(s)(x).None? {
      assert !OccursAt(s, "<td", x);
    }
    MatchesNone(|s|, CellMatcher(s), p);
  }

  /**
    `<td>` and `</td>` around each piece of inner markup, in order, each cell
    preceded by the one space that the cleaning of index.js:65 leaves of the
    indentation between tags.
   */
  function CellsMarkup(inners: seq<string>): string
  {
    if inners == [] then [] else " <td>" + inners[0] + "</td>" + CellsMarkup(inners[1..])
  }

  /** `href="url"`. */
  function HrefPair(url: string): string
  {
    "href=\"" + url + "\""
  }

  /** `<a href="url">text</a>`. */
  function LinkMarkup(url: string, text: string): string
  {
    "<a" + (" " + HrefPair(url)) + ">" + text + "</a>"
  }

  /** The tag literals hold no whitespace. */
  lemma TagLiteralsClean()
    ensures IsClean("<td>") && IsClean("</td>") && IsClean("<tr>") && IsClean("</tr>")
    ensures IsClean("<a") && IsClean("href=\"") && IsClean("\"") && IsClean(">") && IsClean("</a>")
  {
    VisibleIsClean("<td>");
    VisibleIsClean("<tr>");
    VisibleIsClean("</a>");
    VisibleIsClean("</td>");
    VisibleIsClean("</tr>");
    VisibleIsClean("href=\"");
    VisibleIsClean("<a");
    VisibleIsClean("\"");
    VisibleIsClean(">");
  }

  /** A character absent from every inner piece and from the cell tags is absent from the row. */
  lemma {:induction false} CellsMarkupLacks(inners: seq<string>, c: char)
    requires c !in " <td>" && c !in "</td>"
    requires forall k :: 0 <= k < |inners| ==> c !in inners[k]
    ensures c !in CellsMarkup(inners)
    decreases |inners|
  {
    if inners != [] {
      CellsMarkupLacks(inners[1..], c);
    }
  }

  /** Clean inner pieces give single-spaced cell markup that ends in a tag, not in a space. */
  lemma {:induction false} CellsMarkupSingleSpaced(inners: seq<string>)
    requires forall k :: 0 <= k < |inners| ==> IsClean(inners[k])
    ensures SingleSpaced(CellsMarkup(inners)) && !EndsWithSpace(CellsMarkup(inners))
    decreases |inners|
  {
    if inners != [] {
      var head := " <td>" + inners[0];
      var rest := CellsMarkup(inners[1..]);
      CellsMarkupSingleSpaced(inners[1..]);
      CellTagsSingleSpaced();
      SingleSpacedConcat(" <td>", inners[0]);
      if inners[0] == [] {
        assert head == " <td>";
      }
      SingleSpacedConcat(head, "</td>");
      SingleSpacedConcat(head + "</td>", rest);
      if rest == [] {
        assert head + "</td>" + rest == head + "</td>";
      }
    }
  }

  /** The cell tags as CellsMarkup writes them: one space before `<td>`, none around `</td>`. */
  lemma CellTagsSingleSpaced()
    ensures SingleSpaced(" <td>") && !EndsWithSpace(" <td>")
    ensures SingleSpaced("</td>") && !StartsWithSpace("</td>") && !EndsWithSpace("</td>")
  {
    TagLiteralsClean();
    SingleSpacedConcat(" ", "<td>");
    assert " " + "<td>" == " <td>";
  }

  /** Cells whose inner pieces neither hold nor end in part of `<tr>` give a row without `<tr>`. */
  lemma {:induction false} CellsMarkupNoRowTag(inners: seq<string>, tail: string)
    requires forall k :: 0 <= k < |inners| ==> !Contains(inners[k], "<tr>") && EndsClearOf(inners[k], "<tr>")
    requires !Contains(tail, "<tr>")
    ensures !Contains(CellsMarkup(inners) + tail, "<tr>")
    decreases |inners|
  {
    if inners == [] {
      assert CellsMarkup(inners) + tail == tail;
    } else {
      TagLiterals();
      var rest := CellsMarkup(inners[1..]) + tail;
      CellsMarkupNoRowTag(inners[1..], tail);
      NoContainsConcat("</td>", rest, "<tr>");
      NoContainsConcat(inners[0], "</td>" + rest, "<tr>");
      NoContainsConcat(" <td>", inners[0] + ("</td>" + rest), "<tr>");
      RegroupRight(" <td>", inners[0], "</td>", CellsMarkup(inners[1..]), tail);
    }
  }

  /** A link around clean text without `<`, to a URL without `<`, `>` or `"`: clean, on one line, and without `</td>` or `<tr>`. */
  lemma LinkMarkupFacts(url: string, text: string)
    requires IsClean(url) && IsClean(text) && '<' !in url && '>' !in url && '<' !in text
    ensures IsClean(LinkMarkup(url, text)) && SingleLine(LinkMarkup(url, text))
    ensures !Contains(LinkMarkup(url, text), "</td>")
    ensures !Contains(LinkMarkup(url, text), "<tr>") && EndsClearOf(LinkMarkup(url, text), "<tr>")
  {
    TagLiteralsClean();
    CleanConcat("href=\"", url);
    CleanConcat("href=\"" + url, "\"");
    CleanJoinSpace("<a", HrefPair(url));
    CleanConcat("<a" + (" " + HrefPair(url)), ">");
    CleanConcat("<a" + (" " + HrefPair(url)) + ">", text);
    CleanConcat("<a" + (" " + HrefPair(url)) + ">" + text, "</a>");
    PlainSpacesAreSingleLine(LinkMarkup(url, text));
    assert '<' !in " " + HrefPair(url);
    LinkHasNoTag(" " + HrefPair(url), text, "</td>");
    LinkHasNoTag(" " + HrefPair(url), text, "<tr>");
  }

  /** Facts about the tag literals that the row lemmas need. */
  lemma TagLiterals()
    ensures Unbordered("</td>") && Unbordered("</a>") && Unbordered("<tr>")
    ensures !Contains(" <td>", "<tr>") && EndsClearOf(" <td>", "<tr>")
    ensures !Contains("</td>", "<tr>") && EndsClearOf("</td>", "<tr>")
    ensures !Contains("</tr>", "<tr>") && !Contains("</tr>", "<td")
  {
    assert "<td>"[1..] == "td>" && "</td>"[1..] == "/td>" && "</tr>"[1..] == "/tr>";
    assert "<a href=\""[1..] == "a href=\"" && "</a>"[1..] == "/a>" && "<tr>"[1..] == "tr>";
    assert " <td>"[3] != "<tr>"[2] && " <td>"[0] != '<';
    assert "</td>"[1] != "<tr>"[1] && "</td>"[2] != "<tr>"[2];
    assert "</tr>"[1] != "<tr>"[1] && "</tr>"[1] != "<td"[1];
    forall i | 1 < i < 5 ensures " <td>"[i] != '<' { assert " <td>"[i] == "td>"[i - 2]; assert "td>"[i - 2] in "td>"; }
    forall i | 0 < i < 5 ensures "</td>"[i] != '<' { assert "</td>"[i] == "</td>"[1..][i - 1]; assert "</td>"[1..][i - 1] in "</td>"[1..]; }
    forall i | 1 <= i < 5 ensures !OccursAt("</tr>", "<td", i) { assert "</tr>"[i] in "</tr>"[1..]; }
  }

  /**
    A row made of space-separated `<td>…</td>` cells whose inner markup has no
    `</td>` and no line break: the global match finds exactly those cells, in
    order.
   */
  lemma {:induction false} ScanCellsOfRow(s: string, p: nat, inners: seq<string>, tail: string)
    requires p <= |s| && s[p..] == CellsMarkup(inners) + tail
    requires CellInners(inners)
    requires !Contains(tail, "<td")
    ensures ScanCells(s, p) == Wrapped(inners)
    decreases |inners|
  {
    if inners == [] {
      TailHasNoCells(s, p, tail);
    } else {
      RowSplitsAtFirstCell(inners, tail);
      SpacedCellAt(s, p, inners[0], CellsMarkup(inners[1..]) + tail);
      CellInnersRest(inners);
      ScanCellsOfRow(s, p + 10 + |inners[0]|, inners[1..], tail);
      WrappedCons(inners, ScanCells(s, p), ScanCells(s, p + 10 + |inners[0]|));
    }
  }

  /** Inner markup the lazy `.*?` of a cell match spans whole: no `</td>` and no line break. */
  predicate CellInners(inners: seq<string>) {
    forall k :: 0 <= k < |inners| ==> !Contains(inners[k], "</td>") && SingleLine(inners[k])
  }

  lemma CellInnersRest(inners: seq<string>)
    requires inners != [] && CellInners(inners)
    ensures !Contains(inners[0], "</td>") && SingleLine(inners[0]) && CellInners(inners[1..])
  {
    assert forall k :: 0 <= k < |inners[1..]| ==> inners[1..][k] == inners[k + 1];
  }

  /** A cell after one space is matched past that space, and the search resumes at its end. */
  lemma SpacedCellAt(s: string, p: nat, inner: string, rest: string)
    requires p <= |s| && s[p..] == " " + ("<td>" + inner + "</td>" + rest)
    requires !Contains(inner, "</td>") && SingleLine(inner)
    ensures p + 10 + |inner| <= |s| && s[p + 10 + |inner|..] == rest
    ensures ScanCells(s, p) == ["<td>" + inner + "</td>"] + ScanCells(s, p + 10 + |inner|)
  {
    SpaceBeforeCell(s, p, "<td>" + inner + "</td>" + rest);
    CellAtOfPlain(s, p + 1, inner, rest);
    assert p + 1 + 9 + |inner| == p + 10 + |inner|;
    ScanCellsAfterSkip(s, p, p + 10 + |inner|);
  }

  lemma RowSplitsAtFirstCell(inners: seq<string>, tail: string)
    requires inners != []
    ensures CellsMarkup(inners) + tail == " " + ("<td>" + inners[0] + "</td>" + (CellsMarkup(inners[1..]) + tail))
  {
    var head := "<td>" + inners[0] + "</td>";
    assert CellsMarkup(inners) == " " + head + CellsMarkup(inners[1..]);
    RegroupLeft(" ", head, CellsMarkup(inners[1..]), tail);
    Associate(" ", head, CellsMarkup(inners[1..]) + tail);
  }

  /** No cell starts at a space. */
  lemma SpaceBeforeCell(s: string, p: nat, rest: string)
    requires p <= |s| && s[p..] == " " + rest
    ensures p < |s| && s[p + 1..] == rest && CellAt(s, p) == None
  {
    assert s[p] == s[p..][0] == ' ';
    assert s[p + 1..] == s[p..][1..];
    assert !OccursAt(s, "<td", p) by {
      if p + 3 <= |s| {
        assert s[p..p + 3][0] == s[p];
      }
    }
  }

  /** With no cell at `p` and one from `p + 1` to `e`, that cell comes first, and the search resumes at `e`. */
  lemma ScanCellsAfterSkip(s: string, p: nat, e: nat)
    requires p + 1 < |s| && CellAt(s, p) == None && CellAt(s, p + 1) == Some(e)
    ensures ScanCells(s, p) == [s[p + 1..e]] + ScanCells(s, e)
  {
    var spans, rest := CellMatches(s, p), CellMatches(s, e);
    assert CellMatcher(s)(p) == None;
    assert CellMatcher(s)(p + 1) == Some(e);
    assert spans == CellMatches(s, p + 1) == [(p + 1, e)] + rest;
    forall k | 1 <= k < |spans| ensures ScanCells(s, p)[k] == ScanCells(s, e)[k - 1] {
      assert spans[k] == rest[k - 1];
    }
  }

  /** Each piece of inner markup between `<td>` and `</td>`. */
  function Wrapped(inners: seq<string>): seq<string>
  {
    seq(|inners|, k requires 0 <= k < |inners| => "<td>" + inners[k] + "</td>")
  }

  /** Cells that start with the first wrapped piece and go on with the others' wrapped pieces are all of them wrapped. */
  lemma WrappedCons(inners: seq<string>, cells: seq<string>, later: seq<string>)
    requires inners != [] && cells == ["<td>" + inners[0] + "</td>"] + later && later == Wrapped(inners[1..])
    ensures cells == Wrapped(inners)
  {
    assert Wrapped(inners) == ["<td>" + inners[0] + "</td>"] + Wrapped(inners[1..]);
  }

  /** Markup after the last cell with no `<td` holds no cell. */
  lemma TailHasNoCells(s: string, p: nat, tail: string)
    requires p <= |s| && s[p..] == tail && !Contains(tail, "<td")
    ensures ScanCells(s, p) == []
  {
    forall q | p <= q <= |s| ensures !OccursAt(s, "<td", q) {
      if q + 3 <= |s| {
        assert s[p..] == s[p..|s|];
        SliceOfSlice(s, p, |s|, q - p, q - p + 3);
      }
      assert OccursAt(s, "<td", q) ==> OccursAt(tail, "<td", q - p);
    }
    NoOpenTagNoCells(s, p);
  }

  /** The lazy body stops at the first `</td>` when no line terminator comes before it. */
  lemma {:induction false} LazyCloseAt(s: string, m: nat, n: nat)
    requires m <= n && OccursAt(s, "</td>", n)
    requires forall j :: m <= j < n ==> !OccursAt(s, "</td>", j) && !IsLineTerminator(s[j])
    ensures LazyClose(s, m) == Some(n)
    decreases n - m
  {
    if m < n {
      LazyCloseAt(s, m + 1, n);
    }
  }

  /** `<td>` + inner + `</td>` at `p`, with no `</td>` and no line break inside, is one cell match. */
  lemma CellAtOfPlain(s: string, p: nat, inner: string, rest: string)
    requires p <= |s| && s[p..] == "<td>" + inner + "</td>" + rest
    requires !Contains(inner, "</td>") && SingleLine(inner)
    ensures CellAt(s, p) == Some(p + 9 + |inner|)
    ensures s[p..p + 9 + |inner|] == "<td>" + inner + "</td>" && s[p + 9 + |inner|..] == rest
  {
    var m, n := p + 4, p + 4 + |inner|;
    PlainCellLayout(s, p, "<td>", inner, "</td>", rest, m, n, n + 5);
    OpeningTdAt(s, p);
    PlainBodyCloses(s, m, n);
    CellAtOfParts(s, p, m, n);
  }

  lemma CellAtOfParts(s: string, p: nat, k: nat, n: nat)
    requires TagAt(s, "<td", p) == Some(k) && LazyClose(s, k) == Some(n)
    ensures CellAt(s, p) == Some(n + 5)
  {
  }

  /** `s[p..]` is `a + b + c + d`: each piece lies at its offset in `s`. */
  lemma PlainCellLayout(s: string, p: nat, a: string, b: string, c: string, d: string, i: nat, j: nat, k: nat)
    requires p <= |s| && s[p..] == a + b + c + d
    requires i == p + |a| && j == i + |b| && k == j + |c|
    ensures |s| == k + |d|
    ensures s[p..i] == a && s[i..j] == b && s[j..k] == c && s[k..] == d && s[p..k] == a + b + c
  {
    var x := a + b + c + d;
    var i', j', k' := |a|, |a| + |b|, |a| + |b| + |c|;
    ConcatParts(a, b, c, d);
    assert x[..i'] == x[0..i'] && x[..k'] == x[0..k'];
    SuffixSlice(s, p, x, 0, i');
    SuffixSlice(s, p, x, i', j');
    SuffixSlice(s, p, x, j', k');
    SuffixSlice(s, p, x, 0, k');
    SuffixSlice(s, p, x, k', |x|);
    assert x[k'..] == x[k'..|x|];
    assert s[p + k'..] == s[p + k'..|s|];
  }

  /** `s[p..]` is `x`: a slice of `x` is the slice of `s` shifted by `p`. */
  lemma SuffixSlice(s: string, p: nat, x: string, i: nat, j: nat)
    requires p <= |s| && s[p..] == x && i <= j <= |x|
    ensures s[p + i..p + j] == x[i..j]
  {
    assert s[p..] == s[p..|s|];
    SliceOfSlice(s, p, |s|, i, j);
  }

  /** A literal `<td>` at `p` is a complete opening tag. */
  lemma OpeningTdAt(s: string, p: nat)
    requires p + 4 <= |s| && s[p..p + 4] == "<td>"
    ensures TagAt(s, "<td", p) == Some(p + 4)
  {
    assert s[p..p + 3] == s[p..p + 4][..3];
    assert s[p + 3] == s[p..p + 4][3];
  }

  /** A body from `m` to `n` with no `</td>` and no line terminator, followed by `</td>`, is closed there. */
  lemma PlainBodyCloses(s: string, m: nat, n: nat)
    requires m <= n && n + 5 <= |s| && s[n..n + 5] == "</td>"
    requires !Contains(s[m..n], "</td>") && SingleLine(s[m..n])
    ensures LazyClose(s, m) == Some(n)
  {
    assert "</td>"[1..] == "/td>";
    NoEarlierOccurrence(s, "</td>", m, n);
    forall j | m <= j < n ensures !IsLineTerminator(s[j]) {
      assert s[j] == s[m..n][j - m];
    }
    LazyCloseAt(s, m, n);
  }



  /**
    index.js:76-84: the text of one matched cell. The `<td…>` and `</td>`
    wrappers come off, then the first `<a…>` and the first `</a>`, then the
    whitespace is collapsed and the text trimmed.
   */
  function CellText(td: string): (t: string)
    ensures IsClean(t)
  {
    var inner := RemoveFirst(RemoveFirstTag(td, "<td"), "</td>");
    var text := RemoveFirst(RemoveFirstTag(inner, "<a"), "</a>");
    TrimCollapseIsClean(text);
    Trim(Collapse(text))
  }

  /** The text of a cell is read off its body once the `<td…>` and `</td>` wrappers are gone. */
  lemma CellTextOfBody(td: string, body: string, text: string)
    requires RemoveFirst(RemoveFirstTag(td, "<td"), "</td>") == body
    requires RemoveFirst(RemoveFirstTag(body, "<a"), "</a>") == text
    ensures CellText(td) == Trim(Collapse(text))
  {
  }

  /** The `<td…>` and `</td>` wrappers of a cell come off, leaving its body. */
  lemma CellBody(attrs: string, body: string)
    requires '>' !in attrs && !Contains(body, "</td>")
    ensures RemoveFirst(RemoveFirstTag("<td" + attrs + ">" + body + "</td>", "<td"), "</td>") == body
  {
    RemoveLeadingTagBefore("<td", attrs, body, "</td>");
    TagLiterals();
    RemoveFirstAtEnd(body, "</td>");
  }

  /** A cell holding plain text yields that text, collapsed and trimmed. */
  lemma CellTextOfPlain(attrs: string, text: string)
    requires '>' !in attrs && '<' !in text
    ensures CellText("<td" + attrs + ">" + text + "</td>") == Trim(Collapse(text))
  {
    LacksFirstChar(text, "</td>");
    CellBody(attrs, text);
    NoTagUnchanged(text, "<a");
    LacksFirstChar(text, "</a>");
    RemoveFirstUnchanged(text, "</a>");
    CellTextOfBody("<td" + attrs + ">" + text + "</td>", text, text);
  }

  /** `<a` + attrs + `>` + text + `</a>` holds a tag starting with `<` only where its two tags start. */
  lemma LinkHasNoTag(attrs: string, text: string, pat: string)
    requires '<' !in attrs && '<' !in text
    requires |pat| >= 2 && pat[0] == '<' && pat[1] != 'a' && (pat[1] != '/' || |pat| > 4)
    ensures !Contains("<a" + attrs + ">" + text + "</a>", pat)
    ensures |pat| <= 4 ==> EndsClearOf("<a" + attrs + ">" + text + "</a>", pat)
  {
    var s := "<a" + attrs + ">" + text + "</a>";
    var c := 3 + |attrs| + |text|;
    forall j | 0 <= j < |s| && j != 0 && j != c ensures s[j] != '<' {
      if 2 <= j < 2 + |attrs| {
        assert s[j] == attrs[j - 2];
        assert attrs[j - 2] in attrs;
      } else if 3 + |attrs| <= j < c {
        assert s[j] == text[j - 3 - |attrs|];
        assert text[j - 3 - |attrs|] in text;
      }
    }
    forall j | 0 <= j <= |s| ensures !OccursAt(s, pat, j) {
      if j + |pat| <= |s| {
        assert s[j..j + |pat|][0] == s[j] && s[j..j + |pat|][1] == s[j + 1];
      }
    }
  }

  /** A cell holding one link yields the link's text, collapsed and trimmed. */
  lemma CellTextOfLink(attrs: string, linkAttrs: string, text: string)
    requires '>' !in attrs && '<' !in linkAttrs && '>' !in linkAttrs && '<' !in text
    ensures CellText("<td" + attrs + ">" + ("<a" + linkAttrs + ">" + text + "</a>") + "</td>") == Trim(Collapse(text))
  {
    var link := "<a" + linkAttrs + ">" + text + "</a>";
    LinkHasNoTag(linkAttrs, text, "</td>");
    CellBody(attrs, link);
    RemoveLeadingTagBefore("<a", linkAttrs, text, "</a>");
    TagLiterals();
    LacksFirstChar(text, "</a>");
    RemoveFirstAtEnd(text, "</a>");
    CellTextOfBody("<td" + attrs + ">" + link + "</td>", link, text);
  }

  /** index.js:75-85: the cleaned text of every cell of a row, in order. */
  function ExtractCells(row: string): (cells: seq<string>)
    ensures |cells| == |CellMatches(row, 0)|
    ensures forall k :: 0 <= k < |cells| ==> IsClean(cells[k])
  {
    CellTexts(ScanCells(row, 0))
  }

  /** The text of each matched cell, in order. */
  function CellTexts(tds: seq<string>): (texts: seq<string>)
    ensures |texts| == |tds|
    ensures forall k :: 0 <= k < |texts| ==> IsClean(texts[k])
  {
    seq(|tds|, k requires 0 <= k < |tds| => CellText(tds[k]))
  }

  /** A row of space-separated `<td>…</td>` cells: the cell texts are those of its cells, in order. */
  lemma ExtractCellsOfRow(row: string, inners: seq<string>, tail: string)
    requires row == CellsMarkup(inners) + tail
    requires forall k :: 0 <= k < |inners| ==> !Contains(inners[k], "</td>") && SingleLine(inners[k])
    requires !Contains(tail, "<td")
    ensures ExtractCells(row) == CellTexts(Wrapped(inners))
  {
    assert row[0..] == row;
    ScanCellsOfRow(row, 0, inners, tail);
  }


  /** A cell holding clean text without `<` yields that text. */
  lemma CellOfPlainText(t: string)
    requires IsClean(t) && '<' !in t
    ensures CellText("<td>" + t + "</td>") == t
  {
    CellTextOfPlain("", t);
    assert "<td" + "" + ">" == "<td>";
    CleanIsFixed(t);
  }

  /** A cell holding a link around clean text without `<` yields that text. */
  lemma CellOfLinkText(url: string, t: string)
    requires IsClean(t) && '<' !in t && '<' !in url && '>' !in url
    ensures CellText("<td>" + LinkMarkup(url, t) + "</td>") == t
  {
    assert '<' !in " " + HrefPair(url) && '>' !in " " + HrefPair(url);
    CellTextOfLink("", " " + HrefPair(url), t);
    assert "<td" + "" + ">" == "<td>";
    CleanIsFixed(t);
  }

  /** A row of space-separated cells holding clean text without `<`: its cell texts are those texts, in order. */
  lemma PlainRowCells(cells: seq<string>, tail: string)
    requires forall k :: 0 <= k < |cells| ==> IsClean(cells[k]) && '<' !in cells[k]
    requires !Contains(tail, "<td")
    ensures ExtractCells(CellsMarkup(cells) + tail) == cells
  {
    forall k | 0 <= k < |cells| ensures !Contains(cells[k], "</td>") && SingleLine(cells[k]) {
      LacksFirstChar(cells[k], "</td>");
      PlainSpacesAreSingleLine(cells[k]);
    }
    ExtractCellsOfRow(CellsMarkup(cells) + tail, cells, tail);
    var texts := CellTexts(Wrapped(cells));
    forall k | 0 <= k < |cells| ensures texts[k] == cells[k] {
      assert texts[k] == CellText("<td>" + cells[k] + "</td>");
      CellOfPlainText(cells[k]);
    }
  }

  /** The inner pieces of a row whose second cell links its text to `url`. */
  function LinkedCells(cells: seq<string>, url: string): seq<string>
    requires |cells| >= 2
  {
    [cells[0], LinkMarkup(url, cells[1])] + cells[2..]
  }

  /** A row of space-separated cells whose second cell is a link: its cell texts are the plain texts, the link's text included. */
  lemma LinkedRowCells(cells: seq<string>, url: string, tail: string)
    requires |cells| >= 2 && forall k :: 0 <= k < |cells| ==> IsClean(cells[k]) && '<' !in cells[k]
    requires IsClean(url) && '<' !in url && '>' !in url
    requires !Contains(tail, "<td")
    ensures ExtractCells(CellsMarkup(LinkedCells(cells, url)) + tail) == cells
  {
    var inners := LinkedCells(cells, url);
    LinkedCellsPlain(cells, url);
    ExtractCellsOfRow(CellsMarkup(inners) + tail, inners, tail);
    var texts := CellTexts(Wrapped(inners));
    forall k | 0 <= k < |inners| ensures texts[k] == cells[k] {
      LinkedCellText(cells, url, k);
    }
  }

  lemma LinkedCellsPlain(cells: seq<string>, url: string)
    requires |cells| >= 2 && forall k :: 0 <= k < |cells| ==> IsClean(cells[k]) && '<' !in cells[k]
    requires IsClean(url) && '<' !in url && '>' !in url
    ensures forall k :: 0 <= k < |LinkedCells(cells, url)| ==>
              !Contains(LinkedCells(cells, url)[k], "</td>") && SingleLine(LinkedCells(cells, url)[k])
  {
    var inners := LinkedCells(cells, url);
    LinkMarkupFacts(url, cells[1]);
    forall k | 0 <= k < |inners| ensures !Contains(inners[k], "</td>") && SingleLine(inners[k]) {
      if k != 1 {
        LacksFirstChar(cells[k], "</td>");
        PlainSpacesAreSingleLine(cells[k]);
      }
    }
  }

  lemma LinkedCellText(cells: seq<string>, url: string, k: nat)
    requires |cells| >= 2 && forall j :: 0 <= j < |cells| ==> IsClean(cells[j]) && '<' !in cells[j]
    requires IsClean(url) && '<' !in url && '>' !in url
    requires k < |cells|
    ensures CellTexts(Wrapped(LinkedCells(cells, url)))[k] == cells[k]
  {
    var inners := LinkedCells(cells, url);
    var inner := if k == 1 then LinkMarkup(url, cells[1]) else cells[k];
    assert inners[k] == inner;
    WrappedText(inners, k);
    if k == 1 {
      CellOfLinkText(url, cells[1]);
    } else {
      CellOfPlainText(cells[k]);
    }
  }

  lemma WrappedText(inners: seq<string>, k: nat)
    requires k < |inners|
    ensures CellTexts(Wrapped(inners))[k] == CellText("<td>" + inners[k] + "</td>")
  {
    assert Wrapped(inners)[k] == "<td>" + inners[k] + "</td>";
  }



  /** Regrouping the markup of a row whose second cell is a link around its `href="…"`. */
  lemma LinkedRowRegroup(td: string, c0: string, ctd: string, a: string, sp: string, h: string,
                         gt: string, c1: string, ca: string, m: string, tail: string)
    ensures td + c0 + ctd + (td + (a + (sp + h) + gt + c1 + ca) + ctd + m) + tail
         == (td + c0 + ctd + td + a + sp) + h + (gt + c1 + ca + ctd + m + tail)
  {
  }

  /** A row whose second cell links to `url`, with no `=` in its first cell: the row's URL is `url`. */
  lemma LinkedRowHref(cells: seq<string>, url: string, tail: string)
    requires |cells| >= 2 && '=' !in cells[0] && url != [] && '"' !in url
    ensures FirstHref(CellsMarkup(LinkedCells(cells, url)) + tail) == url
  {
    var inners := LinkedCells(cells, url);
    assert inners[1..] == [LinkMarkup(url, cells[1])] + cells[2..];
    assert inners[1..][1..] == cells[2..];
    var m := CellsMarkup(cells[2..]);
    assert CellsMarkup(inners) == " <td>" + cells[0] + "</td>" + (" <td>" + LinkMarkup(url, cells[1]) + "</td>" + m);
    LinkedRowRegroup(" <td>", cells[0], "</td>", "<a", " ", HrefPair(url), ">", cells[1], "</a>", m, tail);
    assert '=' !in " <td>" + cells[0] + "</td>" + " <td>" + "<a" + " ";
    FirstHrefAfter(" <td>" + cells[0] + "</td>" + " <td>" + "<a" + " ", url, ">" + cells[1] + "</a>" + "</td>" + m + tail);
  }

  /** index.js:73 skips a blank segment; such a segment has no cell, so the later check at index.js:90 would skip it too. */
  lemma BlankRowHasNoCells(row: string)
    requires Trim(row) == []
    ensures ExtractCells(row) == []
  {
    TrimRemovesEnds(row);
    forall q | 0 <= q <= |row| ensures !OccursAt(row, "<td", q) {
      assert q + 3 <= |row| ==> row[q..q + 3][0] == row[q];
    }
    NoOpenTagNoCells(row, 0);
  }

  /** `href="([^"]+)"` at index `p`: the captured value, when at least one character stands before the closing quote. */
  function HrefAt(s: string, p: nat): (r: Option<string>)
    ensures r.Some? ==> r.value != [] && OccursAt(s, "href=\"" + r.value + "\"", p)
    ensures r.Some? ==> forall i :: 0 <= i < |r.value| ==> r.value[i] != '"'
  {
    if !OccursAt(s, "href=\"", p) then None
    else match FindChar(s, '"', p + 6)
      case None => None
      case Some(q) =>
        if q == p + 6 then None
        else
          var v := s[p + 6..q];
          assert s[p..q + 1] == s[p..p + 6] + v + "\"";
          Some(v)
  }

  /** Conversely, `href="v"` with a non-empty `v` free of `"` at `p` is matched there and captures `v`. */
  lemma HrefAtFindsValue(s: string, p: nat, v: string)
    requires v != [] && '"' !in v && OccursAt(s, "href=\"" + v + "\"", p)
    ensures HrefAt(s, p) == Some(v)
  {
    var w := "href=\"" + v + "\"";
    var q := p + 6 + |v|;
    assert s[p..p + |w|] == w;
    SliceOfSlice(s, p, p + |w|, 0, 6);
    assert w[0..6] == "href=\"";
    SliceOfSlice(s, p, p + |w|, 6, 6 + |v|);
    assert w[6..6 + |v|] == v;
    assert s[q] == w[6 + |v|] == '"';
    forall j | p + 6 <= j < q ensures s[j] != '"' {
      assert s[j] == v[j - p - 6];
      assert v[j - p - 6] in v;
    }
    assert FindChar(s, '"', p + 6) == Some(q);
  }

  /** The index of the leftmost `href="…"` match at or after `p`. */
  function FirstHrefIndex(s: string, p: nat): (r: Option<nat>)
    requires p <= |s|
    ensures r.Some? ==> p <= r.value <= |s| && HrefAt(s, r.value).Some?
    ensures forall q :: p <= q <= |s| && (r.None? || q < r.value) ==> HrefAt(s, q).None?
    decreases |s| - p
  {
    if HrefAt(s, p).Some? then Some(p)
    else if p == |s| then None
    else FirstHrefIndex(s, p + 1)
  }

  /** index.js:87-88: the value of the leftmost `href="…"` of the row, or "" when there is none. */
  function FirstHref(row: string): string
  {
    match FirstHrefIndex(row, 0)
    case None => []
    case Some(q) => HrefAt(row, q).value
  }

  /** The URL has no `"`; it is "" exactly when no `href="…"` with a non-empty value occurs, and otherwise is the value of the leftmost one. */
  lemma FirstHrefLeftmost(row: string)
    ensures forall i :: 0 <= i < |FirstHref(row)| ==> FirstHref(row)[i] != '"'
    ensures FirstHref(row) == [] <==> forall q :: 0 <= q <= |row| ==> HrefAt(row, q).None?
    ensures FirstHref(row) != [] ==>
              exists q :: 0 <= q <= |row| && HrefAt(row, q) == Some(FirstHref(row)) && FirstHrefIndex(row, 0) == Some(q)
  {
  }

  /** The first `href="v"` of a row, with no `=` before its own, gives the row's URL `v`. */
  lemma FirstHrefAfter(a: string, v: string, b: string)
    requires '=' !in a && v != [] && '"' !in v
    ensures FirstHref(a + HrefPair(v) + b) == v
  {
    var w := HrefPair(v);
    var s := a + w + b;
    assert s == a + (w + b);
    assert (w + b)[..4] == "href";
    NoHrefBefore(a, w + b);
    OccursAtJoin(a, w, b);
    HrefAtFindsValue(s, |a|, v);
    FirstHrefIs(s, |a|, v);
  }

  /** The first index where `href="…"` matches gives the URL. */
  lemma FirstHrefIs(s: string, q: nat, v: string)
    requires q <= |s| && HrefAt(s, q) == Some(v)
    requires forall j :: 0 <= j < q ==> HrefAt(s, j).None?
    ensures FirstHref(s) == v
  {
    var r := FirstHrefIndex(s, 0);
    assert r.Some? && r.value == q;
  }

  /** No `href="` starts in text without `=` that runs into `href`. */
  lemma NoHrefBefore(a: string, rest: string)
    requires '=' !in a && |rest| >= 4 && rest[..4] == "href"
    ensures forall j :: 0 <= j < |a| ==> HrefAt(a + rest, j).None?
  {
    var s := a + rest;
    forall j | 0 <= j < |a| ensures HrefAt(s, j).None? {
      if j + 6 <= |s| {
        assert s[j..j + 6][4] == s[j + 4];
      }
      if j + 4 < |a| {
        assert s[j + 4] == a[j + 4];
        assert a[j + 4] in a;
      } else {
        assert s[j + 4] == rest[j + 4 - |a|] == rest[..4][j + 4 - |a|];
        assert rest[..4][j + 4 - |a|] in "href";
      }
      assert "href=\""[4] == '=';
    }
  }

  /** A row without `=` has no `href="…"`, so its URL is "". */
  lemma NoHrefWithoutEquals(row: string)
    requires '=' !in row
    ensures FirstHref(row) == []
  {
    var r := FirstHrefIndex(row, 0);
    if r.Some? {
      NoHrefAt(row, r.value);
    }
  }

  lemma NoHrefAt(row: string, q: nat)
    requires '=' !in row
    ensures HrefAt(row, q).None?
  {
    if q + 6 <= |row| {
      assert row[q..q + 6][4] == row[q + 4];
      assert row[q + 4] in row;
    }
  }
}
