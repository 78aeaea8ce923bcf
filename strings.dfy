/**
  The JavaScript string primitives that the table parser leans on: the `\s`
  character class, `/^\d+$/`, `String.prototype.trim`, `replace(/\s+/g, " ")`,
  `replace(/\n/g, " ")`, `indexOf` and `split` with a string separator.
 */
module Strings {
  import opened Wrappers

  /** ECMAScript WhiteSpace and LineTerminator: what `\s` matches and what `trim` removes. */
  predicate IsSpace(c: char) {
    || c == ' ' || c == '\t' || c == '\n' || c == '\U{B}' || c == '\U{C}' || c == '\r'
    || c == '\U{A0}' || c == '\U{1680}' || ('\U{2000}' <= c <= '\U{200A}')
    || c == '\U{2028}' || c == '\U{2029}' || c == '\U{202F}' || c == '\U{205F}'
    || c == '\U{3000}' || c == '\U{FEFF}'
  }

  /** ECMAScript LineTerminator: the characters a regular-expression `.` does not match. */
  predicate IsLineTerminator(c: char) {
    c == '\n' || c == '\r' || c == '\U{2028}' || c == '\U{2029}'
  }

  predicate IsDigit(c: char) {
    '0' <= c <= '9'
  }

  /** `/^\d+$/.test(s)`: one or more ASCII digits and nothing else. */
  predicate IsDigits(s: string) {
    |s| > 0 && forall i :: 0 <= i < |s| ==> IsDigit(s[i])
  }

  /** Collapsing never lengthens the text, and empties only empty text. */
  lemma {:induction false} CollapseShrinks(s: string)
    ensures |Collapse(s)| <= |s|
    ensures Collapse(s) == [] <==> s == []
  {
    if s != [] {
      CollapseShrinks(s[1..]);
    }
  }

  /** `/^\d+$/` holds of non-empty ASCII digit runs only: no sign, no space, no other digit. */
  lemma DigitsExamples()
    ensures IsDigits("0") && IsDigits("2024")
    ensures !IsDigits("") && !IsDigits(" 12") && !IsDigits("12a") && !IsDigits("-1")
  {
    assert " 12"[0] == ' ' && "12a"[2] == 'a' && "-1"[0] == '-';
  }

  /** Digit runs are clean text without `<`, `=` or `"`. */
  lemma DigitsAreClean(s: string)
    requires IsDigits(s)
    ensures IsClean(s) && '<' !in s && '=' !in s && '"' !in s
  {
    forall i | 0 <= i < |s| ensures !IsSpace(s[i]) && IsDigit(s[i]) {
    }
    NoSpaceIsClean(s);
  }

  predicate AllSpace(s: string) {
    forall i :: 0 <= i < |s| ==> IsSpace(s[i])
  }

  /** No two whitespace characters stand next to each other. */
  predicate NoSpaceRuns(s: string) {
    forall i :: 0 < i < |s| ==> !(IsSpace(s[i - 1]) && IsSpace(s[i]))
  }

  /** Every whitespace character is a plain space. */
  predicate OnlyPlainSpaces(s: string) {
    forall i :: 0 <= i < |s| && IsSpace(s[i]) ==> s[i] == ' '
  }

  /** Neither the first nor the last character is whitespace. */
  predicate Trimmed(s: string) {
    s == [] || (!IsSpace(s[0]) && !IsSpace(s[|s| - 1]))
  }

  /** What a cell of the table looks like once it has been cleaned. */
  predicate IsClean(s: string) {
    Trimmed(s) && NoSpaceRuns(s) && OnlyPlainSpaces(s)
  }

  /** The non-whitespace characters of `s`, in order. */
  function Strip(s: string): string {
    if s == [] then []
    else (if IsSpace(s[0]) then [] else [s[0]]) + Strip(s[1..])
  }

  /**
    `s.replace(/\s+/g, " ")`: every maximal run of whitespace becomes one space.
    A whitespace character followed by another one is dropped, since the run
    it belongs to is emitted by its last character.
   */
  function Collapse(s: string): string
  {
    if s == [] then []
    else if IsSpace(s[0]) then
      (if |s| > 1 && IsSpace(s[1]) then [] else [' ']) + Collapse(s[1..])
    else [s[0]] + Collapse(s[1..])
  }

  /** The first character emitted for `s[0]` by Collapse: nothing, one space, or the character itself. */
  function CollapseHead(s: string): string
    requires s != []
  {
    if IsSpace(s[0]) then (if |s| > 1 && IsSpace(s[1]) then [] else [' ']) else [s[0]]
  }

  /** Collapsing keeps every non-whitespace character, in order. */
  lemma {:induction false} CollapseKeepsText(s: string)
    ensures Strip(Collapse(s)) == Strip(s)
  {
    if s != [] {
      CollapseKeepsText(s[1..]);
      StripConcat(CollapseHead(s), Collapse(s[1..]));
    }
  }

  /** Collapsing keeps whitespace at either end exactly where the input had it. */
  lemma {:induction false} CollapseKeepsEnds(s: string)
    ensures StartsWithSpace(Collapse(s)) <==> StartsWithSpace(s)
    ensures EndsWithSpace(Collapse(s)) <==> EndsWithSpace(s)
  {
    if s != [] {
      var head, rest := CollapseHead(s), Collapse(s[1..]);
      CollapseKeepsEnds(s[1..]);
      CollapseShrinks(s[1..]);
      assert Collapse(s) == head + rest;
      if rest == [] {
        assert |s| == 1 && head != [];
        assert head + rest == head;
      } else {
        assert (head + rest)[|head + rest| - 1] == rest[|rest| - 1];
        assert s[|s| - 1] == s[1..][|s[1..]| - 1];
        if head != [] {
          assert (head + rest)[0] == head[0];
        }
      }
    }
  }

  /** After collapsing, whitespace comes only as single plain spaces. */
  lemma {:induction false} CollapseLeavesSingleSpaces(s: string)
    ensures NoSpaceRuns(Collapse(s)) && OnlyPlainSpaces(Collapse(s))
  {
    if s != [] {
      var rest := Collapse(s[1..]);
      CollapseLeavesSingleSpaces(s[1..]);
      CollapseKeepsEnds(s[1..]);
      var head := CollapseHead(s);
      var r := head + rest;
      assert Collapse(s) == r;
      forall i | 0 < i < |r| ensures !(IsSpace(r[i - 1]) && IsSpace(r[i])) {
        if i > |head| {
          assert r[i - 1] == rest[i - 1 - |head|] && r[i] == rest[i - |head|];
        }
      }
      forall i | 0 <= i < |r| && IsSpace(r[i]) ensures r[i] == ' ' {
        if i >= |head| { assert r[i] == rest[i - |head|]; }
      }
    }
  }

  predicate StartsWithSpace(s: string) {
    s != [] && IsSpace(s[0])
  }

  predicate EndsWithSpace(s: string) {
    s != [] && IsSpace(s[|s| - 1])
  }

  /** `s.replace(/\n/g, " ")`. */
  function ReplaceNewlines(s: string): (r: string)
    ensures |r| == |s|
    ensures forall i :: 0 <= i < |s| ==> r[i] == if s[i] == '\n' then ' ' else s[i]
  {
    if s == [] then [] else [if s[0] == '\n' then ' ' else s[0]] + ReplaceNewlines(s[1..])
  }

  /** Two strings that differ only in which whitespace character stands where collapse alike. */
  lemma {:induction false} CollapseIgnoresSpaceKind(s: string, t: string)
    requires |s| == |t|
    requires forall i :: 0 <= i < |s| ==> IsSpace(s[i]) == IsSpace(t[i])
    requires forall i :: 0 <= i < |s| && !IsSpace(s[i]) ==> s[i] == t[i]
    ensures Collapse(s) == Collapse(t)
  {
    if s != [] {
      CollapseIgnoresSpaceKind(s[1..], t[1..]);
    }
  }

  /** The newline replacement before the whitespace collapse changes nothing. */
  lemma CollapseAfterNewlineReplace(s: string)
    ensures Collapse(ReplaceNewlines(s)) == Collapse(s)
  {
    CollapseIgnoresSpaceKind(ReplaceNewlines(s), s);
  }

  /** The number of whitespace characters at the start of `s`. */
  function LeadingSpaces(s: string): (n: nat)
    ensures n <= |s|
  {
    if s != [] && IsSpace(s[0]) then 1 + LeadingSpaces(s[1..]) else 0
  }

  /** The leading whitespace is a maximal run. */
  lemma {:induction false} LeadingSpacesRun(s: string)
    ensures forall i :: 0 <= i < LeadingSpaces(s) ==> IsSpace(s[i])
    ensures LeadingSpaces(s) < |s| ==> !IsSpace(s[LeadingSpaces(s)])
  {
    if s != [] && IsSpace(s[0]) {
      LeadingSpacesRun(s[1..]);
      forall i | 1 <= i < LeadingSpaces(s) ensures IsSpace(s[i]) {
        assert s[i] == s[1..][i - 1];
      }
      if LeadingSpaces(s) < |s| {
        assert s[LeadingSpaces(s)] == s[1..][LeadingSpaces(s[1..])];
      }
    }
  }

  /** The number of whitespace characters at the end of `s`. */
  function TrailingSpaces(s: string): (n: nat)
    ensures n <= |s|
  {
    if s != [] && IsSpace(s[|s| - 1]) then 1 + TrailingSpaces(s[..|s| - 1]) else 0
  }

  /** The trailing whitespace is a maximal run. */
  lemma {:induction false} TrailingSpacesRun(s: string)
    ensures forall i :: |s| - TrailingSpaces(s) <= i < |s| ==> IsSpace(s[i])
    ensures TrailingSpaces(s) < |s| ==> !IsSpace(s[|s| - 1 - TrailingSpaces(s)])
  {
    if s != [] && IsSpace(s[|s| - 1]) {
      var t := s[..|s| - 1];
      TrailingSpacesRun(t);
      forall i | |s| - TrailingSpaces(s) <= i < |s| - 1 ensures IsSpace(s[i]) {
        assert s[i] == t[i];
      }
      if TrailingSpaces(s) < |s| {
        assert s[|s| - 1 - TrailingSpaces(s)] == t[|t| - 1 - TrailingSpaces(t)];
      }
    }
  }

  /**
    `s.trim()`: the stretch of `s` between its leading and its trailing
    whitespace, inner whitespace included.
   */
  function Trim(s: string): string
  {
    var a := LeadingSpaces(s);
    if a == |s| then [] else SpacesDoNotOverlap(s); s[a..|s| - TrailingSpaces(s)]
  }

  /** Text that is not all whitespace has a non-whitespace character between its leading and trailing whitespace. */
  lemma SpacesDoNotOverlap(s: string)
    requires LeadingSpaces(s) < |s|
    ensures LeadingSpaces(s) + TrailingSpaces(s) < |s|
  {
    var a, n := LeadingSpaces(s), TrailingSpaces(s);
    LeadingSpacesRun(s);
    TrailingSpacesRun(s);
    assert !IsSpace(s[a]);
  }

  /**
    The trimmed text has no whitespace at either end and is empty exactly when
    `s` is all whitespace; otherwise it is one stretch of `s`, inner whitespace
    included, with only whitespace cut off on either side.
   */
  lemma TrimRemovesEnds(s: string)
    ensures Trimmed(Trim(s))
    ensures Trim(s) == [] <==> AllSpace(s)
    ensures Strip(Trim(s)) == Strip(s)
    ensures Trim(s) != [] ==>
              exists a, b :: 0 <= a <= b <= |s| && Trim(s) == s[a..b] && AllSpace(s[..a]) && AllSpace(s[b..])
  {
    if LeadingSpaces(s) == |s| {
      LeadingSpacesRun(s);
      assert AllSpace(s);
      StripAllSpace(s);
    } else {
      var b := TrimBounds(s);
      TrimIsStretch(s, b);
      StripOfStretch(s, LeadingSpaces(s), b);
    }
  }

  /** Text that is not all whitespace trims to the stretch between its leading and trailing whitespace. */
  lemma TrimIsStretch(s: string, b: nat)
    requires LeadingSpaces(s) < b <= |s| && b == |s| - TrailingSpaces(s)
    requires !IsSpace(s[LeadingSpaces(s)]) && !IsSpace(s[b - 1])
    ensures Trim(s) == s[LeadingSpaces(s)..b] && Trimmed(Trim(s)) && !AllSpace(s)
  {
    var a := LeadingSpaces(s);
    assert Trim(s) == s[a..b];
    TrimmedSlice(s, a, b);
  }

  /** Cutting whitespace off both ends keeps the non-whitespace text. */
  lemma StripOfStretch(s: string, a: nat, b: nat)
    requires a <= b <= |s| && AllSpace(s[..a]) && AllSpace(s[b..])
    ensures Strip(s[a..b]) == Strip(s)
  {
    forall i | 0 <= i < a ensures IsSpace(s[i]) {
      assert s[..a][i] == s[i];
    }
    forall i | b <= i < |s| ensures IsSpace(s[i]) {
      assert s[b..][i - b] == s[i];
    }
    StripSlice(s, a, b);
  }


  /** Where the leading and the trailing whitespace of text that is not all whitespace end. */
  lemma TrimBounds(s: string) returns (b: nat)
    requires LeadingSpaces(s) < |s|
    ensures var a := LeadingSpaces(s);
            && a < b <= |s| && b == |s| - TrailingSpaces(s)
            && !IsSpace(s[a]) && !IsSpace(s[b - 1]) && AllSpace(s[..a]) && AllSpace(s[b..])
  {
    var a, n := LeadingSpaces(s), TrailingSpaces(s);
    LeadingSpacesRun(s);
    TrailingSpacesRun(s);
    b := |s| - n;
    SpacesDoNotOverlap(s);
    assert !IsSpace(s[b - 1]) by {
      assert b - 1 == |s| - 1 - n;
    }
    assert AllSpace(s[..a]) && AllSpace(s[b..]);
  }


  lemma TrimmedSlice(s: string, a: nat, b: nat)
    requires a < b <= |s| && !IsSpace(s[a]) && !IsSpace(s[b - 1])
    ensures Trimmed(s[a..b])
  {
    assert s[a..b][0] == s[a] && s[a..b][b - a - 1] == s[b - 1];
  }

  /** Trimming text without whitespace at either end leaves it as it is. */
  lemma TrimOfTrimmed(s: string)
    requires Trimmed(s)
    ensures Trim(s) == s
  {
    if s != [] {
      assert LeadingSpaces(s) == 0 && TrailingSpaces(s) == 0;
      assert s[0..|s| - 0] == s;
    }
  }

  lemma {:induction false} StripAllSpace(s: string)
    requires AllSpace(s)
    ensures Strip(s) == []
  {
    if s != [] {
      StripAllSpace(s[1..]);
    }
  }

  lemma {:induction false} StripConcat(s: string, t: string)
    ensures Strip(s + t) == Strip(s) + Strip(t)
  {
    if s != [] {
      var st := s + t;
      assert st[0] == s[0] && st[1..] == s[1..] + t;
      StripConcat(s[1..], t);
      calc {
        Strip(st);
        (if IsSpace(s[0]) then [] else [s[0]]) + Strip(s[1..] + t);
        (if IsSpace(s[0]) then [] else [s[0]]) + (Strip(s[1..]) + Strip(t));
        Strip(s) + Strip(t);
      }
    } else {
      assert s + t == t;
    }
  }

  /** Cutting leading whitespace off keeps the non-whitespace characters. */
  lemma {:induction false} StripDropFront(s: string, a: nat)
    requires a <= |s|
    requires forall i :: 0 <= i < a ==> IsSpace(s[i])
    ensures Strip(s[a..]) == Strip(s)
  {
    if a > 0 {
      assert s[1..][a - 1..] == s[a..];
      StripDropFront(s[1..], a - 1);
    }
  }

  /** Cutting trailing whitespace off keeps the non-whitespace characters. */
  lemma StripDropBack(s: string, b: nat)
    requires b <= |s|
    requires forall i :: b <= i < |s| ==> IsSpace(s[i])
    ensures Strip(s[..b]) == Strip(s)
  {
    var front, back := s[..b], s[b..];
    SpaceSuffix(s, b);
    StripAllSpace(back);
    StripSplit(s, b);
    assert Strip(front) + [] == Strip(front);
  }

  lemma SpaceSuffix(s: string, b: nat)
    requires b <= |s|
    requires forall i :: b <= i < |s| ==> IsSpace(s[i])
    ensures AllSpace(s[b..])
  {
    forall i | 0 <= i < |s| - b ensures IsSpace(s[b..][i]) {
      assert s[b..][i] == s[b + i];
    }
  }

  lemma StripSplit(s: string, b: nat)
    requires b <= |s|
    ensures Strip(s) == Strip(s[..b]) + Strip(s[b..])
  {
    assert s == s[..b] + s[b..];
    StripConcat(s[..b], s[b..]);
  }

  /** Cutting whitespace off both ends keeps the non-whitespace characters. */
  lemma StripSlice(s: string, a: nat, b: nat)
    requires a <= b <= |s|
    requires forall i :: 0 <= i < a ==> IsSpace(s[i])
    requires forall i :: b <= i < |s| ==> IsSpace(s[i])
    ensures Strip(s[a..b]) == Strip(s)
  {
    var t := s[a..];
    assert t[..b - a] == s[a..b];
    assert forall i :: b - a <= i < |t| ==> t[i] == s[a + i];
    StripDropBack(t, b - a);
    StripDropFront(s, a);
  }

  /** A cell's text after `.replace(/\s+/g, " ").trim()` is clean. */
  lemma TrimCollapseIsClean(s: string)
    ensures IsClean(Trim(Collapse(s)))
  {
    CollapseLeavesSingleSpaces(s);
    TrimKeepsSingleSpaces(Collapse(s));
    TrimRemovesEnds(Collapse(s));
  }

  /** Trimming keeps whitespace single and plain. */
  lemma TrimKeepsSingleSpaces(c: string)
    requires NoSpaceRuns(c) && OnlyPlainSpaces(c)
    ensures NoSpaceRuns(Trim(c)) && OnlyPlainSpaces(Trim(c))
  {
    var a := LeadingSpaces(c);
    if a < |c| {
      SpacesDoNotOverlap(c);
      SliceKeepsSingleSpaces(c, a, |c| - TrailingSpaces(c));
    }
  }

  lemma SliceKeepsSingleSpaces(s: string, a: nat, b: nat)
    requires a <= b <= |s|
    requires NoSpaceRuns(s) && OnlyPlainSpaces(s)
    ensures NoSpaceRuns(s[a..b]) && OnlyPlainSpaces(s[a..b])
  {
    var r := s[a..b];
    forall i | 0 < i < |r| ensures !(IsSpace(r[i - 1]) && IsSpace(r[i])) {
      assert r[i - 1] == s[a + i - 1] && r[i] == s[a + i];
    }
    forall i | 0 <= i < |r| && IsSpace(r[i]) ensures r[i] == ' ' {
      assert r[i] == s[a + i];
    }
  }

  /** Collapsing text whose whitespace is already single plain spaces leaves it as it is. */
  lemma {:induction false} CollapseOfSingleSpaces(s: string)
    requires NoSpaceRuns(s) && OnlyPlainSpaces(s)
    ensures Collapse(s) == s
  {
    if s != [] {
      SliceKeepsSingleSpaces(s, 1, |s|);
      assert s[1..|s|] == s[1..];
      CollapseOfSingleSpaces(s[1..]);
      assert |s| > 1 ==> !(IsSpace(s[0]) && IsSpace(s[1]));
      assert s == [s[0]] + s[1..];
    }
  }

  /** Clean text is a fixed point of `.replace(/\s+/g, " ").trim()`. */
  lemma CleanIsFixed(s: string)
    requires IsClean(s)
    ensures Trim(Collapse(s)) == s
  {
    CollapseOfSingleSpaces(s);
    TrimOfTrimmed(s);
  }

  /** Clean text stays clean when followed by more clean text. */
  lemma CleanConcat(x: string, y: string)
    requires IsClean(x) && IsClean(y)
    ensures IsClean(x + y)
  {
    var z := x + y;
    if x == [] {
      assert z == y;
    } else if y == [] {
      assert z == x;
    } else {
      forall i | 0 < i < |z| ensures !(IsSpace(z[i - 1]) && IsSpace(z[i])) {
        if i < |x| {
          assert z[i - 1] == x[i - 1] && z[i] == x[i];
        } else if i == |x| {
          assert z[i - 1] == x[|x| - 1];
        } else {
          assert z[i - 1] == y[i - 1 - |x|] && z[i] == y[i - |x|];
        }
      }
      forall i | 0 <= i < |z| && IsSpace(z[i]) ensures z[i] == ' ' {
        if i < |x| { assert z[i] == x[i]; } else { assert z[i] == y[i - |x|]; }
      }
    }
  }

  /** Whitespace comes as single plain spaces, which unlike clean text may stand at either end. */
  predicate SingleSpaced(s: string) {
    NoSpaceRuns(s) && OnlyPlainSpaces(s)
  }

  /**
    Single-spaced texts stay single-spaced when put together where at most one
    of them has a space, and the whole starts as the first and ends as the last.
   */
  lemma SingleSpacedConcat(x: string, y: string)
    requires SingleSpaced(x) && SingleSpaced(y) && !(EndsWithSpace(x) && StartsWithSpace(y))
    ensures SingleSpaced(x + y)
    ensures x != [] ==> (StartsWithSpace(x + y) <==> StartsWithSpace(x))
    ensures y != [] ==> (EndsWithSpace(x + y) <==> EndsWithSpace(y))
  {
    var z := x + y;
    forall i | 0 < i < |z| ensures !(IsSpace(z[i - 1]) && IsSpace(z[i])) {
      if i < |x| {
        assert z[i - 1] == x[i - 1] && z[i] == x[i];
      } else if i == |x| {
        assert z[i - 1] == x[|x| - 1] && z[i] == y[0];
      } else {
        assert z[i - 1] == y[i - 1 - |x|] && z[i] == y[i - |x|];
      }
    }
    forall i | 0 <= i < |z| && IsSpace(z[i]) ensures z[i] == ' ' {
      if i < |x| { assert z[i] == x[i]; } else { assert z[i] == y[i - |x|]; }
    }
    if y != [] {
      assert z[|z| - 1] == y[|y| - 1];
    }
  }

  /**
    Single-spaced parts joined by a separator with no whitespace at its ends
    give single-spaced text, which starts and ends with whitespace only where
    the first and the last part do.
   */
  lemma {:induction false} SingleSpacedJoin(parts: seq<string>, sep: string)
    requires |parts| >= 1 && sep != [] && SingleSpaced(sep) && !StartsWithSpace(sep) && !EndsWithSpace(sep)
    requires forall k :: 0 <= k < |parts| ==> SingleSpaced(parts[k])
    ensures SingleSpaced(Join(parts, sep))
    ensures !StartsWithSpace(parts[0]) ==> !StartsWithSpace(Join(parts, sep))
    ensures !EndsWithSpace(parts[|parts| - 1]) ==> !EndsWithSpace(Join(parts, sep))
    decreases |parts|
  {
    if |parts| > 1 {
      var rest := Join(parts[1..], sep);
      SingleSpacedJoin(parts[1..], sep);
      assert parts[1..][|parts| - 2] == parts[|parts| - 1];
      SingleSpacedConcat(parts[0], sep);
      SingleSpacedConcat(parts[0] + sep, rest);
      if parts[0] == [] {
        assert parts[0] + sep == sep;
      }
    }
  }

  /** No character of `s` ends a line. */
  predicate SingleLine(s: string) {
    forall j :: 0 <= j < |s| ==> !IsLineTerminator(s[j])
  }

  /** Text whose whitespace is plain spaces has no line terminator. */
  lemma PlainSpacesAreSingleLine(s: string)
    requires OnlyPlainSpaces(s)
    ensures SingleLine(s)
  {
  }

  /** A run of whitespace collapses to one space in front of text not starting with whitespace. */
  lemma {:induction false} CollapseSpaceRun(w: string, y: string)
    requires w != [] && AllSpace(w) && !StartsWithSpace(y)
    ensures Collapse(w + y) == " " + Collapse(y)
  {
    var s := w + y;
    assert s[0] == w[0] && s[1..] == w[1..] + y;
    if |w| == 1 {
      assert s[1..] == y;
    } else {
      assert s[1] == w[1];
      CollapseSpaceRun(w[1..], y);
    }
  }

  /**
    A whitespace run between two stretches of text becomes exactly one space:
    inner whitespace is kept, as a single space.
   */
  lemma {:induction false} CollapseAroundSpaces(x: string, w: string, y: string)
    requires w != [] && AllSpace(w) && !EndsWithSpace(x) && !StartsWithSpace(y)
    ensures Collapse(x + w + y) == Collapse(x) + " " + Collapse(y)
    decreases |x|
  {
    if x == [] {
      assert x + w + y == w + y;
      CollapseSpaceRun(w, y);
      assert Collapse(x) + " " + Collapse(y) == " " + Collapse(y);
    } else {
      var s := x + w + y;
      var head := CollapseHead(x);
      assert s[1..] == x[1..] + w + y;
      assert CollapseHead(s) == head by {
        assert s[0] == x[0];
        if |x| > 1 {
          assert s[1] == x[1];
        }
      }
      assert Collapse(s[1..]) == Collapse(x[1..]) + " " + Collapse(y) by {
        if |x| > 1 {
          assert x[1..][|x[1..]| - 1] == x[|x| - 1];
          CollapseAroundSpaces(x[1..], w, y);
        } else {
          assert x[1..] + w + y == w + y;
          CollapseSpaceRun(w, y);
          assert Collapse(x[1..]) + " " + Collapse(y) == " " + Collapse(y);
        }
      }
      assert Collapse(s) == head + Collapse(s[1..]);
      assert Collapse(x) == head + Collapse(x[1..]);
      RegroupLeft(head, Collapse(x[1..]), " ", Collapse(y));
    }
  }

  /** Regrouping a concatenation of three pieces to the right. */
  lemma Associate(a: string, b: string, c: string)
    ensures (a + b) + c == a + (b + c)
  {
  }

  /** Regrouping a concatenation of four pieces to the left. */
  lemma RegroupLeft(a: string, b: string, c: string, d: string)
    ensures a + (b + c + d) == a + b + c + d
  {
  }


  /** `pat` occurs in `s` at index `i`. */
  predicate OccursAt(s: string, pat: string, i: int) {
    0 <= i && i + |pat| <= |s| && s[i..i + |pat|] == pat
  }

  predicate Contains(s: string, pat: string) {
    exists i :: 0 <= i <= |s| && OccursAt(s, pat, i)
  }

  /** `s.indexOf(pat, from)`, or None for -1: the first occurrence at or after `from`. */
  function Find(s: string, pat: string, from: nat): (r: Option<nat>)
    ensures r.Some? ==> from <= r.value && OccursAt(s, pat, r.value)
    ensures forall j :: from <= j && (r.None? || j < r.value) ==> !OccursAt(s, pat, j)
    decreases |s| - from
  {
    if from + |pat| > |s| then None
    else if OccursAt(s, pat, from) then Some(from)
    else Find(s, pat, from + 1)
  }

  /** The first index at or after `from` that holds `c`. */
  function FindChar(s: string, c: char, from: nat): (r: Option<nat>)
    ensures r.Some? ==> from <= r.value < |s| && s[r.value] == c
    ensures forall j :: from <= j < |s| && (r.None? || j < r.value) ==> s[j] != c
    decreases |s| - from
  {
    if from >= |s| then None
    else if s[from] == c then Some(from)
    else FindChar(s, c, from + 1)
  }

  lemma OccursInPrefix(s: string, pat: string, n: nat, j: int)
    requires n <= |s| && OccursAt(s[..n], pat, j)
    ensures OccursAt(s, pat, j)
  {
    assert s[..n][j..j + |pat|] == s[j..j + |pat|];
  }

  /** `s.split(sep)` with a non-empty string separator. */
  function Split(s: string, sep: string): (parts: seq<string>)
    requires |sep| > 0
    ensures |parts| >= 1
    ensures forall k :: 0 <= k < |parts| ==> !Contains(parts[k], sep)
    decreases |s|
  {
    match Find(s, sep, 0)
    case None => [s]
    case Some(i) =>
      assert !Contains(s[..i], sep) by {
        forall j | OccursAt(s[..i], sep, j) ensures false {
          OccursInPrefix(s, sep, i, j);
        }
      }
      [s[..i]] + Split(s[i + |sep|..], sep)
  }

  /** `parts.join(sep)`. */
  function Join(parts: seq<string>, sep: string): string
    requires |parts| >= 1
  {
    if |parts| == 1 then parts[0] else parts[0] + sep + Join(parts[1..], sep)
  }

  /** Splitting loses nothing: joining the pieces with the separator gives back the input. */
  lemma {:induction false} JoinSplit(s: string, sep: string)
    requires |sep| > 0
    ensures Join(Split(s, sep), sep) == s
    decreases |s|
  {
    match Find(s, sep, 0)
    case None =>
    case Some(i) =>
      var parts := Split(s[i + |sep|..], sep);
      JoinSplit(s[i + |sep|..], sep);
      assert Split(s, sep) == [s[..i]] + parts;
      assert ([s[..i]] + parts)[1..] == parts;
      assert s == s[..i] + sep + s[i + |sep|..];
  }

  /** Regrouping a concatenation of five pieces to the right. */
  lemma RegroupRight(a: string, b: string, c: string, d: string, e: string)
    ensures a + b + c + d + e == a + (b + (c + (d + e)))
  {
  }

  /** Text without whitespace is clean. */
  lemma NoSpaceIsClean(s: string)
    requires forall i :: 0 <= i < |s| ==> !IsSpace(s[i])
    ensures IsClean(s)
  {
  }

  /** Text of visible ASCII characters only is clean. */
  lemma VisibleIsClean(s: string)
    requires forall i :: 0 <= i < |s| ==> '!' <= s[i] <= '~'
    ensures IsClean(s)
  {
    NoSpaceIsClean(s);
  }

  /** Two clean non-empty texts joined by one space give clean text. */
  lemma CleanJoinSpace(x: string, y: string)
    requires IsClean(x) && IsClean(y) && x != [] && y != []
    ensures IsClean(x + (" " + y))
  {
    var z := x + (" " + y);
    forall i | 0 < i < |z| ensures !(IsSpace(z[i - 1]) && IsSpace(z[i])) {
      if i < |x| {
        assert z[i - 1] == x[i - 1] && z[i] == x[i];
      } else if i == |x| {
        assert z[i - 1] == x[|x| - 1];
      } else if i == |x| + 1 {
        assert z[i] == y[0];
      } else {
        assert z[i - 1] == y[i - 2 - |x|] && z[i] == y[i - 1 - |x|];
      }
    }
    forall i | 0 <= i < |z| && IsSpace(z[i]) ensures z[i] == ' ' {
      if i < |x| { assert z[i] == x[i]; } else if i > |x| { assert z[i] == y[i - 1 - |x|]; }
    }
    assert z[|z| - 1] == y[|y| - 1];
  }

  /** `pat` starts with a character that does not recur in it, so two occurrences never overlap. */
  predicate Unbordered(pat: string) {
    |pat| > 0 && pat[0] !in pat[1..]
  }

  /** No occurrence of `pat` ends past the end of `x` while starting inside it. */
  predicate EndsClearOf(x: string, pat: string) {
    forall i :: 0 <= i < |x| && |x| < i + |pat| ==> x[i] != pat[0]
  }

  /** Text lacking the first character of `pat` does not contain `pat`. */
  lemma LacksFirstChar(s: string, pat: string)
    requires |pat| > 0 && pat[0] !in s
    ensures !Contains(s, pat)
  {
  }

  /**
    Text whose first character is the only one that could start `pat`, and
    which does not start with `pat`, neither holds nor ends in part of `pat`.
   */
  lemma OnlyFirstMayStart(t: string, pat: string)
    requires |pat| > 0 && |t| >= |pat| && pat[0] !in t[1..] && t[..|pat|] != pat
    ensures !Contains(t, pat) && EndsClearOf(t, pat)
  {
    forall i | 0 < i < |t| ensures t[i] != pat[0] {
      assert t[i] == t[1..][i - 1];
    }
  }

  /** `w` occurs in `a + w + b` right after `a`. */
  lemma OccursAtJoin(a: string, w: string, b: string)
    ensures OccursAt(a + w + b, w, |a|)
  {
    assert (a + w + b)[|a|..|a| + |w|] == w;
  }

  /** Neither half contains `pat` and none starts in `x` and runs into `y`: their concatenation does not contain it. */
  lemma NoContainsConcat(x: string, y: string, pat: string)
    requires |pat| > 0 && !Contains(x, pat) && !Contains(y, pat) && EndsClearOf(x, pat)
    ensures !Contains(x + y, pat)
  {
    var z := x + y;
    forall j | 0 <= j <= |z| && j + |pat| <= |z| ensures !OccursAt(z, pat, j) {
      if j + |pat| <= |x| {
        assert z[j..j + |pat|] == x[j..j + |pat|];
        assert OccursAt(z, pat, j) ==> OccursAt(x, pat, j);
      } else if j >= |x| {
        assert z[j..j + |pat|] == y[j - |x|..j - |x| + |pat|];
        assert OccursAt(z, pat, j) ==> OccursAt(y, pat, j - |x|);
      } else {
        assert z[j..j + |pat|][0] == x[j];
      }
    }
  }

  /** The four pieces of `a + b + c + d` are found again by slicing at their lengths. */
  lemma ConcatParts(a: string, b: string, c: string, d: string)
    ensures var x, i, j, k := a + b + c + d, |a|, |a| + |b|, |a| + |b| + |c|;
            && |x| == k + |d|
            && x[..i] == a && x[i..j] == b && x[j..k] == c && x[k..] == d && x[..k] == a + b + c
  {
    var x, i, j, k := a + b + c + d, |a|, |a| + |b|, |a| + |b| + |c|;
    assert x == (a + b + c) + d;
    assert x[..k] == a + b + c && x[k..] == d;
    assert (a + b + c)[..j] == a + b && (a + b + c)[j..] == c;
    assert x[..k][..j] == x[..j] && x[..k][j..] == x[j..k];
    assert (a + b)[..i] == a && (a + b)[i..] == b;
    assert x[..j][..i] == x[..i] && x[..j][i..] == x[i..j];
  }

  lemma SliceOfSlice(s: string, m: nat, n: nat, a: nat, b: nat)
    requires m <= n <= |s| && a <= b <= n - m
    ensures s[m..n][a..b] == s[m + a..m + b]
  {
    var x, y := s[m..n][a..b], s[m + a..m + b];
    forall k | 0 <= k < |x| ensures x[k] == y[k] {
      assert x[k] == s[m..n][a + k];
    }
  }

  /** When `pat` occurs at `n` and not inside `s[m..n]`, it occurs nowhere in `[m, n)`. */
  lemma NoEarlierOccurrence(s: string, pat: string, m: nat, n: nat)
    requires Unbordered(pat) && m <= n && OccursAt(s, pat, n) && !Contains(s[m..n], pat)
    ensures forall j :: m <= j < n ==> !OccursAt(s, pat, j)
  {
    forall j | m <= j < n ensures !OccursAt(s, pat, j) {
      if j + |pat| <= n {
        var t := s[m..n];
        SliceOfSlice(s, m, n, j - m, j - m + |pat|);
        assert OccursAt(s, pat, j) ==> OccursAt(t, pat, j - m);
      } else if j + |pat| <= |s| {
        var i := n - j;
        assert s[j..j + |pat|][i] == s[j + i];
        assert s[n..n + |pat|][0] == s[n];
        assert pat[1..][i - 1] == pat[i];
        assert pat[1..][i - 1] in pat[1..];
      }
    }
  }

  /** The leftmost occurrence of `pat` in `x + pat + y`, when `x` does not contain it, is right after `x`. */
  lemma FindAfter(x: string, pat: string, y: string)
    requires Unbordered(pat) && !Contains(x, pat)
    ensures Find(x + pat + y, pat, 0) == Some(|x|)
  {
    var s := x + pat + y;
    OccursAtJoin(x, pat, y);
    assert s[0..|x|] == x;
    NoEarlierOccurrence(s, pat, 0, |x|);
  }

  /** Splitting at the first separator. */
  lemma SplitOnce(x: string, sep: string, y: string)
    requires Unbordered(sep) && !Contains(x, sep)
    ensures Split(x + sep + y, sep) == [x] + Split(y, sep)
  {
    var s := x + sep + y;
    FindAfter(x, sep, y);
    assert s[..|x|] == x;
    assert s[|x| + |sep|..] == y;
  }

  /** `split` undoes `join`: parts without the separator come back as they were. */
  lemma {:induction false} SplitJoin(parts: seq<string>, sep: string)
    requires |parts| >= 1 && Unbordered(sep)
    requires forall k :: 0 <= k < |parts| ==> !Contains(parts[k], sep)
    ensures Split(Join(parts, sep), sep) == parts
    decreases |parts|
  {
    if |parts| == 1 {
      SplitWhole(parts[0], sep);
    } else {
      SplitJoin(parts[1..], sep);
      SplitOnce(parts[0], sep, Join(parts[1..], sep));
      assert parts == [parts[0]] + parts[1..];
    }
  }

  /** Clean parts joined by a clean separator give clean text. */
  lemma {:induction false} JoinClean(parts: seq<string>, sep: string)
    requires |parts| >= 1 && IsClean(sep)
    requires forall k :: 0 <= k < |parts| ==> IsClean(parts[k])
    ensures IsClean(Join(parts, sep))
    decreases |parts|
  {
    if |parts| > 1 {
      JoinClean(parts[1..], sep);
      CleanConcat(parts[0], sep);
      CleanConcat(parts[0] + sep, Join(parts[1..], sep));
    }
  }

  /** Text without the separator splits into itself alone. */
  lemma SplitWhole(s: string, sep: string)
    requires |sep| > 0
    ensures !Contains(s, sep) ==> Split(s, sep) == [s]
  {
  }
}
