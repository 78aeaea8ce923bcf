/**
  The change detection of main (index.js:164-177, 203-206). The serialized
  table is compared with the stored document as strings; only when they
  differ is the stored document parsed, and then the entries whose `srNo`
  no stored entry has are the new ones. `JSON.stringify(…, null, 2)` and
  `JSON.parse` are parameters: `stringify` any function, `parse` any function
  that answers None where `JSON.parse` would throw.
 */
module ChangeDetector {
  import opened Wrappers
  import opened TableParser

  /** What a run decides. */
  datatype Outcome =
    | Unchanged                                        // index.js:204-206: nothing announced, nothing written
    | Changed(newEntries: seq<Entry>, content: string) // index.js:170-203: announce the new entries, then write `content`
    | ParseFailed                                      // index.js:172 throws: the run ends before any announcement or write

  /** `previous.some((gistEntry) => gistEntry.srNo === srNo)`. */
  predicate Known(previous: seq<Entry>, srNo: string) {
    exists p :: p in previous && p.srNo == srNo
  }

  /** `a` is `b` with some elements left out, the rest in their order. */
  predicate IsSubsequence(a: seq<Entry>, b: seq<Entry>)
    decreases |b|
  {
    if b == [] then a == []
    else (a != [] && a[0] == b[0] && IsSubsequence(a[1..], b[1..])) || IsSubsequence(a, b[1..])
  }

  /**
    index.js:174-177: the current entries whose serial number no previous
    entry has, in current order.
   */
  function NewEntries(current: seq<Entry>, previous: seq<Entry>): (r: seq<Entry>)
    ensures forall e :: e in r <==> e in current && !Known(previous, e.srNo)
  {
    if current == [] then []
    else if Known(previous, current[0].srNo) then NewEntries(current[1..], previous)
    else [current[0]] + NewEntries(current[1..], previous)
  }

  /** The new entries keep the order of the table. */
  lemma {:induction false} NewEntriesKeepOrder(current: seq<Entry>, previous: seq<Entry>)
    ensures IsSubsequence(NewEntries(current, previous), current)
  {
    if current != [] {
      NewEntriesKeepOrder(current[1..], previous);
      var rest := NewEntries(current[1..], previous);
      if !Known(previous, current[0].srNo) {
        assert ([current[0]] + rest)[1..] == rest;
      }
    }
  }

  /** An entry with an unseen serial number is reported as often as the table holds it; one with a known serial number never. */
  lemma {:induction false} NewEntriesCount(current: seq<Entry>, previous: seq<Entry>, e: Entry)
    ensures multiset(NewEntries(current, previous))[e] == if Known(previous, e.srNo) then 0 else multiset(current)[e]
  {
    if current != [] {
      NewEntriesCount(current[1..], previous, e);
      assert current == [current[0]] + current[1..];
      assert multiset(current) == multiset([current[0]]) + multiset(current[1..]);
      var rest := NewEntries(current[1..], previous);
      if !Known(previous, current[0].srNo) {
        assert multiset([current[0]] + rest) == multiset([current[0]]) + multiset(rest);
      }
    }
  }

  /** index.js:164-177, 203-206. */
  function Detect(current: seq<Entry>, stored: string,
                  stringify: seq<Entry> -> string,
                  parse: string -> Option<seq<Entry>>): (o: Outcome)
    ensures o.Unchanged? <==> stringify(current) == stored
    ensures o.ParseFailed? <==> stringify(current) != stored && parse(stored).None?
    ensures o.Changed? ==> o.content == stringify(current)
    ensures o.Changed? ==> forall e :: e in o.newEntries <==> e in current && !Known(parse(stored).value, e.srNo)
  {
    var content := stringify(current);
    if stored == content then Unchanged
    else match parse(stored)
      case None => ParseFailed
      case Some(previous) => Changed(NewEntries(current, previous), content)
  }

  /**
    When the serialized table equals the stored document nothing is reported
    and nothing is written, and the stored document is not parsed: the
    outcome is the same whatever `parse` would do with it.
   */
  lemma SameContentShortCircuits(current: seq<Entry>, stored: string,
                                 stringify: seq<Entry> -> string,
                                 parse: string -> Option<seq<Entry>>,
                                 otherParse: string -> Option<seq<Entry>>)
    requires stringify(current) == stored
    ensures Detect(current, stored, stringify, parse) == Unchanged
    ensures Detect(current, stored, stringify, otherParse) == Unchanged
  {
  }

  /**
    When they differ and the stored document parses, the reported entries
    are exactly the current ones with an unseen serial number, in current
    order, and the new serialization is written.
   */
  lemma DifferentContentReportsUnseenSerials(current: seq<Entry>, stored: string,
                                            stringify: seq<Entry> -> string,
                                            parse: string -> Option<seq<Entry>>,
                                            previous: seq<Entry>)
    requires stringify(current) != stored && parse(stored) == Some(previous)
    ensures Detect(current, stored, stringify, parse).Changed?
    ensures var o := Detect(current, stored, stringify, parse);
            && o.content == stringify(current)
            && (forall e :: e in o.newEntries <==> e in current && !Known(previous, e.srNo))
            && IsSubsequence(o.newEntries, current)
  {
    NewEntriesKeepOrder(current, previous);
  }

  /**
    Changed fields of an entry whose serial number is already stored are not
    reported: when every current serial number is stored, no entry is new,
    yet the new content is still written.
   */
  lemma KnownSerialsReportNothing(current: seq<Entry>, stored: string,
                                  stringify: seq<Entry> -> string,
                                  parse: string -> Option<seq<Entry>>,
                                  previous: seq<Entry>)
    requires stringify(current) != stored && parse(stored) == Some(previous)
    requires forall e :: e in current ==> Known(previous, e.srNo)
    ensures Detect(current, stored, stringify, parse) == Changed([], stringify(current))
  {
    AllKnownNoneNew(current, previous);
  }

  lemma {:induction false} AllKnownNoneNew(current: seq<Entry>, previous: seq<Entry>)
    requires forall e :: e in current ==> Known(previous, e.srNo)
    ensures NewEntries(current, previous) == []
  {
    if current != [] {
      assert current[0] in current;
      AllKnownNoneNew(current[1..], previous);
    }
  }

  /** A second run on the same table after the write finds nothing to do. */
  lemma RerunAfterWriteIsUnchanged(current: seq<Entry>, stored: string,
                                   stringify: seq<Entry> -> string,
                                   parse: string -> Option<seq<Entry>>)
    requires Detect(current, stored, stringify, parse).Changed?
    ensures Detect(current, Detect(current, stored, stringify, parse).content, stringify, parse) == Unchanged
  {
  }

  /** A stored entry "1" and current entries "1" and "2": only "2" is new. */
  lemma SecondSerialIsNew(one: Entry, oneNow: Entry, two: Entry)
    requires one.srNo == "1" && oneNow.srNo == "1" && two.srNo == "2"
    ensures NewEntries([oneNow, two], [one]) == [two]
  {
    assert Known([one], "1");
    assert !Known([one], "2") by {
      assert "1"[0] != "2"[0];
    }
    assert [oneNow, two][1..] == [two] && [two][1..] == [];
    assert NewEntries([oneNow, two], [one]) == NewEntries([two], [one]);
    assert NewEntries([two], [one]) == [two] + NewEntries([], [one]);
  }
}
