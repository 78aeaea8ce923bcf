/**
  What one run of main (index.js:161-207) does once the table is parsed and
  the stored document is read, as the ordered list of its remote effects:
  one post per new entry, then the write of the new content. Building the
  message of an entry without a link throws (index.js:186), which ends the
  run after the posts already made and before the write.
 */
module Orchestrator {
  import opened Wrappers
  import opened TableParser
  import opened ChangeDetector
  import opened Notifier

  datatype Action = Post(message: Message) | Write(content: string)

  /** index.js:179-203: the posts for `entries` in order, then the write, stopping at the first entry that has no link. */
  function Announce(entries: seq<Entry>, content: string): (actions: seq<Action>)
    ensures |actions| <= |entries| + 1
    ensures forall k :: 0 <= k < |actions| - 1 ==> actions[k].Post?
    ensures (actions != [] && actions[|actions| - 1] == Write(content))
            <==> forall k :: 0 <= k < |entries| ==> entries[k].linksURL.Some?
  {
    if entries == [] then [Write(content)]
    else if entries[0].linksURL.None? then []
    else [Post(Payload(entries[0]))] + Announce(entries[1..], content)
  }

  /** The effects of a run with outcome `o`. */
  function Actions(o: Outcome): seq<Action> {
    match o
    case Changed(newEntries, content) => Announce(newEntries, content)
    case _ => []
  }

  /** How many of `entries` come before the first one without a link. */
  function LinkedPrefix(entries: seq<Entry>): (n: nat)
    ensures n <= |entries|
    ensures forall k :: 0 <= k < n ==> entries[k].linksURL.Some?
    ensures n < |entries| ==> entries[n].linksURL.None?
  {
    if entries == [] || entries[0].linksURL.None? then 0 else 1 + LinkedPrefix(entries[1..])
  }

  /**
    A changed run posts one message per new entry, in order, up to the first
    entry without a link; it writes the content, as its last effect, exactly
    when every new entry has a link (so also when there is no new entry).
   */
  lemma {:induction false} AnnounceThenWrite(entries: seq<Entry>, content: string)
    ensures var n := LinkedPrefix(entries);
            && |Announce(entries, content)| == n + (if n == |entries| then 1 else 0)
            && (forall k :: 0 <= k < n ==> Announce(entries, content)[k] == Post(Payload(entries[k])))
            && (n == |entries| ==> Announce(entries, content)[n] == Write(content))
  {
    if entries != [] && entries[0].linksURL.Some? {
      AnnounceThenWrite(entries[1..], content);
    }
  }

  /** Nothing is posted or written unless the content changed and the stored document parsed. */
  lemma NoEffectsWithoutChange(o: Outcome)
    requires !o.Changed?
    ensures Actions(o) == []
  {
  }

  /** A write happens only as the last effect of a changed run, and it writes the new content. */
  lemma {:induction false} WriteIsLast(entries: seq<Entry>, content: string, k: nat)
    requires k < |Announce(entries, content)| && Announce(entries, content)[k].Write?
    ensures k == |Announce(entries, content)| - 1 && Announce(entries, content)[k] == Write(content)
  {
    if entries != [] && entries[0].linksURL.Some? && k > 0 {
      WriteIsLast(entries[1..], content, k - 1);
    }
  }
}
