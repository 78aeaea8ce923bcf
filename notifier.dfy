/**
  The webhook message announcing one new entry (index.js:181-195): a fixed
  title, a description naming the application and its go-live date with a
  link line for a secure link, and one inline field per partner bank.
 */
module Notifier {
  import opened Wrappers
  import opened Strings
  import opened TableParser

  const Title := "New 3rd party UPI app added!"

  /** One embed field; a missing name or value is `undefined`. */
  datatype Field = Field(name: Option<string>, value: Option<string>, inline: bool)

  /** `color` is always `null` (None). */
  datatype Embed = Embed(title: string, description: string, color: Option<int>, fields: seq<Field>)

  /** `content` is always `null` (None). */
  datatype Message = Message(content: Option<string>, embeds: seq<Embed>)

  /** A value interpolated into a template literal: `undefined` prints as "undefined". */
  function Text(v: Option<string>): string {
    match v
    case Some(s) => s
    case None => "undefined"
  }

  predicate StartsWith(s: string, prefix: string) {
    OccursAt(s, prefix, 0)
  }

  function LinkLine(url: string): string {
    if StartsWith(url, "https://") then "\nLink: " + url else ""
  }

  function Intro(e: Entry): string {
    "Name: **" + Text(e.tpap) + "**\nWent live: **" + Text(e.goLive) + "**"
  }

  const Outro := "\n\n**Partner Bank(s):**"

  /**
    index.js:186. `linksURL.startsWith` throws on an undefined link, so the
    link must be present.
   */
  function Description(e: Entry): (d: string)
    requires e.linksURL.Some?
    ensures |d| >= |Intro(e)| + |Outro| && d[..|Intro(e)|] == Intro(e) && d[|d| - |Outro|..] == Outro
    ensures |d| > |Intro(e)| + |Outro| <==> StartsWith(e.linksURL.value, "https://")
  {
    Intro(e) + LinkLine(e.linksURL.value) + Outro
  }

  /** index.js:188-192: one inline field per pair, in order, named after the bank with the handle as value. */
  function Fields(banks: seq<Bank>): (fields: seq<Field>)
    ensures |fields| == |banks|
    ensures forall i :: 0 <= i < |banks| ==> fields[i] == Field(banks[i].bank, banks[i].handleName, true)
  {
    if banks == [] then []
    else [Field(banks[0].bank, banks[0].handleName, true)] + Fields(banks[1..])
  }

  /**
    index.js:181-195: the body posted for one new entry: null content and one
    embed with the fixed title, the entry's description and null colour, whose
    fields follow the entry's pairs one for one.
   */
  function Payload(e: Entry): (m: Message)
    requires e.linksURL.Some?
    ensures m.content.None? && |m.embeds| == 1
    ensures m.embeds[0].title == Title && m.embeds[0].description == Description(e) && m.embeds[0].color.None?
    ensures |m.embeds[0].fields| == |e.pspBanks|
    ensures forall i :: 0 <= i < |e.pspBanks| ==>
              && m.embeds[0].fields[i].name == e.pspBanks[i].bank
              && m.embeds[0].fields[i].value == e.pspBanks[i].handleName
              && m.embeds[0].fields[i].inline
  {
    Message(None, [Embed(Title, Description(e), None, Fields(e.pspBanks))])
  }

  /**
    A link starting with "https://" is shown on its own line after the
    go-live date; any other link is left out, exactly as if it were empty.
   */
  lemma LinkShownOnlyWhenSecure(e: Entry)
    requires e.linksURL.Some?
    ensures var url := e.linksURL.value;
            StartsWith(url, "https://") ==> OccursAt(Description(e), "\nLink: " + url, |Intro(e)|)
    ensures var url := e.linksURL.value;
            !StartsWith(url, "https://") ==> Description(e) == Description(e.(linksURL := Some("")))
  {
    var url := e.linksURL.value;
    if StartsWith(url, "https://") {
      var line := "\nLink: " + url;
      assert Description(e) == Intro(e) + line + Outro;
      assert Description(e)[|Intro(e)|..|Intro(e)| + |line|] == line;
    } else {
      assert Intro(e.(linksURL := Some(""))) == Intro(e);
      assert !StartsWith("", "https://");
    }
  }
}
