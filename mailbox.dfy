/** The two per-recipient commands: reading a recipient's mail, which reports
    how many messages the query returned, and clearing it, which asks for
    every returned message to be archived. */
module Mailbox {
  import opened Messages

  /** One message as the read command lists it: id, sender, the timestamp
      string handed to the ISO parser, and the text. */
  datatype InboxEntry = InboxEntry(id: string, from: string, stamp: string, text: string)

  function InboxEntryOf(m: Message): (e: InboxEntry)
    requires HasSender(m)
    ensures e.id == m.id && e.from == SenderOf(m) && e.text == m.body
    ensures e.stamp == NormalizeTimestamp(m.date)
    ensures 'Z' !in e.stamp && ('Z' !in m.date ==> e.stamp == m.date)
  {
    NormalizeRemovesZ(m.date);
    assert 'Z' !in m.date ==> NormalizeTimestamp(m.date) == m.date by {
      if 'Z' !in m.date { NormalizeKeepsZFree(m.date); }
    }
    InboxEntry(m.id, SenderOf(m), NormalizeTimestamp(m.date), m.body)
  }

  /** What the read command shows: the "no messages" notice, or the number of
      messages followed by the messages. */
  datatype Inbox = NoMessages | Listing(count: nat, entries: seq<InboxEntry>)

  /** What the clear command reports once its requests are issued. */
  datatype ClearReport = NothingToClear | Cleared(recipient: string)

  /** The read command on a given query result. It returns the number of
      messages, lists them in result order, and shows the notice exactly
      when there are none. */
  method ReadMail(results: seq<Message>) returns (count: nat, inbox: Inbox)
    requires forall k :: 0 <= k < |results| ==> HasSender(results[k])
    ensures count == |results|
    ensures inbox.NoMessages? <==> count == 0
    ensures inbox.Listing? ==>
      && inbox.count == count == |inbox.entries|
      && forall k :: 0 <= k < count ==> inbox.entries[k] == InboxEntryOf(results[k])
  {
    if results == [] {
      inbox := NoMessages;
    } else {
      var entries: seq<InboxEntry> := [];
      for i := 0 to |results|
        invariant |entries| == i
        invariant forall k :: 0 <= k < i ==> entries[k] == InboxEntryOf(results[k])
      {
        entries := entries + [InboxEntryOf(results[i])];
      }
      inbox := Listing(|results|, entries);
    }
    count := |results|;
  }

  /** The ids of a query result, in result order. */
  function Ids(results: seq<Message>): (ids: seq<string>)
    ensures |ids| == |results|
    ensures forall k :: 0 <= k < |results| ==> ids[k] == results[k].id
  {
    if results == [] then [] else [results[0].id] + Ids(results[1..])
  }

  /** The clear command on a given query result: one archive request per
      result, carrying that result's id, in result order. */
  method ClearMail(recipient: string, results: seq<Message>) returns (archived: seq<string>, report: ClearReport)
    ensures archived == Ids(results)
    ensures report == if results == [] then NothingToClear else Cleared(recipient)
  {
    archived := [];
    if results == [] {
      report := NothingToClear;
    } else {
      for i := 0 to |results|
        invariant archived == Ids(results[..i])
      {
        var messageId := results[i].id;
        archived := archived + [messageId];
      }
      assert results[..|results|] == results;
      report := Cleared(recipient);
    }
  }
}
