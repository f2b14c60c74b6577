/** The relationship view: two one-sided query results are filtered by the
    exact two-way pair test and merged, without repeating a record of the first
    list, into one list that is then shown in reverse order. */
module Relationship {
  import opened Messages

  /** Every message of a query result has its sender and recipient runs. */
  predicate AllHaveParties(rs: seq<Message>) {
    forall k :: 0 <= k < |rs| ==> HasParties(rs[k])
  }

  /** No record occurs twice. */
  predicate Distinct(s: seq<Message>) {
    forall i, j :: 0 <= i < j < |s| ==> s[i] != s[j]
  }

  lemma PrefixHasParties(rs: seq<Message>, n: nat)
    requires AllHaveParties(rs) && n <= |rs|
    ensures AllHaveParties(rs[..n])
  {
  }

  /** The messages of `rs` that pass the pair test, in their order in `rs`,
      duplicates included. */
  function Matches(person1: string, person2: string, rs: seq<Message>): (r: seq<Message>)
    requires AllHaveParties(rs)
    ensures |r| <= |rs|
  {
    if rs == [] then []
    else
      var init := rs[..|rs| - 1];
      var last := rs[|rs| - 1];
      assert rs == init + [last];
      var prev := Matches(person1, person2, init);
      if Between(last, person1, person2) then prev + [last] else prev
  }

  /** `acc` followed by every message of `rs`, in order, that is not already
      present as an equal record at the moment it is reached. */
  function AppendAbsent(acc: seq<Message>, rs: seq<Message>): (r: seq<Message>)
    ensures |acc| <= |r| <= |acc| + |rs|
    ensures r[..|acc|] == acc
  {
    if rs == [] then acc
    else
      var init := rs[..|rs| - 1];
      var last := rs[|rs| - 1];
      assert rs == init + [last];
      var prev := AppendAbsent(acc, init);
      if last in prev then prev else prev + [last]
  }

  /** The filter keeps a message exactly when it is in the result and
      passes the pair test. */
  lemma {:induction false} MatchesMembership(person1: string, person2: string, rs: seq<Message>, m: Message)
    requires AllHaveParties(rs)
    ensures m in Matches(person1, person2, rs) <==> m in rs && HasParties(m) && Between(m, person1, person2)
  {
    if rs != [] {
      var init := rs[..|rs| - 1];
      assert rs == init + [rs[|rs| - 1]];
      MatchesMembership(person1, person2, init, m);
    }
  }

  /** `AppendAbsent` ends holding exactly the records of `acc` and of `rs`. */
  lemma {:induction false} AppendAbsentMembership(acc: seq<Message>, rs: seq<Message>, m: Message)
    ensures m in AppendAbsent(acc, rs) <==> m in acc || m in rs
  {
    if rs != [] {
      var init := rs[..|rs| - 1];
      assert rs == init + [rs[|rs| - 1]];
      AppendAbsentMembership(acc, init, m);
    }
  }

  /** Every message of `s` went from one of the two people to the other. */
  predicate AllBetween(s: seq<Message>, person1: string, person2: string) {
    && AllHaveParties(s)
    && forall k :: 0 <= k < |s| ==> Between(s[k], person1, person2)
  }

  lemma MatchesBetween(person1: string, person2: string, rs: seq<Message>)
    requires AllHaveParties(rs)
    ensures AllBetween(Matches(person1, person2, rs), person1, person2)
  {
    var r := Matches(person1, person2, rs);
    forall k | 0 <= k < |r| ensures HasParties(r[k]) && Between(r[k], person1, person2) {
      MatchesMembership(person1, person2, rs, r[k]);
    }
  }

  lemma AppendAbsentBetween(person1: string, person2: string, acc: seq<Message>, rs: seq<Message>)
    requires AllBetween(acc, person1, person2) && AllBetween(rs, person1, person2)
    ensures AllBetween(AppendAbsent(acc, rs), person1, person2)
  {
    var r := AppendAbsent(acc, rs);
    forall k | 0 <= k < |r| ensures HasParties(r[k]) && Between(r[k], person1, person2) {
      AppendAbsentMembership(acc, rs, r[k]);
    }
  }

  /** The merged list between two people, before it is displayed. Every
      message in it went from one of the two people to the other. */
  function Interactions(person1: string, person2: string, results1: seq<Message>, results2: seq<Message>): (merged: seq<Message>)
    requires AllHaveParties(results1) && AllHaveParties(results2)
    ensures AllBetween(merged, person1, person2)
  {
    var first := Matches(person1, person2, results1);
    var second := Matches(person1, person2, results2);
    MatchesBetween(person1, person2, results1);
    MatchesBetween(person1, person2, results2);
    AppendAbsentBetween(person1, person2, first, second);
    AppendAbsent(first, second)
  }

  /** The merged list holds every matching message of either result and
      nothing else. */
  lemma InteractionsMembership(person1: string, person2: string, results1: seq<Message>, results2: seq<Message>, m: Message)
    requires AllHaveParties(results1) && AllHaveParties(results2)
    ensures m in Interactions(person1, person2, results1, results2)
        <==> (m in results1 || m in results2) && HasParties(m) && Between(m, person1, person2)
  {
    AppendAbsentMembership(Matches(person1, person2, results1), Matches(person1, person2, results2), m);
    MatchesMembership(person1, person2, results1, m);
    MatchesMembership(person1, person2, results2, m);
  }

  /** The merged list is no longer than the two lists of matches together. */
  lemma InteractionsLength(person1: string, person2: string, results1: seq<Message>, results2: seq<Message>)
    requires AllHaveParties(results1) && AllHaveParties(results2)
    ensures |Interactions(person1, person2, results1, results2)|
        <= |Matches(person1, person2, results1)| + |Matches(person1, person2, results2)|
  {
  }

  /** The matches of the first result are the beginning of the merged list,
      unchanged: same order, duplicates kept. */
  lemma FirstResultsPrefix(person1: string, person2: string, results1: seq<Message>, results2: seq<Message>)
    requires AllHaveParties(results1) && AllHaveParties(results2)
    ensures Matches(person1, person2, results1) <= Interactions(person1, person2, results1, results2)
  {
    var first := Matches(person1, person2, results1);
    var merged := Interactions(person1, person2, results1, results2);
    assert merged[..|first|] == first;
  }

  /** The pair filter keeps each matching record as often as `rs` has it and
      drops every other record. */
  lemma {:induction false} MatchesKeepsDuplicates(person1: string, person2: string, rs: seq<Message>, m: Message)
    requires AllHaveParties(rs) && HasParties(m)
    ensures multiset(Matches(person1, person2, rs))[m]
         == if Between(m, person1, person2) then multiset(rs)[m] else 0
  {
    if rs != [] {
      var init := rs[..|rs| - 1];
      var last := rs[|rs| - 1];
      assert rs == init + [last];
      assert multiset(rs) == multiset(init) + multiset{last};
      PrefixHasParties(rs, |rs| - 1);
      MatchesKeepsDuplicates(person1, person2, init, m);
      var prev := Matches(person1, person2, init);
      if Between(last, person1, person2) {
        assert multiset(prev + [last]) == multiset(prev) + multiset{last};
      }
    }
  }

  /** What `AppendAbsent` adds to `acc` holds no repeated record and no record
      of `acc`, and it is exactly the records of `rs` missing from `acc`. */
  lemma {:induction false} AppendAbsentAdded(acc: seq<Message>, rs: seq<Message>)
    ensures var added := AppendAbsent(acc, rs)[|acc|..];
      && Distinct(added)
      && forall m :: m in added <==> m in rs && m !in acc
  {
    var r := AppendAbsent(acc, rs);
    assert r == acc + r[|acc|..];
    if rs != [] {
      var init := rs[..|rs| - 1];
      var last := rs[|rs| - 1];
      assert rs == init + [last];
      AppendAbsentAdded(acc, init);
      var prev := AppendAbsent(acc, init);
      assert prev == acc + prev[|acc|..];
      if last !in prev {
        assert r[|acc|..] == prev[|acc|..] + [last];
      }
    }
  }

  /** The part of the merged list contributed by the second result has no
      repeats and shares no record with the first result's matches. */
  lemma SecondResultsAdded(person1: string, person2: string, results1: seq<Message>, results2: seq<Message>)
    requires AllHaveParties(results1) && AllHaveParties(results2)
    ensures var first := Matches(person1, person2, results1);
      var added := Interactions(person1, person2, results1, results2)[|first|..];
      && Distinct(added)
      && forall m :: m in added <==> m in Matches(person1, person2, results2) && m !in first
  {
    AppendAbsentAdded(Matches(person1, person2, results1), Matches(person1, person2, results2));
  }

  /** The merged list is empty exactly when neither result holds a message
      between the two people. */
  lemma NoInteractionsIff(person1: string, person2: string, results1: seq<Message>, results2: seq<Message>)
    requires AllHaveParties(results1) && AllHaveParties(results2)
    ensures Interactions(person1, person2, results1, results2) == []
        <==> forall m :: m in results1 + results2 ==> !Between(m, person1, person2)
  {
    var merged := Interactions(person1, person2, results1, results2);
    if merged != [] {
      InteractionsMembership(person1, person2, results1, results2, merged[0]);
    }
    forall m | m in results1 + results2 && Between(m, person1, person2)
      ensures m in merged
    {
      InteractionsMembership(person1, person2, results1, results2, m);
    }
  }

  /** The filter changes nothing on a list whose messages all match. */
  lemma {:induction false} MatchesAllBetween(person1: string, person2: string, rs: seq<Message>)
    requires AllBetween(rs, person1, person2)
    ensures Matches(person1, person2, rs) == rs
  {
    if rs != [] {
      var init := rs[..|rs| - 1];
      assert rs == init + [rs[|rs| - 1]];
      assert AllBetween(init, person1, person2);
      MatchesAllBetween(person1, person2, init);
    }
  }

  /** Helper for `WholeRecordDedupe`: the membership-checked append on a
      concrete list. */
  lemma AppendAbsentExample(a: Message, b: Message)
    requires b != a
    ensures AppendAbsent([a, a], [a, b]) == [a, a, b]
  {
    var acc := [a, a];
    assert AppendAbsent(acc, [a]) == acc by {
      assert AppendAbsent(acc, []) == acc;
      assert [] + [a] == [a];
      AppendAbsentStep(acc, [], a);
    }
    assert AppendAbsent(acc, [a, b]) == acc + [b] by {
      assert b !in acc;
      assert [a] + [b] == [a, b];
      AppendAbsentStep(acc, [a], b);
    }
    assert acc + [b] == [a, a, b];
  }

  /** Deduplication compares whole records: a repeat inside the first result
      stays, a record of the second result equal to one already present is
      dropped, and one that differs from it only in its id is kept. */
  lemma WholeRecordDedupe(a: Message, b: Message)
    requires HasParties(a) && b == a.(id := b.id) && b.id != a.id
    ensures Interactions(SenderOf(a), RecipientOf(a), [a, a], [a, b]) == [a, a, b]
  {
    var p1, p2 := SenderOf(a), RecipientOf(a);
    assert AllBetween([a, a], p1, p2);
    assert AllBetween([a, b], p1, p2);
    MatchesAllBetween(p1, p2, [a, a]);
    MatchesAllBetween(p1, p2, [a, b]);
    AppendAbsentExample(a, b);
  }

  // Display

  /** One displayed message: its id, sender, recipient, the timestamp string
      handed to the ISO parser, and its text. */
  datatype Entry = Entry(id: string, from: string, to: string, stamp: string, text: string)

  function EntryOf(m: Message): (e: Entry)
    requires HasParties(m)
    ensures e.id == m.id && e.from == SenderOf(m) && e.to == RecipientOf(m) && e.text == m.body
    ensures e.stamp == NormalizeTimestamp(m.date)
    ensures Between(m, e.from, e.to)
    ensures 'Z' !in e.stamp && ('Z' !in m.date ==> e.stamp == m.date)
  {
    NormalizeRemovesZ(m.date);
    assert 'Z' !in m.date ==> NormalizeTimestamp(m.date) == m.date by {
      if 'Z' !in m.date { NormalizeKeepsZFree(m.date); }
    }
    Entry(m.id, SenderOf(m), RecipientOf(m), NormalizeTimestamp(m.date), m.body)
  }

  /** What the relationship command shows: the "no interactions" notice, or
      the number of messages with the messages themselves. */
  datatype View = NoInteractions | Conversation(count: nat, entries: seq<Entry>)

  /** One more result message: the filter grows by it exactly when it passes
      the pair test. */
  lemma MatchesStep(person1: string, person2: string, rs: seq<Message>, i: nat)
    requires AllHaveParties(rs) && i < |rs|
    ensures AllHaveParties(rs[..i]) && AllHaveParties(rs[..i + 1])
    ensures Matches(person1, person2, rs[..i + 1])
         == if Between(rs[i], person1, person2) then Matches(person1, person2, rs[..i]) + [rs[i]]
            else Matches(person1, person2, rs[..i])
  {
    assert rs[..i + 1][..i] == rs[..i];
  }

  /** One more new record: it is appended exactly when it is not present. */
  lemma AppendAbsentStep(acc: seq<Message>, rs: seq<Message>, m: Message)
    ensures AppendAbsent(acc, rs + [m])
         == if m in AppendAbsent(acc, rs) then AppendAbsent(acc, rs) else AppendAbsent(acc, rs) + [m]
  {
    assert (rs + [m])[..|rs|] == rs;
  }

  /** The first loop: the messages of the first result that pass the pair
      test, appended in result order. */
  method FilterPairs(person1: string, person2: string, results: seq<Message>)
    returns (matches: seq<Message>)
    requires AllHaveParties(results)
    ensures matches == Matches(person1, person2, results)
  {
    matches := [];
    for i := 0 to |results|
      invariant AllHaveParties(results[..i])
      invariant matches == Matches(person1, person2, results[..i])
    {
      var msg := results[i];
      var sender := SenderOf(msg);
      var recipient := RecipientOf(msg);
      MatchesStep(person1, person2, results, i);
      if (sender == person1 && recipient == person2) || (sender == person2 && recipient == person1) {
        matches := matches + [msg];
      }
    }
    assert results[..|results|] == results;
  }

  /** The second loop: each message of the second result that passes the
      pair test is appended unless an equal record is already in the list. */
  method AppendNewPairs(person1: string, person2: string, acc: seq<Message>, results: seq<Message>)
    returns (merged: seq<Message>)
    requires AllHaveParties(results)
    ensures merged == AppendAbsent(acc, Matches(person1, person2, results))
  {
    merged := acc;
    for i := 0 to |results|
      invariant AllHaveParties(results[..i])
      invariant merged == AppendAbsent(acc, Matches(person1, person2, results[..i]))
    {
      var msg := results[i];
      var sender := SenderOf(msg);
      var recipient := RecipientOf(msg);
      MatchesStep(person1, person2, results, i);
      if (sender == person1 && recipient == person2) || (sender == person2 && recipient == person1) {
        AppendAbsentStep(acc, Matches(person1, person2, results[..i]), msg);
        if msg !in merged {
          merged := merged + [msg];
        }
      }
    }
    assert results[..|results|] == results;
  }

  /** Builds the merged list the way the client does: a pass over the first
      result, then a pass over the second with a membership check. */
  method CollectInteractions(person1: string, person2: string, results1: seq<Message>, results2: seq<Message>)
    returns (interactions: seq<Message>)
    requires AllHaveParties(results1) && AllHaveParties(results2)
    ensures interactions == Interactions(person1, person2, results1, results2)
  {
    var first := FilterPairs(person1, person2, results1);
    interactions := AppendNewPairs(person1, person2, first, results2);
  }

  /** The display loop: the entries of a merged list, last message first. */
  method ReversedEntries(interactions: seq<Message>) returns (entries: seq<Entry>)
    requires AllHaveParties(interactions)
    ensures |entries| == |interactions|
    ensures forall k :: 0 <= k < |interactions| ==> entries[k] == EntryOf(interactions[|interactions| - 1 - k])
  {
    var n := |interactions|;
    entries := [];
    for j := 0 to n
      invariant |entries| == j
      invariant forall k :: 0 <= k < j ==> entries[k] == EntryOf(interactions[n - 1 - k])
    {
      entries := entries + [EntryOf(interactions[n - 1 - j])];
    }
  }

  /** The relationship command on two given query results: the notice when
      there is nothing to show, otherwise the merged list in reverse. */
  method ShowRelationship(person1: string, person2: string, results1: seq<Message>, results2: seq<Message>)
    returns (view: View)
    requires AllHaveParties(results1) && AllHaveParties(results2)
    ensures var merged := Interactions(person1, person2, results1, results2);
      && (view.NoInteractions? <==> merged == [])
      && (view.Conversation? ==>
            && view.count == |merged| == |view.entries|
            && forall k :: 0 <= k < |merged| ==> view.entries[k] == EntryOf(merged[|merged| - 1 - k]))
  {
    var interactions := CollectInteractions(person1, person2, results1, results2);
    if interactions == [] {
      view := NoInteractions;
    } else {
      var entries := ReversedEntries(interactions);
      view := Conversation(|interactions|, entries);
    }
  }
}
