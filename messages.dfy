/** A row of the mailbox database as a query returns it, the pair test the
    relationship view applies to it, and the rewrite its stored UTC timestamp
    goes through before it is parsed. */
module Messages {

  /** One message page. `sender` and `recipient` are rich-text properties,
      that is lists of text runs; the client only ever reads the first run.
      `body` is the content of the title's first run and `date` the stored
      ISO 8601 start of the date property. */
  datatype Message = Message(
    id: string,
    sender: seq<string>,
    recipient: seq<string>,
    body: string,
    date: string)

  /** The sender's first text run exists, so `SenderOf` can read it. */
  predicate HasSender(m: Message) {
    |m.sender| > 0
  }

  /** The recipient's first text run exists, so `RecipientOf` can read it. */
  predicate HasRecipient(m: Message) {
    |m.recipient| > 0
  }

  /** Both the sender's and the recipient's first text runs exist. */
  predicate HasParties(m: Message) {
    HasSender(m) && HasRecipient(m)
  }

  function SenderOf(m: Message): string
    requires HasSender(m)
  {
    m.sender[0]
  }

  function RecipientOf(m: Message): string
    requires HasRecipient(m)
  {
    m.recipient[0]
  }

  /** The two-way pair test: the message went from one of the two people to
      the other, compared as whole strings. Put differently, sender and
      recipient are the two people as an unordered pair. */
  predicate Between(m: Message, person1: string, person2: string): (b: bool)
    requires HasParties(m)
    ensures b <==> multiset{SenderOf(m), RecipientOf(m)} == multiset{person1, person2}
  {
    || (SenderOf(m) == person1 && RecipientOf(m) == person2)
    || (SenderOf(m) == person2 && RecipientOf(m) == person1)
  }

  /** The pair test does not depend on which person is named first. */
  lemma BetweenSymmetric(m: Message, person1: string, person2: string)
    requires HasParties(m)
    ensures Between(m, person1, person2) <==> Between(m, person2, person1)
  {
  }

  /** The pair test is exact: a message between two people has one of them
      as its sender and the other as its recipient. */
  lemma BetweenExact(m: Message, person1: string, person2: string)
    requires HasParties(m) && Between(m, person1, person2)
    ensures SenderOf(m) in {person1, person2} && RecipientOf(m) in {person1, person2}
    ensures person1 != person2 ==> SenderOf(m) != RecipientOf(m)
  {
  }

  // Timestamp normalisation

  /** The UTC suffix the ISO parser accepts in place of 'Z'. */
  const UtcOffset: string := "+00:00"

  /** Every 'Z' of a stored timestamp replaced by "+00:00", the rest kept. */
  function NormalizeTimestamp(s: string): (r: string)
    ensures |s| <= |r| <= 6 * |s|
  {
    if s == [] then []
    else (if s[0] == 'Z' then UtcOffset else [s[0]]) + NormalizeTimestamp(s[1..])
  }

  /** The rewritten timestamp contains no 'Z'. */
  lemma {:induction false} NormalizeRemovesZ(s: string)
    ensures 'Z' !in NormalizeTimestamp(s)
  {
    if s != [] {
      NormalizeRemovesZ(s[1..]);
      var head := if s[0] == 'Z' then UtcOffset else [s[0]];
      assert 'Z' !in head;
      assert NormalizeTimestamp(s) == head + NormalizeTimestamp(s[1..]);
    }
  }

  /** A timestamp without 'Z' is returned unchanged. */
  lemma {:induction false} NormalizeKeepsZFree(s: string)
    requires 'Z' !in s
    ensures NormalizeTimestamp(s) == s
  {
    if s != [] {
      assert 'Z' !in s[1..] by {
        forall c | c in s[1..] ensures c in s { }
      }
      NormalizeKeepsZFree(s[1..]);
      assert s == [s[0]] + s[1..];
    }
  }

  /** Rewriting a timestamp twice is the same as rewriting it once. */
  lemma NormalizeIdempotent(s: string)
    ensures NormalizeTimestamp(NormalizeTimestamp(s)) == NormalizeTimestamp(s)
  {
    NormalizeRemovesZ(s);
    NormalizeKeepsZFree(NormalizeTimestamp(s));
  }

  /** The rewrite works character by character, so it splits over
      concatenation. */
  lemma {:induction false} NormalizeAppend(a: string, b: string)
    ensures NormalizeTimestamp(a + b) == NormalizeTimestamp(a) + NormalizeTimestamp(b)
  {
    if a != [] {
      assert (a + b)[0] == a[0];
      assert (a + b)[1..] == a[1..] + b;
      NormalizeAppend(a[1..], b);
    } else {
      assert a + b == b;
    }
  }

  /** Each 'Z' grows by five characters and nothing else changes length. */
  lemma {:induction false} NormalizeLength(s: string)
    ensures |NormalizeTimestamp(s)| == |s| + 5 * multiset(s)['Z']
  {
    if s != [] {
      NormalizeLength(s[1..]);
      assert s == [s[0]] + s[1..];
      assert multiset(s) == multiset{s[0]} + multiset(s[1..]);
    }
  }

  /** Position by position: the rewrite of `s` is the rewrite of what comes
      before position k, then k's own character ("+00:00" for a 'Z', the
      character itself otherwise), then the rewrite of what follows. */
  lemma {:induction false} NormalizeAt(s: string, k: nat)
    requires k < |s|
    ensures var before := NormalizeTimestamp(s[..k]);
      && NormalizeTimestamp(s) == before + NormalizeTimestamp([s[k]]) + NormalizeTimestamp(s[k + 1..])
      && NormalizeTimestamp([s[k]]) == (if s[k] == 'Z' then UtcOffset else [s[k]])
  {
    assert s == s[..k] + [s[k]] + s[k + 1..];
    NormalizeAppend(s[..k] + [s[k]], s[k + 1..]);
    NormalizeAppend(s[..k], [s[k]]);
    assert [s[k]][1..] == [];
  }
}
