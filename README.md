# Notion mail: client-side message handling

A command-line mail tool keeps each message as a page in a hosted database.
The page has a title (the text), rich-text `Sender` and `Recipient` properties and a
`Date` property. Every command is one remote query or mutation. This project
models what the client does with the rows such a query returns:

- **Relationship view** (`show_relationship`). Two query results are each
  filtered by an exact two-way test on sender and recipient. The first
  result's matches are kept in order, duplicates included. A match from the
  second result is appended only when no equal whole record is already in the
  list. The merged list is shown in reverse order, or a notice is shown when
  it is empty.
- **Read** (`read_mail`). This returns the number of messages the query gave. It
  shows the "no messages" notice exactly when that number is 0, and otherwise
  lists them in result order.
- **Clear** (`clear_mail`). This issues one archive request per result id, in result
  order, and none at all when the result is empty.
- **Timestamp rewrite**. Before a stored timestamp is parsed, each `'Z'` in it
  is replaced by `"+00:00"`.

Query results are inputs (`seq<Message>`). A `Message` holds the page id, the
sender and recipient as lists of text runs, the text and the stored date
string. The client reads only the first run of a rich-text property, so the
operations that read one require it to exist (`HasSender`, `HasRecipient`, `HasParties`). What a
command prints is returned as a value: `View`, `Inbox`, or the archived ids
with a `ClearReport`. A displayed entry carries the timestamp string in the
form handed to the ISO parser.

The relationship view follows list order, not date order: it is the exact
reverse of the merged list, and the model promises nothing about dates.

Modules: `Messages` (the record, the pair test, the timestamp rewrite),
`Relationship` (filter, merge, display) and `Mailbox` (read and clear).

## Model

| member | source | states |
|---|---|---|
| Messages.Between | take_home_directory/notion_mail_take_home/notion_mail.py:144 | the two-way pair test (also at line 150) holds exactly when sender and recipient, as an unordered pair, are the two people |
| Messages.BetweenSymmetric | take_home_directory/notion_mail_take_home/notion_mail.py:144 | the pair test gives the same answer with the two people swapped |
| Messages.BetweenExact | take_home_directory/notion_mail_take_home/notion_mail.py:142-144 | a message that passes the pair test has one person as its exact sender and the other as its exact recipient; for two different people, sender and recipient differ |
| Messages.NormalizeTimestamp | take_home_directory/notion_mail_take_home/notion_mail.py:69 | the rewrite `replace('Z', '+00:00')` (also at line 166) never shortens the timestamp and at most sextuples its length |
| Messages.NormalizeRemovesZ | take_home_directory/notion_mail_take_home/notion_mail.py:69 | the rewritten timestamp contains no 'Z' |
| Messages.NormalizeKeepsZFree | take_home_directory/notion_mail_take_home/notion_mail.py:69 | a timestamp without 'Z' is returned unchanged |
| Messages.NormalizeIdempotent | take_home_directory/notion_mail_take_home/notion_mail.py:166 | rewriting twice gives the same string as rewriting once |
| Messages.NormalizeAppend | take_home_directory/notion_mail_take_home/notion_mail.py:69 | the rewrite of a concatenation is the concatenation of the rewrites |
| Messages.NormalizeLength | take_home_directory/notion_mail_take_home/notion_mail.py:69 | the result is longer by exactly five characters per 'Z' of the input |
| Messages.NormalizeAt | take_home_directory/notion_mail_take_home/notion_mail.py:69 | at each position the character becomes "+00:00" if it is 'Z' and stays itself otherwise, with the text before and after rewritten independently |
| Relationship.Matches | take_home_directory/notion_mail_take_home/notion_mail.py:141-145 | the first-result filter keeps no more messages than the result has |
| Relationship.MatchesMembership | take_home_directory/notion_mail_take_home/notion_mail.py:141-145 | the filter keeps a message if and only if it is in the result and passes the pair test |
| Relationship.MatchesAllBetween | take_home_directory/notion_mail_take_home/notion_mail.py:141-145 | on a result whose messages all pass the pair test, the filter returns the result unchanged |
| Relationship.AppendAbsent | take_home_directory/notion_mail_take_home/notion_mail.py:147-152 | the membership-checked loop leaves the existing list as its prefix and adds at most one entry per message it visits |
| Relationship.AppendAbsentMembership | take_home_directory/notion_mail_take_home/notion_mail.py:147-152 | after the membership-checked loop the list holds exactly the records it held before plus the visited ones |
| Relationship.Interactions | take_home_directory/notion_mail_take_home/notion_mail.py:138-152 | every message of the merged list passes the pair test for the two people |
| Relationship.InteractionsMembership | take_home_directory/notion_mail_take_home/notion_mail.py:138-152 | a message is in the merged list if and only if it is in either result and passes the pair test |
| Relationship.InteractionsLength | take_home_directory/notion_mail_take_home/notion_mail.py:138-152 | the merged list is no longer than the matches of the first result plus the matches of the second |
| Relationship.FirstResultsPrefix | take_home_directory/notion_mail_take_home/notion_mail.py:141-145 | the first result's matches, in order and with duplicates, are a prefix of the merged list |
| Relationship.MatchesKeepsDuplicates | take_home_directory/notion_mail_take_home/notion_mail.py:141-145 | the filter keeps each matching record exactly as many times as the result holds it, and drops non-matching records entirely |
| Relationship.AppendAbsentAdded | take_home_directory/notion_mail_take_home/notion_mail.py:147-152 | what the membership-checked loop adds has no repeated record and no record already present, and is exactly the new records not already present |
| Relationship.SecondResultsAdded | take_home_directory/notion_mail_take_home/notion_mail.py:147-152 | the part of the merged list after the first result's matches has no repeats, shares no record with those matches, and is exactly the second result's matches not among them |
| Relationship.NoInteractionsIff | take_home_directory/notion_mail_take_home/notion_mail.py:154-155 | the merged list is empty if and only if no message of either result passes the pair test |
| Relationship.WholeRecordDedupe | take_home_directory/notion_mail_take_home/notion_mail.py:151 | deduplication compares whole records: a copy differing only in id is kept, an equal record from the second result is dropped, repeats in the first result stay |
| Relationship.EntryOf | take_home_directory/notion_mail_take_home/notion_mail.py:161-169 | a displayed entry carries the message's id, its first sender run, its first recipient run and its text unchanged, and the stored timestamp after the 'Z' rewrite; so the shown parties pass the pair test, the stamp has no 'Z', and a stamp without 'Z' is the stored one |
| Relationship.FilterPairs | take_home_directory/notion_mail_take_home/notion_mail.py:141-145 | the first loop builds exactly the filtered first result |
| Relationship.AppendNewPairs | take_home_directory/notion_mail_take_home/notion_mail.py:147-152 | the second loop appends, in result order, each matching message whose equal record is not yet in the list |
| Relationship.CollectInteractions | take_home_directory/notion_mail_take_home/notion_mail.py:136-152 | the two loops build exactly the merged list: the first result's matches, then each new match of the second result |
| Relationship.ReversedEntries | take_home_directory/notion_mail_take_home/notion_mail.py:160-169 | the display loop yields one entry per merged message, entry k being the entry of message n-1-k |
| Relationship.ShowRelationship | take_home_directory/notion_mail_take_home/notion_mail.py:154-169 | the notice is shown exactly when the merged list is empty; otherwise the count is the merged list's length and entry k shows message n-1-k of the merged list, with its rewritten timestamp |
| Mailbox.ReadMail | take_home_directory/notion_mail_take_home/notion_mail.py:58-74 | returns the number of results; the notice is shown exactly when that number is 0; otherwise entry k shows result k, with its rewritten timestamp |
| Mailbox.InboxEntryOf | take_home_directory/notion_mail_take_home/notion_mail.py:65-73 | a listed entry carries the message's id, its first sender run and its text unchanged, and the stored timestamp after the 'Z' rewrite; so the stamp has no 'Z', and a stamp without 'Z' is the stored one |
| Mailbox.Ids | take_home_directory/notion_mail_take_home/notion_mail.py:103-104 | one id per result, the k-th being the k-th result's id |
| Mailbox.ClearMail | take_home_directory/notion_mail_take_home/notion_mail.py:99-106 | exactly one archive request per result, each carrying that result's id, in result order; none and the "no messages" report when the result is empty |

## Left out

- Remote calls (`pages.create`, `databases.query`, `pages.update`) and the server-side `contains` filter: these belong to the hosted service. Query results are inputs, and an archive request is just the id it carries.
- `send_mail` and `delete_mail`: each is a single remote mutation. `send_mail` also reads the clock (`datetime.utcnow()`). `delete_mail` appears only as one archived id in `ClearMail`.
- Loading the environment, the `sys.exit` checks and building the client: this is process configuration.
- The interactive `prompt_user` loop and the `__main__` entry point: these are console input and output.
- `datetime.fromisoformat`, the conversion to America/Los_Angeles and `strftime`: these depend on a foreign library and the time-zone database. The model stops at the string handed to the parser.
- Printed text, and the `except Exception` handlers together with the `None` that `read_mail` returns when one of them fires. Reading a missing first text run raises an `IndexError` in the `try` body, which the handler catches. The model states instead, as a precondition (`HasSender`, `HasRecipient`, `HasParties`), that the runs exist. The handler also fires when a page's Date property is empty, so that `['date']['start']` fails (lines 67 and 164), or when `fromisoformat` rejects the timestamp. In those cases `ReadMail` still returns `count == |results|`, where the source returns `None`.
- The message text is modelled as one string, the content of the title's first run. A page whose title has no runs is not represented.
- Page fields the client never reads: created and last-edited times, url, run annotations, the date's `end` and `time_zone`, and title runs after the first. The source's duplicate check (line 151) compares whole page dicts, including these fields; the model compares whole `Message` records. The two agree when both queries see the same state of a page. If a page is edited between the two queries in one of these fields, the source shows it twice and the model drops the second copy.
