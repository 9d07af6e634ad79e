# Simple-Bott core in Dafny

A model of the list logic inside a Discord study-helper bot (`bot-1.py`). The bot
keeps two process-wide lists:

- the **reminder queue**: records of a name, a due time and a user. `!createReminder`
  inserts into it in due-time order. `!deleteReminder` removes from it, and
  `!listReminders` filters it by user. A background loop checks the front entry
  every half second and sends it when it is due.
- the **flashcard store**: (topic, question, answer) triples kept grouped by
  *normalised* topic. `!createFlashcard` inserts into it and `!deleteFlashcard`
  removes from it. `!listFlashcards` lists everything or one topic, packed into
  messages of at most 2000 characters. `!quizme` asks one topic's questions and
  scores the replies.

`normalize_param` produces the normalised key. It applies NFKD, lower-cases, then
keeps only `a-z` and `0-9`.

Every operation is a pure function on immutable sequences:

- `wrappers.dfy`: `Option`.
- `text.dfy`, module `Text`: ASCII `lower`, `strip` over Python's whitespace
  characters, and Python's string
  ordering (`LexLe`) with its order lemmas.
- `normalizer.dfy`, module `Normalizer`: `normalize_param`.
- `reminders.dfy`, module `Reminders`: the reminder commands and one poll of the
  background loop.
- `keyorder.dfy`, module `KeyOrder`: sequences kept in order of a string key,
  with the key function as a parameter: the `next(...)` search, `insert`, `del`,
  the topic scan and the topic filter.
- `batching.dfy`, module `Batching`: the 2000-character message packing.
- `flashcards.dfy`, module `Flashcards`: the flashcard commands and quiz scoring.

Modelling choices:

- Times are integers on one clock: the parsed, localised date and `datetime.now`.
- The date parse is an input `parsed: Option<int>`, where `None` stands for the
  `ValueError` branch.
- Users are opaque ids compared for equality.
- A failed command returns the queue or store unchanged, with a status saying why.
- `delete_reminder` finds the first match and then calls `list.remove(r)`, which
  removes the first element *equal* to `r`. An earlier equal record would match
  the test too, so this is always the found entry. The model removes it by index.
- One poll (`PollStep`) takes only the queue and the time. The send's outcome
  does not affect the queue: a failed send is swallowed and the front entry is
  popped all the same.
- A quiz reply is `Option<string>`. `None` stands for the timeout branch.

Two behaviours of the code that a reader of the commands might not expect,
which the model keeps as written:

- The past-time check comes before the duplicate-name check. A past reminder
  with a taken name is reported as past.
- A new reminder, or a new card, goes **ahead of** existing entries with an equal
  key. This is because the search stops at the first entry whose key is `>=` the
  new one. So two reminders due at the same time end up newest first
  (`Reminders.TieScenario`), not in creation order.

## Model

| member | source | states |
|---|---|---|
| Normalizer.Normalize | bot-1.py:34-38 | the key contains only the characters `a-z0-9` |
| Normalizer.NormalizeIdempotent | bot-1.py:34-38 | normalising a key again gives the same key |
| Normalizer.NormalizeAppend | bot-1.py:34-38 | normalisation works per character: the key of a concatenation is the concatenation of the keys |
| Normalizer.NormalizeAscii | bot-1.py:34-38 | on ASCII text the key equals an independent reading: the letters and digits in order, letters lower-cased |
| Normalizer.NormalizeIgnoresCase | bot-1.py:36 | upper-casing any one letter leaves the key unchanged |
| Normalizer.NormalizeIgnoresPunctuation | bot-1.py:37 | inserting an ASCII character that is not a letter or digit leaves the key unchanged |
| Normalizer.NormalizeAccentedA | bot-1.py:35 | NFKD splits the accent off "Á", so its key is "a" |
| Normalizer.NormalizeTrimStart | bot-1.py:160-161 | removing leading whitespace changes no key |
| Normalizer.NormalizeTrimEnd | bot-1.py:160-161 | removing trailing whitespace changes no key |
| Normalizer.MathExample | bot-1.py:34-38 | "Math!", "math" and "MÁTH" all have the key "math" |
| Normalizer.NormalizeSpace | bot-1.py:160-161 | every whitespace character `strip()` removes has an empty key |
| Normalizer.NormalizeStrip | bot-1.py:160-161 | `strip()` before normalising changes no key |
| Text.TrimStart | bot-1.py:160-161 | only leading whitespace is removed, and the result does not start with whitespace; whitespace is every character `str.isspace()` accepts, U+001C..U+001F, U+0085, U+00A0 and the Unicode spaces included |
| Text.TrimEnd | bot-1.py:160-161 | only trailing whitespace is removed, and the result does not end with whitespace, over the same whitespace set |
| Text.LexLeTotal | bot-1.py:77 | any two strings are comparable under Python's string order |
| Text.LexLeAntisymmetric | bot-1.py:77 | strings that are each `<=` the other are equal |
| Text.LexLeTransitive | bot-1.py:77 | Python's string order is transitive |
| Reminders.InsertIndex | bot-1.py:263 | the insert position: every entry before it is due strictly earlier, and the entry at it is due no earlier |
| Reminders.Insert | bot-1.py:262-264 | inserting adds one entry, the new reminder, and keeps every old entry |
| Reminders.Create | bot-1.py:252-264 | rejected iff the parse failed, the time is not after now, or (time in the future) the user already has the name; a rejection leaves the queue unchanged; success adds the reminder and grows the queue by one |
| Reminders.InsertPlacement | bot-1.py:262-264 | the new reminder sits at the insert position; earlier entries are kept, later ones shift up by one |
| Reminders.InsertAheadOfTies | bot-1.py:263 | the new reminder lands ahead of every existing entry with the same due time |
| Reminders.InsertKeepsSorted | bot-1.py:262-264 | inserting into a queue ordered by due time keeps it ordered |
| Reminders.InsertMultiset | bot-1.py:264 | the queue after inserting is the old queue plus exactly the new reminder |
| Reminders.CreateKeepsSorted | bot-1.py:252-264 | create keeps an ordered queue ordered; on success the contents are the old ones plus the new reminder |
| Reminders.CreateKeepsUnique | bot-1.py:256-264 | create keeps each user's reminder names unique up to case |
| Reminders.FindNamed | bot-1.py:280-281 | returns the first entry matching the user and lower-cased name, or none exactly when there is no match |
| Reminders.Delete | bot-1.py:279-285 | not found iff no entry matches, leaving the queue unchanged; otherwise the queue shrinks by one |
| Reminders.DeleteRemovesFirstMatch | bot-1.py:280-284 | delete removes exactly the first matching entry and keeps the rest in order |
| Reminders.RemoveKeepsSorted | bot-1.py:282 | removing any one entry keeps an ordered queue ordered |
| Reminders.RemoveKeepsUnique | bot-1.py:282 | removing any one entry keeps names unique |
| Reminders.DeleteKeepsInvariants | bot-1.py:280-284 | delete keeps the queue ordered and names unique; afterwards the user has no reminder of that name |
| Reminders.ForUser | bot-1.py:270 | the listing holds exactly the user's reminders |
| Reminders.ForUserAppend | bot-1.py:270 | the listing of a concatenation is the first part's listing followed by the second's, so the listing keeps queue order |
| Reminders.ForUserSorted | bot-1.py:270 | the listing of an ordered queue is ordered by due time |
| Reminders.PollStep | bot-1.py:23-31 | nothing is sent and the queue is unchanged iff the queue is empty or the front is not due; otherwise exactly the front is sent and removed, and the rest keep their order |
| Reminders.NotDueFrontMeansNoneDue | bot-1.py:23-26 | on an ordered queue, a front that is not due means no entry is due |
| Reminders.PollKeepsSorted | bot-1.py:27-31 | a poll keeps an ordered queue ordered |
| Reminders.PollKeepsUnique | bot-1.py:27-31 | a poll keeps names unique |
| Reminders.PollKeepsInvariants | bot-1.py:23-31 | a poll keeps the queue ordered and names unique |
| Reminders.Drain | bot-1.py:21-32 | repeated polls at one instant send only due reminders, and stop at an empty queue or at a front that is not due |
| Reminders.DrainIsRepeatedPoll | bot-1.py:21-32 | draining is one poll followed by draining what it leaves, until a poll sends nothing |
| Reminders.DrainKeepsOrder | bot-1.py:21-32 | what repeated polls send, followed by what they keep, is the queue itself |
| Reminders.DrainKeepsNotDue | bot-1.py:23-26 | on an ordered queue, no reminder left after repeated polls is due |
| Reminders.DrainSplitsQueue | bot-1.py:21-32 | repeated polls at one instant send a prefix of the queue, all of it due, and stop at an entry that is not due |
| Reminders.DrainSendsExactlyTheDue | bot-1.py:21-32 | on an ordered queue, repeated polls send every due reminder exactly once, in order, and keep exactly the ones not due |
| Reminders.TwoRemindersScenario | bot-1.py:252-264 | "A" due at T+10 then "B" due at T+5 gives [B, A]; a poll at T+6 sends B, and the next poll sends nothing |
| Reminders.TieScenario | bot-1.py:263-264 | two reminders with the same due time are queued newest first |
| Batching.MessagesText | bot-1.py:111-121 | joining the sent messages gives back all entry strings joined, in order |
| Batching.GroupsFromText | bot-1.py:111-121 | from any loop state, the messages joined are the pending text followed by the remaining entries |
| Batching.GroupsFlatten | bot-1.py:111-121 | every entry lands in exactly one message, in order |
| Batching.GroupsHoldEntries | bot-1.py:111-121 | every message is built only from the listing's entries |
| Batching.GroupsShape | bot-1.py:111-121 | every message is at most 2000 characters unless it is a single longer entry; no message is empty; packing is greedy (each message's first entry would not have fitted into the one before) |
| Batching.GroupsAsWrittenFrom | bot-1.py:111-121 | the loop as written, from a state with a message under way, packs exactly as the corrected loop does |
| Batching.GroupsAsWritten | bot-1.py:111-121 | the loop as written equals the corrected loop, plus one empty first message exactly when the first entry exceeds 2000 characters |
| Batching.AsWrittenMessages | bot-1.py:111-121 | the texts the loop as written sends are the corrected messages, after an empty one exactly when the first entry exceeds 2000 characters |
| Batching.MessagesNonEmpty | bot-1.py:111-121 | with non-empty entries, the corrected loop sends no empty message, and sends at least one unless there are no entries |
| Batching.AsWrittenEmptyMessageExample | bot-1.py:114-116 | a single entry over 2000 characters is sent as an empty message followed by the entry |
| KeyOrder.Search | bot-1.py:76-79 | the search position: every element before it has a key strictly before the sought key, and the element at it has a key at or after it |
| KeyOrder.InsertAtPlacement | bot-1.py:80 | `list.insert`: the new element sits at the position, earlier ones are kept, later ones shift up by one |
| KeyOrder.InsertAtMultiset | bot-1.py:80 | `list.insert` adds exactly the new element |
| KeyOrder.InsertKeepsSorted | bot-1.py:76-80 | inserting at the search position of the element's own key keeps a key-ordered sequence ordered |
| KeyOrder.RemoveKeepsSorted | bot-1.py:130 | deleting any one element keeps a key-ordered sequence ordered |
| KeyOrder.Select | bot-1.py:139 | every selected element has the key, and there are no more of them than elements |
| KeyOrder.SelectMembers | bot-1.py:139 | an element is selected exactly when it is in the sequence and has the key |
| KeyOrder.SelectAppend | bot-1.py:139 | selecting from a concatenation selects from each part, in order |
| KeyOrder.Run | bot-1.py:100-105 | the scan collects only elements with the key, no more of them than there are from the start position on |
| KeyOrder.RunFrom | bot-1.py:100-105 | on an ordered sequence, a scan from a position at or past the key collects exactly that key's elements from there on |
| KeyOrder.RunIsSelect | bot-1.py:93-105 | on an ordered sequence, search-then-scan returns exactly the elements with the key, in order |
| Flashcards.Create | bot-1.py:73-80 | the store grows by exactly one card, the new one |
| Flashcards.CreatePlacement | bot-1.py:76-80 | the new card sits at the search position for its normalised topic; earlier cards are kept, later ones shift up by one |
| Flashcards.CreateLeadsGroup | bot-1.py:76-79 | no card before the new one shares its normalised topic, and the card it displaces has a key at or after its own |
| Flashcards.CreateMultiset | bot-1.py:80 | the store after inserting is the old store plus exactly the new card |
| Flashcards.CreateKeepsSorted | bot-1.py:73-80 | inserting into a store ordered by normalised topic keeps it ordered |
| Flashcards.Entry | bot-1.py:113 | an entry line is 13 characters longer than the topic, question and answer together |
| Flashcards.Listed | bot-1.py:89-105 | with no topic every card is listed; with a topic only cards with its normalised key are listed, no more than the store holds |
| Flashcards.List | bot-1.py:84-121 | "no flashcards" iff the store is empty; "none found" iff nothing is listed; otherwise the messages are the corrected packing of the entries, after an empty message exactly when the first entry is over 2000 characters; that is the only empty message; joined, they are the listed entries joined |
| Flashcards.ListByTopic | bot-1.py:89-109 | listing a topic of an ordered store shows exactly the cards a quiz on that topic asks, and says none found iff there are none |
| Flashcards.ListMessagesFit | bot-1.py:111-121 | a listing's messages are the packing of the loop as written, each card appears once in order, and every message fits |
| Flashcards.FindCard | bot-1.py:128-129 | returns the first card matching the key and lower-cased question, or none exactly when none matches |
| Flashcards.Delete | bot-1.py:123-134 | deleted iff some card matches; otherwise the store is unchanged; a delete shrinks the store by one |
| Flashcards.DeleteRemovesFirstMatch | bot-1.py:128-132 | delete removes exactly the first matching card and keeps the rest in order |
| Flashcards.DeleteKeepsSorted | bot-1.py:128-130 | delete keeps an ordered store ordered |
| Flashcards.QuizCards | bot-1.py:138-139 | the quiz asks only cards with the topic's normalised key, no more than the store holds |
| Flashcards.QuizCardsMembers | bot-1.py:138-139 | the quiz asks exactly the store's cards whose normalised topic equals the requested one's |
| Flashcards.CorrectIsKeyEquality | bot-1.py:160-163 | a reply is right exactly when its key equals the answer's key |
| Flashcards.Score | bot-1.py:147-171 | the score is at most the number of questions |
| Flashcards.CountAppend | bot-1.py:160-165 | one more verdict adds one to the count exactly when it is right |
| Flashcards.ScoreAppend | bot-1.py:147-165 | asking one more card adds one to the score exactly when its reply is right, so the score is the number of right replies |
| Flashcards.CountFull | bot-1.py:147-165 | the count of right replies equals the number of questions exactly when every verdict is right |
| Flashcards.CountZero | bot-1.py:147-165 | the count is zero exactly when no verdict is right |
| Flashcards.ScoreFull | bot-1.py:147-171 | full marks exactly when every reply is right |
| Flashcards.ScoreZero | bot-1.py:147-171 | zero exactly when no reply is right |
| Flashcards.Quiz | bot-1.py:137-171 | no quiz iff no card has the topic's key; otherwise the total is that number of cards, and the score is the number of right replies to them, at most the total |

## Findings

| source | as written | input that shows it | evidently intended | confidence | as-written member | corrected member |
|---|---|---|---|---|---|---|
| bot-1.py:114-116 | the length test flushes `current_msg` even while it is still empty | a listing whose first entry is over 2000 characters, e.g. a card whose question is 2000 characters: the first `ctx.send` gets `""` | flush only a non-empty message; Discord refuses empty messages, so the listing fails before any card is shown | medium; not executed | Batching.AsWrittenEmptyMessageExample | Batching.GroupsShape |

`Batching.GroupsAsWritten` is the loop as written. `Batching.Groups` skips the
empty flush, and its messages (`Batching.Messages`) are never empty
(`Batching.MessagesNonEmpty`). The contract of `Batching.GroupsAsWritten` shows
the extra empty first message is the only difference between the two. The
listing (`Flashcards.List`) sends what the code sends, and states it as the
corrected messages after that one empty message.

## Left out

- Discord I/O is left out: `ctx.send`, `user.send`, `bot.wait_for`, and the
  message texts and emoji. The listing's entry line (`Flashcards.Entry`) is kept
  because its length drives the batching.
- The asyncio task, the `while True` and `sleep(0.5)` are left out. The model is
  one poll (`Reminders.PollStep`) and repeated polls at one instant
  (`Reminders.Drain`).
- Concurrent access to the shared lists from command handlers and the loop is
  out of scope. Each operation is modelled as atomic.
- `datetime.strptime`, `pytz` localisation, `strftime` and the clock are library
  calls. They are replaced by the `parsed` and `now` inputs.
- The event commands (bot-1.py:176-238) are left out. They forward to Discord's
  scheduled-events service.
- The help text, `.env` loading and `bot.run` are left out.
- Normalizer.Decompose: NFKD is modelled only for the Latin-1 Supplement block
  (U+00A0..U+00FF). Every other character is its own decomposition, so, for
  example, full-width letters are dropped rather than mapped to ASCII.
  The Unicode spaces U+2000..U+200A and U+3000, which NFKD maps to a plain
  space, stay themselves; either way their key is empty.
- Text.Lower: `str.lower()` is modelled on ASCII letters only. After NFKD, no
  other character lower-cases to `a-z`, but names and questions compared by
  lower-cased equality are case-folded only in ASCII.
- Flashcards.Quiz: when sending "Correct!" fails, the source's `except` skips
  the score increment. The model counts the reply as right, because send
  failures are I/O.
