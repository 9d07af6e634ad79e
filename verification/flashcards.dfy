/**
 The flashcard store: the process-wide `flashcards` list of (topic, question,
 answer) triples, kept grouped by normalised topic, and the commands that
 create, list, delete and quiz on it.
 */
module Flashcards {
  import opened Wrappers
  import opened Text
  import opened Normalizer
  import opened Batching
  import opened KeyOrder

  datatype Card = Card(topic: string, question: string, answer: string)

  type Store = seq<Card>

  /** The key cards are grouped and ordered by: the normalised topic. */
  function Key(c: Card): string { Normalize(c.topic) }

  predicate Sorted(s: Store) { SortedBy(s, Key) }

  /** `create_flashcard`: insert ahead of the first card whose key is at or after the new card's. */
  function Create(s: Store, topic: string, question: string, answer: string): (r: Store)
    ensures |r| == |s| + 1
    ensures Card(topic, question, answer) in r
  {
    hide Normalize;
    var c := Card(topic, question, answer);
    var r := InsertAt(s, Search(s, Key, Normalize(topic)), c);
    InsertAtPlacement(s, Search(s, Key, Normalize(topic)), c);
    r
  }

  /**
   The new card sits at the search position: the cards before it are kept,
   the ones after move up by one.
   */
  lemma CreatePlacement(s: Store, topic: string, question: string, answer: string)
    ensures var r, k := Create(s, topic, question, answer), Search(s, Key, Normalize(topic));
      && r[k] == Card(topic, question, answer)
      && (forall j :: 0 <= j < k ==> r[j] == s[j])
      && (forall j :: k <= j < |s| ==> r[j + 1] == s[j])
  {
    hide Normalize;
    InsertAtPlacement(s, Search(s, Key, Normalize(topic)), Card(topic, question, answer));
  }

  /**
   The search position is ahead of every card sharing the new card's key, so
   the new card leads its topic group; the card it displaces has a key at or
   after its own.
   */
  lemma CreateLeadsGroup(s: Store, topic: string, question: string, answer: string)
    ensures var c, k := Card(topic, question, answer), Search(s, Key, Normalize(topic));
      && (forall j :: 0 <= j < k ==> Key(s[j]) != Key(c))
      && (k < |s| ==> LexLe(Key(c), Key(s[k])))
  {
    hide Normalize;
    var key, k := Normalize(topic), Search(s, Key, Normalize(topic));
    assert Key(Card(topic, question, answer)) == key;
    LexLeReflexive(key);
    forall j | 0 <= j < k
      ensures Key(s[j]) != key
    {
      assert !LexLe(key, Key(s[j]));
    }
  }

  lemma CreateMultiset(s: Store, topic: string, question: string, answer: string)
    ensures multiset(Create(s, topic, question, answer)) == multiset(s) + multiset{Card(topic, question, answer)}
  {
    hide Normalize;
    InsertAtMultiset(s, Search(s, Key, Normalize(topic)), Card(topic, question, answer));
  }

  /** Creating keeps the store ordered by normalised topic. */
  lemma CreateKeepsSorted(s: Store, topic: string, question: string, answer: string)
    requires Sorted(s)
    ensures Sorted(Create(s, topic, question, answer))
  {
    hide Normalize;
    var c := Card(topic, question, answer);
    assert Key(c) == Normalize(topic);
    InsertKeepsSorted(s, Key, c);
  }

  /** The line the listing shows for one card, with the answer behind a spoiler. */
  function Entry(c: Card): (e: string)
    ensures |e| == |c.topic| + |c.question| + |c.answer| + 13
  {
    "\U{2022}**" + c.topic + ":** " + c.question + " ||" + c.answer + "||\n"
  }

  function Entries(cards: Store): (es: seq<string>)
    ensures |es| == |cards| && NonEmptyEntries(es)
  {
    seq(|cards|, i requires 0 <= i < |cards| => Entry(cards[i]))
  }

  /** The cards a listing shows: all of them, or the scan for one topic. */
  function Listed(s: Store, topic: Option<string>): (r: Store)
    ensures topic.None? ==> r == s
    ensures topic.Some? ==> |r| <= |s| && forall i :: 0 <= i < |r| ==> Key(r[i]) == Normalize(topic.value)
  {
    hide Normalize;
    match topic
    case None => s
    case Some(t) =>
      var key := Normalize(t);
      Run(s, Key, Search(s, Key, key), key)
  }

  datatype ListReply = NoFlashcards | NoneFound | Sent(msgs: seq<string>)

  /** Whether the first listed entry alone is over the limit, which makes the listing open with an empty message. */
  predicate OpensEmpty(listed: Store) {
    listed != [] && |Entry(listed[0])| > Limit
  }

  /**
   `list_flashcards`. The messages are those of the batching loop as written:
   the corrected messages, after an empty one when the first entry alone is
   over the limit.
   */
  function List(s: Store, topic: Option<string>): (r: ListReply)
    ensures r.NoFlashcards? <==> s == []
    ensures r.NoneFound? <==> s != [] && Listed(s, topic) == []
    ensures r.Sent? ==> r.msgs == (if OpensEmpty(Listed(s, topic)) then [""] else []) + Messages(Entries(Listed(s, topic)))
    ensures r.Sent? ==> Concat(r.msgs) == Concat(Entries(Listed(s, topic)))
    ensures r.Sent? ==> r.msgs != [] && forall i :: 0 <= i < |r.msgs| ==> (r.msgs[i] == [] <==> i == 0 && OpensEmpty(Listed(s, topic)))
  {
    hide Normalize;
    if s == [] then NoFlashcards
    else
      var listed := Listed(s, topic);
      if listed == [] then NoneFound
      else
        var es := Entries(listed);
        var extra: seq<string> := if OpensEmpty(listed) then [""] else [];
        var ms := Render(GroupsAsWritten(es));
        AsWrittenMessages(es);
        assert ms == extra + Messages(es);
        MessagesText(es);
        MessagesNonEmpty(es);
        assert Concat(ms) == Concat(Messages(es)) by {
          if extra != [] {
            assert ms[1..] == Messages(es);
          }
        }
        Sent(ms)
  }

  /**
   Listing one topic of an ordered store shows exactly the cards a quiz on
   that topic asks (the cards whose normalised topic equals the requested
   one's, in store order), and reports none found exactly when there are none.
   */
  lemma ListByTopic(s: Store, topic: string)
    requires Sorted(s) && s != []
    ensures var r, cards := List(s, Some(topic)), QuizCards(s, topic);
      && (r.NoneFound? <==> cards == [])
      && (r.Sent? ==> Concat(r.msgs) == Concat(Entries(cards)))
  {
    hide Normalize;
    RunIsSelect(s, Key, Normalize(topic));
  }

  /**
   Each message sent by a listing is within the limit, or is one entry that is
   itself over it, and the listing's cards appear across the messages once
   each, in order.
   */
  lemma ListMessagesFit(s: Store, topic: Option<string>)
    requires List(s, topic).Sent?
    ensures var es, gs := Entries(Listed(s, topic)), GroupsAsWritten(Entries(Listed(s, topic)));
      && List(s, topic).msgs == Render(gs)
      && Flatten(gs) == es
      && forall i :: 0 <= i < |gs| ==> Fits(gs[i])
  {
    hide Normalize;
    var es := Entries(Listed(s, topic));
    var gs := GroupsAsWritten(es);
    AsWrittenMessages(es);
    GroupsShape(es);
    GroupsFlatten(es);
    var none: seq<string> := [];
    assert Concat(none) == [];
    if es != [] && |es[0]| > Limit {
      FlattenCons(none, Groups(es));
      assert forall i :: 0 < i < |gs| ==> gs[i] == Groups(es)[i - 1];
    }
  }

  /** The test `delete_flashcard` applies: same key, questions equal once lower-cased. */
  predicate Matches(c: Card, key: string, question: string) {
    Key(c) == key && Lower(c.question) == Lower(question)
  }

  predicate HasMatch(s: Store, key: string, question: string) {
    exists i :: 0 <= i < |s| && Matches(s[i], key, question)
  }

  function FindCard(s: Store, key: string, question: string): (k: Option<nat>)
    ensures k.Some? ==>
              && k.value < |s| && Matches(s[k.value], key, question)
              && (forall j :: 0 <= j < k.value ==> !Matches(s[j], key, question))
    ensures k.None? <==> !HasMatch(s, key, question)
    decreases |s|
  {
    hide Normalize;
    if s == [] then None
    else if Matches(s[0], key, question) then Some(0)
    else match FindCard(s[1..], key, question)
      case None => None
      case Some(k) => Some(k + 1)
  }

  datatype Removal = Removal(store: Store, deleted: bool)

  /** `delete_flashcard`: drop the first card matching the topic key and the question. */
  function Delete(s: Store, topic: string, question: string): (r: Removal)
    ensures r.deleted <==> HasMatch(s, Normalize(topic), question)
    ensures !r.deleted ==> r.store == s
    ensures r.deleted ==> |r.store| == |s| - 1
  {
    hide Normalize;
    match FindCard(s, Normalize(topic), question)
    case None => Removal(s, false)
    case Some(k) => Removal(s[..k] + s[k + 1..], true)
  }

  /** A delete removes the first matching card and keeps the rest in order. */
  lemma DeleteRemovesFirstMatch(s: Store, topic: string, question: string)
    requires HasMatch(s, Normalize(topic), question)
    ensures exists k ::
              && 0 <= k < |s| && Matches(s[k], Normalize(topic), question)
              && (forall j :: 0 <= j < k ==> !Matches(s[j], Normalize(topic), question))
              && Delete(s, topic, question).store == s[..k] + s[k + 1..]
  {
    hide Normalize;
    var k := FindCard(s, Normalize(topic), question).value;
    assert Matches(s[k], Normalize(topic), question);
  }

  lemma DeleteKeepsSorted(s: Store, topic: string, question: string)
    requires Sorted(s)
    ensures Sorted(Delete(s, topic, question).store)
  {
    hide Normalize;
    match FindCard(s, Normalize(topic), question)
    case None =>
    case Some(k) =>
      RemoveKeepsSorted(s, Key, k);
  }

  /** The cards `start_quiz` asks, in store order. */
  function QuizCards(s: Store, topic: string): (r: Store)
    ensures |r| <= |s|
    ensures forall i :: 0 <= i < |r| ==> Key(r[i]) == Normalize(topic)
  {
    hide Normalize;
    Select(s, Key, Normalize(topic))
  }

  /** The quiz asks exactly the store's cards whose normalised topic is the requested one's. */
  lemma QuizCardsMembers(s: Store, topic: string, c: Card)
    ensures c in QuizCards(s, topic) <==> c in s && Normalize(c.topic) == Normalize(topic)
  {
    hide Normalize;
    SelectMembers(s, Key, Normalize(topic), c);
  }

  /** A reply (`None` when the wait timed out) is right when its key equals the answer's key. */
  predicate Correct(c: Card, reply: Option<string>) {
    reply.Some? && Normalize(Strip(reply.value)) == Normalize(Strip(c.answer))
  }

  /** Stripping before normalising changes nothing: a reply is right exactly when its key equals the answer's. */
  lemma CorrectIsKeyEquality(c: Card, reply: string)
    ensures Correct(c, Some(reply)) <==> Normalize(reply) == Normalize(c.answer)
  {
    NormalizeStrip(reply);
    NormalizeStrip(c.answer);
  }

  /** Whether each reply is right, question by question. */
  function Verdicts(cards: Store, replies: seq<Option<string>>): (v: seq<bool>)
    requires |replies| == |cards|
    ensures |v| == |cards|
    ensures forall i :: 0 <= i < |cards| ==> (v[i] <==> Correct(cards[i], replies[i]))
  {
    hide Normalize, Correct;
    seq(|cards|, i requires 0 <= i < |cards| => Correct(cards[i], replies[i]))
  }

  /** The number of `true` verdicts: the running `score += 1`. */
  function Count(v: seq<bool>): (n: nat)
    ensures n <= |v|
    decreases |v|
  {
    if v == [] then 0 else (if v[0] then 1 else 0) + Count(v[1..])
  }

  /** The count is full exactly when every verdict is true. */
  lemma {:induction false} CountFull(v: seq<bool>)
    ensures Count(v) == |v| <==> forall i :: 0 <= i < |v| ==> v[i]
    decreases |v|
  {
    if v != [] {
      CountFull(v[1..]);
      assert forall i :: 0 < i < |v| ==> v[1..][i - 1] == v[i];
    }
  }

  /** The count is zero exactly when no verdict is true. */
  lemma {:induction false} CountZero(v: seq<bool>)
    ensures Count(v) == 0 <==> forall i :: 0 <= i < |v| ==> !v[i]
    decreases |v|
  {
    if v != [] {
      CountZero(v[1..]);
      assert forall i :: 0 < i < |v| ==> v[1..][i - 1] == v[i];
    }
  }

  /** One more verdict adds one to the count exactly when it is right: the loop's `score += 1`. */
  lemma {:induction false} CountAppend(v: seq<bool>, b: bool)
    ensures Count(v + [b]) == Count(v) + (if b then 1 else 0)
    decreases |v|
  {
    if v == [] {
      assert v + [b] == [b];
    } else {
      assert (v + [b])[1..] == v[1..] + [b];
      CountAppend(v[1..], b);
    }
  }

  /** The quiz score: the number of right replies, one reply per card. */
  function Score(cards: Store, replies: seq<Option<string>>): (n: nat)
    requires |replies| == |cards|
    ensures n <= |cards|
  {
    Count(Verdicts(cards, replies))
  }

  /** Full marks exactly when every reply is right. */
  lemma ScoreFull(cards: Store, replies: seq<Option<string>>)
    requires |replies| == |cards|
    ensures Score(cards, replies) == |cards| <==> forall i :: 0 <= i < |cards| ==> Correct(cards[i], replies[i])
  {
    hide Normalize, Correct;
    CountFull(Verdicts(cards, replies));
  }

  /** No marks exactly when no reply is right. */
  lemma ScoreZero(cards: Store, replies: seq<Option<string>>)
    requires |replies| == |cards|
    ensures Score(cards, replies) == 0 <==> forall i :: 0 <= i < |cards| ==> !Correct(cards[i], replies[i])
  {
    hide Normalize, Correct;
    CountZero(Verdicts(cards, replies));
  }

  /**
   Asking one more card adds one to the score exactly when its reply is right;
   with no cards the score is zero. Together these fix the score as the number
   of right replies.
   */
  lemma ScoreAppend(cards: Store, replies: seq<Option<string>>, c: Card, reply: Option<string>)
    requires |replies| == |cards|
    ensures Score(cards + [c], replies + [reply]) == Score(cards, replies) + (if Correct(c, reply) then 1 else 0)
  {
    hide Normalize, Correct;
    var v := Verdicts(cards, replies);
    var w := Verdicts(cards + [c], replies + [reply]);
    assert w == v + [Correct(c, reply)] by {
      assert forall i :: 0 <= i < |cards| ==> (cards + [c])[i] == cards[i] && (replies + [reply])[i] == replies[i];
    }
    CountAppend(v, Correct(c, reply));
  }

  datatype QuizReply = NoCards | Finished(score: nat, total: nat)

  /** `start_quiz`: one reply per selected card; the score over the total. */
  function Quiz(s: Store, topic: string, replies: seq<Option<string>>): (r: QuizReply)
    requires |replies| == |QuizCards(s, topic)|
    ensures r.NoCards? <==> QuizCards(s, topic) == []
    ensures r.Finished? ==> r.total == |QuizCards(s, topic)| && r.score <= r.total
    ensures r.Finished? ==> r.score == Score(QuizCards(s, topic), replies)
  {
    hide Normalize;
    var cards := QuizCards(s, topic);
    if cards == [] then NoCards else Finished(Score(cards, replies), |cards|)
  }
}
