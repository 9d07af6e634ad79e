/**
 The message batching at the end of `list_flashcards`: entry strings are
 packed greedily, in order, into messages of at most `Limit` characters. A
 message is described by the group of entries it holds; its text is their
 concatenation.

 `GroupsAsWritten` is the loop as the source writes it: when the very first
 entry is longer than the limit it flushes the still-empty current message,
 so the listing starts with an empty message. `Groups` is the loop with that
 flush skipped; the listing uses it.
 */
module Batching {

  /** The per-message character limit. */
  const Limit := 2000

  function Concat(es: seq<string>): string
    decreases |es|
  {
    if es == [] then [] else es[0] + Concat(es[1..])
  }

  lemma {:induction false} ConcatAppend(es: seq<string>, e: string)
    ensures Concat(es + [e]) == Concat(es) + e
    decreases |es|
  {
    if es == [] {
      assert [] + [e] == [e];
    } else {
      assert (es + [e])[1..] == es[1..] + [e];
      ConcatAppend(es[1..], e);
    }
  }

  /** The text of each message. */
  function Render(groups: seq<seq<string>>): (msgs: seq<string>)
    ensures |msgs| == |groups|
    ensures forall i :: 0 <= i < |groups| ==> msgs[i] == Concat(groups[i])
  {
    seq(|groups|, i requires 0 <= i < |groups| => Concat(groups[i]))
  }

  /** The loop with the flush of an empty current message skipped. */
  function GroupsFrom(es: seq<string>, cur: seq<string>): seq<seq<string>>
    decreases |es|
  {
    if es == [] then (if Concat(cur) != [] then [cur] else [])
    else if cur != [] && |Concat(cur)| + |es[0]| > Limit then [cur] + GroupsFrom(es[1..], [es[0]])
    else GroupsFrom(es[1..], cur + [es[0]])
  }

  function Groups(es: seq<string>): seq<seq<string>> {
    GroupsFrom(es, [])
  }

  /**
   The loop as written, from a state whose current message holds the entries
   `cur`. Once a message is under way it agrees with the corrected loop.
   */
  function GroupsAsWrittenFrom(es: seq<string>, cur: seq<string>): (gs: seq<seq<string>>)
    ensures cur != [] ==> gs == GroupsFrom(es, cur)
    decreases |es|
  {
    if es == [] then (if Concat(cur) != [] then [cur] else [])
    else if |Concat(cur)| + |es[0]| > Limit then [cur] + GroupsAsWrittenFrom(es[1..], [es[0]])
    else GroupsAsWrittenFrom(es[1..], cur + [es[0]])
  }

  /**
   The loop as written differs from the corrected one only by an extra empty
   first message, sent exactly when the first entry alone exceeds the limit.
   */
  function GroupsAsWritten(es: seq<string>): (gs: seq<seq<string>>)
    ensures gs == (if es != [] && |es[0]| > Limit then [[]] else []) + Groups(es)
  {
    if es != [] then
      assert [] + [es[0]] == [es[0]];
      GroupsAsWrittenFrom(es, [])
    else
      GroupsAsWrittenFrom(es, [])
  }

  /** The messages the listing sends for the entries `es`. */
  function Messages(es: seq<string>): seq<string> {
    Render(Groups(es))
  }

  /** Concatenation of all groups' entries. */
  function Flatten(groups: seq<seq<string>>): seq<string>
    decreases |groups|
  {
    if groups == [] then [] else groups[0] + Flatten(groups[1..])
  }

  predicate NonEmptyEntries(es: seq<string>) {
    forall i :: 0 <= i < |es| ==> es[i] != []
  }

  lemma {:induction false} ConcatOfNonEmpty(es: seq<string>)
    requires NonEmptyEntries(es)
    ensures Concat(es) == [] <==> es == []
  {
    if es != [] {
      assert es[0] != [];
    }
  }

  lemma RenderCons(g: seq<string>, groups: seq<seq<string>>)
    ensures Render([g] + groups) == [Concat(g)] + Render(groups)
  {
    var l, r := Render([g] + groups), [Concat(g)] + Render(groups);
    assert forall i :: 0 < i < |l| ==> ([g] + groups)[i] == groups[i - 1];
  }

  /** The joined text of a flushed message followed by further messages. */
  lemma RenderFlush(cur: seq<string>, gs: seq<seq<string>>)
    ensures Concat(Render([cur] + gs)) == Concat(cur) + Concat(Render(gs))
  {
    RenderCons(cur, gs);
    var ms := [Concat(cur)] + Render(gs);
    assert ms[1..] == Render(gs);
  }

  /** The messages, joined, are the pending text followed by every entry, in order. */
  lemma {:induction false} GroupsFromText(es: seq<string>, cur: seq<string>)
    ensures Concat(Render(GroupsFrom(es, cur))) == Concat(cur) + Concat(es)
    decreases |es|
  {
    if es == [] {
      if Concat(cur) != [] {
        RenderFlush(cur, []);
      }
    } else {
      var e, rest := es[0], es[1..];
      if cur != [] && |Concat(cur)| + |e| > Limit {
        var gs := GroupsFrom(rest, [e]);
        GroupsFromText(rest, [e]);
        assert Concat([e]) == e + Concat([]);
        RenderFlush(cur, gs);
      } else {
        GroupsFromText(rest, cur + [e]);
        ConcatAppend(cur, e);
      }
    }
  }

  /** Joining the messages gives back the joined entries: no text is lost, duplicated or reordered. */
  lemma MessagesText(es: seq<string>)
    ensures Concat(Messages(es)) == Concat(es)
  {
    GroupsFromText(es, []);
  }

  lemma FlattenCons(g: seq<string>, gs: seq<seq<string>>)
    ensures Flatten([g] + gs) == g + Flatten(gs)
  {
    assert ([g] + gs)[1..] == gs;
  }

  /** Every entry lands in exactly one message, in order (entries are never empty in the listing). */
  lemma {:induction false} GroupsFromFlatten(es: seq<string>, cur: seq<string>)
    requires NonEmptyEntries(es) && NonEmptyEntries(cur)
    ensures Flatten(GroupsFrom(es, cur)) == cur + es
    decreases |es|
  {
    if es == [] {
      ConcatOfNonEmpty(cur);
      assert cur + es == cur;
      if cur != [] {
        FlattenCons(cur, []);
      }
    } else {
      var e, rest := es[0], es[1..];
      assert NonEmptyEntries(rest);
      assert es == [e] + rest;
      if cur != [] && |Concat(cur)| + |e| > Limit {
        GroupsFromFlatten(rest, [e]);
        FlattenCons(cur, GroupsFrom(rest, [e]));
      } else {
        assert NonEmptyEntries(cur + [e]);
        GroupsFromFlatten(rest, cur + [e]);
        assert cur + es == (cur + [e]) + rest;
      }
    }
  }

  /** Every entry of every group is one of `pool`. */
  predicate HeldIn(gs: seq<seq<string>>, pool: seq<string>) {
    forall i, j :: 0 <= i < |gs| && 0 <= j < |gs[i]| ==> gs[i][j] in pool
  }

  /** Every entry of every message is a pending entry or one of the input entries. */
  lemma {:induction false} GroupsFromHoldEntries(es: seq<string>, cur: seq<string>)
    ensures HeldIn(GroupsFrom(es, cur), cur + es)
    decreases |es|
  {
    var gs := GroupsFrom(es, cur);
    if es != [] {
      var e, rest := es[0], es[1..];
      if cur != [] && |Concat(cur)| + |e| > Limit {
        GroupsFromHoldEntries(rest, [e]);
        var gs' := GroupsFrom(rest, [e]);
        assert gs == [cur] + gs';
        assert [e] + rest == es;
        forall i, j | 0 <= i < |gs| && 0 <= j < |gs[i]|
          ensures gs[i][j] in cur + es
        {
          if i > 0 {
            assert gs[i] == gs'[i - 1];
          }
        }
      } else {
        GroupsFromHoldEntries(rest, cur + [e]);
        assert (cur + [e]) + rest == cur + es;
      }
    }
  }

  lemma GroupsHoldEntries(es: seq<string>)
    ensures HeldIn(Groups(es), es)
  {
    GroupsFromHoldEntries(es, []);
    assert [] + es == es;
  }

  lemma GroupsFlatten(es: seq<string>)
    requires NonEmptyEntries(es)
    ensures Flatten(Groups(es)) == es
  {
    GroupsFromFlatten(es, []);
  }

  /** A message is within the limit unless it holds one entry that is itself over it. */
  predicate Fits(g: seq<string>) { |Concat(g)| <= Limit || |g| == 1 }

  /**
   Every message fits, no message is empty, and the packing is greedy: the
   first entry of each message would not have fitted into the one before it.
   */
  lemma {:induction false} GroupsFromShape(es: seq<string>, cur: seq<string>)
    requires Fits(cur)
    ensures var gs := GroupsFrom(es, cur);
      && (forall i :: 0 <= i < |gs| ==> Fits(gs[i]) && gs[i] != [])
      && (forall i :: 0 <= i < |gs| - 1 ==> |Concat(gs[i])| + |gs[i + 1][0]| > Limit)
      && (gs != [] && cur != [] ==> gs[0][0] == cur[0])
    decreases |es|
  {
    var gs := GroupsFrom(es, cur);
    if es == [] {
      if Concat(cur) != [] {
        assert cur != [];
      }
    } else {
      var e, rest := es[0], es[1..];
      if cur != [] && |Concat(cur)| + |e| > Limit {
        GroupsFromShape(rest, [e]);
        var gs' := GroupsFrom(rest, [e]);
        assert gs == [cur] + gs';
        assert forall i :: 0 < i < |gs| ==> gs[i] == gs'[i - 1];
      } else {
        ConcatAppend(cur, e);
        assert Fits(cur + [e]);
        GroupsFromShape(rest, cur + [e]);
      }
    }
  }

  lemma GroupsShape(es: seq<string>)
    ensures var gs := Groups(es);
      && (forall i :: 0 <= i < |gs| ==> Fits(gs[i]) && gs[i] != [])
      && (forall i :: 0 <= i < |gs| - 1 ==> |Concat(gs[i])| + |gs[i + 1][0]| > Limit)
  {
    var none: seq<string> := [];
    assert Fits(none);
    GroupsFromShape(es, none);
    assert Groups(es) == GroupsFrom(es, none);
  }

  lemma RenderAppend(a: seq<seq<string>>, b: seq<seq<string>>)
    ensures Render(a + b) == Render(a) + Render(b)
  {
  }

  /** The messages the loop as written sends: the corrected ones, after an empty one when the first entry is over the limit. */
  lemma AsWrittenMessages(es: seq<string>)
    ensures Render(GroupsAsWritten(es)) == (if es != [] && |es[0]| > Limit then [""] else []) + Messages(es)
  {
    var extra: seq<seq<string>> := if es != [] && |es[0]| > Limit then [[]] else [];
    RenderAppend(extra, Groups(es));
    assert Concat([]) == "";
  }

  /** When every entry has text, every corrected message has text, and there is one unless there are no entries. */
  lemma MessagesNonEmpty(es: seq<string>)
    requires NonEmptyEntries(es)
    ensures Messages(es) == [] <==> es == []
    ensures forall i :: 0 <= i < |Messages(es)| ==> Messages(es)[i] != []
  {
    var gs := Groups(es);
    GroupsShape(es);
    GroupsFlatten(es);
    GroupsHoldEntries(es);
    forall i | 0 <= i < |gs|
      ensures Concat(gs[i]) != []
    {
      var g := gs[i];
      assert g[0] in es;
      assert Concat(g) == g[0] + Concat(g[1..]);
    }
  }

  /** One entry over the limit: the loop as written sends an empty message before it. */
  lemma AsWrittenEmptyMessageExample(e: string)
    requires |e| > Limit
    ensures Render(GroupsAsWritten([e])) == ["", e]
    ensures Messages([e]) == [e]
  {
    assert [e][1..] == [] && [e][0] == e;
    assert Concat([]) == "";
    assert Concat([e]) == e;
    assert GroupsAsWrittenFrom([], [e]) == [[e]];
    assert GroupsAsWrittenFrom([e], []) == [[]] + GroupsAsWrittenFrom([], [e]);
    assert [] + [e] == [e];
    assert GroupsFrom([e], []) == GroupsFrom([], [e]) == [[e]];
    assert Render([[], [e]]) == ["", e];
  }
}
