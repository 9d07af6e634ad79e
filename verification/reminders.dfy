/**
 The reminder queue: the process-wide `reminders` list the reminder commands
 edit and the background loop drains. Every entry is a name, a due time and
 the user to notify. The queue is meant to be ordered by due time, and a user
 holds at most one reminder of a given (case-insensitive) name.

 Times are integers on one clock (the parsed, zone-localised `datetime` and
 `datetime.now`); users are opaque ids compared for equality.
 */
module Reminders {
  import opened Wrappers
  import opened Text

  type UserId = nat

  datatype Reminder = Reminder(name: string, time: int, user: UserId)

  type Queue = seq<Reminder>

  /** The replies the reminder commands give; a failed command leaves the queue as it was. */
  datatype Status = Created | Deleted | InvalidFormat | PastDue | DuplicateName | NotFound

  datatype Outcome = Outcome(queue: Queue, status: Status)

  /** One poll of the background loop: the reminder it sent, if any, and the queue after it. */
  datatype Poll = Poll(fired: Option<Reminder>, queue: Queue)

  predicate Sorted(q: Queue) {
    forall i, j :: 0 <= i < j < |q| ==> q[i].time <= q[j].time
  }

  /** The test both commands use: same user, names equal once lower-cased. */
  predicate Named(r: Reminder, user: UserId, name: string) {
    r.user == user && Lower(r.name) == Lower(name)
  }

  predicate HasNamed(q: Queue, user: UserId, name: string) {
    exists i :: 0 <= i < |q| && Named(q[i], user, name)
  }

  /** No user has two reminders whose names differ only in case. */
  predicate UniqueNames(q: Queue) {
    forall i, j :: 0 <= i < j < |q| ==> !Named(q[j], q[i].user, q[i].name)
  }

  /** Where a reminder due at `t` goes: before the first entry due at or after `t`. */
  function InsertIndex(q: Queue, t: int): (k: nat)
    ensures k <= |q|
    ensures forall j :: 0 <= j < k ==> q[j].time < t
    ensures k < |q| ==> t <= q[k].time
    decreases |q|
  {
    if q == [] || t <= q[0].time then 0 else 1 + InsertIndex(q[1..], t)
  }

  /** `reminders.insert(i, …)` at the first entry due at or after the new one: one entry more, the new one among them. */
  function Insert(q: Queue, r: Reminder): (q': Queue)
    ensures |q'| == |q| + 1 && r in q'
    ensures forall x :: x in q ==> x in q'
  {
    var k := InsertIndex(q, r.time);
    assert q == q[..k] + q[k..];
    q[..k] + [r] + q[k..]
  }

  /**
   `create_reminder`. `parsed` is the outcome of parsing the date and time
   (`None` when `strptime` raises), `now` the current time.
   */
  function Create(q: Queue, user: UserId, name: string, parsed: Option<int>, now: int): (r: Outcome)
    ensures r.status in {Created, InvalidFormat, PastDue, DuplicateName}
    ensures r.status != Created ==> r.queue == q
    ensures r.status == InvalidFormat <==> parsed.None?
    ensures r.status == PastDue <==> parsed.Some? && parsed.value <= now
    ensures r.status == DuplicateName <==> parsed.Some? && now < parsed.value && HasNamed(q, user, name)
    ensures r.status == Created ==> |r.queue| == |q| + 1 && Reminder(name, parsed.value, user) in r.queue
  {
    match parsed
    case None => Outcome(q, InvalidFormat)
    case Some(t) =>
      if t <= now then Outcome(q, PastDue)
      else if HasNamed(q, user, name) then Outcome(q, DuplicateName)
      else Outcome(Insert(q, Reminder(name, t, user)), Created)
  }

  /**
   The inserted reminder sits at the first position whose old occupant is due
   no earlier than it; everything before is strictly earlier and kept, and
   everything from there on moves up by one.
   */
  lemma InsertPlacement(q: Queue, r: Reminder)
    ensures var q', k := Insert(q, r), InsertIndex(q, r.time);
      |q'| == |q| + 1 && q'[k] == r
      && (forall j :: 0 <= j < k ==> q'[j] == q[j] && q[j].time < r.time)
      && (forall j :: k <= j < |q| ==> q'[j + 1] == q[j])
      && (k < |q| ==> r.time <= q[k].time)
  {
  }

  /**
   A new reminder goes ahead of every existing one due at the same time: it
   takes a position no later than theirs, and they each move up by one.
   */
  lemma InsertAheadOfTies(q: Queue, r: Reminder, j: nat)
    requires j < |q| && q[j].time == r.time
    ensures var k := InsertIndex(q, r.time);
      k <= j && Insert(q, r)[k] == r && Insert(q, r)[j + 1] == q[j]
  {
    InsertPlacement(q, r);
  }

  lemma InsertKeepsSorted(q: Queue, r: Reminder)
    requires Sorted(q)
    ensures Sorted(Insert(q, r))
  {
    var q', k := Insert(q, r), InsertIndex(q, r.time);
    InsertPlacement(q, r);
    forall i, j | 0 <= i < j < |q'|
      ensures q'[i].time <= q'[j].time
    {
      if j < k {
      } else if j == k {
      } else if i < k {
        assert q'[j] == q[j - 1];
      } else if i == k {
        assert q'[j] == q[j - 1];
      } else {
        assert q'[i] == q[i - 1] && q'[j] == q[j - 1];
      }
    }
  }

  lemma InsertMultiset(q: Queue, r: Reminder)
    ensures multiset(Insert(q, r)) == multiset(q) + multiset{r}
  {
    var k := InsertIndex(q, r.time);
    assert q == q[..k] + q[k..];
  }

  /** A successful create keeps the queue ordered by due time and adds exactly the new reminder. */
  lemma CreateKeepsSorted(q: Queue, user: UserId, name: string, parsed: Option<int>, now: int)
    requires Sorted(q)
    ensures Sorted(Create(q, user, name, parsed, now).queue)
    ensures var r := Create(q, user, name, parsed, now);
      r.status == Created ==> multiset(r.queue) == multiset(q) + multiset{Reminder(name, parsed.value, user)}
  {
    if parsed.Some? && now < parsed.value && !HasNamed(q, user, name) {
      InsertKeepsSorted(q, Reminder(name, parsed.value, user));
      InsertMultiset(q, Reminder(name, parsed.value, user));
    }
  }

  /** A successful create keeps names unique per user. */
  lemma CreateKeepsUnique(q: Queue, user: UserId, name: string, parsed: Option<int>, now: int)
    requires UniqueNames(q)
    ensures UniqueNames(Create(q, user, name, parsed, now).queue)
  {
    if parsed.Some? && now < parsed.value && !HasNamed(q, user, name) {
      var r := Reminder(name, parsed.value, user);
      var q', k := Insert(q, r), InsertIndex(q, r.time);
      InsertPlacement(q, r);
      forall i, j | 0 <= i < j < |q'|
        ensures !Named(q'[j], q'[i].user, q'[i].name)
      {
        if j < k {
        } else if j == k {
          assert !Named(q'[i], user, name);
        } else if i < k {
          assert q'[j] == q[j - 1];
        } else if i == k {
          assert q'[j] == q[j - 1];
          assert !Named(q[j - 1], user, name);
        } else {
          assert q'[i] == q[i - 1] && q'[j] == q[j - 1];
        }
      }
    }
  }

  /** The first reminder of `user` called `name`, ignoring case. */
  function FindNamed(q: Queue, user: UserId, name: string): (k: Option<nat>)
    ensures k.Some? ==>
              && k.value < |q| && Named(q[k.value], user, name)
              && (forall j :: 0 <= j < k.value ==> !Named(q[j], user, name))
    ensures k.None? <==> !HasNamed(q, user, name)
    decreases |q|
  {
    if q == [] then None
    else if Named(q[0], user, name) then Some(0)
    else match FindNamed(q[1..], user, name)
      case None => None
      case Some(k) => Some(k + 1)
  }

  /** `delete_reminder`: drop the first reminder of `user` called `name`. */
  function Delete(q: Queue, user: UserId, name: string): (r: Outcome)
    ensures r.status in {Deleted, NotFound}
    ensures r.status == NotFound <==> !HasNamed(q, user, name)
    ensures r.status == NotFound ==> r.queue == q
    ensures r.status == Deleted ==> |r.queue| == |q| - 1
  {
    match FindNamed(q, user, name)
    case None => Outcome(q, NotFound)
    case Some(k) => Outcome(q[..k] + q[k + 1..], Deleted)
  }

  /**
   A delete removes exactly one entry, the first that matches, and keeps the
   others in their order.
   */
  lemma DeleteRemovesFirstMatch(q: Queue, user: UserId, name: string)
    requires HasNamed(q, user, name)
    ensures exists k ::
              && 0 <= k < |q| && Named(q[k], user, name)
              && (forall j :: 0 <= j < k ==> !Named(q[j], user, name))
              && Delete(q, user, name).queue == q[..k] + q[k + 1..]
  {
    var k := FindNamed(q, user, name).value;
    assert Named(q[k], user, name);
  }

  /** Removing one entry from an ordered queue leaves it ordered. */
  lemma RemoveKeepsSorted(q: Queue, k: nat)
    requires k < |q| && Sorted(q)
    ensures Sorted(q[..k] + q[k + 1..])
  {
    var q' := q[..k] + q[k + 1..];
    forall i, j | 0 <= i < j < |q'|
      ensures q'[i].time <= q'[j].time
    {
      var i0 := if i < k then i else i + 1;
      var j0 := if j < k then j else j + 1;
      assert q'[i] == q[i0] && q'[j] == q[j0];
    }
  }

  lemma RemoveKeepsUnique(q: Queue, k: nat)
    requires k < |q| && UniqueNames(q)
    ensures UniqueNames(q[..k] + q[k + 1..])
  {
    var q' := q[..k] + q[k + 1..];
    forall i, j | 0 <= i < j < |q'|
      ensures !Named(q'[j], q'[i].user, q'[i].name)
    {
      var i0 := if i < k then i else i + 1;
      var j0 := if j < k then j else j + 1;
      assert q'[i] == q[i0] && q'[j] == q[j0];
    }
  }

  /**
   Deleting keeps the queue ordered and names unique; with unique names, the
   user has no reminder of that name left afterwards.
   */
  lemma DeleteKeepsInvariants(q: Queue, user: UserId, name: string)
    requires Sorted(q) && UniqueNames(q)
    ensures var r := Delete(q, user, name);
      Sorted(r.queue) && UniqueNames(r.queue) && !HasNamed(r.queue, user, name)
  {
    match FindNamed(q, user, name)
    case None =>
    case Some(k) =>
      RemoveKeepsSorted(q, k);
      RemoveKeepsUnique(q, k);
      var q' := q[..k] + q[k + 1..];
      forall i | 0 <= i < |q'|
        ensures !Named(q'[i], user, name)
      {
        if i < k {
          assert q'[i] == q[i];
        } else {
          assert q'[i] == q[i + 1];
          assert !Named(q[i + 1], q[k].user, q[k].name);
        }
      }
  }

  /** `list_reminders`: the user's reminders, in queue order. */
  function ForUser(q: Queue, user: UserId): (r: Queue)
    ensures |r| <= |q|
    ensures forall x :: x in r <==> x in q && x.user == user
    decreases |q|
  {
    if q == [] then []
    else if q[0].user == user then [q[0]] + ForUser(q[1..], user)
    else ForUser(q[1..], user)
  }

  /** Listing a queue made of two parts lists the first part's reminders, then the second's. */
  lemma {:induction false} ForUserAppend(a: Queue, b: Queue, user: UserId)
    ensures ForUser(a + b, user) == ForUser(a, user) + ForUser(b, user)
    decreases |a|
  {
    if a == [] {
      assert a + b == b;
    } else {
      assert (a + b)[1..] == a[1..] + b;
      ForUserAppend(a[1..], b, user);
    }
  }

  /** The listing of an ordered queue is itself ordered by due time. */
  lemma {:induction false} ForUserSorted(q: Queue, user: UserId)
    requires Sorted(q)
    ensures Sorted(ForUser(q, user))
    decreases |q|
  {
    if q != [] {
      ForUserSorted(q[1..], user);
      var rest := ForUser(q[1..], user);
      forall x | x in rest
        ensures q[0].time <= x.time
      {
        var i :| 0 <= i < |q[1..]| && q[1..][i] == x;
      }
    }
  }

  /**
   One pass of `reminder_check_loop`: when the front reminder is due, it is
   sent and popped. The send's outcome is not an input: a failed send is
   swallowed and the reminder is popped all the same.
   */
  function PollStep(q: Queue, now: int): (p: Poll)
    ensures p.fired.None? <==> q == [] || now < q[0].time
    ensures p.fired.None? ==> p.queue == q
    ensures p.fired.Some? ==> p.fired.value == q[0] && [q[0]] + p.queue == q
  {
    if q != [] && q[0].time <= now then Poll(Some(q[0]), q[1..]) else Poll(None, q)
  }

  /** Because the queue is ordered, checking the front is enough: if it is not due, nothing is. */
  lemma NotDueFrontMeansNoneDue(q: Queue, now: int)
    requires Sorted(q) && q != [] && now < q[0].time
    ensures forall i :: 0 <= i < |q| ==> now < q[i].time
  {
  }

  lemma PollKeepsSorted(q: Queue, now: int)
    requires Sorted(q)
    ensures Sorted(PollStep(q, now).queue)
  {
    if q != [] && q[0].time <= now {
      assert q[1..] == q[..0] + q[1..];
      RemoveKeepsSorted(q, 0);
    }
  }

  lemma PollKeepsUnique(q: Queue, now: int)
    requires UniqueNames(q)
    ensures UniqueNames(PollStep(q, now).queue)
  {
    if q != [] && q[0].time <= now {
      assert q[1..] == q[..0] + q[1..];
      RemoveKeepsUnique(q, 0);
    }
  }

  /** A poll keeps the queue ordered and names unique. */
  lemma PollKeepsInvariants(q: Queue, now: int)
    ensures Sorted(q) ==> Sorted(PollStep(q, now).queue)
    ensures UniqueNames(q) ==> UniqueNames(PollStep(q, now).queue)
  {
    if Sorted(q) {
      PollKeepsSorted(q, now);
    }
    if UniqueNames(q) {
      PollKeepsUnique(q, now);
    }
  }

  datatype Drained = Drained(fired: Queue, rest: Queue)

  /** Polling over and over at one instant: what is sent, in order, and what stays queued. */
  function Drain(q: Queue, now: int): (d: Drained)
    ensures forall i :: 0 <= i < |d.fired| ==> d.fired[i].time <= now
    ensures d.rest == [] || now < d.rest[0].time
    decreases |q|
  {
    if q != [] && q[0].time <= now then
      var d := Drain(q[1..], now);
      Drained([q[0]] + d.fired, d.rest)
    else Drained([], q)
  }

  /** Draining is polling until a poll sends nothing: each step is one `PollStep`. */
  lemma DrainIsRepeatedPoll(q: Queue, now: int)
    ensures var p := PollStep(q, now);
      Drain(q, now) == if p.fired.None? then Drained([], q)
                       else Drained([p.fired.value] + Drain(p.queue, now).fired, Drain(p.queue, now).rest)
  {
  }

  /** What repeated polls send, followed by what they keep, is the queue itself. */
  lemma {:induction false} DrainKeepsOrder(q: Queue, now: int)
    ensures Drain(q, now).fired + Drain(q, now).rest == q
    decreases |q|
  {
    if q != [] && q[0].time <= now {
      var d' := Drain(q[1..], now);
      DrainKeepsOrder(q[1..], now);
      var d := Drain(q, now);
      assert d.fired == [q[0]] + d'.fired && d.rest == d'.rest;
      assert d.fired + d.rest == [q[0]] + (d'.fired + d'.rest);
      assert [q[0]] + q[1..] == q;
    }
  }

  /** On an ordered queue, nothing that repeated polls keep is due. */
  lemma {:induction false} DrainKeepsNotDue(q: Queue, now: int)
    requires Sorted(q)
    ensures forall i :: 0 <= i < |Drain(q, now).rest| ==> now < Drain(q, now).rest[i].time
    decreases |q|
  {
    if q != [] && q[0].time <= now {
      var t := q[1..];
      forall i, j | 0 <= i < j < |t|
        ensures t[i].time <= t[j].time
      {
        assert t[i] == q[i + 1] && t[j] == q[j + 1];
      }
      DrainKeepsNotDue(t, now);
    } else if q != [] {
      forall i | 0 < i < |q|
        ensures now < q[i].time
      {
        assert q[0].time <= q[i].time;
      }
    }
  }

  /**
   Repeated polls at `now` send a prefix of the queue, all of it due, and stop
   at the first entry that is not due yet.
   */
  lemma DrainSplitsQueue(q: Queue, now: int)
    ensures var d := Drain(q, now);
      && d.fired + d.rest == q
      && (forall i :: 0 <= i < |d.fired| ==> d.fired[i].time <= now)
      && (d.rest == [] || now < d.rest[0].time)
  {
    DrainKeepsOrder(q, now);
  }

  /**
   On an ordered queue, repeated polls at `now` send every reminder due by
   `now`, each once and in queue order, and keep exactly the others.
   */
  lemma DrainSendsExactlyTheDue(q: Queue, now: int)
    requires Sorted(q)
    ensures var d := Drain(q, now);
      && d.fired + d.rest == q
      && (forall i :: 0 <= i < |d.fired| ==> d.fired[i].time <= now)
      && (forall i :: 0 <= i < |d.rest| ==> now < d.rest[i].time)
  {
    DrainKeepsOrder(q, now);
    DrainKeepsNotDue(q, now);
  }

  /**
   The scenario of a reminder "A" due at T+10 created before "B" due at T+5:
   the queue is [B, A]; at T+6 the poll sends B, and the next poll at T+6
   sends nothing because A is not yet due.
   */
  lemma TwoRemindersScenario(u: UserId, now: int)
    ensures var a := Create([], u, "A", Some(now + 10), now);
      var b := Create(a.queue, u, "B", Some(now + 5), now);
      var p1 := PollStep(b.queue, now + 6);
      var p2 := PollStep(p1.queue, now + 6);
      a.status == Created && b.status == Created
      && b.queue == [Reminder("B", now + 5, u), Reminder("A", now + 10, u)]
      && p1.fired == Some(Reminder("B", now + 5, u)) && p1.queue == [Reminder("A", now + 10, u)]
      && p2.fired == None && p2.queue == p1.queue
  {
    assert !HasNamed([], u, "A");
    var qa := [Reminder("A", now + 10, u)];
    assert Create([], u, "A", Some(now + 10), now).queue == qa;
    assert Lower("A") == "a" && Lower("B") == "b";
    assert !Named(qa[0], u, "B");
    assert !HasNamed(qa, u, "B");
    assert InsertIndex(qa, now + 5) == 0;
  }

  /**
   Two reminders due at the same time: the one created second is queued
   ahead of the first, because the insert stops at the first entry due at or
   after the new time.
   */
  lemma TieScenario(u: UserId, t: int, now: int)
    requires now < t
    ensures var a := Create([], u, "first", Some(t), now);
      var b := Create(a.queue, u, "second", Some(t), now);
      b.status == Created && b.queue == [Reminder("second", t, u), Reminder("first", t, u)]
  {
    var qa := [Reminder("first", t, u)];
    assert !HasNamed([], u, "first");
    assert Create([], u, "first", Some(t), now).queue == qa;
    assert Lower("first")[0] != Lower("second")[0];
    assert !Named(qa[0], u, "second");
    assert !HasNamed(qa, u, "second");
    assert InsertIndex(qa, t) == 0;
  }
}
