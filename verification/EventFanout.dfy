/**
 The event servers: watchers that subscribe and unsubscribe under the write lock, and one listener that hands every
 event to the subscribers, over unbuffered channels, while it holds the read lock. The steps of the goroutines
 interleave in any way that the lock and the channels allow.

 The private server sends to every subscriber. The public server first checks that the user of the subscription can
 see the event, and gives up on the event at the first subscriber for which that isn't so.
 */
module EventFanout {
  import opened Wrappers

  type Id = nat

  /** Events are numbered in the order in which the listener processes them. */
  datatype Config = Config(accepts: (Id, nat) -> bool, sees: (Id, nat) -> bool)

  /** The private server has no visibility check. */
  ghost predicate IsPrivate(c: Config) {
    forall w, k :: c.sees(w, k)
  }

  /** Where a watcher is: outside, holding the lock to register, receiving, about to leave, holding the lock, gone. */
  datatype Phase = Registering | Receiving | Leaving | Closing | Gone

  /** The loop over the subscriptions: the event, the subscribers not yet visited, and the one it is sending to. */
  datatype Loop = Loop(event: nat, todo: set<Id>, sending: Option<Id>)

  /**
   'next' is the number of events taken so far. The rest is history: the first event that a watcher could get, the
   first one that it could no longer get, what it received, which events the listener gave up before reaching it, and
   who was subscribed when each event was taken.
   */
  datatype Server = Server(
    phases: map<Id, Phase>, subs: set<Id>, closed: set<Id>, writer: Option<Id>, reader: Option<Loop>, next: nat,
    joined: map<Id, nat>, left: map<Id, nat>, received: map<Id, seq<nat>>, missed: set<(Id, nat)>,
    audience: seq<set<Id>>)

  const INITIAL := Server(map[], {}, {}, None, None, 0, map[], map[], map[], {}, [])

  datatype Step =
    | LockToRegister(w: Id) | Register(w: Id)
    | Stop(w: Id) | LockToClose(w: Id) | Close(w: Id)
    | Take | Visit(w: Id) | Deliver(w: Id) | Finish

  predicate Free(s: Server) {
    s.writer.None? && s.reader.None?
  }

  predicate InPhase(s: Server, w: Id, phase: Phase) {
    w in s.phases && s.phases[w] == phase
  }

  predicate Enabled(s: Server, step: Step) {
    match step
    case LockToRegister(w) => Free(s) && w !in s.phases
    case Register(w) => InPhase(s, w, Registering)
    case Stop(w) => InPhase(s, w, Receiving)
    case LockToClose(w) => Free(s) && InPhase(s, w, Leaving)
    case Close(w) => InPhase(s, w, Closing)
    case Take => Free(s)
    case Visit(w) => s.reader.Some? && s.reader.value.sending.None? && w in s.reader.value.todo
    case Deliver(w) => s.reader.Some? && s.reader.value.sending == Some(w) && InPhase(s, w, Receiving)
    case Finish => s.reader.Some? && s.reader.value.sending.None? && s.reader.value.todo == {}
  }

  function Next(c: Config, s: Server, step: Step): (r: Server)
    requires Enabled(s, step)
  {
    match step
    case LockToRegister(w) => s.(phases := s.phases[w := Registering], writer := Some(w))
    case Register(w) =>
      s.(phases := s.phases[w := Receiving], writer := None, subs := s.subs + {w},
         joined := s.joined[w := s.next], received := s.received[w := []])
    case Stop(w) => s.(phases := s.phases[w := Leaving])
    case LockToClose(w) => s.(phases := s.phases[w := Closing], writer := Some(w))
    case Close(w) =>
      s.(phases := s.phases[w := Gone], writer := None, subs := s.subs - {w}, closed := s.closed + {w},
         left := s.left[w := s.next])
    case Take => s.(reader := Some(Loop(s.next, s.subs, None)), next := s.next + 1, audience := s.audience + [s.subs])
    case Visit(w) =>
      var loop := s.reader.value;
      if !c.sees(w, loop.event) then
        s.(reader := None, missed := s.missed + set u | u in loop.todo :: (u, loop.event))
      else
        s.(reader := Some(Loop(loop.event, loop.todo - {w}, if c.accepts(w, loop.event) then Some(w) else None)))
    case Deliver(w) =>
      var loop := s.reader.value;
      s.(reader := Some(loop.(sending := None)),
         received := if w in s.received then s.received[w := s.received[w] + [loop.event]] else s.received)
    case Finish => s.(reader := None)
  }

  /** The servers that a sequence of steps can lead to. */
  ghost predicate Reaches(c: Config, steps: seq<Step>, s: Server)
    decreases |steps|
  {
    if steps == [] then s == INITIAL
    else
      var before, last := steps[..|steps| - 1], steps[|steps| - 1];
      exists t :: Reaches(c, before, t) && Enabled(t, last) && s == Next(c, t, last)
  }

  ghost predicate Reachable(c: Config, s: Server) {
    exists steps :: Reaches(c, steps, s)
  }

  /* ---------- The invariant ---------- */

  /** The events from 'low' on and before 'high' that a watcher should have got. */
  function Due(c: Config, missed: set<(Id, nat)>, w: Id, low: nat, high: nat): (ks: seq<nat>) {
    if high <= low then []
    else
      Due(c, missed, w, low, high - 1)
      + if c.accepts(w, high - 1) && c.sees(w, high - 1) && (w, high - 1) !in missed then [high - 1] else []
  }

  /** The first event that hasn't been settled for a watcher. */
  function Settled(s: Server, w: Id): (k: nat) {
    if InPhase(s, w, Gone) && w in s.left then s.left[w]
    else if s.reader.Some? && (w in s.reader.value.todo || s.reader.value.sending == Some(w)) then s.reader.value.event
    else s.next
  }

  ghost predicate Locking(s: Server) {
    && (forall w: Id :: InPhase(s, w, Registering) || InPhase(s, w, Closing) <==> s.writer == Some(w))
    && (s.writer.Some? ==> s.reader.None?)
    && (forall w :: w in s.subs <==> InPhase(s, w, Receiving) || InPhase(s, w, Leaving) || InPhase(s, w, Closing))
    && (forall w :: w in s.closed <==> InPhase(s, w, Gone))
    && (s.reader.Some? ==>
          var loop := s.reader.value;
          && loop.event + 1 == s.next
          && loop.todo <= s.subs
          && (loop.sending.Some? ==> loop.sending.value in s.subs && loop.sending.value !in loop.todo))
  }

  /** What a watcher has got is what is due to it. */
  ghost predicate Served(c: Config, s: Server, w: Id) {
    && w in s.joined && w in s.received && s.joined[w] <= Settled(s, w)
    && s.received[w] == Due(c, s.missed, w, s.joined[w], Settled(s, w))
  }

  ghost predicate Delivery(c: Config, s: Server) {
    && (forall w :: w in s.subs || w in s.closed ==> Served(c, s, w))
    && (forall w :: w in s.closed ==> w in s.left && s.left[w] <= s.next)
    && (s.reader.Some? && s.reader.value.sending.Some? ==>
          var loop := s.reader.value; c.accepts(loop.sending.value, loop.event) && c.sees(loop.sending.value, loop.event))
  }

  /** Events are only given up when one of the subscribers can't see them, and never while they are being sent. */
  ghost predicate Losses(c: Config, s: Server) {
    && |s.audience| == s.next
    && (forall w, k :: (w, k) in s.missed ==> k < s.next && exists u :: u in s.audience[k] && !c.sees(u, k))
    && (s.reader.Some? ==>
          var loop := s.reader.value;
          && loop.event + 1 == s.next && loop.todo <= s.audience[loop.event]
          && forall w :: (w, loop.event) !in s.missed)
  }

  ghost predicate Invariant(c: Config, s: Server) {
    Locking(s) && Delivery(c, s) && Losses(c, s)
  }

  lemma LockingKept(c: Config, s: Server, step: Step)
    requires Locking(s) && Enabled(s, step)
    ensures Locking(Next(c, s, step))
  {
    var t := Next(c, s, step);
    forall w: Id ensures InPhase(t, w, Registering) || InPhase(t, w, Closing) <==> t.writer == Some(w) {
      assert InPhase(s, w, Registering) || InPhase(s, w, Closing) <==> s.writer == Some(w);
      if step.Register? || step.Close? {
        assert s.writer == Some(step.w);
      }
    }
    forall w ensures w in t.subs <==> InPhase(t, w, Receiving) || InPhase(t, w, Leaving) || InPhase(t, w, Closing) {
      assert w in s.subs <==> InPhase(s, w, Receiving) || InPhase(s, w, Leaving) || InPhase(s, w, Closing);
    }
    forall w ensures w in t.closed <==> InPhase(t, w, Gone) {
      assert w in s.closed <==> InPhase(s, w, Gone);
    }
    if step.Register? || step.Close? {
      assert s.writer == Some(step.w);
    }
  }

  /** Giving up an event changes what is due only for that event. */
  lemma {:induction false} DueUnchanged(c: Config, missed: set<(Id, nat)>, more: set<(Id, nat)>, w: Id, low: nat, high: nat)
    requires forall k :: low <= k < high ==> ((w, k) in missed <==> (w, k) in more)
    ensures Due(c, missed, w, low, high) == Due(c, more, w, low, high)
    decreases high
  {
    if low < high { DueUnchanged(c, missed, more, w, low, high - 1); }
  }

  lemma DeliveryKept(c: Config, s: Server, step: Step)
    requires Invariant(c, s) && Enabled(s, step)
    ensures Delivery(c, Next(c, s, step))
  {
    var t := Next(c, s, step);
    LockingKept(c, s, step);
    forall w | w in t.subs || w in t.closed ensures Served(c, t, w) {
      if step != Register(w) {
        assert w in s.subs || w in s.closed;
        DueKept(c, s, step, w);
      }
    }
  }

  lemma DueKept(c: Config, s: Server, step: Step, w: Id)
    requires Invariant(c, s) && Enabled(s, step) && Locking(Next(c, s, step))
    requires w in s.subs || w in s.closed
    requires step != Register(w)
    ensures Served(c, Next(c, s, step), w)
  {
    if step.Visit? {
      if c.sees(step.w, s.reader.value.event) {
        DueVisited(c, s, step.w, w);
      } else {
        DueGivenUp(c, s, step.w, w);
      }
    } else if step.Deliver? {
      DueDelivered(c, s, step.w, w);
    } else {
      DueOtherwise(c, s, step, w);
    }
  }

  lemma DueVisited(c: Config, s: Server, u: Id, w: Id)
    requires Locking(s) && Served(c, s, w) && Enabled(s, Visit(u)) && c.sees(u, s.reader.value.event)
    requires w in s.subs || w in s.closed
    ensures Served(c, Next(c, s, Visit(u)), w)
  {
  }

  lemma DueGivenUp(c: Config, s: Server, u: Id, w: Id)
    requires Locking(s) && Losses(c, s) && Served(c, s, w) && Enabled(s, Visit(u)) && !c.sees(u, s.reader.value.event)
    requires w in s.subs || w in s.closed
    ensures Served(c, Next(c, s, Visit(u)), w)
  {
    DueUnchanged(c, s.missed, Next(c, s, Visit(u)).missed, w, s.joined[w], Settled(s, w));
  }

  lemma DueDelivered(c: Config, s: Server, u: Id, w: Id)
    requires Invariant(c, s) && Served(c, s, w) && Enabled(s, Deliver(u))
    requires w in s.subs || w in s.closed
    ensures Served(c, Next(c, s, Deliver(u)), w)
  {
  }

  lemma DueOtherwise(c: Config, s: Server, step: Step, w: Id)
    requires Invariant(c, s) && Served(c, s, w) && Enabled(s, step)
    requires w in s.subs || w in s.closed
    requires !step.Visit? && !step.Deliver? && step != Register(w)
    ensures Served(c, Next(c, s, step), w)
  {
  }

  lemma LossesKept(c: Config, s: Server, step: Step)
    requires Invariant(c, s) && Enabled(s, step)
    ensures Losses(c, Next(c, s, step))
  {
  }

  lemma InitialInvariant(c: Config)
    ensures Invariant(c, INITIAL)
  {
  }

  lemma {:induction false} ReachesInvariant(c: Config, steps: seq<Step>, s: Server)
    requires Reaches(c, steps, s)
    ensures Invariant(c, s)
    decreases |steps|
  {
    if steps == [] {
      InitialInvariant(c);
    } else {
      var before, last := steps[..|steps| - 1], steps[|steps| - 1];
      var t :| Reaches(c, before, t) && Enabled(t, last) && s == Next(c, t, last);
      ReachesInvariant(c, before, t);
      LockingKept(c, t, last);
      DeliveryKept(c, t, last);
      LossesKept(c, t, last);
    }
  }

  lemma ReachableInvariant(c: Config, s: Server)
    requires Reachable(c, s)
    ensures Invariant(c, s)
  {
    var steps :| Reaches(c, steps, s);
    ReachesInvariant(c, steps, s);
  }

  /* ---------- Main results ---------- */

  /** The listener never sends on a closed channel, and no watcher closes its channel twice. */
  lemma ChannelsAreSafe(c: Config, s: Server)
    requires Reachable(c, s)
    ensures s.reader.Some? && s.reader.value.sending.Some? ==> s.reader.value.sending.value !in s.closed
    ensures forall w :: InPhase(s, w, Closing) ==> w !in s.closed
  {
    ReachableInvariant(c, s);
  }

  predicate Increasing(ks: seq<nat>) {
    forall i, j :: 0 <= i < j < |ks| ==> ks[i] < ks[j]
  }

  lemma IncreasingAppend(ks: seq<nat>, k: nat)
    requires Increasing(ks) && forall i :: 0 <= i < |ks| ==> ks[i] < k
    ensures Increasing(ks + [k])
  {
  }

  lemma {:induction false} DueIncreasing(c: Config, missed: set<(Id, nat)>, w: Id, low: nat, high: nat)
    ensures Increasing(Due(c, missed, w, low, high))
    ensures forall i :: 0 <= i < |Due(c, missed, w, low, high)| ==> Due(c, missed, w, low, high)[i] < high
    decreases high
  {
    if low < high {
      DueIncreasing(c, missed, w, low, high - 1);
      IncreasingAppend(Due(c, missed, w, low, high - 1), high - 1);
    }
  }

  lemma {:induction false} DueMember(c: Config, missed: set<(Id, nat)>, w: Id, low: nat, high: nat, k: nat)
    ensures k in Due(c, missed, w, low, high) <==>
            low <= k < high && c.accepts(w, k) && c.sees(w, k) && (w, k) !in missed
    decreases high
  {
    if low < high {
      DueMember(c, missed, w, low, high - 1, k);
    }
  }

  lemma DueContents(c: Config, missed: set<(Id, nat)>, w: Id, low: nat, high: nat)
    ensures var ks := Due(c, missed, w, low, high);
      && Increasing(ks)
      && forall k :: k in ks <==> low <= k < high && c.accepts(w, k) && c.sees(w, k) && (w, k) !in missed
  {
    DueIncreasing(c, missed, w, low, high);
    forall k: nat ensures k in Due(c, missed, w, low, high) <==>
                          low <= k < high && c.accepts(w, k) && c.sees(w, k) && (w, k) !in missed
    {
      DueMember(c, missed, w, low, high, k);
    }
  }

  /** Every watcher receives events in the order of processing, each at most once, and only visible and accepted ones. */
  lemma DeliveryIsSound(c: Config, s: Server, w: Id)
    requires Reachable(c, s) && w in s.received
    requires w in s.subs || w in s.closed
    ensures Increasing(s.received[w])
    ensures forall k :: k in s.received[w] ==> w in s.joined && s.joined[w] <= k && c.accepts(w, k) && c.sees(w, k)
  {
    ReachableInvariant(c, s);
    DueContents(c, s.missed, w, s.joined[w], Settled(s, w));
  }

  /**
   A watcher, registered or gone, has received every event between its registration and its departure that it accepts
   and that all who were subscribed when the event was taken can see.
   */
  lemma DeliveryIsComplete(c: Config, s: Server, w: Id, k: nat)
    requires Reachable(c, s) && (w in s.subs || w in s.closed)
    ensures w in s.joined && w in s.received && |s.audience| == s.next && Settled(s, w) <= s.next
    ensures (s.joined[w] <= k < Settled(s, w) && c.accepts(w, k) && c.sees(w, k)
             && (forall u :: u in s.audience[k] ==> c.sees(u, k))) ==> k in s.received[w]
  {
    ReachableInvariant(c, s);
    assert Served(c, s, w);
    DueContents(c, s.missed, w, s.joined[w], Settled(s, w));
  }

  /** The end of what a watcher can have got: its departure, or for a subscriber the events taken so far. */
  function End(s: Server, w: Id): (k: nat) {
    if w in s.closed && w in s.left then s.left[w] else s.next
  }

  /**
   The private server delivers every event exactly once to exactly the registered subscribers that accept it, until
   they leave.
   */
  lemma PrivateDelivery(c: Config, s: Server, w: Id)
    requires IsPrivate(c) && Reachable(c, s)
    requires w in s.closed || (w in s.subs && s.reader.None?)
    ensures w in s.joined && w in s.received && Increasing(s.received[w])
    ensures forall k :: k in s.received[w] <==> s.joined[w] <= k < End(s, w) && c.accepts(w, k)
  {
    ReachableInvariant(c, s);
    assert Served(c, s, w);
    DueContents(c, s.missed, w, s.joined[w], Settled(s, w));
  }

  // One event

  /** The steps lead from the start of the loop over the subscribers to a state, without leaving the loop before. */
  ghost predicate Loops(c: Config, s: Server, steps: seq<Step>, t: Server)
    requires Free(s)
    decreases |steps|
  {
    if steps == [] then t == Next(c, s, Take)
    else
      var before, last := steps[..|steps| - 1], steps[|steps| - 1];
      exists u :: Loops(c, s, before, u) && u.reader.Some? && Enabled(u, last) && t == Next(c, u, last)
  }

  /** The next event reaches the subscribers that see and accept it, in whatever order they are visited. */
  ghost predicate NextReachesAll(c: Config, s: Server)
    requires Free(s)
  {
    forall steps, t :: Loops(c, s, steps, t) && t.reader.None? ==>
      forall w :: w in s.subs && c.accepts(w, s.next) && c.sees(w, s.next) ==> Got(t, w, s.next)
  }

  predicate Got(s: Server, w: Id, k: nat) {
    w in s.received && k in s.received[w]
  }

  /**
   Whenever the listener is about to take an event: it reaches all the subscribers that see and accept it, in every
   order of the visits, exactly when all the subscribers see it or none of them both sees and accepts it.
   */
  lemma NextReachesAllIff(c: Config, s: Server)
    requires Reachable(c, s) && Free(s)
    ensures NextReachesAll(c, s) <==>
            || (forall u :: u in s.subs ==> c.sees(u, s.next))
            || (forall w :: w in s.subs ==> !(c.sees(w, s.next) && c.accepts(w, s.next)))
  {
    ReachableInvariant(c, s);
    if forall u :: u in s.subs ==> c.sees(u, s.next) {
      forall steps, t | Loops(c, s, steps, t) && t.reader.None?
        ensures forall w :: w in s.subs && c.accepts(w, s.next) && c.sees(w, s.next) ==> Got(t, w, s.next)
      {
        LoopProgress(c, s, steps, t);
      }
    }
    forall u, w | u in s.subs && !c.sees(u, s.next) && w in s.subs && c.sees(w, s.next) && c.accepts(w, s.next)
      ensures !NextReachesAll(c, s)
    {
      GivenUpAtOnce(c, s, u, w);
    }
  }

  /** While everybody sees the event, the loop has served all the subscribers that it has left behind. */
  lemma {:induction false} LoopProgress(c: Config, s: Server, steps: seq<Step>, t: Server)
    requires Free(s) && Invariant(c, s) && Loops(c, s, steps, t)
    requires forall u :: u in s.subs ==> c.sees(u, s.next)
    ensures Invariant(c, t)
    ensures t.reader.Some? ==> t.reader.value.event == s.next && t.subs == s.subs
    ensures forall w :: w in s.subs && c.accepts(w, s.next) && !Pending(t, w) ==> Got(t, w, s.next)
    decreases |steps|
  {
    if steps == [] {
      StepKeeps(c, s, Take);
    } else {
      var before, last := steps[..|steps| - 1], steps[|steps| - 1];
      var u :| Loops(c, s, before, u) && u.reader.Some? && Enabled(u, last) && t == Next(c, u, last);
      LoopProgress(c, s, before, u);
      StepKeeps(c, u, last);
      LoopStep(c, u, last, s.subs, s.next);
    }
  }

  /** The loop has yet to visit the watcher, or is sending to it. */
  predicate Pending(s: Server, w: Id) {
    s.reader.Some? && (w in s.reader.value.todo || s.reader.value.sending == Some(w))
  }

  lemma StepKeeps(c: Config, s: Server, step: Step)
    requires Invariant(c, s) && Enabled(s, step)
    ensures Invariant(c, Next(c, s, step))
  {
    LockingKept(c, s, step);
    DeliveryKept(c, s, step);
    LossesKept(c, s, step);
  }

  lemma LoopStep(c: Config, s: Server, step: Step, subs: set<Id>, k: nat)
    requires Invariant(c, s) && Enabled(s, step) && s.reader.Some? && s.reader.value.event == k && s.subs == subs
    requires forall u :: u in subs ==> c.sees(u, k)
    requires forall w :: w in subs && c.accepts(w, k) && !Pending(s, w) ==> Got(s, w, k)
    ensures var t := Next(c, s, step);
      && (t.reader.Some? ==> t.reader.value.event == k && t.subs == subs)
      && forall w :: w in subs && c.accepts(w, k) && !Pending(t, w) ==> Got(t, w, k)
  {
    var t := Next(c, s, step);
    forall w | w in subs && c.accepts(w, k) && !Pending(t, w) ensures Got(t, w, k) {
      assert Served(c, s, w);
      assert Pending(s, w) || Got(s, w, k);
    }
  }

  /** Visiting somebody who can't see the event ends the loop before anybody gets it. */
  lemma GivenUpAtOnce(c: Config, s: Server, u: Id, w: Id)
    requires Free(s) && Invariant(c, s) && u in s.subs && !c.sees(u, s.next)
    requires w in s.subs && c.sees(w, s.next) && c.accepts(w, s.next)
    ensures !NextReachesAll(c, s)
  {
    var taken := Next(c, s, Take);
    var t := Next(c, taken, Visit(u));
    assert [Visit(u)][..0] == [];
    assert Loops(c, s, [], taken);
    assert Loops(c, s, [Visit(u)], t);
    assert Served(c, s, w);
    DueContents(c, s.missed, w, s.joined[w], s.next);
    assert !Got(t, w, s.next);
  }

  // Loops that end

  /** A subscriber that is receiving gets what the listener is sending to it: the next event for it, after the others. */
  lemma ReceiverCanBeServed(c: Config, s: Server, w: Id)
    requires Reachable(c, s) && InPhase(s, w, Receiving)
    requires s.reader.Some? && s.reader.value.sending == Some(w)
    ensures Enabled(s, Deliver(w))
    ensures w in s.received
    ensures var t := Next(c, s, Deliver(w));
      && w in t.received && t.received[w] == s.received[w] + [s.reader.value.event]
      && t.reader == Some(s.reader.value.(sending := None))
  {
    ReachableInvariant(c, s);
    assert Served(c, s, w);
  }

  /** All the watchers of the set are receiving. */
  ghost predicate AllReceive(s: Server, watchers: set<Id>) {
    forall w :: w in watchers ==> InPhase(s, w, Receiving)
  }

  /**
   When all subscribers are receiving, the loop over the next event can come to its end; and when all of them see the
   event, whoever accepts it has it then.
   */
  lemma LoopCanEnd(c: Config, s: Server)
    requires Reachable(c, s) && Free(s) && AllReceive(s, s.subs)
    ensures exists steps, t ::
              && Loops(c, s, steps, t) && t.reader.None?
              && ((forall u :: u in s.subs ==> c.sees(u, s.next)) ==>
                    forall w :: w in s.subs && c.accepts(w, s.next) ==> Got(t, w, s.next))
  {
    ReachableInvariant(c, s);
    var taken := Next(c, s, Take);
    assert Loops(c, s, [], taken);
    var steps, t := RestOfLoop(c, s, [], taken);
    if forall u :: u in s.subs ==> c.sees(u, s.next) {
      LoopProgress(c, s, steps, t);
    }
  }

  lemma OneMore(c: Config, s: Server, steps: seq<Step>, u: Server, last: Step)
    requires Free(s) && Loops(c, s, steps, u) && u.reader.Some? && Enabled(u, last)
    ensures Loops(c, s, steps + [last], Next(c, u, last))
  {
    assert (steps + [last])[..|steps|] == steps;
  }

  lemma {:induction false} RestOfLoop(c: Config, s: Server, steps: seq<Step>, u: Server)
    returns (more: seq<Step>, t: Server)
    requires Free(s) && Loops(c, s, steps, u) && u.reader.Some? && u.reader.value.sending.None?
    requires AllReceive(u, u.reader.value.todo)
    ensures Loops(c, s, more, t) && t.reader.None?
    decreases u.reader.value.todo
  {
    if u.reader.value.todo == {} {
      OneMore(c, s, steps, u, Finish);
      more, t := steps + [Finish], Next(c, u, Finish);
    } else {
      var w :| w in u.reader.value.todo;
      OneMore(c, s, steps, u, Visit(w));
      more, t := steps + [Visit(w)], Next(c, u, Visit(w));
      if t.reader.Some? {
        if t.reader.value.sending.Some? {
          OneMore(c, s, more, t, Deliver(w));
          more, t := more + [Deliver(w)], Next(c, t, Deliver(w));
        }
        more, t := RestOfLoop(c, s, more, t);
      }
    }
  }

  // An event that is lost

  /** Everybody accepts everything, and only watcher 1 can see anything. */
  function OneSees(): Config {
    Config((w, k) => true, (w, k) => w == 1)
  }

  const LOSING := [LockToRegister(1), Register(1), LockToRegister(2), Register(2), Take, Visit(2)]

  /** The losing run goes on with its next step. */
  lemma Extend(c: Config, i: nat, s: Server)
    requires i < 6 && Reaches(c, LOSING[..i], s) && Enabled(s, LOSING[i])
    ensures Reaches(c, LOSING[..i + 1], Next(c, s, LOSING[i]))
  {
    Reached(c, LOSING[..i + 1], LOSING[..i], s);
  }

  lemma Reached(c: Config, steps: seq<Step>, before: seq<Step>, s: Server)
    requires steps != [] && before == steps[..|steps| - 1]
    requires Reaches(c, before, s) && Enabled(s, steps[|steps| - 1])
    ensures Reaches(c, steps, Next(c, s, steps[|steps| - 1]))
  {
  }

  /** The watcher is registered and the event is over, but the watcher hasn't got it. */
  predicate Lost(s: Server, w: Id, k: nat) {
    s.reader.None? && w in s.subs && w in s.joined && s.joined[w] <= k < s.next && !Got(s, w, k)
  }

  /** Watcher 1 sees and accepts event 0 and never gets it, because watcher 2 was visited first. */
  lemma EventIsLost()
    ensures OneSees().sees(1, 0) && OneSees().accepts(1, 0)
    ensures exists s :: Reaches(OneSees(), LOSING, s) && Lost(s, 1, 0)
  {
    var c := OneSees();
    var both := BothRegistered(c);
    Extend(c, 4, both);
    var taken := Next(c, both, Take);
    Extend(c, 5, taken);
    var s := Next(c, taken, Visit(2));
    assert LOSING[..6] == LOSING;
    assert Reaches(c, LOSING, s) && Lost(s, 1, 0);
  }

  lemma BothRegistered(c: Config) returns (s: Server)
    ensures Reaches(c, LOSING[..4], s)
    ensures Free(s) && s.subs == {1, 2} && s.next == 0
    ensures 1 in s.joined && s.joined[1] == 0 && 1 in s.received && s.received[1] == []
  {
    s := OneRegistered(c);
    Extend(c, 2, s);
    s := Next(c, s, LockToRegister(2));
    Extend(c, 3, s);
    s := Next(c, s, Register(2));
  }

  lemma OneRegistered(c: Config) returns (s: Server)
    ensures Reaches(c, LOSING[..2], s)
    ensures Free(s) && s.subs == {1} && s.next == 0 && s.phases == map[1 := Receiving]
    ensures 1 in s.joined && s.joined[1] == 0 && 1 in s.received && s.received[1] == []
  {
    s := INITIAL;
    assert LOSING[..0] == [];
    Extend(c, 0, s);
    s := Next(c, s, LockToRegister(1));
    Extend(c, 1, s);
    s := Next(c, s, Register(1));
  }
}
