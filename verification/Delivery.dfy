/** Which events reach which waiter, over whole runs of registering, polling, taking and dropping. */
module Delivery {
  import opened Prelude
  import opened Trb
  import opened EventRing
  import P = EventRingProtocol

  /** A waiter with the number of events popped before it registered, and the events its future has taken. */
  datatype Waiter = Waiter(cond: Cond, since: nat, taken: seq<Trb>, queue: seq<Trb>, held: bool)

  /** All events popped, all waiters ever registered, and the wait list as positions among them. */
  datatype Board = Board(popped: seq<Trb>, waiters: seq<Waiter>, listed: seq<nat>)

  datatype Step = Register(cond: Cond) | Event(e: Trb) | Take(id: nat) | Drop(id: nat)

  function Deliver(w: Waiter, e: Trb): Waiter { w.(queue := w.queue + Share(w.held, w.cond, e)) }

  function Next(b: Board, step: Step): Board
  {
    match step
    case Register(c) =>
      b.(waiters := b.waiters + [Waiter(c, |b.popped|, [], [], true)], listed := b.listed + [|b.waiters|])
    case Event(e) =>
      Board(b.popped + [e],
            seq(|b.waiters|, i requires 0 <= i < |b.waiters| =>
              if i in b.listed then Deliver(b.waiters[i], e) else b.waiters[i]),
            Listed(b.waiters, b.listed))
    case Take(id) =>
      if id < |b.waiters| && b.waiters[id].queue != [] then
        var w := b.waiters[id];
        b.(waiters := b.waiters[id := w.(taken := w.taken + [w.queue[0]], queue := w.queue[1..])])
      else b
    case Drop(id) => if id < |b.waiters| then b.(waiters := b.waiters[id := b.waiters[id].(held := false)]) else b
  }

  /** The wait list without the waiters nobody holds. */
  function Listed(ws: seq<Waiter>, ids: seq<nat>): (kept: seq<nat>)
    ensures forall i: nat :: i in kept <==> i in ids && i < |ws| && ws[i].held
  {
    if ids == [] then []
    else
      var i := ids[|ids| - 1];
      Listed(ws, ids[..|ids| - 1]) + if i < |ws| && ws[i].held then [i] else []
  }

  /** The events a condition selects, in order. */
  function Selected(ts: seq<Trb>, c: Cond): seq<Trb>
  {
    if ts == [] then [] else Selected(ts[..|ts| - 1], c) + Share(true, c, ts[|ts| - 1])
  }

  /** A held waiter has received exactly the events popped since it registered that match its condition. */
  ghost predicate Exact(b: Board, w: Waiter)
  {
    w.since <= |b.popped| && w.taken + w.queue == Selected(b.popped[w.since..], w.cond)
  }

  ghost predicate Inv(b: Board)
  {
    forall i {:trigger b.waiters[i]} | 0 <= i < |b.waiters| && b.waiters[i].held ::
      i in b.listed && Exact(b, b.waiters[i])
  }

  lemma {:induction false} SelectedNext(ts: seq<Trb>, since: nat, e: Trb, c: Cond)
    requires since <= |ts|
    ensures Selected((ts + [e])[since..], c) == Selected(ts[since..], c) + Share(true, c, e)
  {
    var us := (ts + [e])[since..];
    assert us[..|us| - 1] == ts[since..];
  }

  lemma {:induction false} EventKeeps(b: Board, e: Trb)
    requires Inv(b)
    ensures Inv(Next(b, Event(e)))
  {
    var t := Next(b, Event(e));
    forall i {:trigger t.waiters[i]} | 0 <= i < |t.waiters| && t.waiters[i].held
      ensures i in t.listed && Exact(t, t.waiters[i])
    {
      var w := b.waiters[i];
      SelectedNext(b.popped, w.since, e, w.cond);
      assert w.taken + (w.queue + Share(true, w.cond, e)) == w.taken + w.queue + Share(true, w.cond, e);
    }
  }

  lemma {:induction false} OtherKeeps(b: Board, step: Step)
    requires Inv(b) && !step.Event?
    ensures Inv(Next(b, step))
  {
    var t := Next(b, step);
    forall i {:trigger t.waiters[i]} | 0 <= i < |t.waiters| && t.waiters[i].held
      ensures i in t.listed && Exact(t, t.waiters[i])
    {
      if i < |b.waiters| {
        var w := b.waiters[i];
        if step.Take? && step.id == i && w.queue != [] {
          assert w.taken + [w.queue[0]] + w.queue[1..] == w.taken + w.queue;
        }
      } else {
        assert t.popped[|b.popped|..] == [];
      }
    }
  }

  ghost function Run(steps: seq<Step>): Board
  {
    if steps == [] then Board([], [], []) else Next(Run(steps[..|steps| - 1]), steps[|steps| - 1])
  }

  /** In every run, for every held waiter, the events taken and queued are the popped events since its registration that
      match its condition, in ring order. */
  lemma {:induction false} RunExact(steps: seq<Step>)
    ensures Inv(Run(steps))
  {
    if steps != [] {
      var b, step := Run(steps[..|steps| - 1]), steps[|steps| - 1];
      RunExact(steps[..|steps| - 1]);
      if step.Event? { EventKeeps(b, step.e); } else { OtherKeeps(b, step); }
    }
  }

  /* The ring and its futures show a board. */

  /** `objs` are the waiters ever registered, in order; the ring's wait list and their fields are what `b` says. */
  ghost predicate Shows(ring: EventRing, objs: seq<EventWaitInfo>, b: Board)
    reads ring, objs
  {
    && SameWaiters(objs, b.waiters)
    && SameList(ring.waitList, objs, b.listed)
    && Distinct(objs)
  }

  /** Always true: mentioning it names the two elements a proof step compares. */
  predicate Pair(i: int, j: int) { true }

  predicate Distinct<T(==)>(objs: seq<T>)
  {
    forall i, j {:trigger Pair(i, j)} | Pair(i, j) && 0 <= i < j < |objs| :: objs[i] != objs[j]
  }

  lemma {:induction false} OthersDiffer<T>(objs: seq<T>, id: nat)
    requires Distinct(objs) && id < |objs|
    ensures forall i | 0 <= i < |objs| && i != id :: objs[i] != objs[id]
  {
    forall i | 0 <= i < |objs| && i != id ensures objs[i] != objs[id] { assert Pair(i, id) && Pair(id, i); }
  }

  lemma {:induction false} DistinctMore<T>(objs: seq<T>, w: T)
    requires Distinct(objs) && w !in objs
    ensures Distinct(objs + [w])
  {
  }

  ghost predicate SameWaiters(objs: seq<EventWaitInfo>, ws: seq<Waiter>)
    reads objs
  {
    && |objs| == |ws|
    && forall i | 0 <= i < |objs| ::
         objs[i].cond == ws[i].cond && objs[i].trbs == ws[i].queue && objs[i].held == ws[i].held
  }

  predicate SameList<T(==)>(list: seq<T>, objs: seq<T>, ids: seq<nat>)
  {
    |list| == |ids| && forall k | 0 <= k < |ids| :: ids[k] < |objs| && list[k] == objs[ids[k]]
  }

  lemma {:induction false} KeptTogether<T>(list: seq<T>, held: seq<bool>, objs: seq<T>, ws: seq<Waiter>, ids: seq<nat>)
    requires SameList(list, objs, ids) && |list| == |held| && |objs| == |ws|
    requires forall k | 0 <= k < |ids| :: held[k] == ws[ids[k]].held
    ensures SameList(Held(list, held), objs, Listed(ws, ids))
  {
    if list != [] {
      var n := |list| - 1;
      KeptTogether(list[..n], held[..n], objs, ws, ids[..n]);
    }
  }

  lemma {:induction false} ListedIffIn<T>(list: seq<T>, objs: seq<T>, ids: seq<nat>, i: nat)
    requires SameList(list, objs, ids) && i < |objs| && Distinct(objs)
    ensures i in ids <==> objs[i] in list
  {
    if i in ids {
      var k :| 0 <= k < |ids| && ids[k] == i;
      assert list[k] == objs[i];
    }
    if objs[i] in list {
      var k :| 0 <= k < |list| && list[k] == objs[i];
      var j := ids[k];
      assert Pair(i, j) && Pair(j, i);
    }
  }

  /** `EventRing::poll` is one `Event` step if an event is pending, and nothing otherwise. */
  method PollRing(ring: EventRing, ghost objs: seq<EventWaitInfo>, ghost b: Board) returns (ghost next: Board)
    requires ring.Valid() && Shows(ring, objs, b)
    modifies ring, ring.ring, ring.waitList
    ensures ring.Valid() && Shows(ring, objs, next)
    ensures ring.ring.trb[..] == old(ring.ring.trb[..])
    ensures ring.View() == P.Pop(old(ring.ring.trb[..]), old(ring.View())).0
    ensures var popped := P.Pop(old(ring.ring.trb[..]), old(ring.View())).1;
            next == if popped.Some? then Next(b, Event(popped.value)) else b
  {
    ghost var list := ring.waitList;
    ghost var e := ring.Poll();
    next := if e.Some? then Next(b, Event(e.value)) else b;
    if e.Some? {
      forall i | 0 <= i < |objs|
        ensures Flags(objs)[i] == b.waiters[i].held
        ensures var w := b.waiters[i];
                Queues(objs)[i] == w.queue + if objs[i] in list then Share(w.held, w.cond, e.value) else []
      {
      }
      ListAfter(list, Flags(list), objs, Flags(objs), b);
      WaitersAfter(list, objs, Queues(objs), b, e.value);
    }
  }

  function Queues(ws: seq<EventWaitInfo>): seq<seq<Trb>>
    reads ws
  {
    seq(|ws|, i reads ws requires 0 <= i < |ws| => ws[i].trbs)
  }

  /** The wait list without the waiters nobody holds is that of the board. */
  lemma {:induction false} ListAfter<T>(list: seq<T>, held: seq<bool>, objs: seq<T>, flags: seq<bool>, b: Board)
    requires SameList(list, objs, b.listed) && |held| == |list| && |flags| == |objs| == |b.waiters|
    requires forall k | 0 <= k < |list| :: held[k] == flags[b.listed[k]]
    requires forall i | 0 <= i < |objs| :: flags[i] == b.waiters[i].held
    ensures SameList(Held(list, held), objs, Listed(b.waiters, b.listed))
  {
    KeptTogether(list, held, objs, b.waiters, b.listed);
  }

  /** The queues after the event are those of the board. */
  lemma {:induction false} WaitersAfter<T>(list: seq<T>, objs: seq<T>, queues: seq<seq<Trb>>, b: Board, e: Trb)
    requires SameList(list, objs, b.listed) && Distinct(objs) && |queues| == |objs| == |b.waiters|
    requires forall i | 0 <= i < |objs| ::
               queues[i] == b.waiters[i].queue
                            + if objs[i] in list then Share(b.waiters[i].held, b.waiters[i].cond, e) else []
    ensures var ws := Next(b, Event(e)).waiters;
            && |ws| == |objs|
            && forall i | 0 <= i < |objs| ::
                 queues[i] == ws[i].queue && ws[i].held == b.waiters[i].held && ws[i].cond == b.waiters[i].cond
  {
    forall i | 0 <= i < |objs| ensures queues[i] == Next(b, Event(e)).waiters[i].queue {
      ListedIffIn(list, objs, b.listed, i);
    }
  }

  /** `EventFuture::new`: the waiter it creates is the next one of the board. */
  method NewFuture(ring: EventRing, cond: Cond, ghost objs: seq<EventWaitInfo>, ghost b: Board)
    returns (waitOn: EventWaitInfo)
    requires ring.Valid() && Shows(ring, objs, b)
    modifies ring`waitList
    ensures fresh(waitOn) && ring.Valid() && Shows(ring, objs + [waitOn], Next(b, Register(cond)))
  {
    waitOn := new EventWaitInfo(cond);
    ring.RegisterWaiter(waitOn);
    DistinctMore(objs, waitOn);
  }

  /** `EventFuture::poll` on waiter `id`. */
  method PollFuture(ring: EventRing, waitOn: EventWaitInfo, ghost id: nat, ghost objs: seq<EventWaitInfo>,
                    ghost b: Board)
    returns (r: Option<Trb>)
    requires Shows(ring, objs, b) && id < |objs| && objs[id] == waitOn
    modifies waitOn
    ensures Shows(ring, objs, Next(b, Take(id)))
    ensures r.Some? <==> b.waiters[id].queue != []
    ensures r.Some? ==> Next(b, Take(id)).waiters[id].taken == b.waiters[id].taken + [r.value]
  {
    r := waitOn.PollFuture();
    OthersDiffer(objs, id);
  }
}
