/** `EventRing`: popping events, handing them to the waiters they match, and forgetting waiters nobody holds. */
module EventRing {
  import opened Prelude
  import opened Bits
  import opened Trb
  import opened CommandRing
  import P = EventRingProtocol

  /** What a waiter waits for; absent fields match anything. */
  datatype Cond = Cond(trbType: Option<nat>, trbAddr: Option<u64>, slot: Option<nat>)

  predicate Matches(c: Cond, t: Trb)
  {
    && (c.trbType.Some? ==> TypeOf(t) == c.trbType.value)
    && (c.slot.Some? ==> SlotId(t) == c.slot.value)
    && (c.trbAddr.Some? ==> t.data == c.trbAddr.value)
  }

  /** `EventWaitInfo`; `held` says that some future still holds it. */
  class EventWaitInfo {
    const cond: Cond
    var trbs: seq<Trb>
    var held: bool

    constructor (cond: Cond)
      ensures this.cond == cond && trbs == [] && held
    {
      this.cond := cond;
      trbs := [];
      held := true;
    }

    /** The early returns of `matches`, in order. */
    method MatchesEvent(t: Trb) returns (b: bool)
      ensures b == Matches(cond, t)
      ensures b <==> && cond.trbType in {None, Some((t.control / 1024) % 64)}
                     && cond.slot in {None, Some(t.control / 0x100_0000)} && cond.trbAddr in {None, Some(t.data)}
    {
      ReadFields(t);
      if cond.trbType.Some? && ReadBits(t.control, 10, 6) != cond.trbType.value {
        return false;
      }
      if cond.slot.Some? && ReadBits(t.control, 24, 8) != cond.slot.value {
        return false;
      }
      if cond.trbAddr.Some? && t.data != cond.trbAddr.value {
        return false;
      }
      return true;
    }

    method Resolve(t: Trb)
      modifies this
      ensures trbs == old(trbs) + [t] && held == old(held)
    {
      trbs := trbs + [t];
    }

    /** `EventFuture::poll`: the oldest event delivered, if any. */
    method PollFuture() returns (r: Option<Trb>)
      modifies this
      ensures held == old(held)
      ensures old(trbs) == [] ==> r == None && trbs == []
      ensures old(trbs) != [] ==> r == Some(old(trbs)[0]) && trbs == old(trbs)[1..]
    {
      if trbs == [] {
        r := None;
      } else {
        r := Some(trbs[0]);
        trbs := trbs[1..];
      }
    }
  }

  /* Removing stale waiters. */

  /** Positions below `n` whose flag is off, highest first. */
  function StaleBelow(held: seq<bool>, n: nat): seq<nat>
    requires n <= |held|
  {
    if n == 0 then [] else (if held[n - 1] then [] else [n - 1]) + StaleBelow(held, n - 1)
  }

  /** The elements whose flag is on, in order. */
  function Held<T>(ws: seq<T>, held: seq<bool>): seq<T>
    requires |ws| == |held|
  {
    if ws == [] then []
    else Held(ws[..|ws| - 1], held[..|ws| - 1]) + if held[|ws| - 1] then [ws[|ws| - 1]] else []
  }

  function RemoveAt<T>(ws: seq<T>, k: nat): seq<T>
  {
    if k < |ws| then ws[..k] + ws[k + 1..] else ws
  }

  /** Removes positions one after the other, each counted in the list as it then is. */
  function RemoveEach<T>(ws: seq<T>, ks: seq<nat>): seq<T>
  {
    if ks == [] then ws else RemoveEach(RemoveAt(ws, ks[0]), ks[1..])
  }

  /** Removing the stale positions from the highest down keeps exactly the held waiters, in order. */
  lemma {:induction false} RemovingStaleKeepsHeld<T>(front: seq<T>, held: seq<bool>, back: seq<T>)
    requires |front| == |held|
    ensures RemoveEach(front + back, StaleBelow(held, |front|)) == Held(front, held) + back
  {
    if front == [] {
      assert front + back == back;
    } else {
      var n := |front| - 1;
      StaleOfPrefix(held, n);
      if held[n] {
        RemovingStaleKeepsHeld(front[..n], held[..n], [front[n]] + back);
        KeptLast(front, held, back);
      } else {
        RemovingStaleKeepsHeld(front[..n], held[..n], back);
        RemovedLast(front, held, back);
      }
    }
  }

  lemma {:induction false} KeptLast<T>(front: seq<T>, held: seq<bool>, back: seq<T>)
    requires |front| == |held| > 0 && held[|front| - 1]
    ensures var n := |front| - 1;
            && front + back == front[..n] + ([front[n]] + back) && StaleBelow(held, n + 1) == StaleBelow(held, n)
            && Held(front, held) + back == Held(front[..n], held[..n]) + ([front[n]] + back)
  {
  }

  lemma {:induction false} RemovedLast<T>(front: seq<T>, held: seq<bool>, back: seq<T>)
    requires |front| == |held| > 0 && !held[|front| - 1]
    ensures var n := |front| - 1;
            && RemoveAt(front + back, n) == front[..n] + back
            && StaleBelow(held, n + 1)[0] == n && StaleBelow(held, n + 1)[1..] == StaleBelow(held, n)
            && Held(front, held) == Held(front[..n], held[..n])
  {
  }

  lemma {:induction false} StaleNext(held: seq<bool>, i: nat, stale: seq<nat>)
    requires i < |held|
    ensures stale + StaleBelow(held, i + 1) == (if held[i] then stale else stale + [i]) + StaleBelow(held, i)
  {
  }

  lemma {:induction false} StaleOfPrefix(held: seq<bool>, n: nat)
    requires n <= |held|
    ensures StaleBelow(held, n) == StaleBelow(held[..n], n)
    decreases n
  {
    if n > 0 {
      StaleOfPrefix(held, n - 1);
      StaleOfPrefix(held[..n], n - 1);
      assert held[..n][..n - 1] == held[..n - 1];
    }
  }

  class EventRing {
    const ring: TrbRing
    const base: u64
    var cycleStateOurs: bool
    var erdp: u64
    var waitList: seq<EventWaitInfo>

    ghost predicate Valid()
      reads this, ring
    {
      && ring.Valid() && base % 4096 == 0 && base + 256 < WORD_LIMIT
      && base <= erdp < base + 256
      && (forall i, j | 0 <= i < j < |waitList| :: waitList[i] != waitList[j])
    }

    /** The consumer's side as the protocol sees it. */
    ghost function View(): P.Consumer
      reads this, ring
      requires Valid()
    {
      P.Consumer(ring.currentIndex, cycleStateOurs, (erdp - base) / 16)
    }

    /** `EventRing::new` and `init_irs` for a ring allocated at `base`. */
    constructor (base: u64)
      requires base % 4096 == 0 && base + 256 < WORD_LIMIT
      ensures Valid() && fresh(ring) && fresh(ring.trb) && View() == P.Consumer(0, true, 0) && waitList == []
      ensures forall i | 0 <= i < 16 :: ring.trb[i] == Trb(0, 0, 0)
    {
      ring := new TrbRing();
      this.base := base;
      cycleStateOurs := true;
      erdp := base;
      waitList := [];
    }

    /** `pop`. The low four bits of ERDP are kept; they are not the driver's to change. */
    method PopEvent() returns (e: Option<Trb>)
      requires Valid()
      modifies this`cycleStateOurs, this`erdp, ring
      ensures Valid() && ring.trb[..] == old(ring.trb[..])
      ensures (View(), e) == P.Pop(old(ring.trb[..]), old(View()))
      ensures erdp % 16 == old(erdp) % 16
    {
      var c := ring.CurrentCycle();
      if c != cycleStateOurs {
        return None;
      }
      e := Some(ring.trb[ring.currentIndex]);
      var eptr: u64 := base + 16 * ring.currentIndex;
      var ok := ring.AdvanceIndexNotoggle(cycleStateOurs);
      assert ok;
      ErdpSlot(base, old(ring.currentIndex), erdp);
      erdp := KeepLowBits(eptr, erdp);
      if ring.currentIndex == 0 {
        cycleStateOurs := !cycleStateOurs;
      }
    }

    /** `register_waiter`. */
    method RegisterWaiter(w: EventWaitInfo)
      requires Valid() && w !in waitList
      modifies this`waitList
      ensures Valid() && waitList == old(waitList) + [w]
    {
      waitList := waitList + [w];
    }

    /** The first loop of `poll`: the event goes to every waiter still held that it matches. */
    method Dispatch(e: Trb) returns (consumed: bool)
      requires Valid()
      modifies waitList
      ensures forall w | w in waitList :: w.held == old(w.held) && w.trbs == old(w.trbs) + Share(w.held, w.cond, e)
      ensures consumed <==> exists w :: w in waitList && w.held && Matches(w.cond, e)
    {
      consumed := false;
      for i := 0 to |waitList|
        invariant forall j | 0 <= j < |waitList| ::
                    && waitList[j].held == old(waitList[j].held)
                    && waitList[j].trbs == old(waitList[j].trbs)
                                           + if j < i then Share(waitList[j].held, waitList[j].cond, e) else []
        invariant consumed <==> exists j :: 0 <= j < i && waitList[j].held && Matches(waitList[j].cond, e)
      {
        var w := waitList[i];
        if w.held {
          var b := w.MatchesEvent(e);
          if b {
            w.Resolve(e);
            consumed := true;
          }
        }
      }
    }

    /** The second half of `poll`: collects the positions of waiters nobody holds, highest first, and removes them. */
    method CleanUp()
      requires Valid()
      modifies this`waitList
      ensures Valid() && waitList == Held(old(waitList), Flags(old(waitList)))
    {
      var stale := StalePositions();
      StaleRemoved(waitList, Flags(waitList));
      HeldSubset(waitList, Flags(waitList));
      waitList := RemovePositions(waitList, stale);
    }

    method StalePositions() returns (stale: seq<nat>)
      ensures stale == StaleBelow(Flags(waitList), |waitList|)
    {
      stale := [];
      ghost var held := Flags(waitList);
      for i := |waitList| downto 0
        invariant stale + StaleBelow(held, i) == StaleBelow(held, |waitList|)
      {
        StaleNext(held, i, stale);
        if !waitList[i].held {
          stale := stale + [i];
        }
      }
      assert stale + [] == stale;
    }

    /** `poll`: one event at most is popped; it is appended to the queue of every held waiter it matches, nothing
        else is delivered, and the waiters left are the held ones. */
    method Poll() returns (ghost e: Option<Trb>)
      requires Valid()
      modifies this`cycleStateOurs, this`erdp, this`waitList, ring, waitList
      ensures Valid() && ring.trb[..] == old(ring.trb[..])
      ensures (View(), e) == P.Pop(old(ring.trb[..]), old(View()))
      ensures forall w | w in old(waitList) ::
                && w.held == old(w.held)
                && w.trbs == old(w.trbs) + if e.Some? then Share(w.held, w.cond, e.value) else []
      ensures waitList == if e.Some? then Held(old(waitList), Flags(old(waitList))) else old(waitList)
    {
      var popped := PopEvent();
      e := popped;
      if popped.Some? {
        Deliver(popped.value);
      }
    }

    /** The two halves of `poll` after an event was popped. */
    method Deliver(e: Trb)
      requires Valid()
      modifies this`waitList, waitList
      ensures Valid()
      ensures forall w | w in old(waitList) :: w.held == old(w.held) && w.trbs == old(w.trbs) + Share(w.held, w.cond, e)
      ensures waitList == Held(old(waitList), Flags(old(waitList)))
    {
      var consumed := Dispatch(e);
      CleanUp();
    }
  }

  /** What an event adds to one waiter's queue. */
  function Share(held: bool, c: Cond, e: Trb): seq<Trb> { if held && Matches(c, e) then [e] else [] }

  function Flags(ws: seq<EventWaitInfo>): seq<bool>
    reads ws
  {
    seq(|ws|, i reads ws requires 0 <= i < |ws| => ws[i].held)
  }

  lemma {:induction false} StaleRemoved<T>(ws: seq<T>, held: seq<bool>)
    requires |ws| == |held|
    ensures RemoveEach(ws, StaleBelow(held, |ws|)) == Held(ws, held)
  {
    RemovingStaleKeepsHeld(ws, held, []);
    assert ws + [] == ws && Held(ws, held) + [] == Held(ws, held);
  }

  /** The removal loop of `poll`. */
  method RemovePositions<T>(ws: seq<T>, ks: seq<nat>) returns (r: seq<T>)
    ensures r == RemoveEach(ws, ks)
  {
    r := ws;
    for n := 0 to |ks|
      invariant RemoveEach(r, ks[n..]) == RemoveEach(ws, ks)
    {
      assert ks[n..][1..] == ks[n + 1..];
      r := RemoveAt(r, ks[n]);
    }
  }

  lemma {:induction false} HeldSubset<T>(ws: seq<T>, held: seq<bool>)
    requires |ws| == |held|
    ensures forall w | w in Held(ws, held) :: w in ws
    ensures (forall i, j | 0 <= i < j < |ws| :: ws[i] != ws[j]) ==>
              forall i, j | 0 <= i < j < |Held(ws, held)| :: Held(ws, held)[i] != Held(ws, held)[j]
  {
    if ws != [] {
      var n := |ws| - 1;
      HeldSubset(ws[..n], held[..n]);
      assert (forall i, j | 0 <= i < j < |ws| :: ws[i] != ws[j]) ==> ws[n] !in ws[..n];
    }
  }

  lemma {:induction false} ErdpSlot(base: nat, i: nat, low: nat)
    requires base % 4096 == 0 && i < 16
    ensures var r := base + 16 * i + low % 16;
            r % 16 == low % 16 && (r - base) / 16 == i && base <= r < base + 256 && (base + 16 * i) % 16 == 0
  {
  }

  /** `ptr | (old & 0b1111)`. */
  method KeepLowBits(ptr: u64, previous: u64) returns (r: u64)
    requires ptr % 16 == 0
    ensures r == ptr + previous % 16
  {
    assert Pow2(4) == 16;
    AndLow(4, previous);
    ShlIsProduct(ptr / 16, 4);
    OrDisjoint(4, ptr / 16, previous % 16);
    r := Or(ptr, And(previous, 0xF));
  }
}
