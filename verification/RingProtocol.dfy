/** Driver and controller on one producer ring (xHCI 1.2, sections 4.9.2, 4.9.3 and 6.4.4.1). The driver's `push` is cut
    into its individual stores, in any order the compiler may pick for the three words of a TRB; the controller may
    fetch between any two of them. The ring does not know what was consumed: the bound on outstanding TRBs is a
    promise of the callers. */
module RingProtocol {
  import opened Prelude
  import opened Trb
  import opened CommandRing
  import opened Laps

  datatype Word = Data | Opt | Control

  /** Where the driver is inside `push`. */
  datatype Pc =
    | Idle
    | Storing(src: Trb, left: set<Word>)
    | Publishing(src: Trb)
    | Linking
    | Failed

  /** The shared ring, the driver's and the controller's private state, and what was pushed and consumed so far. */
  datatype Sys = Sys(ring: Ring, pc: Pc, dequeue: nat, ccs: bool, pushed: seq<Trb>, consumed: seq<Trb>)

  datatype Step = Begin(src: Trb) | Store(word: Word) | Publish | FlipLink | Fetch

  function StoreWord(t: Trb, src: Trb, w: Word): Trb
  {
    match w
    case Data => t.(data := src.data)
    case Opt => t.(option := src.option)
    case Control => t.(control := src.control)
  }

  /** The controller looks at its dequeue slot: it stays if the cycle bit is not its own, follows a Link TRB, and
      otherwise takes the TRB. */
  function FetchNext(s: Sys, base: u64): Sys
    requires ValidRing(s.ring) && s.dequeue < 16
  {
    var t := s.ring.slots[s.dequeue];
    if Cycle(t) != s.ccs then s
    else if TypeOf(t) == LINK then s.(dequeue := (t.data - base) / 16 % 16, ccs := if Toggle(t) then !s.ccs else s.ccs)
    else s.(dequeue := (s.dequeue + 1) % 16, consumed := s.consumed + [t])
  }

  function Next(s: Sys, step: Step, base: u64): (t: Sys)
    requires ValidRing(s.ring) && s.dequeue < 16
    ensures ValidRing(t.ring) && t.dequeue < 16
  {
    var r := s.ring;
    match step
    case Begin(src) =>
      if Cycle(r.slots[r.index]) != r.cycle then s.(pc := Failed)
      else s.(pc := Storing(src, {Data, Opt, Control}))
    case Store(w) =>
      if !s.pc.Storing? then s
      else
        var left := s.pc.left - {w};
        s.(ring := r.(slots := r.slots[r.index := StoreWord(r.slots[r.index], SetCycle(s.pc.src, r.cycle), w)]),
           pc := if left == {} then Publishing(s.pc.src) else Storing(s.pc.src, left))
    case Publish =>
      if !s.pc.Publishing? then s
      else (match Advance(r, !r.cycle)
            case None => s.(pc := Failed)
            case Some(next) =>
              s.(ring := next, pushed := s.pushed + [s.pc.src],
                 pc := if TypeOf(next.slots[next.index]) == LINK then Linking else Idle))
    case FlipLink =>
      if !s.pc.Linking? then s
      else (match Advance(r, !r.cycle)
            case None => s.(pc := Failed)
            case Some(next) => s.(ring := next.(cycle := !r.cycle), pc := Idle))
    case Fetch => FetchNext(s, base)
  }

  /** Callers push no Link TRBs and keep at most 14 TRBs outstanding, the one being pushed included. */
  ghost predicate Enabled(s: Sys, step: Step)
  {
    match step
    case Begin(src) => s.pc.Idle? && TypeOf(src) != LINK && |s.pushed| - |s.consumed| <= 13
    case Store(w) => s.pc.Storing? && w in s.pc.left
    case Publish => s.pc.Publishing?
    case FlipLink => s.pc.Linking?
    case Fetch => true
  }

  /** The controller starts at slot 0 with cycle state 1 (`CRCR` and the endpoint context are written with it). */
  function Start(base: u64): Sys { Sys(DefaultRing(base), Idle, 0, true, [], []) }

  /* The invariant. */

  predicate DriverAt(s: Sys)
  {
    var n := |s.pushed|;
    if s.pc.Linking? then n > 0 && n % 15 == 0 && s.ring.index == 15 && s.ring.cycle == !LapBit(15, n - 1)
    else s.ring.index == n % 15 && s.ring.cycle == !LapBit(15, n)
  }

  predicate ControllerAt(s: Sys)
  {
    var c := |s.consumed|;
    || (s.dequeue == c % 15 && s.ccs == LapBit(15, c))
    || (s.dequeue == 15 && c > 0 && c % 15 == 0 && s.ccs == LapBit(15, c - 1))
  }

  predicate Bounded(s: Sys)
  {
    |s.consumed| <= |s.pushed| <= |s.consumed| + if s.pc.Storing? || s.pc.Publishing? then 13 else 14
  }

  /** How often the Link TRB has been handed over. */
  function Flips(s: Sys): int { if s.pc.Linking? then |s.pushed| / 15 - 1 else |s.pushed| / 15 }

  ghost predicate SlotsOk(s: Sys, base: u64)
    requires ValidRing(s.ring)
  {
    var n, slots := |s.pushed|, s.ring.slots;
    && slots[15] == SetCycle(LinkTrb(base), Flips(s) % 2 == 1)
    && (forall j | 0 <= j < 15 :: TypeOf(slots[j]) != LINK)
    && SlotsHold(slots, s.pushed)
  }

  /** The last fourteen TRBs are in their slots, handed over; every slot from the next one's on is still the
      driver's. */
  ghost predicate SlotsHold(slots: seq<Trb>, pushed: seq<Trb>)
    requires |slots| == 16
  {
    var n := |pushed|;
    && (forall m: nat {:trigger Nth(m)} | Nth(m) && n - 14 <= m < n ::
          slots[m % 15] == SetCycle(pushed[m], LapBit(15, m)))
    && (forall q: nat {:trigger Nth(q)} | Nth(q) && n <= q < n + 15 :: Cycle(slots[q % 15]) == !LapBit(15, q))
  }

  /** The current slot holds the words stored so far. */
  predicate StoresOk(s: Sys)
    requires ValidRing(s.ring)
  {
    var t := s.ring.slots[s.ring.index];
    match s.pc
    case Storing(src, left) =>
      var full := SetCycle(src, s.ring.cycle);
      && left != {} && TypeOf(src) != LINK
      && (Data !in left ==> t.data == full.data)
      && (Opt !in left ==> t.option == full.option)
      && (Control !in left ==> t.control == full.control)
    case Publishing(src) => t == SetCycle(src, s.ring.cycle) && TypeOf(src) != LINK
    case Failed => false
    case _ => true
  }

  /** What the controller took is what was pushed, in order, each with the cycle bit that handed it over. */
  ghost predicate InOrder(s: Sys)
  {
    && |s.consumed| <= |s.pushed|
    && forall i | 0 <= i < |s.consumed| :: s.consumed[i] == SetCycle(s.pushed[i], LapBit(15, i))
  }

  ghost predicate Inv(s: Sys, base: u64)
  {
    && ValidRing(s.ring) && s.dequeue < 16
    && DriverAt(s) && ControllerAt(s) && Bounded(s)
    && SlotsOk(s, base) && StoresOk(s) && InOrder(s)
  }

  lemma {:induction false} StartInv(base: u64)
    ensures Inv(Start(base), base)
  {
    var slots := DefaultRing(base).slots;
    assert slots[15] == LinkTrb(base);
    forall q: nat | q < 15 ensures Cycle(slots[q % 15]) == !LapBit(15, q) {
      assert q % 15 == q && q / 15 == 0;
    }
  }

  /* Each step keeps the invariant. */

  lemma {:induction false} BeginKeeps(s: Sys, src: Trb, base: u64)
    requires Inv(s, base) && Enabled(s, Begin(src))
    ensures Inv(Next(s, Begin(src), base), base)
  {
    assert Nth(|s.pushed|);
  }

  /** Overwriting the current slot with a TRB that is not the controller's disturbs no outstanding one. */
  lemma {:induction false} SlotsAfterStore(s: Sys, base: u64, t: Trb)
    requires Inv(s, base) && !s.pc.Linking? && TypeOf(t) != LINK && Cycle(t) == s.ring.cycle
    ensures SlotsOk(s.(ring := s.ring.(slots := s.ring.slots[s.ring.index := t])), base)
  {
    var n, slots := |s.pushed|, s.ring.slots[s.ring.index := t];
    forall m: nat | n - 14 <= m < n ensures slots[m % 15] == SetCycle(s.pushed[m], LapBit(15, m)) {
      assert Nth(m);
      SlotsApart(15, m, n);
    }
    forall q: nat | n <= q < n + 15 ensures Cycle(slots[q % 15]) == !LapBit(15, q) {
      assert Nth(q);
      if q > n { SlotsApart(15, n, q); }
    }
  }

  lemma {:induction false} StoreKeeps(s: Sys, w: Word, base: u64)
    requires Inv(s, base) && Enabled(s, Store(w))
    ensures Inv(Next(s, Store(w), base), base)
  {
    var r := s.ring;
    assert Nth(|s.pushed|);
    var full := SetCycle(s.pc.src, r.cycle);
    CycleLaws(s.pc.src, r.cycle, r.cycle);
    var t := StoreWord(r.slots[r.index], full, w);
    SlotsAfterStore(s, base, t);
    var next := Next(s, Store(w), base);
    if next.pc.Publishing? {
      assert s.pc.left == {w};
      assert t == full;
    }
  }

  /** Handing the current slot over makes it the newest outstanding TRB. */
  lemma {:induction false} SlotsAfterPublish(s: Sys, base: u64)
    requires Inv(s, base) && s.pc.Publishing?
    ensures var n, full := |s.pushed|, SetCycle(s.pc.src, LapBit(15, |s.pushed|));
            var slots, pushed := s.ring.slots[s.ring.index := full], s.pushed + [s.pc.src];
            && SlotsHold(slots, pushed)
            && (forall j | 0 <= j < 15 :: TypeOf(slots[j]) != LINK)
            && slots[15] == s.ring.slots[15]
  {
    var n, full := |s.pushed|, SetCycle(s.pc.src, LapBit(15, |s.pushed|));
    var slots, pushed := s.ring.slots[s.ring.index := full], s.pushed + [s.pc.src];
    CycleLaws(s.pc.src, LapBit(15, n), true);
    forall m: nat | n - 13 <= m < n + 1 ensures slots[m % 15] == SetCycle(pushed[m], LapBit(15, m)) {
      assert Nth(m);
      if m < n { SlotsApart(15, m, n); }
    }
    forall q: nat | n + 1 <= q < n + 16 ensures Cycle(slots[q % 15]) == !LapBit(15, q) {
      assert Nth(q);
      if q < n + 15 { SlotsApart(15, n, q); } else { OneLapOn(15, n); }
    }
  }

  /** What `Publish` does: the slot changes hands, and after slot 14 the Link TRB is next. */
  lemma {:induction false} PublishIs(s: Sys, base: u64)
    requires Inv(s, base) && s.pc.Publishing?
    ensures var n := |s.pushed|;
            Next(s, Publish, base) == s.(
              ring := s.ring.(slots := s.ring.slots[s.ring.index := SetCycle(s.pc.src, LapBit(15, n))],
                              index := n % 15 + 1),
              pushed := s.pushed + [s.pc.src],
              pc := if n % 15 == 14 then Linking else Idle)
  {
    var n, r, src := |s.pushed|, s.ring, s.pc.src;
    var slots := r.slots[r.index := SetCycle(src, LapBit(15, n))];
    CycleLaws(src, r.cycle, !r.cycle);
    assert Cycle(r.slots[r.index]) == r.cycle;
    assert SetCycle(r.slots[r.index], !r.cycle) == SetCycle(src, LapBit(15, n));
    assert Advance(r, !r.cycle) == Some(r.(slots := slots, index := n % 15 + 1));
    assert TypeOf(slots[n % 15 + 1]) == LINK <==> n % 15 == 14 by {
      CycleLaws(LinkTrb(base), Flips(s) % 2 == 1, true);
      assert TypeOf(LinkTrb(base)) == LINK;
    }
  }

  lemma {:induction false} PublishKeeps(s: Sys, base: u64)
    requires Inv(s, base) && s.pc.Publishing?
    ensures Inv(Next(s, Publish, base), base)
  {
    PublishIs(s, base);
    SlotsAfterPublish(s, base);
    NextLap(15, |s.pushed|);
    var t := Next(s, Publish, base);
    assert Flips(t) == Flips(s);
    assert SlotsOk(t, base);
  }

  lemma {:induction false} FlipLinkKeeps(s: Sys, base: u64)
    requires Inv(s, base) && s.pc.Linking?
    ensures Inv(Next(s, FlipLink, base), base)
  {
    var n, r := |s.pushed|, s.ring;
    NextLap(15, n - 1);
    CycleLaws(LinkTrb(base), Flips(s) % 2 == 1, !r.cycle);
    var t := Next(s, FlipLink, base);
    assert Flips(t) == Flips(s) + 1;
    assert forall j | 0 <= j < 15 :: t.ring.slots[j] == r.slots[j];
    SameSlots(r.slots, t.ring.slots, s.pushed);
  }

  lemma {:induction false} SameSlots(slots: seq<Trb>, slots': seq<Trb>, pushed: seq<Trb>)
    requires |slots| == |slots'| == 16 && SlotsHold(slots, pushed) && forall j | 0 <= j < 15 :: slots'[j] == slots[j]
    ensures SlotsHold(slots', pushed)
  {
  }

  /** At an ordinary slot the controller sees its cycle bit exactly when a TRB is outstanding, and then the oldest. */
  lemma {:induction false} AtSlot(s: Sys, base: u64)
    requires Inv(s, base) && s.dequeue < 15
    ensures s.dequeue == |s.consumed| % 15 && s.ccs == LapBit(15, |s.consumed|)
    ensures TypeOf(s.ring.slots[s.dequeue]) != LINK
    ensures Cycle(s.ring.slots[s.dequeue]) == s.ccs <==> |s.consumed| < |s.pushed|
    ensures |s.consumed| < |s.pushed| ==>
              s.ring.slots[s.dequeue] == SetCycle(s.pushed[|s.consumed|], LapBit(15, |s.consumed|))
  {
    var c, n := |s.consumed|, |s.pushed|;
    assert Nth(c) && Nth(n);
    if c < n { CycleLaws(s.pushed[c], LapBit(15, c), true); }
  }

  /** At the Link TRB the controller sees its cycle bit unless the driver is still about to hand it over. */
  lemma {:induction false} AtLink(s: Sys, base: u64)
    requires Inv(s, base) && s.dequeue == 15
    ensures TypeOf(s.ring.slots[15]) == LINK && Toggle(s.ring.slots[15]) && s.ring.slots[15].data == base
    ensures |s.consumed| > 0 && |s.consumed| % 15 == 0 && s.ccs == LapBit(15, |s.consumed| - 1)
    ensures Cycle(s.ring.slots[15]) == s.ccs <==> !(s.pc.Linking? && |s.pushed| == |s.consumed|)
  {
    var c, n := |s.consumed|, |s.pushed|;
    CycleLaws(LinkTrb(base), Flips(s) % 2 == 1, true);
    assert n / 15 == c / 15;
    assert (c - 1) / 15 == c / 15 - 1;
  }

  /** What `Fetch` does: take the oldest outstanding TRB, follow the Link TRB, or nothing. */
  lemma {:induction false} FetchIs(s: Sys, base: u64)
    requires Inv(s, base)
    ensures var c, n := |s.consumed|, |s.pushed|;
            Next(s, Fetch, base) ==
              if s.dequeue == 15 then
                if s.pc.Linking? && n == c then s else s.(dequeue := 0, ccs := LapBit(15, c))
              else if c == n then s
              else s.(dequeue := c % 15 + 1, consumed := s.consumed + [SetCycle(s.pushed[c], LapBit(15, c))])
  {
    var c := |s.consumed|;
    if s.dequeue == 15 {
      AtLink(s, base);
      NextLap(15, c - 1);
    } else {
      AtSlot(s, base);
    }
  }

  /** The parts of the invariant that do not speak of the controller. */
  lemma {:induction false} DriverUntouched(s: Sys, t: Sys, base: u64)
    requires Inv(s, base) && t.ring == s.ring && t.pc == s.pc && t.pushed == s.pushed
    ensures DriverAt(t) && SlotsOk(t, base) && StoresOk(t)
  {
  }

  lemma {:induction false} FetchPosition(s: Sys, t: Sys)
    requires s.dequeue < 16 && ControllerAt(s) && Bounded(s) && InOrder(s)
    requires t.pc == s.pc && t.pushed == s.pushed
    requires var c, n := |s.consumed|, |s.pushed|;
             t == if s.dequeue == 15 then
                    if s.pc.Linking? && n == c then s else s.(dequeue := 0, ccs := LapBit(15, c))
                  else if c == n then s
                  else s.(dequeue := c % 15 + 1, consumed := s.consumed + [SetCycle(s.pushed[c], LapBit(15, c))])
    ensures t.dequeue < 16 && ControllerAt(t) && Bounded(t) && InOrder(t)
  {
    NextLap(15, |s.consumed|);
  }

  lemma {:induction false} FetchKeeps(s: Sys, base: u64)
    requires Inv(s, base)
    ensures Inv(Next(s, Fetch, base), base)
  {
    FetchIs(s, base);
    var t := Next(s, Fetch, base);
    DriverUntouched(s, t, base);
    FetchPosition(s, t);
  }

  /* Whole runs. */

  ghost function Run(base: u64, steps: seq<Step>): (s: Sys)
    ensures ValidRing(s.ring) && s.dequeue < 16
  {
    if steps == [] then Start(base) else Next(Run(base, steps[..|steps| - 1]), steps[|steps| - 1], base)
  }

  ghost predicate Legal(base: u64, steps: seq<Step>)
  {
    steps == [] || (Legal(base, steps[..|steps| - 1]) && Enabled(Run(base, steps[..|steps| - 1]), steps[|steps| - 1]))
  }

  /** In every interleaving that respects the bound, `push` never fails and what the controller has consumed is a prefix
      of what was pushed: nothing lost, repeated, reordered or half-written. */
  lemma {:induction false} RunInv(base: u64, steps: seq<Step>)
    requires Legal(base, steps)
    ensures Inv(Run(base, steps), base) && InOrder(Run(base, steps)) && !Run(base, steps).pc.Failed?
  {
    if steps == [] {
      StartInv(base);
    } else {
      RunInv(base, steps[..|steps| - 1]);
      StepKeeps(Run(base, steps[..|steps| - 1]), steps[|steps| - 1], base);
    }
  }

  /** The controller alone, `k` fetches. */
  function Fetches(s: Sys, base: u64, k: nat): (t: Sys)
    requires ValidRing(s.ring) && s.dequeue < 16
    ensures ValidRing(t.ring) && t.dequeue < 16
    decreases k
  {
    if k == 0 then s else Fetches(Next(s, Fetch, base), base, k - 1)
  }

  lemma {:induction false} StepKeeps(s: Sys, step: Step, base: u64)
    requires Inv(s, base) && Enabled(s, step)
    ensures Inv(Next(s, step, base), base)
  {
    match step
    case Begin(src) => BeginKeeps(s, src, base);
    case Store(w) => StoreKeeps(s, w, base);
    case Publish => PublishKeeps(s, base);
    case FlipLink => FlipLinkKeeps(s, base);
    case Fetch => FetchKeeps(s, base);
  }

  /** Nothing is ever stuck: whenever no push is half done, enough fetches drain the ring. */
  lemma {:induction false} Drains(s: Sys, base: u64) returns (k: nat)
    requires Inv(s, base) && s.pc.Idle?
    ensures var t := Fetches(s, base, k);
            Inv(t, base) && t.ring == s.ring && t.pc.Idle? && t.pushed == s.pushed && |t.consumed| == |t.pushed|
    decreases |s.pushed| - |s.consumed|, s.dequeue == 15
  {
    if |s.consumed| == |s.pushed| {
      k := 0;
    } else {
      FetchIs(s, base);
      FetchKeeps(s, base);
      k := Drains(Next(s, Fetch, base), base);
      k := k + 1;
    }
  }

  /* The driver's steps make up `push`. */

  /** All steps of one push, uninterrupted. */
  function PushSteps(s: Sys, src: Trb, base: u64): (t: Sys)
    requires ValidRing(s.ring) && s.dequeue < 16
    ensures ValidRing(t.ring) && t.dequeue < 16
  {
    var s := Next(s, Begin(src), base);
    var s := Next(Next(Next(s, Store(Data), base), Store(Opt), base), Store(Control), base);
    Next(Next(s, Publish, base), FlipLink, base)
  }

  lemma {:induction false} StoreAll(s: Sys, src: Trb, base: u64)
    requires ValidRing(s.ring) && s.dequeue < 16 && s.pc == Storing(src, {Data, Opt, Control})
    ensures Next(Next(Next(s, Store(Data), base), Store(Opt), base), Store(Control), base)
         == s.(ring := s.ring.(slots := s.ring.slots[s.ring.index := SetCycle(src, s.ring.cycle)]),
               pc := Publishing(src))
  {
    var a := Next(s, Store(Data), base);
    assert a.pc == Storing(src, {Opt, Control}) by { assert {Data, Opt, Control} - {Data} == {Opt, Control}; }
    var b := Next(a, Store(Opt), base);
    assert b.pc == Storing(src, {Control}) by { assert {Opt, Control} - {Opt} == {Control}; }
    var c := Next(b, Store(Control), base);
    assert c.pc == Publishing(src) by { assert {Control} - {Control} == {}; }
    assert c.ring.slots == s.ring.slots[s.ring.index := SetCycle(src, s.ring.cycle)];
  }

  /** Run to the end without interruption, the steps are `push`, errors included; the controller's side is untouched. */
  lemma {:induction false} PushIsSteps(s: Sys, src: Trb, base: u64)
    requires ValidRing(s.ring) && s.dequeue < 16 && s.pc.Idle?
    ensures var t, p := PushSteps(s, src, base), Push(s.ring, src);
            && t.ring == p.0 && (t.pc.Idle? <==> p.1.Some?)
            && t.dequeue == s.dequeue && t.ccs == s.ccs && t.consumed == s.consumed
            && (p.1.Some? ==> t.pushed == s.pushed + [src])
  {
    var a := Next(s, Begin(src), base);
    if a.pc.Storing? { StoreAll(a, src, base); }
  }

  lemma {:induction false} StoreAllKeeps(s: Sys, src: Trb, base: u64)
    requires Inv(s, base) && s.pc == Storing(src, {Data, Opt, Control})
    ensures Inv(Next(Next(Next(s, Store(Data), base), Store(Opt), base), Store(Control), base), base)
  {
    var a := Next(s, Store(Data), base);
    StoreKeeps(s, Data, base);
    assert a.pc == Storing(src, {Opt, Control}) by { assert {Data, Opt, Control} - {Data} == {Opt, Control}; }
    var b := Next(a, Store(Opt), base);
    StoreKeeps(a, Opt, base);
    assert b.pc == Storing(src, {Control}) by { assert {Opt, Control} - {Opt} == {Control}; }
    StoreKeeps(b, Control, base);
  }

  /** A push within the bound keeps the invariant and lands at slot `n mod 15`. */
  lemma {:induction false} PushStepsKeep(s: Sys, src: Trb, base: u64)
    requires Inv(s, base) && Enabled(s, Begin(src))
    ensures Inv(PushSteps(s, src, base), base) && PushSteps(s, src, base).pc.Idle?
    ensures Push(s.ring, src) == (PushSteps(s, src, base).ring, Some(|s.pushed| % 15))
  {
    var a := Next(s, Begin(src), base);
    BeginKeeps(s, src, base);
    StoreAll(a, src, base);
    StoreAllKeeps(a, src, base);
    var b := a.(ring := a.ring.(slots := a.ring.slots[a.ring.index := SetCycle(src, a.ring.cycle)]),
                pc := Publishing(src));
    PublishedKeeps(b, base);
    PushIsSteps(s, src, base);
  }

  lemma {:induction false} PublishedKeeps(s: Sys, base: u64)
    requires Inv(s, base) && s.pc.Publishing?
    ensures var t := Next(Next(s, Publish, base), FlipLink, base);
            Inv(t, base) && t.pc.Idle?
  {
    PublishKeeps(s, base);
    PublishIs(s, base);
    var e := Next(s, Publish, base);
    if e.pc.Linking? { FlipLinkKeeps(e, base); }
  }

  /* The driver alone. */

  function PushAll(r: Ring, srcs: seq<Trb>): (t: Ring)
    requires ValidRing(r)
    ensures ValidRing(t)
  {
    if srcs == [] then r else Push(PushAll(r, srcs[..|srcs| - 1]), srcs[|srcs| - 1]).0
  }

  ghost predicate NoLinks(srcs: seq<Trb>) { forall i | 0 <= i < |srcs| :: TypeOf(srcs[i]) != LINK }

  /** The ring only depends on what was pushed, so a controller that keeps up can be imagined beside any driver. */
  lemma {:induction false} WithDrainedController(base: u64, srcs: seq<Trb>) returns (s: Sys)
    requires NoLinks(srcs)
    ensures Inv(s, base) && s.pc.Idle? && s.ring == PushAll(DefaultRing(base), srcs)
    ensures |s.pushed| == |s.consumed| == |srcs|
  {
    if srcs == [] {
      StartInv(base);
      s := Start(base);
    } else {
      var src := srcs[|srcs| - 1];
      var s0 := WithDrainedController(base, srcs[..|srcs| - 1]);
      PushStepsKeep(s0, src, base);
      PushIsSteps(s0, src, base);
      var s1 := PushSteps(s0, src, base);
      var k := Drains(s1, base);
      s := Fetches(s1, base, k);
    }
  }

  /** After any number `n` of pushes, the next goes to slot `n mod 15` and cannot fail. */
  lemma {:induction false} PushLands(base: u64, srcs: seq<Trb>, src: Trb)
    requires NoLinks(srcs) && TypeOf(src) != LINK
    ensures var r, n := PushAll(DefaultRing(base), srcs), |srcs|;
            && Push(r, src).1 == Some(n % 15)
            && Push(r, src).0.slots[n % 15] == SetCycle(src, LapBit(15, n))
  {
    var s := WithDrainedController(base, srcs);
    PushStepsKeep(s, src, base);
    PushIsSteps(s, src, base);
    var t := PushSteps(s, src, base);
    assert Nth(|srcs|);
  }

  /** The driver's state after `n` pushes: slots before the index carry the opposite of `cycle_state_ours`, the rest up
      to and including the Link TRB carry it, and the Link TRB is intact but for its cycle bit. */
  lemma {:induction false} RingAfter(base: u64, srcs: seq<Trb>, j: nat)
    requires NoLinks(srcs) && j < 15
    ensures var r := PushAll(DefaultRing(base), srcs);
            && r.index == |srcs| % 15 && r.cycle == !LapBit(15, |srcs|)
            && r.slots[15] == SetCycle(LinkTrb(base), r.cycle)
            && TypeOf(r.slots[j]) != LINK && Cycle(r.slots[j]) == if j < r.index then !r.cycle else r.cycle
  {
    var s := WithDrainedController(base, srcs);
    SlotCycle(s, base, j);
    assert Flips(s) == |srcs| / 15;
  }

  lemma {:induction false} SlotCycle(s: Sys, base: u64, j: nat)
    requires Inv(s, base) && j < 15
    ensures Cycle(s.ring.slots[j]) == if j < |s.pushed| % 15 then LapBit(15, |s.pushed|) else !LapBit(15, |s.pushed|)
  {
    var n := |s.pushed|;
    var i := n % 15;
    var q := if j < i then n + 15 - (i - j) else n + (j - i);
    LapOf(n, j);
    assert Nth(q);
  }

  lemma {:induction false} LapOf(n: nat, j: nat)
    requires j < 15
    ensures var q := if j < n % 15 then n + 15 - (n % 15 - j) else n + (j - n % 15);
            q % 15 == j && q / 15 == if j < n % 15 then n / 15 + 1 else n / 15
  {
    var a, b := n / 15, n % 15;
    assert n == 15 * a + b;
  }

  /* The bound of 14 is tight. */

  /** Each TRB pushed and fetched at once. */
  function PushAndFetchAll(s: Sys, srcs: seq<Trb>, base: u64): (t: Sys)
    requires ValidRing(s.ring) && s.dequeue < 16
    ensures ValidRing(t.ring) && t.dequeue < 16
  {
    if srcs == [] then s
    else Next(PushSteps(PushAndFetchAll(s, srcs[..|srcs| - 1], base), srcs[|srcs| - 1], base), Fetch, base)
  }

  function PushAllSteps(s: Sys, srcs: seq<Trb>, base: u64): (t: Sys)
    requires ValidRing(s.ring) && s.dequeue < 16
    ensures ValidRing(t.ring) && t.dequeue < 16
  {
    if srcs == [] then s else PushSteps(PushAllSteps(s, srcs[..|srcs| - 1], base), srcs[|srcs| - 1], base)
  }

  /** Pushing and fetching one lap leaves the controller in front of the Link TRB. */
  lemma {:induction false} OneLapFetched(base: u64, srcs: seq<Trb>)
    requires NoLinks(srcs) && |srcs| <= 15
    ensures var s := PushAndFetchAll(Start(base), srcs, base);
            && Inv(s, base) && s.pc.Idle? && s.ring == PushAll(DefaultRing(base), srcs)
            && |s.pushed| == |s.consumed| == |srcs| && s.dequeue == |srcs| && s.ccs
  {
    if srcs == [] {
      StartInv(base);
    } else {
      var n := |srcs| - 1;
      OneLapFetched(base, srcs[..n]);
      var s := PushAndFetchAll(Start(base), srcs[..n], base);
      PushStepsKeep(s, srcs[n], base);
      PushIsSteps(s, srcs[n], base);
      FetchIs(PushSteps(s, srcs[n], base), base);
      FetchKeeps(PushSteps(s, srcs[n], base), base);
    }
  }

  lemma {:induction false} MorePushes(base: u64, a: seq<Trb>, s: Sys, b: seq<Trb>)
    requires NoLinks(a) && NoLinks(b) && ValidRing(s.ring) && s.dequeue < 16 && s.pc.Idle?
    requires s.ring == PushAll(DefaultRing(base), a)
    ensures var t := PushAllSteps(s, b, base);
            && t.ring == PushAll(DefaultRing(base), a + b) && t.pc.Idle? && |t.pushed| == |s.pushed| + |b|
            && t.dequeue == s.dequeue && t.ccs == s.ccs && t.consumed == s.consumed
  {
    if b == [] {
      assert a + b == a;
    } else {
      var n := |b| - 1;
      MorePushes(base, a, s, b[..n]);
      PushLands(base, a + b[..n], b[n]);
      PushIsSteps(PushAllSteps(s, b[..n], base), b[n], base);
      assert (a + b)[..|a + b| - 1] == a + b[..n];
    }
  }

  /** With 15 outstanding TRBs allowed, the ring jams: if the controller has taken a lap but not yet followed the Link
      TRB, another lap of pushes flips the Link TRB back, and the controller never takes any of them. */
  lemma {:induction false} FifteenJams(base: u64, a: seq<Trb>, b: seq<Trb>, k: nat)
    requires NoLinks(a) && NoLinks(b) && |a| == |b| == 15
    ensures var s := PushAllSteps(PushAndFetchAll(Start(base), a, base), b, base);
            s.pc.Idle? && |s.pushed| - |s.consumed| == 15 && Fetches(s, base, k) == s
  {
    OneLapFetched(base, a);
    var s := PushAndFetchAll(Start(base), a, base);
    MorePushes(base, a, s, b);
    var t := PushAllSteps(s, b, base);
    LinkAfterTwoLaps(base, a + b);
    Stuck(t, base, k);
  }

  lemma {:induction false} LinkAfterTwoLaps(base: u64, srcs: seq<Trb>)
    requires NoLinks(srcs) && |srcs| == 30
    ensures !Cycle(PushAll(DefaultRing(base), srcs).slots[15])
  {
    RingAfter(base, srcs, 0);
    assert LapBit(15, 30);
    CycleLaws(LinkTrb(base), false, true);
  }

  lemma {:induction false} Stuck(s: Sys, base: u64, k: nat)
    requires ValidRing(s.ring) && s.dequeue < 16 && Next(s, Fetch, base) == s
    ensures Fetches(s, base, k) == s
    decreases k
  {
    if k > 0 { Stuck(s, base, k - 1); }
  }
}
