/** The event ring (xHCI 1.2, section 4.9.4): the controller produces, `EventRing::pop` consumes. Both sides are cut
    into their individual accesses and interleaved. The driver tells the controller how far it got through ERDP, which
    `pop` sets to the slot it has just read, one behind its own position. */
module EventRingProtocol {
  import opened Prelude
  import opened Trb
  import opened Laps

  /** The consumer's own state and the register it writes, as the slot ERDP names. */
  datatype Consumer = Consumer(index: nat, cycle: bool, erdp: nat)

  /** `pop` in one go. */
  function Pop(slots: seq<Trb>, r: Consumer): (Consumer, Option<Trb>)
    requires |slots| == 16 && r.index < 16
  {
    if Cycle(slots[r.index]) != r.cycle then (r, None)
    else
      var next := (r.index + 1) % 16;
      (Consumer(next, if next == 0 then !r.cycle else r.cycle, r.index), Some(slots[r.index]))
  }

  /** Where the driver is inside `pop`. */
  datatype Pc =
    | Idle
    | Checked
    | Taken(event: Trb)
    | Advanced(event: Trb)
    | Told(event: Trb)
    | Failed

  /** What the controller is writing: the TRB, and whether its data and option words are in place. */
  datatype Posting = NoPost | Post(event: Trb, dataDone: bool, optionDone: bool)

  datatype Sys = Sys(slots: seq<Trb>, consumer: Consumer, pc: Pc, posting: Posting, enqueue: nat, pcs: bool,
                     posted: seq<Trb>, popped: seq<Trb>)

  datatype Step =
    | Check | Take | Advance | Tell | Finish                   // the driver
    | PostBegin(event: Trb) | PostData | PostOption | PostControl  // the controller

  predicate Shape(s: Sys) { |s.slots| == 16 && s.consumer.index < 16 && s.enqueue < 16 && s.consumer.erdp < 16 }

  function Next(s: Sys, step: Step): (t: Sys)
    requires Shape(s)
    ensures Shape(t)
  {
    var r := s.consumer;
    match step
    case Check => s.(pc := if Cycle(s.slots[r.index]) == r.cycle then Checked else Idle)
    case Take => s.(pc := Taken(s.slots[r.index]))
    case Advance =>
      if !s.pc.Taken? then s
      else if Cycle(s.slots[r.index]) != r.cycle then s.(pc := Failed)
      else s.(consumer := r.(index := (r.index + 1) % 16), pc := Advanced(s.pc.event))
    case Tell =>
      if !s.pc.Advanced? then s
      else s.(consumer := r.(erdp := (r.index + 15) % 16), pc := Told(s.pc.event))
    case Finish =>
      if !s.pc.Told? then s
      else s.(consumer := r.(cycle := if r.index == 0 then !r.cycle else r.cycle), pc := Idle,
              popped := s.popped + [s.pc.event])
    case PostBegin(event) => s.(posting := Post(SetCycle(event, s.pcs), false, false))
    case PostData =>
      if !s.posting.Post? then s
      else s.(slots := s.slots[s.enqueue := s.slots[s.enqueue].(data := s.posting.event.data)],
              posting := s.posting.(dataDone := true))
    case PostOption =>
      if !s.posting.Post? then s
      else s.(slots := s.slots[s.enqueue := s.slots[s.enqueue].(option := s.posting.event.option)],
              posting := s.posting.(optionDone := true))
    case PostControl =>
      if !s.posting.Post? then s
      else
        var next := (s.enqueue + 1) % 16;
        s.(slots := s.slots[s.enqueue := s.slots[s.enqueue].(control := s.posting.event.control)], posting := NoPost,
           enqueue := next, pcs := if next == 0 then !s.pcs else s.pcs, posted := s.posted + [s.posting.event])
  }

  /** The driver runs `pop` in order. The controller starts an event only if advancing past it would not reach the slot
      ERDP names, and writes the control word with the cycle bit last. */
  predicate Enabled(s: Sys, step: Step)
  {
    match step
    case Check => s.pc.Idle?
    case Take => s.pc.Checked?
    case Advance => s.pc.Taken?
    case Tell => s.pc.Advanced?
    case Finish => s.pc.Told?
    case PostBegin(event) => s.posting.NoPost? && (s.enqueue + 1) % 16 != s.consumer.erdp
    case PostData => s.posting.Post?
    case PostOption => s.posting.Post?
    case PostControl => s.posting.Post? && s.posting.dataDone && s.posting.optionDone
  }

  function Start(): Sys
  {
    Sys(seq(16, _ => Trb(0, 0, 0)), Consumer(0, true, 0), Idle, NoPost, 0, true, [], [])
  }

  /* The invariant. */

  /** Events the driver has stepped over. */
  function Read(s: Sys): nat { |s.popped| + if s.pc.Advanced? || s.pc.Told? then 1 else 0 }

  /** The event ERDP names: the last one reported as read, or the first. */
  function Reported(s: Sys): nat
  {
    var told := |s.popped| + if s.pc.Told? then 1 else 0;
    if told == 0 then 0 else told - 1
  }

  predicate ConsumerAt(s: Sys)
  {
    var d := Read(s);
    && s.consumer.index == d % 16
    && s.consumer.cycle == (if s.pc.Advanced? || s.pc.Told? then LapBit(16, d - 1) else LapBit(16, d))
    && s.consumer.erdp == Reported(s) % 16
  }

  predicate ProducerAt(s: Sys)
  {
    var p := |s.posted|;
    && s.enqueue == p % 16 && s.pcs == LapBit(16, p)
    && Read(s) <= p <= Reported(s) + if s.posting.Post? then 14 else 15
  }

  /** The last fifteen events are in their slots; every slot from the next event's on carries the other cycle bit. */
  ghost predicate SlotsHold(slots: seq<Trb>, posted: seq<Trb>)
    requires |slots| == 16
  {
    var p := |posted|;
    && (forall m: nat {:trigger Nth(m)} | Nth(m) && p - 15 <= m < p ::
          slots[m % 16] == posted[m] && Cycle(posted[m]) == LapBit(16, m))
    && (forall q: nat {:trigger Nth(q)} | Nth(q) && p <= q < p + 16 :: Cycle(slots[q % 16]) == !LapBit(16, q))
  }

  ghost predicate SlotsOk(s: Sys)
    requires Shape(s)
  {
    SlotsHold(s.slots, s.posted)
  }

  predicate PostOk(s: Sys)
    requires Shape(s)
  {
    match s.posting
    case NoPost => true
    case Post(e, dataDone, optionDone) =>
      && Cycle(e) == s.pcs
      && (dataDone ==> s.slots[s.enqueue].data == e.data)
      && (optionDone ==> s.slots[s.enqueue].option == e.option)
  }

  /** What `pop` has in hand is the oldest event not yet popped. */
  predicate HandOk(s: Sys)
  {
    var c := |s.popped|;
    match s.pc
    case Idle => true
    case Checked => c < |s.posted|
    case Taken(e) => c < |s.posted| && e == s.posted[c]
    case Advanced(e) => c < |s.posted| && e == s.posted[c]
    case Told(e) => c < |s.posted| && e == s.posted[c]
    case Failed => false
  }

  ghost predicate Inv(s: Sys)
  {
    && Shape(s) && HandOk(s) && ConsumerAt(s) && ProducerAt(s) && SlotsOk(s) && PostOk(s)
    && |s.popped| <= |s.posted| && s.popped == s.posted[..|s.popped|]
  }

  lemma {:induction false} StartInv()
    ensures Inv(Start())
  {
    forall q: nat | q < 16 ensures Cycle(Start().slots[q % 16]) == !LapBit(16, q) {
      assert q / 16 == 0;
    }
  }

  /** At a slot not yet stepped over, the driver sees its cycle bit exactly when an event is pending, and then the
      oldest. */
  lemma {:induction false} AtSlot(s: Sys)
    requires Inv(s) && !s.pc.Advanced? && !s.pc.Told?
    ensures Cycle(s.slots[s.consumer.index]) == s.consumer.cycle <==> |s.popped| < |s.posted|
    ensures |s.popped| < |s.posted| ==> s.slots[s.consumer.index] == s.posted[|s.popped|]
  {
    var d, p := |s.popped|, |s.posted|;
    assert Nth(d) && Nth(p);
  }

  lemma {:induction false} CheckKeeps(s: Sys)
    requires Inv(s) && s.pc.Idle?
    ensures Inv(Next(s, Check))
  {
    AtSlot(s);
  }

  lemma {:induction false} TakeKeeps(s: Sys)
    requires Inv(s) && s.pc.Checked?
    ensures Inv(Next(s, Take))
  {
    AtSlot(s);
  }

  lemma {:induction false} AdvanceKeeps(s: Sys)
    requires Inv(s) && s.pc.Taken?
    ensures Inv(Next(s, Advance))
  {
    AtSlot(s);
    NextLap(16, |s.popped|);
  }

  lemma {:induction false} StepBack(d: nat)
    ensures ((d + 1) % 16 + 15) % 16 == d % 16
  {
  }

  lemma {:induction false} TellKeeps(s: Sys)
    requires Inv(s) && s.pc.Advanced?
    ensures Inv(Next(s, Tell))
  {
    StepBack(|s.popped|);
    var t := Next(s, Tell);
    assert Reported(t) == |s.popped| && Reported(s) <= Reported(t);
    assert SlotsOk(t) && PostOk(t);
  }

  lemma {:induction false} FinishKeeps(s: Sys)
    requires Inv(s) && s.pc.Told?
    ensures Inv(Next(s, Finish))
  {
    NextLap(16, |s.popped|);
    var t := Next(s, Finish);
    assert Read(t) == Read(s) && Reported(t) == Reported(s);
    assert t.popped == t.posted[..|t.popped|];
  }

  /** The slot behind the next event is not the one ERDP names only if another event fits. */
  lemma {:induction false} RoomForOne(p: nat, l: nat)
    requires l <= p <= l + 15 && (p % 16 + 1) % 16 != l % 16
    ensures p <= l + 14
  {
    if p == l + 15 {
      NextLap(16, p);
      OneLapOn(16, l);
    }
  }

  lemma {:induction false} PostBeginKeeps(s: Sys, event: Trb)
    requires Inv(s) && Enabled(s, PostBegin(event))
    ensures Inv(Next(s, PostBegin(event)))
  {
    CycleLaws(event, s.pcs, s.pcs);
    RoomForOne(|s.posted|, Reported(s));
  }

  /** Writing the data or option word of the slot after the newest event disturbs no event. */
  lemma {:induction false} SlotsAfterWord(s: Sys, t: Trb)
    requires Inv(s) && t.control == s.slots[s.enqueue].control
    ensures SlotsOk(s.(slots := s.slots[s.enqueue := t]))
  {
    var p, slots := |s.posted|, s.slots[s.enqueue := t];
    forall m: nat | p - 15 <= m < p ensures slots[m % 16] == s.posted[m] && Cycle(s.posted[m]) == LapBit(16, m) {
      assert Nth(m);
      SlotsApart(16, m, p);
    }
    forall q: nat | p <= q < p + 16 ensures Cycle(slots[q % 16]) == !LapBit(16, q) {
      assert Nth(q);
    }
  }

  lemma {:induction false} PostWordKeeps(s: Sys, step: Step)
    requires Inv(s) && s.posting.Post? && (step.PostData? || step.PostOption?)
    ensures Inv(Next(s, step))
  {
    var t := Next(s, step);
    SlotsAfterWord(s, t.slots[s.enqueue]);
    assert t.slots == s.slots[s.enqueue := t.slots[s.enqueue]];
    SameCounts(s, t);
  }

  /** What the counters say depends on the counters alone. */
  lemma {:induction false} SameCounts(s: Sys, t: Sys)
    requires Inv(s) && t.consumer == s.consumer && t.pc == s.pc && t.posted == s.posted && t.popped == s.popped
    requires t.enqueue == s.enqueue && t.pcs == s.pcs && t.posting.Post? == s.posting.Post?
    ensures HandOk(t) && ConsumerAt(t) && ProducerAt(t) && |t.popped| <= |t.posted|
    ensures t.popped == t.posted[..|t.popped|]
  {
  }

  lemma {:induction false} SlotsAfterPost(s: Sys)
    requires Inv(s) && s.posting.Post? && s.posting.dataDone && s.posting.optionDone
    ensures SlotsHold(s.slots[s.enqueue := s.posting.event], s.posted + [s.posting.event])
  {
    var p, e := |s.posted|, s.posting.event;
    var slots, posted := s.slots[s.enqueue := e], s.posted + [e];
    forall m: nat | p - 14 <= m < p + 1 ensures slots[m % 16] == posted[m] && Cycle(posted[m]) == LapBit(16, m) {
      assert Nth(m);
      if m < p { SlotsApart(16, m, p); }
    }
    forall q: nat | p + 1 <= q < p + 17 ensures Cycle(slots[q % 16]) == !LapBit(16, q) {
      assert Nth(q);
      if q < p + 16 { SlotsApart(16, p, q); } else { OneLapOn(16, p); }
    }
  }

  /** The producer's counters after one more event. */
  lemma {:induction false} PostedOne(s: Sys, t: Sys)
    requires Inv(s) && s.posting.Post? && |t.posted| == |s.posted| + 1 && t.posting.NoPost?
    requires t.enqueue == (s.enqueue + 1) % 16 && t.pcs == (if t.enqueue == 0 then !s.pcs else s.pcs)
    requires t.pc == s.pc && t.popped == s.popped
    ensures ProducerAt(t)
  {
    NextLap(16, |s.posted|);
  }

  lemma {:induction false} PostControlKeeps(s: Sys)
    requires Inv(s) && Enabled(s, PostControl)
    ensures Inv(Next(s, PostControl))
  {
    var t := Next(s, PostControl);
    assert t.slots == s.slots[s.enqueue := s.posting.event];
    SlotsAfterPost(s);
    PostedOne(s, t);
    assert t.popped == t.posted[..|t.popped|];
  }

  lemma {:induction false} StepKeeps(s: Sys, step: Step)
    requires Inv(s) && Enabled(s, step)
    ensures Inv(Next(s, step))
  {
    match step
    case Check => CheckKeeps(s);
    case Take => TakeKeeps(s);
    case Advance => AdvanceKeeps(s);
    case Tell => TellKeeps(s);
    case Finish => FinishKeeps(s);
    case PostBegin(event) => PostBeginKeeps(s, event);
    case PostData => PostWordKeeps(s, step);
    case PostOption => PostWordKeeps(s, step);
    case PostControl => PostControlKeeps(s);
  }

  /* Whole runs. */

  ghost function Run(steps: seq<Step>): (s: Sys)
    ensures Shape(s)
  {
    if steps == [] then Start() else Next(Run(steps[..|steps| - 1]), steps[|steps| - 1])
  }

  ghost predicate Legal(steps: seq<Step>)
  {
    steps == [] || (Legal(steps[..|steps| - 1]) && Enabled(Run(steps[..|steps| - 1]), steps[|steps| - 1]))
  }

  /** In every interleaving the events popped are the events posted, in order; no unread event is overwritten; and the
      check inside `pop` never fails. */
  lemma {:induction false} RunInv(steps: seq<Step>)
    requires Legal(steps)
    ensures Inv(Run(steps))
    ensures var s := Run(steps);
            && |s.popped| <= |s.posted| && s.popped == s.posted[..|s.popped|] && !s.pc.Failed?
            && forall m: nat | Read(s) <= m < |s.posted| :: s.slots[m % 16] == s.posted[m]
  {
    if steps == [] {
      StartInv();
    } else {
      RunInv(steps[..|steps| - 1]);
      StepKeeps(Run(steps[..|steps| - 1]), steps[|steps| - 1]);
    }
    UnreadHeld(Run(steps));
  }

  lemma {:induction false} UnreadHeld(s: Sys)
    requires Inv(s)
    ensures forall m: nat | Read(s) <= m < |s.posted| :: s.slots[m % 16] == s.posted[m]
  {
    forall m: nat | Read(s) <= m < |s.posted| ensures s.slots[m % 16] == s.posted[m] { assert Nth(m); }
  }

  /** An uninterrupted `pop` returns nothing exactly when no event is pending, and otherwise the oldest pending one. */
  lemma {:induction false} PopIsOldest(s: Sys)
    requires Inv(s) && s.pc.Idle?
    ensures Pop(s.slots, s.consumer).1 == if |s.popped| == |s.posted| then None else Some(s.posted[|s.popped|])
  {
    AtSlot(s);
  }

  /** The steps of `pop`, uninterrupted, are `pop`. */
  lemma {:induction false} PopIsSteps(s: Sys)
    requires Shape(s) && s.pc.Idle? && Pop(s.slots, s.consumer).1.Some?
    ensures Next(Next(Next(Next(Next(s, Check), Take), Advance), Tell), Finish)
         == s.(consumer := Pop(s.slots, s.consumer).0, popped := s.popped + [Pop(s.slots, s.consumer).1.value])
  {
    assert ((s.consumer.index + 1) % 16 + 15) % 16 == s.consumer.index;
  }

  /* Neither side blocks the other for good. */

  /** The state after an uninterrupted `pop`. */
  function PopOnce(s: Sys): (t: Sys)
    requires Shape(s)
    ensures Shape(t)
  {
    var r := Pop(s.slots, s.consumer);
    if r.1.None? then s else s.(consumer := r.0, popped := s.popped + [r.1.value])
  }

  function Pops(s: Sys, k: nat): (t: Sys)
    requires Shape(s)
    ensures Shape(t)
    decreases k
  {
    if k == 0 then s else Pops(PopOnce(s), k - 1)
  }

  /** With an event pending, `pop` takes one and keeps the invariant; the controller's side is untouched. */
  lemma {:induction false} PopTakesOne(s: Sys)
    requires Inv(s) && s.pc.Idle? && |s.popped| < |s.posted|
    ensures var t := PopOnce(s);
            && Inv(t) && t.pc.Idle? && |t.popped| == |s.popped| + 1
            && t.posted == s.posted && t.posting == s.posting && t.enqueue == s.enqueue
  {
    AtSlot(s);
    PopIsSteps(s);
    CheckKeeps(s);
    var a := Next(s, Check);
    TakeKeeps(a);
    var b := Next(a, Take);
    AdvanceKeeps(b);
    AtSlot(b);
    var c := Next(b, Advance);
    TellKeeps(c);
    FinishKeeps(Next(c, Tell));
  }

  /** The controller may post exactly when fewer than fifteen events lie behind the one ERDP names. */
  lemma {:induction false} MayPost(s: Sys, event: Trb)
    requires Inv(s) && s.posting.NoPost?
    ensures Enabled(s, PostBegin(event)) <==> |s.posted| <= Reported(s) + 14
  {
    var p, l := |s.posted|, Reported(s);
    if p <= l + 14 {
      NextLap(16, p);
      if p + 1 > l { SlotsApart(16, l, p + 1); }
    } else {
      NextLap(16, p);
      OneLapOn(16, l);
    }
  }

  /** When everything has been read the controller is never blocked, although ERDP lags behind. */
  lemma {:induction false} FreeWhenRead(s: Sys, event: Trb)
    requires Inv(s) && s.pc.Idle? && s.posting.NoPost? && |s.popped| == |s.posted|
    ensures Enabled(s, PostBegin(event))
  {
    MayPost(s, event);
  }

  /** From a full ring one `pop` makes room, except for the very first, which leaves ERDP where it was: two do. */
  lemma {:induction false} PopMakesRoom(s: Sys, event: Trb)
    requires Inv(s) && s.pc.Idle? && s.posting.NoPost? && |s.popped| < |s.posted|
    ensures Enabled(PopOnce(s), PostBegin(event)) <==> |s.popped| > 0 || |s.posted| <= 14
    ensures |s.posted| >= |s.popped| + 2 ==> Enabled(Pops(s, 2), PostBegin(event))
  {
    var t := PopOnce(s);
    PopTakesOne(s);
    MayPost(t, event);
    if |s.posted| >= |s.popped| + 2 {
      PopTakesOne(t);
      var u := PopOnce(t);
      MayPost(u, event);
      assert Pops(t, 1) == Pops(u, 0) == u;
    }
  }

  /** Uninterrupted pops read one event each. */
  lemma {:induction false} PopsRead(s: Sys, k: nat)
    requires Inv(s) && s.pc.Idle? && k <= |s.posted| - |s.popped|
    ensures var t := Pops(s, k);
            Inv(t) && t.pc.Idle? && t.posting == s.posting && t.posted == s.posted && |t.popped| == |s.popped| + k
    decreases k
  {
    if k > 0 {
      PopTakesOne(s);
      PopsRead(PopOnce(s), k - 1);
    }
  }

  /** As many pops as there are unread events read them all, and then the controller may post. */
  lemma {:induction false} PopsDrain(s: Sys, event: Trb)
    requires Inv(s) && s.pc.Idle? && s.posting.NoPost?
    ensures var t := Pops(s, |s.posted| - |s.popped|);
            Inv(t) && t.popped == s.posted && t.posted == s.posted && Enabled(t, PostBegin(event))
  {
    PopsRead(s, |s.posted| - |s.popped|);
    var t := Pops(s, |s.posted| - |s.popped|);
    FreeWhenRead(t, event);
    assert s.posted[..|s.posted|] == s.posted;
  }
}
