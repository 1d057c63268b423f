/** Driver and controller together: the command ring, the event ring and the command flow in one machine, whose steps
    are the single accesses of either side. Then `send_command` and `poll` on the ring objects as steps of it. */
module Driver {
  import opened Prelude
  import opened Trb
  import C = CommandRing
  import E = EventRing
  import R = RingProtocol
  import P = EventRingProtocol
  import D = Delivery
  import F = CommandFlow

  /** The state of both rings and of the flow, and the event the controller is writing. */
  datatype World = World(r: R.Sys, s: P.Sys, f: F.Flow, pending: Option<F.Posted>)

  datatype Step =
    | Ring(ring: R.Step)        // a store of `push`, or the controller fetching a command
    | Pop(pop: P.Step)          // an access of `pop`
    | Post(what: F.Posted)      // the controller starts an event
    | Write(write: P.Step)      // and writes a word of it
    | Register | Take(command: nat) | Drop(command: nat)

  predicate Shape(w: World) { C.ValidRing(w.r.ring) && w.r.dequeue < 16 && P.Shape(w.s) }

  /** Handing the command over is the flow's `Push`, the last access of `pop` its `Poll`, the last word of an event its
      `Post`. */
  function Next(w: World, step: Step, base: u64): (t: World)
    requires F.GoodBase(base) && Shape(w)
    ensures Shape(t)
  {
    match step
    case Ring(x) => w.(r := R.Next(w.r, x, base), f := if x.Publish? then F.Next(w.f, F.Push, base) else w.f)
    case Pop(x) => w.(s := P.Next(w.s, x), f := if x.Finish? then F.Next(w.f, F.Poll, base) else w.f)
    case Post(what) =>
      w.(s := P.Next(w.s, P.PostBegin(F.EventOf(w.f, what, base).trb)), pending := Some(what))
    case Write(x) =>
      if x.PostControl? && w.pending.Some? then
        World(w.r, P.Next(w.s, x), F.Next(w.f, F.Post(w.pending.value), base), None)
      else w.(s := P.Next(w.s, x))
    case Register => w.(f := F.Next(w.f, F.Register, base))
    case Take(n) => w.(f := F.Next(w.f, F.Take(n), base))
    case Drop(n) => w.(f := F.Next(w.f, F.Drop(n), base))
  }

  /** The driver is not inside `push`, `pop` or `send_command`. */
  predicate Free(w: World) { w.r.pc.Idle? && w.s.pc.Idle? && !w.f.registering }

  /** The driver does one thing at a time, never polls between a push and its registration, and keeps the flow's bound
      when it starts a push. The controller fetches when it likes, completes commands it has fetched, in order, and
      posts any other events, each with its cycle state. */
  predicate Enabled(w: World, step: Step, base: u64)
    requires F.GoodBase(base) && Shape(w)
  {
    match step
    case Ring(x) =>
      (match x
       case Begin(src) => Free(w) && TypeOf(src) != LINK && F.Enabled(w.f, F.Push, base)
       case Store(word) => w.r.pc.Storing? && word in w.r.pc.left
       case Publish => w.r.pc.Publishing?
       case FlipLink => w.r.pc.Linking?
       case Fetch => true)
    case Pop(x) =>
      (x.Check? || x.Take? || x.Advance? || x.Tell? || x.Finish?) && P.Enabled(w.s, x) && (x.Check? ==> Free(w))
    case Post(what) =>
      var e := F.EventOf(w.f, what, base).trb;
      && P.Enabled(w.s, P.PostBegin(e)) && Cycle(e) == w.s.pcs
      && F.Enabled(w.f, F.Post(what), base) && (what.Complete? ==> w.f.executed < |w.r.consumed|)
    case Write(x) => (x.PostData? || x.PostOption? || x.PostControl?) && P.Enabled(w.s, x)
    case Register => w.f.registering && w.r.pc.Idle?
    case Take(n) => Free(w)
    case Drop(n) => Free(w)
  }

  function Start(base: u64): World { World(R.Start(base), P.Start(), F.Start(), None) }

  /* The invariant. */

  /** Both rings and the flow tell the same story. */
  ghost predicate Joined(w: World, base: u64)
    requires F.GoodBase(base)
  {
    && R.Inv(w.r, base) && P.Inv(w.s) && F.Inv(w.f, base)
    && |w.r.pushed| == w.f.sent && w.f.executed <= |w.r.consumed|
    && w.s.posted == F.Trbs(w.f.posted) && w.s.popped == w.f.board.popped
  }

  /** Where the driver is in one of them, it is nowhere in the others. */
  predicate OneThing(w: World, base: u64)
    requires F.GoodBase(base)
  {
    && (w.r.pc.Storing? || w.r.pc.Publishing? ==> F.Enabled(w.f, F.Push, base) && w.s.pc.Idle?)
    && (w.r.pc.Linking? ==> w.f.registering)
    && (w.f.registering ==> w.s.pc.Idle? && (w.r.pc.Idle? || w.r.pc.Linking?))
    && (!w.s.pc.Idle? ==> w.r.pc.Idle?)
  }

  /** What the controller is writing is the event it chose, and it still may. */
  predicate PendingOk(w: World, base: u64)
    requires F.GoodBase(base)
  {
    && (w.s.posting.Post? <==> w.pending.Some?)
    && (w.pending.Some? ==>
          && w.s.posting.event == F.EventOf(w.f, w.pending.value, base).trb
          && F.Enabled(w.f, F.Post(w.pending.value), base)
          && (w.pending.value.Complete? ==> w.f.executed < |w.r.consumed|))
  }

  ghost predicate Agree(w: World, base: u64)
  {
    && F.GoodBase(base) && Shape(w)
    && forall key {:trigger Opened(key)} | Opened(key) :: Joined(w, base) && OneThing(w, base) && PendingOk(w, base)
  }

  lemma {:induction false} StartAgrees(base: u64)
    requires F.GoodBase(base)
    ensures Agree(Start(base), base)
  {
    R.StartInv(base);
    P.StartInv();
    assert F.Trbs([]) == [];
  }

  /* The driver's steps. */

  /** Few enough commands wait for their completion to be popped: the ring has room. */
  lemma {:induction false} RoomToPush(w: World, base: u64, src: Trb)
    requires F.GoodBase(base) && Joined(w, base) && F.Enabled(w.f, F.Push, base) && w.r.pc.Idle? && TypeOf(src) != LINK
    ensures R.Enabled(w.r, R.Begin(src))
  {
    F.CompletionsMonotone(w.f.posted, F.Polled(w.f), |w.f.posted|);
    assert w.f.posted[..|w.f.posted|] == w.f.posted;
  }

  lemma {:induction false} BeginAgrees(w: World, base: u64, src: Trb)
    requires Agree(w, base) && Enabled(w, Ring(R.Begin(src)), base)
    ensures Agree(Next(w, Ring(R.Begin(src)), base), base)
  {
    assert Opened(0);
    RoomToPush(w, base, src);
    R.BeginKeeps(w.r, src, base);
  }

  lemma {:induction false} StoreAgrees(w: World, base: u64, word: R.Word)
    requires Agree(w, base) && Enabled(w, Ring(R.Store(word)), base)
    ensures Agree(Next(w, Ring(R.Store(word)), base), base)
  {
    assert Opened(0);
    R.StoreKeeps(w.r, word, base);
  }

  lemma {:induction false} PublishAgrees(w: World, base: u64)
    requires Agree(w, base) && Enabled(w, Ring(R.Publish), base)
    ensures Agree(Next(w, Ring(R.Publish), base), base)
  {
    assert Opened(0);
    R.PublishKeeps(w.r, base);
    R.PublishIs(w.r, base);
    F.PushKeeps(w.f, base);
  }

  lemma {:induction false} FlipLinkAgrees(w: World, base: u64)
    requires Agree(w, base) && Enabled(w, Ring(R.FlipLink), base)
    ensures Agree(Next(w, Ring(R.FlipLink), base), base)
  {
    assert Opened(0);
    R.FlipLinkKeeps(w.r, base);
    FlipIs(w.r, base);
  }

  lemma {:induction false} FlipIs(r: R.Sys, base: u64)
    requires R.Inv(r, base) && r.pc.Linking?
    ensures var t := R.Next(r, R.FlipLink, base);
            t.pc.Idle? && t.pushed == r.pushed && t.consumed == r.consumed
  {
    R.FlipLinkKeeps(r, base);
  }

  lemma {:induction false} RegisterAgrees(w: World, base: u64)
    requires Agree(w, base) && Enabled(w, Register, base)
    ensures Agree(Next(w, Register, base), base)
  {
    assert Opened(0);
    F.RegisterKeeps(w.f, base);
  }

  lemma {:induction false} FutureAgrees(w: World, base: u64, step: Step)
    requires Agree(w, base) && (step.Take? || step.Drop?) && Enabled(w, step, base)
    ensures Agree(Next(w, step, base), base)
  {
    assert Opened(0);
    F.FutureKeeps(w.f, if step.Take? then F.Take(step.command) else F.Drop(step.command), base);
  }

  lemma {:induction false} PopAgrees(w: World, base: u64, x: P.Step)
    requires Agree(w, base) && Enabled(w, Pop(x), base) && !x.Finish?
    ensures Agree(Next(w, Pop(x), base), base)
  {
    assert Opened(0);
    P.StepKeeps(w.s, x);
  }

  lemma {:induction false} FinishAgrees(w: World, base: u64)
    requires Agree(w, base) && Enabled(w, Pop(P.Finish), base)
    ensures Agree(Next(w, Pop(P.Finish), base), base)
  {
    assert Opened(0);
    P.StepKeeps(w.s, P.Finish);
    F.PollKeeps(w.f, base);
    var k := |w.s.popped|;
    assert w.s.posted[k] == w.f.posted[k].trb;
  }

  /* The controller's steps. */

  /** The command fetched next stands at the address its waiter has. */
  lemma {:induction false} FetchAgrees(w: World, base: u64)
    requires Agree(w, base)
    ensures Agree(Next(w, Ring(R.Fetch), base), base)
    ensures w.r.dequeue < 15 ==> base + 16 * w.r.dequeue == F.Address(base, |w.r.consumed|)
  {
    assert Opened(0);
    R.FetchKeeps(w.r, base);
    R.FetchIs(w.r, base);
    if w.r.dequeue < 15 { R.AtSlot(w.r, base); }
  }

  lemma {:induction false} PostAgrees(w: World, base: u64, what: F.Posted)
    requires Agree(w, base) && Enabled(w, Post(what), base)
    ensures Agree(Next(w, Post(what), base), base)
  {
    assert Opened(0);
    var e := F.EventOf(w.f, what, base).trb;
    P.StepKeeps(w.s, P.PostBegin(e));
    CycleLaws(e, w.s.pcs, true);
  }

  lemma {:induction false} WriteAgrees(w: World, base: u64, x: P.Step)
    requires Agree(w, base) && (x.PostData? || x.PostOption?) && Enabled(w, Write(x), base)
    ensures Agree(Next(w, Write(x), base), base)
  {
    assert Opened(0);
    P.StepKeeps(w.s, x);
  }

  lemma {:induction false} PostedAgrees(w: World, base: u64)
    requires Agree(w, base) && Enabled(w, Write(P.PostControl), base)
    ensures Agree(Next(w, Write(P.PostControl), base), base)
  {
    assert Opened(0);
    var e := F.EventOf(w.f, w.pending.value, base);
    P.StepKeeps(w.s, P.PostControl);
    F.PostKeeps(w.f, w.pending.value, base);
    assert F.Trbs(w.f.posted + [e]) == F.Trbs(w.f.posted) + [e.trb];
    PushStillAllowed(w.f, F.Next(w.f, F.Post(w.pending.value), base), base);
  }

  /** A new event is behind the popped ones and takes no push back. */
  lemma {:induction false} PushStillAllowed(f: F.Flow, g: F.Flow, base: u64)
    requires F.GoodBase(base) && f.posted <= g.posted && g.board == f.board && g.sent == f.sent
    requires g.registering == f.registering
    ensures F.Enabled(f, F.Push, base) ==> F.Enabled(g, F.Push, base)
  {
    if F.Polled(f) <= |f.posted| { assert g.posted[..F.Polled(f)] == f.posted[..F.Polled(f)]; }
  }

  /* Runs. */

  lemma {:induction false} StepAgrees(w: World, base: u64, step: Step)
    requires Agree(w, base) && Enabled(w, step, base)
    ensures Agree(Next(w, step, base), base)
  {
    match step
    case Ring(Begin(src)) => BeginAgrees(w, base, src);
    case Ring(Store(word)) => StoreAgrees(w, base, word);
    case Ring(Publish) => PublishAgrees(w, base);
    case Ring(FlipLink) => FlipLinkAgrees(w, base);
    case Ring(Fetch) => FetchAgrees(w, base);
    case Pop(x) => if x.Finish? { FinishAgrees(w, base); } else { PopAgrees(w, base, x); }
    case Post(what) => PostAgrees(w, base, what);
    case Write(x) => if x.PostControl? { PostedAgrees(w, base); } else { WriteAgrees(w, base, x); }
    case Register => RegisterAgrees(w, base);
    case Take(_) => FutureAgrees(w, base, step);
    case Drop(_) => FutureAgrees(w, base, step);
  }

  ghost function Run(base: u64, steps: seq<Step>): (w: World)
    requires F.GoodBase(base)
    ensures Shape(w)
  {
    if steps == [] then Start(base) else Next(Run(base, steps[..|steps| - 1]), steps[|steps| - 1], base)
  }

  ghost predicate Legal(base: u64, steps: seq<Step>)
    requires F.GoodBase(base)
  {
    steps == []
    || (Legal(base, steps[..|steps| - 1]) && Enabled(Run(base, steps[..|steps| - 1]), steps[|steps| - 1], base))
  }

  /** In every interleaving of the single accesses of driver and controller, both ring protocols and the flow agree. */
  lemma {:induction false} RunAgrees(base: u64, steps: seq<Step>)
    requires F.GoodBase(base) && Legal(base, steps)
    ensures Agree(Run(base, steps), base)
  {
    if steps == [] {
      StartAgrees(base);
    } else {
      RunAgrees(base, steps[..|steps| - 1]);
      StepAgrees(Run(base, steps[..|steps| - 1]), base, steps[|steps| - 1]);
    }
  }

  /** So `push` never fails, what the controller takes is what was pushed, what is popped is what was posted, and unless
      the command ring stands where a port status change seems to point, each command first gets its own completion. */
  lemma {:induction false} RunAnswers(base: u64, steps: seq<Step>, n: nat)
    requires F.GoodBase(base) && Legal(base, steps) && !F.Clash(base)
    requires n < |Run(base, steps).f.board.waiters| && Run(base, steps).f.board.waiters[n].held
    ensures F.AnsweredIn(Run(base, steps).f, n)
  {
    RunAgrees(base, steps);
    assert Opened(0);
    F.InvAnswers(Run(base, steps).f, base, n);
  }

  lemma {:induction false} RunInOrder(base: u64, steps: seq<Step>)
    requires F.GoodBase(base) && Legal(base, steps)
    ensures var w := Run(base, steps);
            && !w.r.pc.Failed? && R.InOrder(w.r) && !w.s.pc.Failed?
            && |w.s.popped| <= |w.s.posted| && w.s.popped == w.s.posted[..|w.s.popped|]
  {
    RunAgrees(base, steps);
    assert Opened(0);
  }

  /* Whole operations as runs. */

  /** Always true: mentioning it opens the definition of `Reachable`. */
  predicate Traced(key: int) { true }

  /** Some run leads here. */
  ghost predicate Reachable(w: World, base: u64)
    requires F.GoodBase(base)
  {
    forall key {:trigger Traced(key)} | Traced(key) :: exists steps :: Legal(base, steps) && Run(base, steps) == w
  }

  lemma {:induction false} StartReachable(base: u64)
    requires F.GoodBase(base)
    ensures Reachable(Start(base), base)
  {
    assert Legal(base, []) && Run(base, []) == Start(base);
  }

  lemma {:induction false} StepReaches(w: World, base: u64, step: Step)
    requires F.GoodBase(base) && Reachable(w, base) && Shape(w) && Enabled(w, step, base)
    ensures Reachable(Next(w, step, base), base)
  {
    assert Traced(0);
    var steps :| Legal(base, steps) && Run(base, steps) == w;
    assert (steps + [step])[..|steps|] == steps;
    assert Legal(base, steps + [step]) && Run(base, steps + [step]) == Next(w, step, base);
  }

  lemma {:induction false} ReachableAgrees(w: World, base: u64)
    requires F.GoodBase(base) && Reachable(w, base)
    ensures Agree(w, base)
  {
    assert Traced(0);
    var steps :| Legal(base, steps) && Run(base, steps) == w;
    RunAgrees(base, steps);
  }

  /** After `send_command` up to its await: all stores of the push, and the registration. */
  function Sent(w: World, src: Trb, base: u64): (t: World)
    requires F.GoodBase(base) && Shape(w)
    ensures Shape(t)
  {
    w.(r := R.PushSteps(w.r, src, base), f := F.Next(F.Next(w.f, F.Push, base), F.Register, base))
  }

  /** The stores of the push, one after the other. */
  lemma {:induction false} StoresReach(w: World, base: u64, src: Trb)
    requires F.GoodBase(base) && Reachable(w, base) && Shape(w)
    requires Free(w) && TypeOf(src) != LINK && F.Enabled(w.f, F.Push, base)
    ensures var r := R.Next(w.r, R.Begin(src), base);
            && r.pc == R.Storing(src, {R.Data, R.Opt, R.Control})
            && Reachable(w.(r := R.Next(R.Next(R.Next(r, R.Store(R.Data), base), R.Store(R.Opt), base),
                                        R.Store(R.Control), base)), base)
  {
    ReachableAgrees(w, base);
    BeginAgrees(w, base, src);
    var a := Next(w, Ring(R.Begin(src)), base);
    assert Opened(0);
    StepReaches(w, base, Ring(R.Begin(src)));
    var b := Next(a, Ring(R.Store(R.Data)), base);
    StepReaches(a, base, Ring(R.Store(R.Data)));
    assert b.r.pc == R.Storing(src, {R.Opt, R.Control}) by {
      assert {R.Data, R.Opt, R.Control} - {R.Data} == {R.Opt, R.Control};
    }
    var c := Next(b, Ring(R.Store(R.Opt)), base);
    StepReaches(b, base, Ring(R.Store(R.Opt)));
    assert c.r.pc == R.Storing(src, {R.Control}) by { assert {R.Opt, R.Control} - {R.Opt} == {R.Control}; }
    StepReaches(c, base, Ring(R.Store(R.Control)));
  }

  /** Handing over, flipping the Link TRB if it is next, and registering. */
  lemma {:induction false} PublishReaches(w: World, base: u64)
    requires F.GoodBase(base) && Reachable(w, base) && Shape(w) && w.r.pc.Publishing?
    ensures Reachable(w.(r := R.Next(R.Next(w.r, R.Publish, base), R.FlipLink, base),
                         f := F.Next(F.Next(w.f, F.Push, base), F.Register, base)), base)
  {
    ReachableAgrees(w, base);
    assert Opened(0);
    R.PublishIs(w.r, base);
    var a := Next(w, Ring(R.Publish), base);
    StepReaches(w, base, Ring(R.Publish));
    if a.r.pc.Linking? {
      var b := Next(a, Ring(R.FlipLink), base);
      StepReaches(a, base, Ring(R.FlipLink));
      PublishAgrees(w, base);
      FlipIs(a.r, base);
      StepReaches(b, base, Register);
    } else {
      StepReaches(a, base, Register);
    }
  }

  ghost predicate IsSent(w: World, src: Trb, base: u64, t: World)
  {
    forall key {:trigger Opened(key)} | Opened(key) :: F.GoodBase(base) && Shape(w) && t == Sent(w, src, base)
  }

  lemma {:induction false} SendReaches(w: World, base: u64, src: Trb) returns (t: World)
    requires F.GoodBase(base) && Reachable(w, base) && Shape(w)
    requires Free(w) && TypeOf(src) != LINK && F.Enabled(w.f, F.Push, base)
    ensures IsSent(w, src, base, t) && Shape(t) && Reachable(t, base) && Free(t) && t.s == w.s
    ensures C.Push(w.r.ring, src) == (t.r.ring, Some(w.f.sent % 15))
    ensures t.f == F.Next(F.Next(w.f, F.Push, base), F.Register, base)
    ensures t.f.board == D.Next(w.f.board, D.Register(F.WaitFor(base, w.f.sent)))
  {
    StoresReach(w, base, src);
    var a := R.Next(w.r, R.Begin(src), base);
    R.StoreAll(a, src, base);
    var r := R.Next(R.Next(R.Next(a, R.Store(R.Data), base), R.Store(R.Opt), base), R.Store(R.Control), base);
    PublishReaches(w.(r := r), base);
    ReachableAgrees(w, base);
    assert Opened(0);
    RoomToPush(w, base, src);
    R.PushStepsKeep(w.r, src, base);
    t := Sent(w, src, base);
  }

  /** After `poll`: an uninterrupted `pop`, and the delivery of what it took. */
  function Polled(w: World, base: u64): (t: World)
    requires F.GoodBase(base) && Shape(w)
    ensures Shape(t)
  {
    w.(s := P.PopOnce(w.s), f := F.Next(w.f, F.Poll, base))
  }

  lemma {:induction false} PollReaches(w: World, base: u64)
    requires F.GoodBase(base) && Reachable(w, base) && Shape(w) && Free(w)
    ensures Reachable(Polled(w, base), base) && Free(Polled(w, base))
    ensures var e := P.Pop(w.s.slots, w.s.consumer).1;
            Polled(w, base).f.board == if e.Some? then D.Next(w.f.board, D.Event(e.value)) else w.f.board
  {
    ReachableAgrees(w, base);
    assert Opened(0);
    P.PopIsOldest(w.s);
    if |w.s.popped| < |w.s.posted| {
      assert w.s.posted[F.Polled(w.f)] == w.f.posted[F.Polled(w.f)].trb;
      PopReaches(w, base);
    }
  }

  lemma {:induction false} PopReaches(w: World, base: u64)
    requires F.GoodBase(base) && Reachable(w, base) && Shape(w) && Free(w) && |w.s.popped| < |w.s.posted|
    ensures Reachable(Polled(w, base), base)
  {
    ReachableAgrees(w, base);
    assert Opened(0);
    P.AtSlot(w.s);
    P.PopIsSteps(w.s);
    var a := Next(w, Pop(P.Check), base);
    StepReaches(w, base, Pop(P.Check));
    var b := Next(a, Pop(P.Take), base);
    StepReaches(a, base, Pop(P.Take));
    var c := Next(b, Pop(P.Advance), base);
    StepReaches(b, base, Pop(P.Advance));
    var d := Next(c, Pop(P.Tell), base);
    StepReaches(c, base, Pop(P.Tell));
    StepReaches(d, base, Pop(P.Finish));
  }

  lemma {:induction false} WordReaches(w: World, base: u64, x: P.Step) returns (t: World)
    requires F.GoodBase(base) && Reachable(w, base) && Shape(w) && w.s.posting.Post? && (x.PostData? || x.PostOption?)
    ensures Shape(t) && Reachable(t, base) && t.r == w.r && t.f == w.f && t.pending == w.pending && t.s.pc == w.s.pc
    ensures t.s.posting == if x.PostData? then w.s.posting.(dataDone := true) else w.s.posting.(optionDone := true)
  {
    StepReaches(w, base, Write(x));
    t := Next(w, Write(x), base);
  }

  lemma {:induction false} ControlReaches(w: World, base: u64) returns (t: World)
    requires F.GoodBase(base) && Reachable(w, base) && Shape(w) && P.Enabled(w.s, P.PostControl) && w.pending.Some?
    ensures Shape(t) && Reachable(t, base) && t.r == w.r && t.s.pc == w.s.pc
    ensures t.f == F.Next(w.f, F.Post(w.pending.value), base)
  {
    StepReaches(w, base, Write(P.PostControl));
    t := Next(w, Write(P.PostControl), base);
  }

  /** The controller writes a whole event. */
  lemma {:induction false} PostReaches(w: World, base: u64, what: F.Posted) returns (t: World)
    requires F.GoodBase(base) && Reachable(w, base) && Shape(w) && Enabled(w, Post(what), base)
    ensures Shape(t) && Reachable(t, base) && t.r == w.r && t.f == F.Next(w.f, F.Post(what), base) && t.s.pc == w.s.pc
  {
    t := StartPost(w, base, what);
    t := WordReaches(t, base, P.PostData);
    t := WordReaches(t, base, P.PostOption);
    t := ControlReaches(t, base);
  }

  lemma {:induction false} StartPost(w: World, base: u64, what: F.Posted) returns (t: World)
    requires F.GoodBase(base) && Reachable(w, base) && Shape(w) && Enabled(w, Post(what), base)
    ensures Shape(t) && Reachable(t, base) && t.r == w.r && t.f == w.f && t.s.pc == w.s.pc
    ensures t.pending == Some(what) && t.s.posting.Post?
  {
    StepReaches(w, base, Post(what));
    t := Next(w, Post(what), base);
  }

  lemma {:induction false} FirstSent(base: u64) returns (w: World)
    requires F.GoodBase(base)
    ensures Shape(w) && Reachable(w, base) && Free(w) && w.s == P.Start()
    ensures w.f == F.Next(F.Next(F.Start(), F.Push, base), F.Register, base)
  {
    StartReachable(base);
    w := SendReaches(Start(base), base, Trb(0, 0, 0));
  }

  /** If the command ring stands where the status change of a port seems to point, the change that comes before the
      first completion is taken for it. */
  lemma {:induction false} PortReaches(base: u64, port: nat) returns (w: World)
    requires F.GoodBase(base) && F.IsPort(port) && base == F.PortData(port)
    ensures Reachable(w, base) && w.f == F.AfterPort(base, port, 1)
  {
    w := FirstSent(base);
    w := PostReaches(w, base, F.PortChanged(port, 0, 1));
    PollReaches(w, base);
    w := Polled(w, base);
  }

  /** In every run commands get their own answers exactly if the command ring stands clear of the ports. */
  lemma {:induction false} AnswersIff(base: u64)
    requires F.GoodBase(base)
    ensures (forall w: World, n: nat | Reachable(w, base) && n < |w.f.board.waiters| && w.f.board.waiters[n].held ::
               F.AnsweredIn(w.f, n))
       <==> !F.Clash(base)
  {
    if F.Clash(base) {
      F.ClashIffPort(base);
      var port: nat :| F.IsPort(port) && base == F.PortData(port);
      var w := PortReaches(base, port);
      F.PortAnswers(base, port, 1);
      assert !F.AnsweredIn(w.f, 0);
    } else {
      forall w: World, n: nat | Reachable(w, base) && n < |w.f.board.waiters| && w.f.board.waiters[n].held
        ensures F.AnsweredIn(w.f, n)
      {
        ReachableAgrees(w, base);
        assert Opened(0);
        F.InvAnswers(w.f, base, n);
      }
    }
  }

  /* The objects. */

  /** The objects hold what a reachable state says, and the driver is between two operations. */
  ghost predicate Shown(cmd: C.CommandRing, ev: E.EventRing, objs: seq<E.EventWaitInfo>, w: World, base: u64)
    reads cmd, cmd.ring, cmd.ring.trb, ev, ev.ring, ev.ring.trb, objs
  {
    && F.GoodBase(base) && Shape(w) && Reachable(w, base) && Free(w)
    && cmd.Valid() && cmd.State() == w.r.ring
    && ev.Valid() && ev.ring.trb[..] == w.s.slots && ev.View() == w.s.consumer
    && D.Shows(ev, objs, w.f.board)
    && cmd.ring != ev.ring && cmd.ring.trb != ev.ring.trb
  }

  /** New rings show the start of the machine. */
  method NewRings(base: u64, eventBase: u64) returns (cmd: C.CommandRing, ev: E.EventRing)
    requires F.GoodBase(base) && eventBase % 4096 == 0 && eventBase + 256 < WORD_LIMIT
    ensures Shown(cmd, ev, [], Start(base), base)
  {
    cmd := new C.CommandRing(base);
    ev := new E.EventRing(eventBase);
    StartReachable(base);
    assert ev.ring.trb[..] == P.Start().slots;
  }

  /** `send_command` up to its await: the push, the doorbell, which only makes the controller look, and the future
      for the address pushed to. It cannot fail, and leads to the state after all its steps. */
  method SendCommand(cmd: C.CommandRing, ev: E.EventRing, trb: Trb, base: u64, ghost objs: seq<E.EventWaitInfo>,
                     ghost w: World)
    returns (waitOn: Option<E.EventWaitInfo>, ghost t: World)
    requires Shown(cmd, ev, objs, w, base) && F.Enabled(w.f, F.Push, base) && TypeOf(trb) != LINK
    modifies cmd, cmd.ring, cmd.ring.trb, ev`waitList
    ensures waitOn.Some? && fresh(waitOn.value)
    ensures IsSent(w, trb, base, t) && Shown(cmd, ev, objs + [waitOn.value], t, base)
  {
    t := SendReaches(w, base, trb);
    var slot := cmd.PushTrb(trb);
    if slot.None? {
      return None, t;
    }
    var cond := E.Cond(None, Some(base + 16 * slot.value), None);
    assert cond == F.WaitFor(base, w.f.sent) && D.Next(w.f.board, D.Register(cond)) == t.f.board;
    var waiter := D.NewFuture(ev, cond, objs, w.f.board);
    waitOn := Some(waiter);
  }

  /** `EventRing::poll`: delivers the oldest event not yet popped, or does nothing. */
  method PollEvents(cmd: C.CommandRing, ev: E.EventRing, base: u64, ghost objs: seq<E.EventWaitInfo>, ghost w: World)
    requires Shown(cmd, ev, objs, w, base)
    modifies ev, ev.ring, ev.waitList
    ensures Shown(cmd, ev, objs, Polled(w, base), base)
  {
    PollReaches(w, base);
    ghost var board := D.PollRing(ev, objs, w.f.board);
  }
}
