/** Commands end to end: `send_command` pushes a TRB, rings the doorbell and registers a waiter for the TRB's address;
    the controller executes commands in order and posts completion events; `poll` hands events to waiters. Slots are
    reused every fifteen commands, so addresses are too: the waiter of a command could be woken by an earlier command's
    completion. The driver never polls between push and registration, because no await separates them; the controller
    does what it likes in between. */
module CommandFlow {
  import opened Prelude
  import opened Trb
  import opened EventRing
  import D = Delivery
  import opened Laps

  /** Event kinds (xHCI 1.2, section 6.4.2): the completion of a command, a transfer event for a TRB of some other ring,
      a port status change, or an event that carries no pointer. */
  datatype Kind = Completion(command: nat) | Transfer | PortChange(port: nat) | Plain

  datatype Ev = Ev(trb: Trb, kind: Kind)

  /** What the controller posts next, as far as it has a choice. */
  datatype Posted =
    | Complete(option: u32, control: u32)
    | TransferDone(trb: Trb)
    | PortChanged(port: nat, option: u32, control: u32)
    | Notice(option: u32, control: u32)

  datatype Flow = Flow(sent: nat, registering: bool, executed: nat, posted: seq<Ev>, board: D.Board)

  datatype Step =
    | Push
    | Register
    | Post(what: Posted)
    | Poll
    | Take(command: nat)
    | Drop(command: nat)

  /** Rings are page-aligned and never in page 0. */
  predicate GoodBase(base: u64) { base % 4096 == 0 && 4096 <= base && base + 256 < WORD_LIMIT }

  /** Address of the slot the `n`-th command is pushed to. */
  function Address(base: u64, n: nat): u64
    requires GoodBase(base)
  {
    base + 16 * (n % 15)
  }

  /** A port status change carries its port number in bits 24 to 31 of the data word, where other events have a
      pointer. */
  function PortData(port: nat): nat { port * 0x100_0000 }

  predicate IsPort(port: nat) { 1 <= port <= 255 }

  /** Outside the sixteen TRBs of the command ring. */
  predicate Outside(base: u64, data: u64) { data < base || base + 256 <= data }

  /** The ring stands where a port status change seems to point: a caller can tell from the address. */
  predicate Clash(base: u64) { base % 0x100_0000 == 0 && IsPort(base / 0x100_0000) }

  /** The event a choice stands for. */
  function EventOf(f: Flow, what: Posted, base: u64): Ev
    requires GoodBase(base)
  {
    match what
    case Complete(option, control) => Ev(Trb(Address(base, f.executed), option, control), Completion(f.executed))
    case TransferDone(t) => Ev(t, Transfer)
    case PortChanged(port, option, control) =>
      Ev(Trb(if IsPort(port) then PortData(port) else 0, option, control), PortChange(port))
    case Notice(option, control) => Ev(Trb(0, option, control), Plain)
  }

  /** Completions among the events. */
  function Completions(evs: seq<Ev>): nat
  {
    if evs == [] then 0 else Completions(evs[..|evs| - 1]) + if evs[|evs| - 1].kind.Completion? then 1 else 0
  }

  function Polled(f: Flow): nat { |f.board.popped| }

  function WaitFor(base: u64, n: nat): Cond
    requires GoodBase(base)
  {
    Cond(None, Some(Address(base, n)), None)
  }

  function Next(f: Flow, step: Step, base: u64): Flow
    requires GoodBase(base)
  {
    match step
    case Push => f.(sent := f.sent + 1, registering := true)
    case Register =>
      if f.sent == 0 then f
      else f.(registering := false, board := D.Next(f.board, D.Register(WaitFor(base, f.sent - 1))))
    case Post(what) =>
      f.(executed := if what.Complete? then f.executed + 1 else f.executed,
         posted := f.posted + [EventOf(f, what, base)])
    case Poll => if Polled(f) < |f.posted| then f.(board := D.Next(f.board, D.Event(f.posted[Polled(f)].trb))) else f
    case Take(n) => f.(board := D.Next(f.board, D.Take(n)))
    case Drop(n) => f.(board := D.Next(f.board, D.Drop(n)))
  }

  /** The driver pushes only while fewer than 14 commands wait for their completion to be popped, and polls only between
      sends; the controller completes what was pushed, and posts any other events it has cause for. */
  predicate Enabled(f: Flow, step: Step, base: u64)
    requires GoodBase(base)
  {
    match step
    case Push => !f.registering && Polled(f) <= |f.posted| && f.sent - Completions(f.posted[..Polled(f)]) <= 13
    case Register => f.registering
    case Post(what) =>
      (match what
       case Complete(_, _) => f.executed < f.sent
       case TransferDone(t) => Outside(base, t.data)
       case PortChanged(port, _, _) => IsPort(port)
       case Notice(_, _) => true)
    case Poll => !f.registering
    case Take(n) => !f.registering
    case Drop(n) => !f.registering
  }

  /* Events in order. */

  /** What an event's data word is, by its kind; `done` completions came before it. */
  predicate Proper(base: u64, e: Ev, done: nat)
    requires GoodBase(base)
  {
    match e.kind
    case Completion(n) => n == done && e.trb.data == Address(base, n)
    case Transfer => Outside(base, e.trb.data)
    case PortChange(port) => IsPort(port) && e.trb.data == PortData(port)
    case Plain => e.trb.data == 0
  }

  /** Completions come in command order, and every event carries what its kind says. */
  ghost predicate Ordered(base: u64, evs: seq<Ev>)
    requires GoodBase(base)
  {
    forall j: nat {:trigger Nth(j)} | Nth(j) && j < |evs| :: Proper(base, evs[j], Completions(evs[..j]))
  }

  /** A port status change names a slot of the ring exactly if the ring stands at that address. */
  lemma {:induction false} PortNamesSlot(base: u64, port: nat)
    requires GoodBase(base) && IsPort(port)
    ensures (exists n: nat :: Address(base, n) == PortData(port)) <==> base == PortData(port)
  {
    if n: nat :| Address(base, n) == PortData(port) {
      PageOfSum(base / 4096, 16 * (n % 15), port * 4096);
    }
    if base == PortData(port) { assert Address(base, 0) == PortData(port); }
  }

  lemma {:induction false} PageOfSum(p: nat, r: nat, q: nat)
    requires r < 4096 && 4096 * p + r == 4096 * q
    ensures r == 0
  {
  }

  lemma {:induction false} ClashIffPort(base: u64)
    ensures Clash(base) <==> exists port: nat :: IsPort(port) && base == PortData(port)
  {
    if Clash(base) { assert IsPort(base / 0x100_0000) && base == PortData(base / 0x100_0000); }
  }

  /** Away from such addresses, only completions name a slot. */
  lemma {:induction false} OthersMiss(base: u64, e: Ev, done: nat, n: nat)
    requires GoodBase(base) && !Clash(base) && Proper(base, e, done) && !e.kind.Completion?
    ensures e.trb.data != Address(base, n)
  {
    if e.kind.PortChange? {
      PortNamesSlot(base, e.kind.port);
      ClashIffPort(base);
    }
  }

  function Trbs(evs: seq<Ev>): seq<Trb>
  {
    seq(|evs|, i requires 0 <= i < |evs| => evs[i].trb)
  }

  lemma {:induction false} CompletionsMonotone(evs: seq<Ev>, i: nat, j: nat)
    requires i <= j <= |evs|
    ensures Completions(evs[..i]) <= Completions(evs[..j])
    decreases j
  {
    if i < j {
      assert evs[..j][..j - 1] == evs[..j - 1];
      CompletionsMonotone(evs, i, j - 1);
    }
  }

  /** If at registration at least the completions up to `n - 14` and at most those before `n` had been popped, the first
      event with the address of command `n` popped after it is the completion of command `n`. */
  lemma {:induction false} FirstIsOwn(base: u64, evs: seq<Ev>, since: nat, n: nat)
    requires GoodBase(base) && !Clash(base) && Ordered(base, evs) && since <= |evs|
    requires n - 13 <= Completions(evs[..since]) <= n
    ensures Answered(evs, since, n, D.Selected(Trbs(evs)[since..], WaitFor(base, n)))
    decreases |evs|
  {
    if since == |evs| {
      assert evs[..since] == evs;
      assert Trbs(evs)[since..] == [];
    } else {
      var k := |evs| - 1;
      assert evs[..k][..since] == evs[..since];
      OrderedPrefix(base, evs, k);
      FirstIsOwn(base, evs[..k], since, n);
      OneEventOn(base, evs, since, n);
    }
  }

  /** One more event, given what was selected before it. */
  lemma {:induction false} OneEventOn(base: u64, evs: seq<Ev>, since: nat, n: nat)
    requires GoodBase(base) && !Clash(base) && Ordered(base, evs) && since < |evs|
    requires n - 13 <= Completions(evs[..since]) <= n
    requires var k := |evs| - 1;
             Answered(evs[..k], since, n, D.Selected(Trbs(evs[..k])[since..], WaitFor(base, n)))
    ensures Answered(evs, since, n, D.Selected(Trbs(evs)[since..], WaitFor(base, n)))
  {
    var k := |evs| - 1;
    var was := D.Selected(Trbs(evs[..k])[since..], WaitFor(base, n));
    assert Trbs(evs) == Trbs(evs[..k]) + [evs[k].trb];
    D.SelectedNext(Trbs(evs[..k]), since, evs[k].trb, WaitFor(base, n));
    OneMore(base, evs, since, n);
    AnsweredNext(evs, since, n, was, Share(true, WaitFor(base, n), evs[k].trb));
  }

  lemma {:induction false} AnsweredNext(evs: seq<Ev>, since: nat, n: nat, was: seq<Trb>, more: seq<Trb>)
    requires since < |evs| && Answered(evs[..|evs| - 1], since, n, was)
    requires var k := |evs| - 1;
             && (Completions(evs[..k]) < n ==> more == [])
             && (Completions(evs[..k]) == n ==> more == if evs[k].kind.Completion? then [evs[k].trb] else [])
             && (Completions(evs[..k]) == n && evs[k].kind.Completion? ==> evs[k].kind == Completion(n))
    ensures Answered(evs, since, n, was + more)
  {
    var k := |evs| - 1;
    if Completions(evs[..k]) > n {
      var j :| since <= j < k && evs[..k][j].kind == Completion(n) && was[0] == evs[..k][j].trb;
      assert evs[j].kind == Completion(n) && (was + more)[0] == evs[j].trb;
    } else if Completions(evs) > n {
      assert evs[k].kind == Completion(n) && (was + more)[0] == evs[k].trb;
    }
  }

  /** What a future of command `n` got: nothing before the completion of `n`, which then comes first. */
  ghost predicate Answered(evs: seq<Ev>, since: nat, n: nat, got: seq<Trb>)
  {
    if Completions(evs) <= n then got == []
    else got != [] && exists j :: since <= j < |evs| && evs[j].kind == Completion(n) && got[0] == evs[j].trb
  }

  lemma {:induction false} OrderedPrefix(base: u64, evs: seq<Ev>, k: nat)
    requires GoodBase(base) && Ordered(base, evs) && k <= |evs|
    ensures Ordered(base, evs[..k])
  {
    forall j: nat | j < k ensures Proper(base, evs[..k][j], Completions(evs[..k][..j])) {
      assert Nth(j) && evs[..k][j] == evs[j] && evs[..k][..j] == evs[..j];
    }
  }

  /** The last event is selected for command `n` only if it completes `n` or a later command. */
  lemma {:induction false} OneMore(base: u64, evs: seq<Ev>, since: nat, n: nat)
    requires GoodBase(base) && !Clash(base) && Ordered(base, evs) && since < |evs|
    requires n - 13 <= Completions(evs[..since]) <= n
    ensures var k := |evs| - 1;
            && (Completions(evs[..k]) < n ==> !Matches(WaitFor(base, n), evs[k].trb))
            && (Completions(evs[..k]) == n ==> (Matches(WaitFor(base, n), evs[k].trb) <==> evs[k].kind.Completion?))
            && (Completions(evs[..k]) == n && evs[k].kind.Completion? ==> evs[k].kind == Completion(n))
  {
    var k := |evs| - 1;
    var e, m := evs[k], Completions(evs[..k]);
    CompletionsMonotone(evs, since, k);
    assert Nth(k) && Proper(base, e, m);
    if e.kind.Completion? {
      if m < n { SlotsApart(15, m, n); }
    } else {
      OthersMiss(base, e, m, n);
    }
  }

  /* Runs. */

  /** Registered in time: of the completions popped before, none is this command's, and any with its address is past. */
  ghost predicate InTime(f: Flow, since: nat, n: nat)
  {
    since <= Polled(f) <= |f.posted| && n - 13 <= Completions(f.posted[..since]) <= n
  }

  ghost predicate WaitersOk(f: Flow, base: u64)
    requires GoodBase(base)
  {
    && |f.board.waiters| == (if f.registering then f.sent - 1 else f.sent)
    && (forall n {:trigger f.board.waiters[n]} | 0 <= n < |f.board.waiters| ::
          f.board.waiters[n].cond == WaitFor(base, n) && InTime(f, f.board.waiters[n].since, n))
    && (f.registering ==> InTime(f, Polled(f), f.sent - 1))
  }

  ghost predicate Inv(f: Flow, base: u64)
    requires GoodBase(base)
  {
    && D.Inv(f.board)
    && Polled(f) <= |f.posted| && f.board.popped == Trbs(f.posted[..Polled(f)])
    && f.executed == Completions(f.posted) <= f.sent && Ordered(base, f.posted)
    && (f.registering ==> f.sent > 0)
    && WaitersOk(f, base)
  }

  lemma {:induction false} PushKeeps(f: Flow, base: u64)
    requires GoodBase(base) && Inv(f, base) && Enabled(f, Push, base)
    ensures Inv(Next(f, Push, base), base)
  {
    CompletionsMonotone(f.posted, Polled(f), |f.posted|);
    assert f.posted[..|f.posted|] == f.posted;
  }

  lemma {:induction false} RegisterKeeps(f: Flow, base: u64)
    requires GoodBase(base) && Inv(f, base) && f.registering
    ensures Inv(Next(f, Register, base), base)
  {
    D.OtherKeeps(f.board, D.Register(WaitFor(base, f.sent - 1)));
  }

  lemma {:induction false} PostKeeps(f: Flow, what: Posted, base: u64)
    requires GoodBase(base) && Inv(f, base) && Enabled(f, Post(what), base)
    ensures Inv(Next(f, Post(what), base), base)
  {
    var g, e := Next(f, Post(what), base), EventOf(f, what, base);
    assert (f.posted + [e])[..|f.posted|] == f.posted;
    OrderedNext(base, f.posted, e);
    EventPosted(f, g, base);
  }

  lemma {:induction false} EventPosted(f: Flow, g: Flow, base: u64)
    requires GoodBase(base) && Inv(f, base) && f.posted <= g.posted && Ordered(base, g.posted)
    requires g == f.(posted := g.posted, executed := g.executed) && g.executed == Completions(g.posted) <= g.sent
    ensures Inv(g, base)
  {
    assert g.posted[..Polled(f)] == f.posted[..Polled(f)];
    PostedGrows(f, g, base);
  }

  lemma {:induction false} PostedGrows(f: Flow, g: Flow, base: u64)
    requires GoodBase(base) && WaitersOk(f, base) && f.posted <= g.posted
    requires g.board == f.board && g.sent == f.sent && g.registering == f.registering
    ensures WaitersOk(g, base)
  {
    forall i: nat | i <= |f.posted| ensures g.posted[..i] == f.posted[..i] {}
  }

  lemma {:induction false} OrderedNext(base: u64, evs: seq<Ev>, e: Ev)
    requires GoodBase(base) && Ordered(base, evs) && Proper(base, e, Completions(evs))
    ensures Ordered(base, evs + [e])
  {
    var fs := evs + [e];
    forall j: nat | j < |fs| ensures Proper(base, fs[j], Completions(fs[..j])) {
      assert Nth(j) && fs[..j] == evs[..j];
      assert j == |evs| ==> evs[..j] == evs;
    }
  }

  lemma {:induction false} PollKeeps(f: Flow, base: u64)
    requires GoodBase(base) && Inv(f, base) && !f.registering
    ensures Inv(Next(f, Poll, base), base)
  {
    var k := Polled(f);
    if k < |f.posted| {
      var g := Next(f, Poll, base);
      D.EventKeeps(f.board, f.posted[k].trb);
      assert Trbs(f.posted[..k + 1]) == Trbs(f.posted[..k]) + [f.posted[k].trb];
      SameWaiters(f, g, base);
    }
  }

  /** Popping, taking and dropping change neither conditions nor registration times. */
  lemma {:induction false} SameWaiters(f: Flow, g: Flow, base: u64)
    requires GoodBase(base) && WaitersOk(f, base) && !f.registering && !g.registering && g.sent == f.sent
    requires g.posted == f.posted && Polled(f) <= Polled(g) <= |g.posted|
    requires |g.board.waiters| == |f.board.waiters|
    requires forall n | 0 <= n < |f.board.waiters| ::
               && g.board.waiters[n].cond == f.board.waiters[n].cond
               && g.board.waiters[n].since == f.board.waiters[n].since
    ensures WaitersOk(g, base)
  {
  }

  lemma {:induction false} FutureKeeps(f: Flow, step: Step, base: u64)
    requires GoodBase(base) && Inv(f, base) && !f.registering && (step.Take? || step.Drop?)
    ensures Inv(Next(f, step, base), base)
  {
    D.OtherKeeps(f.board, if step.Take? then D.Take(step.command) else D.Drop(step.command));
    SameWaiters(f, Next(f, step, base), base);
  }

  function Start(): Flow { Flow(0, false, 0, [], D.Board([], [], [])) }

  ghost function Run(base: u64, steps: seq<Step>): Flow
    requires GoodBase(base)
  {
    if steps == [] then Start() else Next(Run(base, steps[..|steps| - 1]), steps[|steps| - 1], base)
  }

  ghost predicate Legal(base: u64, steps: seq<Step>)
    requires GoodBase(base)
  {
    steps == []
    || (Legal(base, steps[..|steps| - 1]) && Enabled(Run(base, steps[..|steps| - 1]), steps[|steps| - 1], base))
  }

  lemma {:induction false} RunInv(base: u64, steps: seq<Step>)
    requires GoodBase(base) && Legal(base, steps)
    ensures Inv(Run(base, steps), base)
  {
    if steps != [] {
      var f, step := Run(base, steps[..|steps| - 1]), steps[|steps| - 1];
      RunInv(base, steps[..|steps| - 1]);
      match step
      case Push => PushKeeps(f, base);
      case Register => RegisterKeeps(f, base);
      case Post(what) => PostKeeps(f, what, base);
      case Poll => PollKeeps(f, base);
      case Take(_) => FutureKeeps(f, step, base);
      case Drop(_) => FutureKeeps(f, step, base);
    }
  }

  /** The future of command `n` has received nothing until the completion of command `n` has been popped, and what it
      then gets first is that completion. */
  ghost predicate AnsweredIn(f: Flow, n: nat)
    requires n < |f.board.waiters|
  {
    var w := f.board.waiters[n];
    w.since <= Polled(f) <= |f.posted| && Answered(f.posted[..Polled(f)], w.since, n, w.taken + w.queue)
  }

  lemma {:induction false} InvAnswers(f: Flow, base: u64, n: nat)
    requires GoodBase(base) && Inv(f, base) && !Clash(base)
    requires n < |f.board.waiters| && f.board.waiters[n].held
    ensures AnsweredIn(f, n)
  {
    var w, seen := f.board.waiters[n], f.posted[..Polled(f)];
    assert D.Exact(f.board, w) && InTime(f, w.since, n);
    assert seen[..w.since] == f.posted[..w.since];
    OrderedPrefix(base, f.posted, Polled(f));
    FirstIsOwn(base, seen, w.since, n);
  }

  /** Unless the ring stands where a port status change seems to point, no command ever gets another event's answer, in
      any run. */
  lemma {:induction false} AnswersMatch(base: u64, steps: seq<Step>, n: nat)
    requires GoodBase(base) && Legal(base, steps) && !Clash(base)
    requires n < |Run(base, steps).board.waiters| && Run(base, steps).board.waiters[n].held
    ensures AnsweredIn(Run(base, steps), n)
  {
    RunInv(base, steps);
    InvAnswers(Run(base, steps), base, n);
  }

  /** A command is sent, and before it completes the port changes its status. */
  function PortRun(port: nat, control: u32): seq<Step>
  {
    [Push, Register, Post(PortChanged(port, 0, control)), Poll]
  }

  /** The state after it. */
  function AfterPort(base: u64, port: nat, control: u32): Flow
    requires GoodBase(base)
  {
    Next(Next(Next(Next(Start(), Push, base), Register, base), Post(PortChanged(port, 0, control)), base), Poll, base)
  }

  lemma {:induction false} PortRunIs(base: u64, port: nat, control: u32)
    requires GoodBase(base) && IsPort(port)
    ensures Legal(base, PortRun(port, control)) && Run(base, PortRun(port, control)) == AfterPort(base, port, control)
  {
    var steps := PortRun(port, control);
    OneStepOn(base, [], Push);
    assert [] + [Push] == [Push];
    OneStepOn(base, [Push], Register);
    assert [Push] + [Register] == [Push, Register];
    OneStepOn(base, [Push, Register], steps[2]);
    assert [Push, Register] + [steps[2]] == [Push, Register, steps[2]];
    OneStepOn(base, [Push, Register, steps[2]], Poll);
    assert [Push, Register, steps[2]] + [Poll] == steps;
  }

  lemma {:induction false} OneStepOn(base: u64, steps: seq<Step>, step: Step)
    requires GoodBase(base) && Legal(base, steps)
    ensures Run(base, steps + [step]) == Next(Run(base, steps), step, base)
    ensures Enabled(Run(base, steps), step, base) ==> Legal(base, steps + [step])
  {
    assert (steps + [step])[..|steps|] == steps;
  }

  /** If it does stand there, the first command's future takes the port's event for its answer. */
  lemma {:induction false} PortAnswers(base: u64, port: nat, control: u32)
    requires GoodBase(base) && IsPort(port) && base == PortData(port)
    ensures var f := AfterPort(base, port, control);
            && |f.board.waiters| == 1 && f.board.waiters[0].held && !AnsweredIn(f, 0)
            && f.board.waiters[0].queue == [Trb(PortData(port), 0, control)]
  {
    var g := Next(Next(Next(Start(), Push, base), Register, base), Post(PortChanged(port, 0, control)), base);
    var e := Trb(PortData(port), 0, control);
    assert g.posted == [Ev(e, PortChange(port))];
    assert Matches(WaitFor(base, 0), e);
    assert Completions(g.posted[..0]) == 0;
  }

  /** Commands get their own answers in every run exactly if the ring stands clear of the ports. */
  lemma {:induction false} AnswersIff(base: u64)
    requires GoodBase(base)
    ensures (forall steps: seq<Step>, n: nat | Legal(base, steps) && n < |Run(base, steps).board.waiters|
                                               && Run(base, steps).board.waiters[n].held ::
               AnsweredIn(Run(base, steps), n))
       <==> !Clash(base)
  {
    if Clash(base) {
      ClashIffPort(base);
      var port: nat :| IsPort(port) && base == PortData(port);
      PortRunIs(base, port, 1);
      PortAnswers(base, port, 1);
      assert !AnsweredIn(Run(base, PortRun(port, 1)), 0);
    } else {
      forall steps: seq<Step>, n: nat | Legal(base, steps) && n < |Run(base, steps).board.waiters|
                                        && Run(base, steps).board.waiters[n].held
        ensures AnsweredIn(Run(base, steps), n)
      {
        AnswersMatch(base, steps, n);
      }
    }
  }
}
