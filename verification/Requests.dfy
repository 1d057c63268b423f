/** Control requests on an endpoint's transfer ring, which is a producer ring like the command ring. A request pushes a
    Setup TRB, a Data TRB if it has data, and a Status TRB, and awaits the event of the second one pushed before the
    next request can start: the Data TRB of a request with data, the Status TRB of one without. */
module Requests {
  import opened Prelude
  import opened Trb
  import opened CommandRing
  import R = RingProtocol

  /** The ring, the TRBs of the current request still to push, and how many TRBs must have been taken by the controller
      before the next request. */
  datatype Caller = Caller(ring: R.Sys, todo: seq<Trb>, awaited: nat)

  datatype Step =
    | Request(trbs: seq<Trb>)
    | Ring(step: R.Step)

  predicate Shape(c: Caller) { ValidRing(c.ring.ring) && c.ring.dequeue < 16 }

  function Next(c: Caller, step: Step, base: u64): (t: Caller)
    requires Shape(c)
    ensures Shape(t)
  {
    match step
    case Request(trbs) => c.(todo := trbs, awaited := |c.ring.pushed| + 2)
    case Ring(x) =>
      c.(ring := R.Next(c.ring, x, base), todo := if x.Begin? && c.todo != [] then c.todo[1..] else c.todo)
  }

  /** A request has two or three stages, none a Link TRB, and starts when the event of the last one has come, so the
      controller has taken the TRB awaited. Pushes take the stages in order. No bound on the ring is asked for. */
  ghost predicate Enabled(c: Caller, step: Step)
    requires Shape(c)
  {
    match step
    case Request(trbs) =>
      c.todo == [] && c.ring.pc.Idle? && c.awaited <= |c.ring.consumed| && 2 <= |trbs| <= 3 && R.NoLinks(trbs)
    case Ring(x) =>
      (match x
       case Begin(src) => c.ring.pc.Idle? && c.todo != [] && src == c.todo[0]
       case _ => R.Enabled(c.ring, x))
  }

  function Start(base: u64): Caller { Caller(R.Start(base), [], 0) }

  /** TRBs pushed or being pushed. */
  function Begun(c: Caller): nat { |c.ring.pushed| + if c.ring.pc.Storing? || c.ring.pc.Publishing? then 1 else 0 }

  /** At most one stage lies behind the awaited one, and at most three TRBs up to that one are not yet taken. */
  ghost predicate Inv(c: Caller, base: u64)
  {
    && R.Inv(c.ring, base) && R.NoLinks(c.todo)
    && Begun(c) + |c.todo| <= c.awaited + 1 && c.awaited <= |c.ring.consumed| + 3
  }

  /** So the ring's own bound holds whenever a push starts. */
  lemma {:induction false} BeginAllowed(c: Caller, base: u64)
    requires Inv(c, base) && c.ring.pc.Idle? && c.todo != []
    ensures R.Enabled(c.ring, R.Begin(c.todo[0])) && |c.ring.pushed| - |c.ring.consumed| <= 3
  {
  }

  /** What a step of the ring adds to the counts. */
  lemma {:induction false} RingCounts(s: R.Sys, x: R.Step, base: u64)
    requires R.Inv(s, base) && R.Enabled(s, x) && !x.Begin?
    ensures var t := R.Next(s, x, base);
            && |s.consumed| <= |t.consumed|
            && |t.pushed| + (if t.pc.Storing? || t.pc.Publishing? then 1 else 0)
               <= |s.pushed| + if s.pc.Storing? || s.pc.Publishing? then 1 else 0
  {
    match x
    case Store(_) =>
    case Publish => R.PublishIs(s, base);
    case FlipLink => R.FlipLinkKeeps(s, base);
    case Fetch => R.FetchIs(s, base);
  }

  lemma {:induction false} BeginCounts(s: R.Sys, src: Trb, base: u64)
    requires R.Inv(s, base) && R.Enabled(s, R.Begin(src))
    ensures var t := R.Next(s, R.Begin(src), base);
            t.pc.Storing? && t.pushed == s.pushed && t.consumed == s.consumed
  {
    R.BeginKeeps(s, src, base);
  }

  lemma {:induction false} StepKeeps(c: Caller, step: Step, base: u64)
    requires Inv(c, base) && Enabled(c, step)
    ensures Inv(Next(c, step, base), base)
  {
    match step
    case Request(trbs) =>
    case Ring(x) =>
      if x.Begin? {
        BeginAllowed(c, base);
        BeginCounts(c.ring, x.src, base);
      } else {
        RingCounts(c.ring, x, base);
      }
      R.StepKeeps(c.ring, x, base);
  }

  ghost function Run(base: u64, steps: seq<Step>): (c: Caller)
    ensures Shape(c)
  {
    if steps == [] then Start(base) else Next(Run(base, steps[..|steps| - 1]), steps[|steps| - 1], base)
  }

  ghost predicate Legal(base: u64, steps: seq<Step>)
  {
    steps == [] || (Legal(base, steps[..|steps| - 1]) && Enabled(Run(base, steps[..|steps| - 1]), steps[|steps| - 1]))
  }

  lemma {:induction false} RunInv(base: u64, steps: seq<Step>)
    requires Legal(base, steps)
    ensures Inv(Run(base, steps), base)
  {
    if steps == [] {
      R.StartInv(base);
    } else {
      RunInv(base, steps[..|steps| - 1]);
      StepKeeps(Run(base, steps[..|steps| - 1]), steps[|steps| - 1], base);
    }
  }

  /** In every run of control requests, however the controller interleaves, at most four TRBs are outstanding, the one
      being pushed included; so no push fails and the controller takes what was pushed, in order and whole. */
  lemma {:induction false} RequestsInOrder(base: u64, steps: seq<Step>)
    requires Legal(base, steps)
    ensures var c := Run(base, steps);
            && Begun(c) - |c.ring.consumed| <= 4
            && !c.ring.pc.Failed? && R.InOrder(c.ring)
  {
    RunInv(base, steps);
  }
}
