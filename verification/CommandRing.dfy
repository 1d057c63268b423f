/** The producer ring: sixteen TRBs, the last a Link back to the first, ownership passed by the cycle bit. */
module CommandRing {
  import opened Prelude
  import opened Bits
  import opened Trb

  const NUM_TRB: nat := 16

  datatype Ring = Ring(slots: seq<Trb>, index: nat, cycle: bool)

  predicate ValidRing(r: Ring) { |r.slots| == 16 && r.index < 16 }

  /* What the methods compute. */

  /** `advance_index`: hand the current slot over and move on; `None` if it was not ours to hand over. */
  function Advance(r: Ring, newCycle: bool): Option<Ring>
    requires ValidRing(r)
  {
    if Cycle(r.slots[r.index]) == newCycle then None
    else Some(r.(slots := r.slots[r.index := SetCycle(r.slots[r.index], newCycle)], index := (r.index + 1) % 16))
  }

  /** The ring after `push`, and the slot written unless it failed. */
  function Push(r: Ring, src: Trb): (Ring, Option<nat>)
    requires ValidRing(r)
  {
    if Cycle(r.slots[r.index]) != r.cycle then (r, None)
    else
      var written := r.(slots := r.slots[r.index := SetCycle(src, r.cycle)]);
      match Advance(written, !r.cycle)
      case None => (written, None)
      case Some(next) =>
        if TypeOf(next.slots[next.index]) != LINK then (next, Some(r.index))
        else
          match Advance(next, !r.cycle)
          case None => (next, None)
          case Some(wrapped) => (wrapped.(cycle := !r.cycle), Some(r.index))
  }

  /** A new ring: zeroed slots and the Link TRB at the end. */
  function DefaultRing(base: u64): Ring
  {
    Ring(seq(15, _ => Trb(0, 0, 0)) + [LinkTrb(base)], 0, false)
  }

  /** `set_cycle_state`, through the bit-field accessor. */
  method SetCycleState(t: Trb, c: bool) returns (r: Trb)
    ensures r == SetCycle(t, c)
  {
    WriteCycle(t, c);
    var control := WriteBits(32, t.control, 0, 1, if c then 1 else 0);
    r := t.(control := control.value);
  }

  class TrbRing {
    const trb: array<Trb>
    var currentIndex: nat

    ghost predicate Valid()
      reads this
    {
      trb.Length == 16 && currentIndex < 16
    }

    constructor ()
      ensures Valid() && fresh(trb) && currentIndex == 0
      ensures forall i | 0 <= i < 16 :: trb[i] == Trb(0, 0, 0)
    {
      trb := new Trb[16](_ => Trb(0, 0, 0));
      currentIndex := 0;
    }

    method Write(index: nat, t: Trb) returns (ok: bool)
      requires Valid()
      modifies trb
      ensures ok <==> index < 16
      ensures trb[..] == if ok then old(trb[..])[index := t] else old(trb[..])
    {
      ok := index < trb.Length;
      if ok {
        trb[index] := t;
      }
    }

    /** Bit 0 of the current slot. */
    method CurrentCycle() returns (c: bool)
      requires Valid()
      ensures c == Cycle(trb[currentIndex])
    {
      ReadFields(trb[currentIndex]);
      c := ReadBits(trb[currentIndex].control, 0, 1) != 0;
    }

    method CurrentType() returns (n: nat)
      requires Valid()
      ensures n == TypeOf(trb[currentIndex])
    {
      ReadFields(trb[currentIndex]);
      n := ReadBits(trb[currentIndex].control, 10, 6);
    }

    method AdvanceIndex(newCycle: bool) returns (ok: bool)
      requires Valid()
      modifies this, trb
      ensures Valid()
      ensures ok <==> Cycle(old(trb[currentIndex])) != newCycle
      ensures ok ==> trb[..] == old(trb[..])[old(currentIndex) := SetCycle(old(trb[currentIndex]), newCycle)]
      ensures ok ==> currentIndex == (old(currentIndex) + 1) % 16
      ensures !ok ==> trb[..] == old(trb[..]) && currentIndex == old(currentIndex)
    {
      var current := CurrentCycle();
      if current == newCycle {
        return false;
      }
      var t := SetCycleState(trb[currentIndex], newCycle);
      trb[currentIndex] := t;
      currentIndex := (currentIndex + 1) % trb.Length;
      ok := true;
    }

    /** `advance_index_notoggle`: the consumer's step over a slot that carries its cycle. */
    method AdvanceIndexNotoggle(cycleOurs: bool) returns (ok: bool)
      requires Valid()
      modifies this
      ensures Valid()
      ensures ok <==> Cycle(trb[old(currentIndex)]) == cycleOurs
      ensures currentIndex == if ok then (old(currentIndex) + 1) % 16 else old(currentIndex)
    {
      var current := CurrentCycle();
      if current != cycleOurs {
        return false;
      }
      currentIndex := (currentIndex + 1) % trb.Length;
      ok := true;
    }
  }

  /** `GenericTrbEntry::trb_link`. */
  method MakeLink(base: u64) returns (t: Trb)
    ensures t == LinkTrb(base)
  {
    WriteLink(base);
    var control := WriteBits(32, 0, 10, 6, LINK);
    control := WriteBits(32, control.value, 1, 1, 1);
    t := Trb(base, 0, control.value);
  }

  class CommandRing {
    const ring: TrbRing
    var cycleStateOurs: bool

    ghost predicate Valid()
      reads this, ring
    {
      ring.Valid()
    }

    ghost function State(): Ring
      reads this, ring, ring.trb
    {
      Ring(ring.trb[..], ring.currentIndex, cycleStateOurs)
    }

    /** `CommandRing::default` for a ring allocated at `base`. */
    constructor (base: u64)
      ensures Valid() && fresh(ring) && fresh(ring.trb) && State() == DefaultRing(base)
    {
      var r := new TrbRing();
      var link := MakeLink(base);
      var ok := r.Write(NUM_TRB - 1, link);
      ring := r;
      cycleStateOurs := false;
    }

    /** `push`: the slot written, or `None` for either error. */
    method PushTrb(src: Trb) returns (slot: Option<nat>)
      requires Valid()
      modifies this, ring, ring.trb
      ensures Valid()
      ensures (State(), slot) == Push(old(State()), src)
    {
      var current := ring.CurrentCycle();
      if current != cycleStateOurs {
        return None;
      }
      var t := SetCycleState(src, cycleStateOurs);
      var dst := ring.currentIndex;
      var ok := ring.Write(ring.currentIndex, t);
      ok := ring.AdvanceIndex(!cycleStateOurs);
      if !ok {
        return None;
      }
      var kind := ring.CurrentType();
      if kind == LINK {
        ok := ring.AdvanceIndex(!cycleStateOurs);
        if !ok {
          return None;
        }
        cycleStateOurs := !cycleStateOurs;
      }
      slot := Some(dst);
    }
  }
}
