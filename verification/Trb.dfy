/** Transfer request blocks (xHCI 1.2, section 6.4) and the fields the rings look at. */
module Trb {
  import opened Prelude
  import opened Bits

  datatype Trb = Trb(data: u64, option: u32, control: u32)

  const LINK: nat := 6

  /** Bit 0 of the control word. */
  predicate Cycle(t: Trb) { t.control % 2 == 1 }

  /** Bit 1 of the control word of a Link TRB. */
  predicate Toggle(t: Trb) { (t.control / 2) % 2 == 1 }

  /** Bits 10 to 15 of the control word. */
  function TypeOf(t: Trb): nat { (t.control / 1024) % 64 }

  /** Bits 24 to 31 of the control word. */
  function SlotId(t: Trb): nat { t.control / 0x100_0000 }

  function SetCycle(t: Trb, c: bool): Trb
  {
    t.(control := t.control - t.control % 2 + if c then 1 else 0)
  }

  lemma {:induction false} HalvesAlike(q: nat, m: nat, b: nat)
    requires m < 512 && b < 2
    ensures var x := 1024 * q + 2 * m + b;
            x % 2 == b && x / 2 == 512 * q + m && x / 1024 == q
  {
  }

  /** Only bit 0 differs between a word and the same word with bit 0 set to `b`. */
  lemma {:induction false} BitZero(x: nat, b: nat)
    requires b < 2
    ensures var y := x - x % 2 + b;
            y % 2 == b && y / 2 == x / 2 && y - y % 2 == x - x % 2 && y / 1024 == x / 1024
  {
    var q, r := x / 1024, x % 1024;
    var m, c := r / 2, r % 2;
    assert x == 1024 * q + 2 * m + c;
    HalvesAlike(q, m, c);
    HalvesAlike(q, m, b);
  }

  lemma {:induction false} CycleLaws(t: Trb, c: bool, d: bool)
    ensures Cycle(SetCycle(t, c)) == c && TypeOf(SetCycle(t, c)) == TypeOf(t) && Toggle(SetCycle(t, c)) == Toggle(t)
    ensures SetCycle(SetCycle(t, c), d) == SetCycle(t, d) && SetCycle(t, Cycle(t)) == t
  {
    BitZero(t.control, if c then 1 else 0);
  }

  /** `cycle_state`, `trb_type` and `slot_id` read their field through shift and mask. */
  lemma {:induction false} ReadFields(t: Trb)
    ensures ReadBits(t.control, 0, 1) == t.control % 2
    ensures ReadBits(t.control, 10, 6) == TypeOf(t)
    ensures ReadBits(t.control, 24, 8) == SlotId(t)
  {
    ReadLowest(t.control);
    ReadKind(t.control);
    ReadSlot(t.control);
  }

  lemma {:induction false} ReadLowest(x: u32)
    ensures ReadBits(x, 0, 1) == x % 2
  {
    Powers();
    ReadBitsMeaning(x, 0, 1);
    assert Pow2(0) == 1;
  }

  lemma {:induction false} ReadKind(x: u32)
    ensures ReadBits(x, 10, 6) == (x / 1024) % 64
  {
    Powers();
    ReadBitsMeaning(x, 10, 6);
  }

  lemma {:induction false} ReadSlot(x: u32)
    ensures ReadBits(x, 24, 8) == x / 0x100_0000
  {
    Powers();
    ReadBitsMeaning(x, 24, 8);
  }

  /** `set_cycle_state` writes bit 0 and nothing else, and its `unwrap` cannot fail. */
  lemma {:induction false} WriteCycle(t: Trb, c: bool)
    ensures WriteBits(32, t.control, 0, 1, if c then 1 else 0) == Written(SetCycle(t, c).control)
  {
    Powers();
    var v := if c then 1 else 0;
    WriteBitsMeaning(32, t.control, 0, 1, v);
    ShiftIsDivision(t.control, 1);
    ShiftIsDivision(Parts(Shr(t.control, 1), v, 0, 0, 1), 1);
  }

  /** `GenericTrbEntry::trb_link`: type Link, toggle cycle, pointing to the ring; cycle bit clear. */
  function LinkTrb(base: u64): Trb { Trb(base, 0, LINK * 1024 + 2) }

  lemma {:induction false} WriteType()
    ensures WriteBits(32, 0, 10, 6, 6) == Written(6144)
  {
    Powers();
    WriteBitsMeaning(32, 0, 10, 6, 6);
    assert Shl(6, 10) == 6144;
    ShiftIsDivision(0, 16);
    ShlZero(16);
  }

  lemma {:induction false} WriteToggle()
    ensures WriteBits(32, 6144, 1, 1, 1) == Written(6146)
  {
    Powers();
    WriteBitsMeaning(32, 6144, 1, 1, 1);
    ShiftIsDivision(6144, 2);
    assert Pow2(2) == 4 && Shl(1536, 2) == 6144 && Shl(1, 1) == 2;
  }

  lemma {:induction false} WriteLink(base: u64)
    ensures WriteBits(32, 0, 10, 6, LINK) == Written(LINK * 1024)
    ensures WriteBits(32, LINK * 1024, 1, 1, 1) == Written(LinkTrb(base).control)
  {
    WriteType();
    WriteToggle();
  }

  /** What a controller reads in it: type 6 (xHCI 1.2, section 6.4.6), toggle set, cycle clear, the ring's address. */
  lemma {:induction false} LinkFields(base: u64)
    ensures var t := LinkTrb(base);
            && t.data == base && ReadBits(t.control, 10, 6) == 6 && ReadBits(t.control, 1, 1) == 1
            && ReadBits(t.control, 0, 1) == 0
  {
    ReadFields(LinkTrb(base));
    ReadToggle(LinkTrb(base).control);
  }

  lemma {:induction false} ReadToggle(x: u32)
    ensures ReadBits(x, 1, 1) == (x / 2) % 2
  {
    Powers();
    ReadBitsMeaning(x, 1, 1);
  }
}
