/** The HPET as a clock. */
module Hpet {
  import opened Prelude
  import opened Bits

  /** `Hpet::new`: counts per second from the period in femtoseconds, which the device reports in 32 bits. */
  function Frequency(period: nat): nat
    requires 0 < period < 0x1_0000_0000
  {
    1_000_000_000_000_000 / period
  }

  /** Nanoseconds of `count` ticks, computed in 128 bits. */
  function Nanoseconds(count: nat, freq: nat): nat
    requires freq > 0
  {
    count * 1_000_000_000 / freq
  }

  /** `global_timestamp`: the nanoseconds cut to 64 bits. */
  function Timestamp(count: u64, freq: nat): nat
    requires freq > 0
  {
    Nanoseconds(count, freq) % 0x1_0000_0000_0000_0000
  }

  lemma {:induction false} FrequencyBounds(period: nat)
    requires 0 < period < 0x1_0000_0000
    ensures Frequency(period) > 0
    ensures Frequency(period) * period <= 1_000_000_000_000_000 < (Frequency(period) + 1) * period
  {
    var f := Frequency(period);
    assert 1_000_000_000_000_000 == f * period + 1_000_000_000_000_000 % period;
    assert (f + 1) * period == f * period + period;
  }

  lemma {:induction false} DivisionBounds(a: nat, d: nat)
    requires d > 0
    ensures (a / d) * d <= a < (a / d) * d + d
  {
  }

  lemma {:induction false} DivisionOrder(a: nat, b: nat, d: nat)
    requires d > 0 && a <= b
    ensures a / d <= b / d
  {
    DivisionBounds(a, d);
    DivisionBounds(b, d);
    if b / d < a / d {
      MulMonotone(b / d + 1, a / d, d);
      assert false;
    }
  }

  lemma {:induction false} NanosecondsMonotone(c: nat, c': nat, freq: nat)
    requires freq > 0 && c <= c'
    ensures Nanoseconds(c, freq) <= Nanoseconds(c', freq)
  {
    DivisionOrder(c * 1_000_000_000, c' * 1_000_000_000, freq);
  }

  /** The cut loses nothing exactly while the nanoseconds fit 64 bits, which is more than 584 years. */
  lemma {:induction false} TimestampExact(count: u64, freq: nat)
    requires freq > 0
    ensures Timestamp(count, freq) == Nanoseconds(count, freq) <==> Nanoseconds(count, freq) < WORD_LIMIT
  {
    CutExact(Nanoseconds(count, freq));
  }

  lemma {:induction false} CutExact(n: nat)
    ensures n % 0x1_0000_0000_0000_0000 == n <==> n < WORD_LIMIT
  {
  }

  /** Up to then the clock never runs backwards. */
  lemma {:induction false} ClockMonotone(c: u64, c': u64, freq: nat)
    requires freq > 0 && c <= c' && Nanoseconds(c', freq) < WORD_LIMIT
    ensures Timestamp(c, freq) <= Timestamp(c', freq)
  {
    NanosecondsMonotone(c, c', freq);
    TimestampExact(c, freq);
    TimestampExact(c', freq);
  }

  /** One tick is at most a second. */
  lemma {:induction false} OneTick(c: nat, freq: nat)
    requires freq > 0
    ensures Nanoseconds(c + 1, freq) <= Nanoseconds(c, freq) + 1_000_000_000
  {
    var a := c * 1_000_000_000;
    assert (c + 1) * 1_000_000_000 == a + 1_000_000_000;
    DivisionBounds(a, freq);
    DivisionBounds(a + 1_000_000_000, freq);
    QuotientStep(a / freq, (a + 1_000_000_000) / freq, freq);
  }

  lemma {:induction false} QuotientStep(q: nat, q': nat, freq: nat)
    requires freq > 0 && q' * freq < q * freq + freq + 1_000_000_000
    ensures q' <= q + 1_000_000_000
  {
    assert (q + 1_000_000_001) * freq == q * freq + freq + 1_000_000_000 * freq;
    if q' > q + 1_000_000_000 {
      MulMonotone(q + 1_000_000_001, q', freq);
      assert false;
    }
  }

  /** The first count whose nanoseconds do not fit. */
  lemma {:induction false} FirstPast(last: nat, freq: nat) returns (c: nat)
    requires freq > 0 && Nanoseconds(last, freq) >= WORD_LIMIT
    ensures 0 < c <= last && Nanoseconds(c, freq) >= WORD_LIMIT > Nanoseconds(c - 1, freq)
  {
    c := last;
    while c > 0 && Nanoseconds(c - 1, freq) >= WORD_LIMIT
      invariant c <= last && Nanoseconds(c, freq) >= WORD_LIMIT
    {
      c := c - 1;
    }
    if c == 0 {
      NothingYet(freq);
      assert false;
    }
  }

  lemma {:induction false} NothingYet(freq: nat)
    requires freq > 0
    ensures Nanoseconds(0, freq) == 0
  {
    DivisionBounds(0, freq);
  }

  /** At that count it shows less than the tick before. */
  lemma {:induction false} RunsBack(c: u64, freq: nat)
    requires freq > 0 && c > 0 && Nanoseconds(c, freq) >= WORD_LIMIT > Nanoseconds(c - 1, freq)
    ensures Timestamp(c, freq) < Timestamp(c - 1, freq)
  {
    OneTick(c - 1, freq);
    TimestampExact(c - 1, freq);
    WrapsOnce(Nanoseconds(c, freq));
  }

  lemma {:induction false} WrapsOnce(n: nat)
    requires WORD_LIMIT <= n < WORD_LIMIT + WORD_LIMIT
    ensures n % 0x1_0000_0000_0000_0000 == n - WORD_LIMIT
  {
  }

  /** Up to a count `last` the clock never runs backwards exactly if the nanoseconds of `last` fit 64 bits. */
  lemma {:induction false} MonotoneIff(last: u64, freq: nat)
    requires freq > 0
    ensures (forall c: u64, c': u64 | c <= c' <= last :: Timestamp(c, freq) <= Timestamp(c', freq))
       <==> Nanoseconds(last, freq) < WORD_LIMIT
  {
    if Nanoseconds(last, freq) < WORD_LIMIT {
      forall c: u64, c': u64 | c <= c' <= last ensures Timestamp(c, freq) <= Timestamp(c', freq) {
        NanosecondsMonotone(c', last, freq);
        ClockMonotone(c, c', freq);
      }
    } else {
      var c := FirstPast(last, freq);
      RunsBack(c, freq);
    }
  }

  /** Every period a device can report gives at least this many ticks a second. */
  lemma {:induction false} FrequencyAtLeast(period: nat)
    requires 0 < period < 0x1_0000_0000
    ensures Frequency(period) >= 232_830
  {
    MulMonotone(period, 0xFFFF_FFFF, 232_830);
    AtLeast(1_000_000_000_000_000, period, 232_830);
  }

  /** A device of ten million ticks a second, whose clock runs back after 584 years. */
  lemma {:induction false} ClockWraps()
    ensures Frequency(100_000_000) == 10_000_000
    ensures Timestamp(184467440737095517, 10_000_000) < Timestamp(184467440737095516, 10_000_000)
  {
  }

  /** With the true time `t = count * period / 10^6` ns, the clock shows at least `t` rounded down and at most
      `t * (1 + 1 / f)`: rounding the frequency down can only make it fast, by less than one part in `f`. */
  lemma {:induction false} ClockAccurate(count: u64, period: nat)
    requires 0 < period < 0x1_0000_0000
    ensures var f := Frequency(period);
            && f > 0
            && Nanoseconds(count, f) >= count * period / 1_000_000
            && Nanoseconds(count, f) * f * 1_000_000 <= count * period * (f + 1)
            && (Nanoseconds(count, f) < WORD_LIMIT ==> Timestamp(count, f) == Nanoseconds(count, f))
  {
    FrequencyBounds(period);
    ClockNotSlow(count, period, Frequency(period));
    ClockNotFast(count, period, Frequency(period));
    TimestampExact(count, Frequency(period));
  }

  lemma {:induction false} ClockNotSlow(count: nat, period: nat, f: nat)
    requires f > 0 && f * period <= 1_000_000_000_000_000
    ensures Nanoseconds(count, f) >= count * period / 1_000_000
  {
    var t := count * period / 1_000_000;
    DivisionBounds(count * period, 1_000_000);
    MulMonotone(t * 1_000_000, count * period, f);
    MulMonotone(f * period, 1_000_000_000_000_000, count);
    assert t * 1_000_000 * f == (t * f) * 1_000_000;
    assert count * period * f == f * period * count;
    AtLeast(count * 1_000_000_000, f, t);
  }

  lemma {:induction false} ClockNotFast(count: nat, period: nat, f: nat)
    requires f > 0 && 1_000_000_000_000_000 < (f + 1) * period
    ensures Nanoseconds(count, f) * f * 1_000_000 <= count * period * (f + 1)
  {
    DivisionBounds(count * 1_000_000_000, f);
    MulMonotone(1_000_000_000_000_000, (f + 1) * period, count);
    assert (f + 1) * period * count == count * period * (f + 1);
  }

  lemma {:induction false} AtLeast(a: nat, d: nat, t: nat)
    requires d > 0 && t * d <= a
    ensures a / d >= t
  {
    DivisionBounds(a, d);
    if a / d < t {
      MulMonotone(a / d + 1, t, d);
      assert false;
    }
  }
}

/** Sizing a 64-bit memory BAR through its two 32-bit registers (PCI Local Bus 3.0, section 6.2.5.1). */
module Pci {
  import opened Prelude
  import opened Bits

  /** The value with its lowest `k` bits cleared. */
  function Clear(x: nat, k: nat): nat { Shl(Shr(x, k), k) }

  /** What the low register of a BAR decoding `2^bits` bytes holds after a write: address bits it does not decode
      read as zero, the low four are fixed. */
  function LowHeld(x: u32, bits: nat, flags: nat): nat
  {
    if bits >= 32 then flags else Clear(x, bits) + flags
  }

  function HighHeld(x: u32, bits: nat): nat
  {
    if bits <= 32 then x else Clear(x, bits - 32)
  }

  lemma {:induction false} ShrOnes(n: nat, k: nat)
    requires k <= n
    ensures Shr(Pow2(n) - 1, k) == Pow2(n - k) - 1
  {
    if k > 0 { ShrOnes(n, k - 1); }
  }

  /** Clearing the low `k` bits of `n` ones leaves `2^n - 2^k`. */
  lemma {:induction false} ClearOnes(n: nat, k: nat)
    requires k <= n
    ensures Clear(Pow2(n) - 1, k) == Pow2(n) - Pow2(k)
  {
    ShrOnes(n, k);
    HighMask(n, k);
  }

  /** Cleared words leave room for the flags. */
  lemma {:induction false} ClearFits(x: u32, k: nat)
    requires k <= 32
    ensures Clear(x, k) + Pow2(k) <= 0x1_0000_0000
  {
    Powers();
    ShrBound(32, k, x);
    ShlMonotone(Shr(x, k), Pow2(32 - k), k);
    ShlPow2(32 - k, k);
  }

  /** All ones written to both registers read back as the mask of the address bits and the flags. */
  lemma {:induction false} OnesReadBack(bits: nat, flags: nat)
    requires 4 <= bits < 64 && flags < 16
    ensures HighHeld(0xFFFF_FFFF, bits) * 0x1_0000_0000 + LowHeld(0xFFFF_FFFF, bits, flags)
         == WORD_LIMIT - Pow2(bits) + flags
  {
    Powers();
    if bits <= 32 {
      ClearOnes(32, bits);
    } else {
      ClearOnes(32, bits - 32);
      Pow2Add(bits - 32, 32);
    }
  }

  datatype BarMem64 = BarMem64(addr: nat, size: nat)

  /** BAR0 of one function: two configuration registers. */
  class Bar0 {
    const bits: nat
    const flags: nat
    var low: u32
    var high: u32

    /** The registers hold what the device lets them hold. */
    ghost predicate Valid()
      reads this
    {
      && 4 <= bits < 64 && flags < 16
      && low == LowHeld(low, bits, flags) && high == HighHeld(high, bits)
    }

    ghost function Value(): nat
      reads this
    {
      high * 0x1_0000_0000 + low
    }

    constructor (bits: nat, flags: nat, low: u32, high: u32)
      requires 4 <= bits < 64 && flags < 16 && low == LowHeld(low, bits, flags) && high == HighHeld(high, bits)
      ensures Valid() && this.low == low && this.high == high && this.bits == bits && this.flags == flags
    {
      this.bits := bits;
      this.flags := flags;
      this.low := low;
      this.high := high;
    }

    /** `read_register_u64`. */
    method ReadRegister() returns (v: u64)
      ensures v == Value()
    {
      Powers();
      ShlIsProduct(high, 32);
      OrDisjoint(32, high, low);
      v := Or(Shl(high, 32), low);
    }

    /** `write_register_u64`: the low half, then the high half. */
    method WriteRegister(v: u64)
      requires 4 <= bits < 64 && flags < 16
      modifies this
      ensures low == LowHeld(v % 0x1_0000_0000, bits, flags) && high == HighHeld(v / 0x1_0000_0000, bits)
    {
      Powers();
      if bits < 32 {
        ClearFits(v % 0x1_0000_0000, bits);
        Pow2Monotone(4, bits);
      } else {
        ClearFits(v / 0x1_0000_0000, bits - 32);
      }
      low := LowHeld(v % 0x1_0000_0000, bits, flags);
      high := HighHeld(v / 0x1_0000_0000, bits);
    }

    /** `try_bar0_mem64`: for a 64-bit memory BAR the base it held and the size it decodes; the registers end as they
        began, bit for bit. */
    method TryBar0Mem64() returns (r: Option<BarMem64>)
      requires Valid()
      modifies this
      ensures low == old(low) && high == old(high)
      ensures r == if flags % 8 == 4 then Some(BarMem64(old(Value()) - flags, Pow2(bits))) else None
    {
      var bar0 := ReadRegister();
      LowFlags(low, bits, flags);
      var kind, addr := TypeAndBase(bar0);
      FlagsOf(high, low, flags);
      HalvesOf(high, low);
      if kind == 4 {
        WriteRegister(WORD_LIMIT - 1);
        OnesReadBack(bits, flags);
        var mask := ReadRegister();
        var size := SizeFromMask(mask, bits, flags);
        WriteRegister(bar0);
        r := Some(BarMem64(addr, size));
      } else {
        r := None;
      }
    }
  }

  lemma {:induction false} SixteenTimes(x: nat, q: nat, r: nat)
    requires x == 16 * q + r && r < 16
    ensures x % 16 == r && x % 8 == r % 8
  {
  }

  lemma {:induction false} FlagsOf(high: u32, low: u32, flags: nat)
    requires low % 16 == flags
    ensures var v := high * 0x1_0000_0000 + low;
            v % 8 == flags % 8 && v % 16 == flags
  {
    SixteenTimes(high * 0x1_0000_0000 + low, high * 0x1000_0000 + low / 16, flags);
  }

  lemma {:induction false} HalvesOf(high: u32, low: u32)
    ensures var v := high * 0x1_0000_0000 + low;
            v % 0x1_0000_0000 == low && v / 0x1_0000_0000 == high
  {
  }

  /** The low four bits of the low register are the flags. */
  lemma {:induction false} LowFlags(low: u32, bits: nat, flags: nat)
    requires 4 <= bits < 64 && flags < 16 && low == LowHeld(low, bits, flags)
    ensures low % 16 == flags
  {
    if bits < 32 { ClearIsMultiple(Shr(low, bits), bits); }
    SixteenTimes(low, if bits < 32 then Shl(Shr(low, bits), bits - 4) else 0, flags);
  }

  lemma {:induction false} ClearIsMultiple(y: nat, bits: nat)
    requires bits >= 4
    ensures Shl(y, bits) == 16 * Shl(y, bits - 4)
  {
    assert Shl(y, bits - 2) == 4 * Shl(y, bits - 4);
  }

  /** The type test and the mask of the base address. */
  method TypeAndBase(v: u64) returns (kind: nat, base: nat)
    ensures kind == v % 8 && base == v - v % 16
  {
    Powers();
    AndLow(3, v);
    AndNotLow(64, 4, v);
    kind := And(v, 7);
    base := And(v, Not(64, 15));
  }

  lemma {:induction false} MaskFlags(bits: nat, flags: nat)
    requires 4 <= bits < 64 && flags < 16
    ensures Pow2(bits) <= WORD_LIMIT && (WORD_LIMIT - Pow2(bits) + flags) % 16 == flags
  {
    Powers();
    Pow2Monotone(bits, 64);
    Pow2Add(bits - 4, 4);
    var q := Pow2(bits - 4);
    assert WORD_LIMIT - 16 * q == 16 * (0x1000_0000_0000_0000 - q);
  }

  /** `1 + !(mask & !0b1111)`. */
  method SizeFromMask(mask: u64, ghost bits: nat, ghost flags: nat) returns (size: nat)
    requires 4 <= bits < 64 && flags < 16 && mask == WORD_LIMIT - Pow2(bits) + flags
    ensures size == Pow2(bits)
  {
    var kind, base := TypeAndBase(mask);
    MaskFlags(bits, flags);
    size := Complement(base);
    size := 1 + size;
  }

  method Complement(x: u64) returns (r: nat)
    ensures r == WORD_LIMIT - 1 - x
  {
    Powers();
    r := Not(64, x);
  }
}
