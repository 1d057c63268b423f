/** Bitwise operations on unsigned machine words, modelled on natural numbers bit by bit,
    and the bit-field accessors of `Volatile<T>` that every TRB update goes through. */
module Bits {
  import opened Prelude

  function Pow2(k: nat): (p: nat)
    ensures p >= 1
  {
    if k == 0 then 1 else 2 * Pow2(k - 1)
  }

  function And(x: nat, y: nat): nat
  {
    if x == 0 || y == 0 then 0 else 2 * And(x / 2, y / 2) + (if x % 2 == 1 && y % 2 == 1 then 1 else 0)
  }

  function Or(x: nat, y: nat): nat
    decreases x + y
  {
    if x == 0 then y
    else if y == 0 then x
    else 2 * Or(x / 2, y / 2) + (if x % 2 == 1 || y % 2 == 1 then 1 else 0)
  }

  /** Bitwise complement in a `w`-bit word. */
  function Not(w: nat, x: nat): nat
    requires x < Pow2(w)
  {
    Pow2(w) - 1 - x
  }

  function Shl(x: nat, k: nat): nat
  {
    if k == 0 then x else 2 * Shl(x, k - 1)
  }

  function Shr(x: nat, k: nat): nat
  {
    if k == 0 then x else Shr(x, k - 1) / 2
  }

  /** Number of bits needed to write `x`; a `w`-bit word has `w - BitLength(x)` leading zeros. */
  function BitLength(x: nat): nat
  {
    if x == 0 then 0 else 1 + BitLength(x / 2)
  }

  lemma {:induction false} Pow2Add(a: nat, b: nat)
    ensures Pow2(a + b) == Pow2(a) * Pow2(b)
  {
    if a > 0 {
      Pow2Add(a - 1, b);
      assert 2 * Pow2(a - 1) * Pow2(b) == Pow2(a) * Pow2(b);
    }
  }

  /** The powers of two that name machine words and fields. */
  lemma {:induction false} Powers()
    ensures Pow2(1) == 2 && Pow2(3) == 8 && Pow2(4) == 16 && Pow2(5) == 32 && Pow2(6) == 64 && Pow2(8) == 256
    ensures Pow2(9) == 512 && Pow2(10) == 1024 && Pow2(12) == 4096 && Pow2(24) == 0x100_0000
    ensures Pow2(32) == 0x1_0000_0000 && Pow2(63) == 0x8000_0000_0000_0000 && Pow2(64) == 0x1_0000_0000_0000_0000
  {
    Pow2Add(32, 32);
    assert Pow2(64) == 2 * Pow2(63);
  }

  lemma {:induction false} Pow2Monotone(a: nat, b: nat)
    requires a <= b
    ensures Pow2(a) <= Pow2(b)
    decreases b
  {
    if a < b { Pow2Monotone(a, b - 1); }
  }

  lemma {:induction false} ShlZero(k: nat)
    ensures Shl(0, k) == 0
  {
    if k > 0 { ShlZero(k - 1); }
  }

  lemma {:induction false} ShlIsProduct(x: nat, k: nat)
    ensures Shl(x, k) == x * Pow2(k)
  {
    if k > 0 {
      ShlIsProduct(x, k - 1);
      var p := Pow2(k - 1);
      assert x * (2 * p) == 2 * (x * p);
    }
  }

  /** A word is its part above bit `k` shifted back up, plus what is below bit `k`. */
  lemma {:induction false} ShiftParts(x: nat, k: nat)
    ensures Shl(Shr(x, k), k) <= x < Shl(Shr(x, k), k) + Pow2(k)
  {
    if k > 0 {
      ShiftParts(x, k - 1);
      ShlHalf(Shr(x, k - 1), k - 1);
    }
  }

  lemma {:induction false} ShlHalf(x: nat, k: nat)
    ensures Shl(x, k) == 2 * Shl(x / 2, k) + if x % 2 == 1 then Pow2(k) else 0
  {
    if k > 0 { ShlHalf(x, k - 1); }
  }

  /** A word below `2^BitLength` and, unless zero, not below half of that. */
  lemma {:induction false} BitLengthBounds(x: nat)
    ensures x < Pow2(BitLength(x))
    ensures x > 0 ==> BitLength(x) > 0 && Pow2(BitLength(x) - 1) <= x
  {
    if x > 0 { BitLengthBounds(x / 2); }
  }

  lemma {:induction false} HalfSum(x: nat, b: nat)
    ensures (2 * x + b) / 2 == x + b / 2 && (2 * x + b) % 2 == b % 2
  {
  }

  /** `And` works on the parts above and below bit `k` independently. */
  lemma {:induction false} AndSplit(k: nat, a: nat, b: nat, c: nat, d: nat)
    requires b < Pow2(k) && d < Pow2(k)
    ensures And(Shl(a, k) + b, Shl(c, k) + d) == Shl(And(a, c), k) + And(b, d)
    ensures And(b, d) < Pow2(k)
    decreases k
  {
    AndSplits(k, a, b, c, d);
    assert Opened(0);
    AndAtMost(b, d);
  }

  ghost predicate SplitsAt(k: nat, a: nat, b: nat, c: nat, d: nat)
  {
    forall key {:trigger Opened(key)} | Opened(key) ::
      And(Shl(a, k) + b, Shl(c, k) + d) == Shl(And(a, c), k) + And(b, d)
  }

  lemma {:induction false} AndSplits(k: nat, a: nat, b: nat, c: nat, d: nat)
    requires b < Pow2(k) && d < Pow2(k)
    ensures SplitsAt(k, a, b, c, d)
  {
    if k > 0 {
      AndSplits(k - 1, a, b / 2, c, d / 2);
      AndSplitsNext(k, a, b, b / 2, b % 2, c, d, d / 2, d % 2);
    }
  }

  /** From bit `k - 1` to bit `k`, with the lowest bits taken off. */
  lemma {:induction false} AndSplitsNext(k: nat, a: nat, b: nat, b': nat, i: nat, c: nat, d: nat, d': nat, j: nat)
    requires k > 0 && i < 2 && j < 2 && b == 2 * b' + i && d == 2 * d' + j && SplitsAt(k - 1, a, b', c, d')
    ensures SplitsAt(k, a, b, c, d)
  {
    assert Opened(0);
    AndPair(Shl(a, k) + b, Shl(c, k) + d, b, d, Shl(a, k - 1), b', i, Shl(c, k - 1), d', j, Shl(And(a, c), k - 1));
  }

  lemma {:induction false} AndPair(v: nat, w: nat, e: nat, g: nat, x: nat, b: nat, i: nat, y: nat, d: nat, j: nat,
                                   h: nat)
    requires i < 2 && j < 2 && And(x + b, y + d) == h + And(b, d)
    requires v == 2 * (x + b) + i && w == 2 * (y + d) + j && e == 2 * b + i && g == 2 * d + j
    ensures And(v, w) == 2 * h + And(e, g)
  {
    AndBit(x + b, i, y + d, j);
    AndBit(b, i, d, j);
  }

  /** The lowest bit does not meet the others. */
  lemma {:induction false} AndBit(x: nat, i: nat, y: nat, j: nat)
    requires i < 2 && j < 2
    ensures And(2 * x + i, 2 * y + j) == 2 * And(x, y) + if i == 1 && j == 1 then 1 else 0
  {
    AndUnfold(2 * x + i, 2 * y + j);
    HalfSum(x, i);
    HalfSum(y, j);
  }

  lemma {:induction false} AndAtMost(x: nat, y: nat)
    ensures And(x, y) <= x
  {
    if x > 0 && y > 0 { AndAtMost(x / 2, y / 2); }
  }

  lemma {:induction false} AndUnfold(x: nat, y: nat)
    ensures And(x, y) == 2 * And(x / 2, y / 2) + (if x % 2 == 1 && y % 2 == 1 then 1 else 0)
  {
  }

  lemma {:induction false} OrUnfold(x: nat, y: nat)
    ensures Or(x, y) == 2 * Or(x / 2, y / 2) + (if x % 2 == 1 || y % 2 == 1 then 1 else 0)
  {
  }

  /** `Or` works on the parts above and below bit `k` independently. */
  lemma {:induction false} OrSplit(k: nat, a: nat, b: nat, c: nat, d: nat)
    requires b < Pow2(k) && d < Pow2(k)
    ensures Or(Shl(a, k) + b, Shl(c, k) + d) == Shl(Or(a, c), k) + Or(b, d)
    ensures Or(b, d) < Pow2(k)
    decreases k
  {
    if k > 0 {
      OrSplit(k - 1, a, b / 2, c, d / 2);
      OrUnfold(Shl(a, k) + b, Shl(c, k) + d);
      OrUnfold(b, d);
      HalfSum(Shl(a, k - 1), b);
      HalfSum(Shl(c, k - 1), d);
    }
  }

  lemma {:induction false} AndAllOnes(k: nat, x: nat)
    requires x < Pow2(k)
    ensures And(x, Pow2(k) - 1) == x
  {
    if k > 0 {
      AndUnfold(x, Pow2(k) - 1);
      AndAllOnes(k - 1, x / 2);
    }
  }

  /** Shifts are division and multiplication by a power of two. */
  lemma {:induction false} ShiftIsDivision(x: nat, k: nat)
    ensures Shr(x, k) == x / Pow2(k)
    ensures x == Shl(Shr(x, k), k) + x % Pow2(k)
  {
    ShiftParts(x, k);
    ShlIsProduct(Shr(x, k), k);
    UniqueQuotient(x, Pow2(k), Shr(x, k), x - Shl(Shr(x, k), k));
  }

  lemma {:induction false} MulMonotone(a: nat, b: nat, m: nat)
    requires a <= b
    ensures a * m <= b * m
  {
  }

  lemma {:induction false} UniqueQuotient(x: nat, m: nat, q: nat, r: nat)
    requires x == q * m + r && r < m
    ensures q == x / m && r == x % m
  {
    var d := x / m;
    assert x == d * m + x % m;
    if q < d {
      MulMonotone(q + 1, d, m);
      assert false;
    } else if d < q {
      MulMonotone(d + 1, q, m);
      assert false;
    }
  }

  /** Masking with `2^k - 1` drops everything from bit `k` up. */
  lemma {:induction false} AndLowParts(k: nat, high: nat, low: nat)
    requires low < Pow2(k)
    ensures And(Shl(high, k) + low, Pow2(k) - 1) == low
  {
    AndSplit(k, high, low, 0, Pow2(k) - 1);
    ShlZero(k);
    AndAllOnes(k, low);
  }

  /** Masking with `2^k - 1` keeps the remainder modulo `2^k`. */
  lemma {:induction false} AndLow(k: nat, x: nat)
    ensures And(x, Pow2(k) - 1) == x % Pow2(k)
  {
    ShiftIsDivision(x, k);
    AndLowParts(k, Shr(x, k), x % Pow2(k));
  }

  lemma {:induction false} HighMask(w: nat, k: nat)
    requires k <= w
    ensures Shl(Pow2(w - k) - 1, k) == Pow2(w) - Pow2(k)
  {
    if k > 0 { HighMask(w - 1, k - 1); }
  }

  lemma {:induction false} ShrBound(w: nat, k: nat, x: nat)
    requires k <= w && x < Pow2(w)
    ensures Shr(x, k) < Pow2(w - k)
  {
    if k > 0 { ShrBound(w, k - 1, x); }
  }

  /** Clearing the low `k` bits of a `w`-bit word rounds it down to a multiple of `2^k`. */
  lemma {:induction false} AndNotLow(w: nat, k: nat, x: nat)
    requires k <= w && x < Pow2(w)
    ensures Pow2(k) <= Pow2(w)
    ensures And(x, Not(w, Pow2(k) - 1)) == x - x % Pow2(k)
  {
    Pow2Monotone(k, w);
    ShiftIsDivision(x, k);
    HighMask(w, k);
    ShrBound(w, k, x);
    AndHighMask(k, Shr(x, k), x % Pow2(k), w - k);
  }

  lemma {:induction false} AndHighMask(k: nat, h: nat, low: nat, j: nat)
    requires low < Pow2(k) && h < Pow2(j)
    ensures And(Shl(h, k) + low, Shl(Pow2(j) - 1, k)) == Shl(h, k)
  {
    AndSplit(k, h, low, Pow2(j) - 1, 0);
    AndAllOnes(j, h);
  }

  /** Or-ing a multiple of `2^k` with a value below `2^k` adds the two. */
  lemma {:induction false} OrDisjoint(k: nat, a: nat, b: nat)
    requires b < Pow2(k)
    ensures Or(Shl(a, k), b) == Shl(a, k) + b
  {
    ShlZero(k);
    OrSplit(k, a, 0, 0, b);
  }

  /* Bit fields of a volatile register. */

  datatype WriteResult = Written(value: nat) | OutOfRange

  /** `Volatile::write_bits` on a `w`-bit word: the new word, or the range error. */
  function WriteBits(w: nat, word: nat, shift: nat, width: nat, value: nat): WriteResult
    requires shift + width <= w && width < w
  {
    var mask := Pow2(width) - 1;
    if And(mask, value) != value then OutOfRange
    else
      FieldMaskFits(w, shift, width);
      Written(Or(Shl(value, shift), And(word, Not(w, Shl(mask, shift)))))
  }

  /** `Volatile::read_bits`. */
  function ReadBits(word: nat, shift: nat, width: nat): nat
  {
    And(Shr(word, shift), Pow2(width) - 1)
  }

  /** Reading a field divides by the weight of its lowest bit and keeps its width. */
  lemma {:induction false} ReadBitsMeaning(word: nat, shift: nat, width: nat)
    ensures ReadBits(word, shift, width) == (word / Pow2(shift)) % Pow2(width)
  {
    ShiftIsDivision(word, shift);
    AndLow(width, Shr(word, shift));
  }

  lemma {:induction false} ShlMonotone(x: nat, y: nat, k: nat)
    requires x < y
    ensures Shl(x, k) + Pow2(k) <= Shl(y, k)
  {
    if k > 0 { ShlMonotone(x, y, k - 1); }
  }

  lemma {:induction false} ShlPow2(a: nat, k: nat)
    ensures Shl(Pow2(a), k) == Pow2(a + k)
  {
    if k > 0 { ShlPow2(a, k - 1); }
  }

  lemma {:induction false} ShlShl(x: nat, a: nat, b: nat)
    ensures Shl(Shl(x, a), b) == Shl(x, a + b)
  {
    if b > 0 { ShlShl(x, a, b - 1); }
  }

  lemma {:induction false} ShlSum(x: nat, y: nat, k: nat)
    ensures Shl(x + y, k) == Shl(x, k) + Shl(y, k)
  {
    if k > 0 { ShlSum(x, y, k - 1); }
  }

  lemma {:induction false} ShrShr(x: nat, a: nat, b: nat)
    ensures Shr(Shr(x, a), b) == Shr(x, a + b)
  {
    if b > 0 { ShrShr(x, a, b - 1); }
  }

  lemma {:induction false} FieldMaskFits(w: nat, shift: nat, width: nat)
    requires shift + width <= w
    ensures Shl(Pow2(width) - 1, shift) < Pow2(w)
  {
    ShlMonotone(Pow2(width) - 1, Pow2(width), shift);
    ShlPow2(width, shift);
    Pow2Monotone(shift + width, w);
  }

  /** The word with parts `high | field | low` cut at bits `shift + width` and `shift`. */
  function Parts(high: nat, field: nat, low: nat, shift: nat, width: nat): nat
  {
    Shl(high, shift + width) + (Shl(field, shift) + low)
  }

  lemma {:induction false} PartsOf(word: nat, shift: nat, width: nat)
    ensures ReadBits(word, shift, width) < Pow2(width)
    ensures word == Parts(Shr(word, shift + width), ReadBits(word, shift, width), word % Pow2(shift), shift, width)
  {
    var x := Shr(word, shift);
    ShiftIsDivision(word, shift);
    ShiftIsDivision(x, width);
    AndLow(width, x);
    ShrShr(word, shift, width);
    ShlSum(Shl(Shr(x, width), width), x % Pow2(width), shift);
    ShlShl(Shr(x, width), width, shift);
  }

  lemma {:induction false} LowPartsFit(field: nat, low: nat, shift: nat, width: nat)
    requires field < Pow2(width) && low < Pow2(shift)
    ensures Shl(field, shift) + low < Pow2(shift + width)
  {
    ShlMonotone(field, Pow2(width), shift);
    ShlPow2(width, shift);
  }

  /** The complement of a field's mask: ones above the field and below it. */
  lemma {:induction false} FieldMask(w: nat, shift: nat, width: nat)
    requires shift + width <= w && Shl(Pow2(width) - 1, shift) < Pow2(w)
    ensures Not(w, Shl(Pow2(width) - 1, shift)) == Shl(Pow2(w - shift - width) - 1, shift + width) + (Pow2(shift) - 1)
  {
    HighMask(w, shift + width);
    HighMask(shift + width, shift);
  }

  lemma {:induction false} AroundField(j: nat, k: nat, shift: nat, high: nat, field: nat, low: nat)
    requires shift <= k && high < Pow2(j) && low < Pow2(shift) && Shl(field, shift) + low < Pow2(k)
    ensures And(Shl(high, k) + (Shl(field, shift) + low), Shl(Pow2(j) - 1, k) + (Pow2(shift) - 1)) == Shl(high, k) + low
  {
    Pow2Monotone(shift, k);
    AndSplit(k, high, Shl(field, shift) + low, Pow2(j) - 1, Pow2(shift) - 1);
    AndAllOnes(j, high);
    AndLowParts(shift, field, low);
  }

  /** Masking a field out clears it and nothing else. */
  lemma {:induction false} ClearField(w: nat, high: nat, field: nat, low: nat, shift: nat, width: nat)
    requires shift + width <= w && high < Pow2(w - shift - width)
    requires field < Pow2(width) && low < Pow2(shift)
    requires Shl(Pow2(width) - 1, shift) < Pow2(w)
    ensures And(Parts(high, field, low, shift, width), Not(w, Shl(Pow2(width) - 1, shift)))
         == Parts(high, 0, low, shift, width)
  {
    LowPartsFit(field, low, shift, width);
    FieldMask(w, shift, width);
    AroundField(w - shift - width, shift + width, shift, high, field, low);
    ShlZero(shift);
  }

  /** Or-ing a value into a cleared field sets it and nothing else. */
  lemma {:induction false} SetField(high: nat, value: nat, low: nat, shift: nat, width: nat)
    requires value < Pow2(width) && low < Pow2(shift)
    ensures Or(Shl(value, shift), Parts(high, 0, low, shift, width)) == Parts(high, value, low, shift, width)
  {
    var k := shift + width;
    var field := Shl(value, shift);
    ShlZero(shift);
    assert field < Pow2(k) && low < Pow2(k) by {
      LowPartsFit(value, 0, shift, width);
      LowPartsFit(0, low, shift, width);
    }
    assert Or(field, low) == field + low by { OrDisjoint(shift, value, low); }
    assert Or(field, Shl(high, k) + low) == Shl(high, k) + Or(field, low) by {
      ShlZero(k);
      OrSplit(k, 0, field, high, low);
    }
  }

  /** A bit-field write succeeds exactly when the value fits the field; it then stores the value there,
      and every bit above and below the field keeps its value. */
  lemma {:induction false} WriteBitsMeaning(w: nat, word: nat, shift: nat, width: nat, value: nat)
    requires shift + width <= w && width < w && word < Pow2(w)
    ensures WriteBits(w, word, shift, width, value).Written? <==> value < Pow2(width)
    ensures value < Pow2(width) ==>
              WriteBits(w, word, shift, width, value)
              == Written(Parts(Shr(word, shift + width), value, word % Pow2(shift), shift, width))
  {
    AndComm(Pow2(width) - 1, value);
    AndLow(width, value);
    if value < Pow2(width) {
      AndAllOnes(width, value);
      PartsOf(word, shift, width);
      FieldMaskFits(w, shift, width);
      ShrBound(w, shift + width, word);
      var high, field, low := Shr(word, shift + width), ReadBits(word, shift, width), word % Pow2(shift);
      ClearField(w, high, field, low, shift, width);
      SetField(high, value, low, shift, width);
    }
  }

  /** A number below `2^k` behind a shift by `k` is what the shift back leaves. */
  lemma {:induction false} Separate(x: nat, low: nat, k: nat)
    requires low < Pow2(k)
    ensures Shr(Shl(x, k) + low, k) == x && (Shl(x, k) + low) % Pow2(k) == low
  {
    ShiftIsDivision(Shl(x, k) + low, k);
    ShlIsProduct(x, k);
    UniqueQuotient(Shl(x, k) + low, Pow2(k), x, low);
  }

  /** The three parts of a word can be read back from it. */
  lemma {:induction false} ReadParts(high: nat, field: nat, low: nat, shift: nat, width: nat)
    requires field < Pow2(width) && low < Pow2(shift)
    ensures var word := Parts(high, field, low, shift, width);
            && ReadBits(word, shift, width) == field
            && Shr(word, shift + width) == high && word % Pow2(shift) == low
  {
    LowPartsFit(field, low, shift, width);
    Separate(high, Shl(field, shift) + low, shift + width);
    ShlShl(high, width, shift);
    ShlSum(Shl(high, width), field, shift);
    Separate(Shl(high, width) + field, low, shift);
    AndLowParts(width, high, field);
  }

  /** Reading a field just written gives the value, and the bits around it read as before. */
  lemma {:induction false} WriteThenRead(w: nat, word: nat, shift: nat, width: nat, value: nat)
    requires shift + width <= w && width < w && word < Pow2(w) && value < Pow2(width)
    ensures WriteBits(w, word, shift, width, value).Written?
    ensures var word' := WriteBits(w, word, shift, width, value).value;
            && ReadBits(word', shift, width) == value
            && Shr(word', shift + width) == Shr(word, shift + width) && word' % Pow2(shift) == word % Pow2(shift)
  {
    WriteBitsMeaning(w, word, shift, width, value);
    ReadParts(Shr(word, shift + width), value, word % Pow2(shift), shift, width);
  }

  lemma {:induction false} AndComm(x: nat, y: nat)
    ensures And(x, y) == And(y, x)
  {
    if x > 0 && y > 0 { AndComm(x / 2, y / 2); }
  }
}
