/** The first-fit heap: what one request does to the chunk list, and the invariant of whole runs.
    The list the headers form in memory is refined to the sequence of chunks used here by
    `FirstFitAllocator`. */
module Heap {
  import opened Prelude
  import opened Bits

  const HEADER_SIZE: nat := 32
  const PAGE_SIZE: nat := 4096
  const ISIZE_LIMIT: nat := 0x8000_0000_0000_0000

  /** Bytes `addr .. addr + size` of one header and the payload behind it. */
  datatype Chunk = Chunk(addr: nat, size: nat, used: bool)

  /** Bytes `lo .. hi` handed to the allocator by the firmware's memory map. */
  datatype Region = Region(lo: nat, hi: nat)

  datatype Layout = Layout(size: u64, align: u64)

  ghost predicate IsPow2(n: nat)
  {
    exists k: nat :: n == Pow2(k)
  }

  /** What `core::alloc::Layout` guarantees of its size and alignment. */
  ghost predicate ValidLayout(l: Layout)
  {
    IsPow2(l.align) && l.size + l.align <= ISIZE_LIMIT
  }

  function End(c: Chunk): nat { c.addr + c.size }

  /* Sizes and alignments. */

  /** `round_up_to_nearest_pow2`: shift 1 by the bit length of `v - 1`, which wraps for `v == 0`. */
  function RoundUpPow2(v: u64): Option<nat>
  {
    var shift := BitLength(if v == 0 then WORD_LIMIT - 1 else v - 1);
    if shift < 64 then Some(Pow2(shift)) else None
  }

  /** `BitLength(x)` is the least `k` with `x < 2^k`. */
  lemma {:induction false} BitLengthIff(x: nat, k: nat)
    ensures BitLength(x) <= k <==> x < Pow2(k)
  {
    BitLengthBounds(x);
    if BitLength(x) <= k { Pow2Monotone(BitLength(x), k); }
    else { Pow2Monotone(k, BitLength(x) - 1); }
  }

  /** Rounding up fails exactly on zero and when the least power of two not below `v` does not fit a word. */
  lemma {:induction false} RoundUpFails(v: u64)
    ensures RoundUpPow2(v).None? <==> v == 0 || v > ISIZE_LIMIT
  {
    Powers();
    BitLengthIff(if v == 0 then WORD_LIMIT - 1 else v - 1, 63);
  }

  /** Otherwise it gives that power of two. */
  lemma {:induction false} RoundUpIsLeast(v: u64, k: nat)
    requires RoundUpPow2(v).Some?
    ensures IsPow2(RoundUpPow2(v).value) && v <= RoundUpPow2(v).value
    ensures v <= Pow2(k) ==> RoundUpPow2(v).value <= Pow2(k)
  {
    RoundUpFails(v);
    var n := BitLength(v - 1);
    BitLengthIff(v - 1, n);
    BitLengthIff(v - 1, k);
    if v <= Pow2(k) { Pow2Monotone(n, k); }
  }

  /** Payload bytes reserved for a request: the rounded size, at least one header's worth. */
  function RequestSize(l: Layout): nat
    requires RoundUpPow2(l.size).Some?
  {
    Max(RoundUpPow2(l.size).value, HEADER_SIZE)
  }

  function RequestAlign(l: Layout): nat { Max(l.align, HEADER_SIZE) }

  function AlignDown(x: nat, align: nat): nat
    requires align > 0
  {
    x - x % align
  }

  lemma {:induction false} AlignDownFacts(x: nat, align: nat)
    requires align > 0
    ensures AlignDown(x, align) <= x < AlignDown(x, align) + align
    ensures AlignDown(x, align) % align == 0
  {
    UniqueQuotient(x - x % align, align, x / align, 0);
  }

  lemma {:induction false} ModTrans(x: nat, m: nat, d: nat)
    requires m > 0 && d > 0 && x % m == 0 && m % d == 0
    ensures x % d == 0
  {
    var a, b := x / m, m / d;
    assert x == a * m && m == b * d;
    assert a * (b * d) == (a * b) * d;
    UniqueQuotient(x, d, a * b, 0);
  }

  lemma {:induction false} Pow2Divides(j: nat, k: nat)
    requires j <= k
    ensures Pow2(k) % Pow2(j) == 0
  {
    Pow2Add(k - j, j);
    UniqueQuotient(Pow2(k), Pow2(j), Pow2(k - j), 0);
  }

  lemma {:induction false} Pow2AtLeast(n: nat, j: nat)
    requires IsPow2(n) && n >= Pow2(j)
    ensures n % Pow2(j) == 0
  {
    var k: nat :| n == Pow2(k);
    if k < j { Pow2Monotone(k + 1, j); }
    Pow2Divides(j, k);
  }

  lemma {:induction false} SmallPow2(n: nat, j: nat)
    requires IsPow2(n) && n <= Pow2(j)
    ensures Pow2(j) % n == 0
  {
    var k: nat :| n == Pow2(k);
    if k > j { Pow2Monotone(j + 1, k); }
    Pow2Divides(k, j);
  }

  /** The rounded size and alignment of a request are multiples of a header and leave the fit test in range. */
  lemma {:induction false} RequestFacts(l: Layout)
    requires ValidLayout(l) && RoundUpPow2(l.size).Some?
    ensures RequestSize(l) % 32 == 0 && RequestSize(l) >= HEADER_SIZE && l.size <= RequestSize(l)
    ensures RequestAlign(l) % 32 == 0 && RequestAlign(l) >= HEADER_SIZE && RequestAlign(l) % l.align == 0
    ensures RequestSize(l) + 64 + RequestAlign(l) < WORD_LIMIT
  {
    Powers();
    RoundUpFails(l.size);
    RoundUpIsLeast(l.size, 63);
    if RequestSize(l) > HEADER_SIZE { Pow2AtLeast(RequestSize(l), 5); }
    if l.align >= HEADER_SIZE { Pow2AtLeast(l.align, 5); } else { SmallPow2(l.align, 5); }
    AlignHalf(l.align);
  }

  /** A power of two below `2^63` is at most `2^62`. */
  lemma {:induction false} AlignHalf(n: nat)
    requires IsPow2(n) && n < ISIZE_LIMIT
    ensures 2 * n <= ISIZE_LIMIT
  {
    Powers();
    var k: nat :| n == Pow2(k);
    if k >= 63 { Pow2Monotone(63, k); }
    Pow2Monotone(k, 62);
  }

  /* One request. */

  /** The test `provide` makes before it splits a chunk. */
  predicate Fits(c: Chunk, l: Layout)
  {
    && RoundUpPow2(l.size).Some?
    && !c.used
    && c.size >= RequestSize(l) + 64 + RequestAlign(l)
  }

  /** Where `provide` puts the payload: as high in the chunk as the alignment allows. */
  function Payload(c: Chunk, l: Layout): nat
    requires Fits(c, l)
  {
    AlignDown(End(c) - RequestSize(l), RequestAlign(l))
  }

  /** Chunk `c` with an allocated payload of `n` bytes cut out at `p`: the shrunk chunk, the allocated one,
      and padding if any is left behind it. */
  function Pieces(c: Chunk, p: nat, n: nat): seq<Chunk>
    requires c.addr + HEADER_SIZE <= p && p + n <= End(c)
  {
    var pad := End(c) - (p + n);
    [Chunk(c.addr, c.size - (n + HEADER_SIZE + pad), false), Chunk(p - HEADER_SIZE, n + HEADER_SIZE, true)]
    + if pad == 0 then [] else [Chunk(p + n, pad, false)]
  }

  lemma {:induction false} PayloadFacts(c: Chunk, l: Layout)
    requires Fits(c, l)
    ensures c.addr + 64 < Payload(c, l)
    ensures Payload(c, l) + RequestSize(l) <= End(c)
    ensures Payload(c, l) % RequestAlign(l) == 0
  {
    AlignDownFacts(End(c) - RequestSize(l), RequestAlign(l));
  }

  /** What `provide` turns a fitting chunk into. */
  function Split(c: Chunk, l: Layout): seq<Chunk>
    requires Fits(c, l)
  {
    PayloadFacts(c, l);
    Pieces(c, Payload(c, l), RequestSize(l))
  }

  /** Header-aligned and room for a header. */
  predicate Aligned(c: Chunk)
  {
    c.addr % 32 == 0 && c.size % 32 == 0 && c.size >= HEADER_SIZE
  }

  /** The chunks follow one another without a gap and cover exactly `lo .. hi`. */
  predicate Covers(cs: seq<Chunk>, lo: nat, hi: nat)
  {
    if cs == [] then lo == hi
    else cs[0].addr == lo && Aligned(cs[0]) && Covers(cs[1..], End(cs[0]), hi)
  }

  /** Sums and differences of multiples of a header are multiples of a header. */
  lemma {:induction false} MultiplesOf32(a: nat, b: nat, i: nat, j: nat)
    requires a == 32 * i && b == 32 * j
    ensures (a + b) % 32 == 0
    ensures a >= b ==> (a - b) % 32 == 0
  {
  }

  lemma {:induction false} PiecesAligned(c: Chunk, p: nat, n: nat)
    requires Aligned(c) && p % 32 == 0 && n % 32 == 0
    requires c.addr + HEADER_SIZE < p && p + n <= End(c)
    ensures n + HEADER_SIZE >= 32 && (n + HEADER_SIZE) % 32 == 0 && (p - HEADER_SIZE) % 32 == 0
    ensures (p + n) % 32 == 0 && (End(c) - (p + n)) % 32 == 0
    ensures p - HEADER_SIZE - c.addr >= 32 && (p - HEADER_SIZE - c.addr) % 32 == 0
  {
    MultiplesOf32(n, 32, n / 32, 1);
    MultiplesOf32(p, 32, p / 32, 1);
    MultiplesOf32(p, n, p / 32, n / 32);
    MultiplesOf32(c.addr, c.size, c.addr / 32, c.size / 32);
    MultiplesOf32(End(c), p + n, End(c) / 32, (p + n) / 32);
    MultiplesOf32(p - 32, c.addr, (p - 32) / 32, c.addr / 32);
  }

  lemma {:induction false} PiecesCover(c: Chunk, p: nat, n: nat)
    requires Aligned(c) && p % 32 == 0 && n % 32 == 0
    requires c.addr + HEADER_SIZE < p && p + n <= End(c)
    ensures Covers(Pieces(c, p, n), c.addr, End(c))
  {
    var s := Pieces(c, p, n);
    PiecesAligned(c, p, n);
    assert s[1..][0] == s[1];
    assert Covers(s[1..][1..], p + n, End(c)) by {
      if p + n < End(c) {
        assert s[1..][1..] == [s[2]];
      }
    }
  }

  /** The pieces cover exactly the chunk they came from, and the payload is aligned as requested. */
  lemma {:induction false} SplitCovers(c: Chunk, l: Layout)
    requires Aligned(c) && Fits(c, l) && ValidLayout(l)
    ensures Covers(Split(c, l), c.addr, End(c))
    ensures Payload(c, l) % 32 == 0 && Payload(c, l) % l.align == 0
  {
    RequestFacts(l);
    PayloadFacts(c, l);
    ModTrans(Payload(c, l), RequestAlign(l), l.align);
    ModTrans(Payload(c, l), RequestAlign(l), HEADER_SIZE);
    PiecesCover(c, Payload(c, l), RequestSize(l));
  }

  lemma {:induction false} CoversConcat(a: seq<Chunk>, b: seq<Chunk>, lo: nat, mid: nat, hi: nat)
    requires Covers(a, lo, mid) && Covers(b, mid, hi)
    ensures Covers(a + b, lo, hi)
  {
    if a == [] {
      assert a + b == b;
    } else {
      assert (a + b)[1..] == a[1..] + b;
      CoversConcat(a[1..], b, End(a[0]), mid, hi);
    }
  }

  /** The list with chunk `i` replaced by the chunks `s`. */
  function Replace(cs: seq<Chunk>, i: nat, s: seq<Chunk>): seq<Chunk>
    requires i < |cs|
  {
    cs[..i] + s + cs[i + 1..]
  }

  lemma {:induction false} CoversReplace(cs: seq<Chunk>, i: nat, s: seq<Chunk>, lo: nat, hi: nat)
    requires i < |cs| && Covers(cs, lo, hi) && Covers(s, cs[i].addr, End(cs[i]))
    ensures Covers(Replace(cs, i, s), lo, hi)
  {
    if i == 0 {
      CoversConcat(s, cs[1..], lo, End(cs[0]), hi);
      assert Replace(cs, 0, s) == s + cs[1..];
    } else {
      CoversReplace(cs[1..], i - 1, s, End(cs[0]), hi);
      assert Replace(cs, i, s)[1..] == Replace(cs[1..], i - 1, s);
    }
  }

  lemma {:induction false} CoversMember(cs: seq<Chunk>, lo: nat, hi: nat, i: nat)
    requires i < |cs| && Covers(cs, lo, hi)
    ensures Aligned(cs[i]) && lo <= cs[i].addr && End(cs[i]) <= hi
    ensures i + 1 < |cs| ==> End(cs[i]) <= cs[i + 1].addr
    ensures lo < hi
  {
    if i > 0 {
      CoversMember(cs[1..], End(cs[0]), hi, i - 1);
    } else {
      CoversNonNegative(cs[1..], End(cs[0]), hi);
    }
  }

  lemma {:induction false} CoversNonNegative(cs: seq<Chunk>, lo: nat, hi: nat)
    requires Covers(cs, lo, hi)
    ensures lo <= hi
    ensures cs != [] ==> cs[0].addr == lo
  {
    if cs != [] { CoversNonNegative(cs[1..], End(cs[0]), hi); }
  }

  lemma {:induction false} CoversOrdered(cs: seq<Chunk>, lo: nat, hi: nat, i: nat, j: nat)
    requires i < j < |cs| && Covers(cs, lo, hi)
    ensures End(cs[i]) <= cs[j].addr
  {
    if i == 0 {
      CoversMember(cs[1..], End(cs[0]), hi, j - 1);
    } else {
      CoversOrdered(cs[1..], End(cs[0]), hi, i - 1, j - 1);
    }
  }

  /* The whole list. */

  /** The chunk list is, region by region, a contiguous address-ordered run of chunks that covers the region. */
  ghost predicate Tiled(cs: seq<Chunk>, rs: seq<Region>)
  {
    if rs == [] then cs == []
    else exists k :: 0 <= k <= |cs| && Covers(cs[..k], rs[0].lo, rs[0].hi) && Tiled(cs[k..], rs[1..])
  }

  predicate Inside(c: Chunk, r: Region) { r.lo <= c.addr && End(c) <= r.hi }

  predicate Apart(a: nat, n: nat, b: nat, m: nat) { a + n <= b || b + m <= a }

  predicate RegionsApart(r: Region, q: Region) { r.hi <= q.lo || q.hi <= r.lo }

  /** Page-aligned, outside page 0, within a machine word, and pairwise apart. */
  ghost predicate GoodRegions(rs: seq<Region>)
  {
    && (forall i | 0 <= i < |rs| :: PAGE_SIZE <= rs[i].lo < rs[i].hi < WORD_LIMIT)
    && (forall i | 0 <= i < |rs| :: rs[i].lo % 4096 == 0 && rs[i].hi % 4096 == 0)
    && (forall i, j | 0 <= i < j < |rs| :: RegionsApart(rs[i], rs[j]))
  }

  lemma {:induction false} GoodTail(rs: seq<Region>)
    requires GoodRegions(rs) && rs != []
    ensures GoodRegions(rs[1..])
  {
  }

  lemma {:induction false} TiledFrom(cs: seq<Chunk>, rs: seq<Region>, k: nat)
    requires rs != [] && k <= |cs| && Covers(cs[..k], rs[0].lo, rs[0].hi) && Tiled(cs[k..], rs[1..])
    ensures Tiled(cs, rs)
  {
  }

  lemma {:induction false} ReplaceInFront(cs: seq<Chunk>, i: nat, s: seq<Chunk>, k: nat)
    requires i < k <= |cs|
    ensures var ds, k' := Replace(cs, i, s), k + |s| - 1;
            k' <= |ds| && ds[..k'] == Replace(cs[..k], i, s) && ds[k'..] == cs[k..]
  {
  }

  lemma {:induction false} ReplaceBehind(cs: seq<Chunk>, i: nat, s: seq<Chunk>, k: nat)
    requires k <= i < |cs|
    ensures var ds := Replace(cs, i, s);
            k <= |ds| && ds[..k] == cs[..k] && ds[k..] == Replace(cs[k..], i - k, s)
  {
  }

  lemma {:induction false} TiledReplace(cs: seq<Chunk>, rs: seq<Region>, i: nat, s: seq<Chunk>)
    requires i < |cs| && Tiled(cs, rs) && Covers(s, cs[i].addr, End(cs[i]))
    ensures Tiled(Replace(cs, i, s), rs)
    decreases |rs|
  {
    var k :| 0 <= k <= |cs| && Covers(cs[..k], rs[0].lo, rs[0].hi) && Tiled(cs[k..], rs[1..]);
    if i < k {
      CoversReplace(cs[..k], i, s, rs[0].lo, rs[0].hi);
      ReplaceInFront(cs, i, s, k);
      TiledFrom(Replace(cs, i, s), rs, k + |s| - 1);
    } else {
      TiledReplace(cs[k..], rs[1..], i - k, s);
      ReplaceBehind(cs, i, s, k);
      TiledFrom(Replace(cs, i, s), rs, k);
    }
  }

  /** Every chunk is aligned and lies in one region. */
  lemma {:induction false} TiledMember(cs: seq<Chunk>, rs: seq<Region>, i: nat) returns (r: nat)
    requires i < |cs| && Tiled(cs, rs)
    ensures r < |rs| && Inside(cs[i], rs[r]) && Aligned(cs[i])
    decreases |rs|
  {
    var k :| 0 <= k <= |cs| && Covers(cs[..k], rs[0].lo, rs[0].hi) && Tiled(cs[k..], rs[1..]);
    if i < k {
      CoversMember(cs[..k], rs[0].lo, rs[0].hi, i);
      r := 0;
    } else {
      r := TiledMember(cs[k..], rs[1..], i - k);
      r := r + 1;
    }
  }

  /** No two chunks share a byte. */
  lemma {:induction false} TiledApart(cs: seq<Chunk>, rs: seq<Region>, i: nat, j: nat)
    requires i < j < |cs| && Tiled(cs, rs) && GoodRegions(rs)
    ensures Apart(cs[i].addr, cs[i].size, cs[j].addr, cs[j].size)
    decreases |rs|
  {
    var k :| 0 <= k <= |cs| && Covers(cs[..k], rs[0].lo, rs[0].hi) && Tiled(cs[k..], rs[1..]);
    GoodTail(rs);
    if j < k {
      CoversOrdered(cs[..k], rs[0].lo, rs[0].hi, i, j);
    } else if i >= k {
      TiledApart(cs[k..], rs[1..], i - k, j - k);
    } else {
      CoversMember(cs[..k], rs[0].lo, rs[0].hi, i);
      var r := TiledMember(cs[k..], rs[1..], j - k);
      assert RegionsApart(rs[0], rs[r + 1]);
    }
  }
}
