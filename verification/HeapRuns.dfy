/** Whole runs of the heap: any interleaving of adding regions, allocating and freeing. */
module HeapRuns {
  import opened Prelude
  import Bits
  import opened Heap

  /** The chunk list, the regions it tiles, and the layout each live pointer was requested with. */
  datatype State = State(chunks: seq<Chunk>, regions: seq<Region>, live: map<nat, Layout>)

  datatype Op =
    | Add(start: u64, pages: u64)
    | Alloc(layout: Layout)
    | Free(ptr: nat)

  /** The region a memory descriptor contributes, if any: page 0 is cut off, and one page is not enough. */
  function DescriptorRegion(start: u64, pages: u64): Option<Region>
  {
    var lo := if start == 0 then PAGE_SIZE else start;
    var size := if start == 0 then Max(pages * 4096 - PAGE_SIZE, 0) else pages * 4096;
    if size <= PAGE_SIZE then None else Some(Region(lo, lo + size))
  }

  /** Index of the earliest chunk that passes the fit test, or the length of the list. */
  function FirstFit(cs: seq<Chunk>, l: Layout): (i: nat)
    ensures i <= |cs|
    ensures forall j | 0 <= j < i :: !Fits(cs[j], l)
    ensures i < |cs| ==> Fits(cs[i], l)
  {
    if cs == [] || Fits(cs[0], l) then 0 else 1 + FirstFit(cs[1..], l)
  }

  /** The list with the chunk at `addr` marked free. */
  function Release(cs: seq<Chunk>, addr: int): (ds: seq<Chunk>)
    ensures |ds| == |cs|
    ensures forall i | 0 <= i < |cs| :: ds[i] == if cs[i].addr == addr then cs[i].(used := false) else cs[i]
  {
    seq(|cs|, i requires 0 <= i < |cs| => if cs[i].addr == addr then cs[i].(used := false) else cs[i])
  }

  function Next(s: State, op: Op): State
  {
    match op
    case Add(start, pages) =>
      (match DescriptorRegion(start, pages)
       case None => s
       case Some(r) => s.(chunks := [Chunk(r.lo, r.hi - r.lo, false)] + s.chunks, regions := [r] + s.regions))
    case Alloc(l) =>
      var i := FirstFit(s.chunks, l);
      if i == |s.chunks| then s
      else s.(chunks := Replace(s.chunks, i, Split(s.chunks[i], l)), live := s.live[Payload(s.chunks[i], l) := l])
    case Free(p) =>
      s.(chunks := Release(s.chunks, p - HEADER_SIZE), live := s.live - {p})
  }

  /** The pointer `alloc` returns in state `s`; `None` is the null pointer. */
  function AllocResult(s: State, l: Layout): Option<nat>
  {
    var i := FirstFit(s.chunks, l);
    if i == |s.chunks| then None else Some(Payload(s.chunks[i], l))
  }

  /** What callers and the firmware owe: page-aligned disjoint regions, valid layouts, frees of live pointers. */
  ghost predicate Enabled(s: State, op: Op)
  {
    match op
    case Add(start, pages) =>
      && start % 4096 == 0
      && start + pages * 4096 < WORD_LIMIT
      && (forall r | r in s.regions :: RegionsApart(r, Region(start, start + pages * 4096)))
    case Alloc(l) => ValidLayout(l)
    case Free(p) => p in s.live
  }

  const EMPTY: State := State([], [], map[])

  ghost function Run(ops: seq<Op>): State
  {
    if ops == [] then EMPTY else Next(Run(ops[..|ops| - 1]), ops[|ops| - 1])
  }

  ghost predicate Legal(ops: seq<Op>)
  {
    ops != [] ==> Legal(ops[..|ops| - 1]) && Enabled(Run(ops[..|ops| - 1]), ops[|ops| - 1])
  }

  /* The invariant. */

  /** The chunk behind a live pointer starts one header below it and was sized for its layout. */
  function Owner(p: nat, l: Layout): Chunk
    requires p >= HEADER_SIZE && RoundUpPow2(l.size).Some?
  {
    Chunk(p - HEADER_SIZE, RequestSize(l) + HEADER_SIZE, true)
  }

  ghost predicate Backed(cs: seq<Chunk>, p: nat, l: Layout)
  {
    && p >= HEADER_SIZE && ValidLayout(l) && RoundUpPow2(l.size).Some?
    && Owner(p, l) in cs
    && p % l.align == 0
  }

  /** Exactly the chunks behind live pointers are marked used. */
  ghost predicate Accounted(cs: seq<Chunk>, live: map<nat, Layout>)
  {
    && (forall p {:trigger Backed(cs, p, live[p])} | p in live :: Backed(cs, p, live[p]))
    && UsedAreLive(cs, live)
  }

  predicate UsedAreLive(cs: seq<Chunk>, live: map<nat, Layout>)
  {
    forall c | c in cs && c.used :: c.addr + HEADER_SIZE in live
  }

  ghost predicate Inv(s: State)
  {
    GoodRegions(s.regions) && Tiled(s.chunks, s.regions) && Accounted(s.chunks, s.live)
  }

  lemma {:induction false} TiledCons(c: Chunk, cs: seq<Chunk>, r: Region, rs: seq<Region>)
    requires Tiled(cs, rs) && Covers([c], r.lo, r.hi)
    ensures Tiled([c] + cs, [r] + rs)
  {
    assert ([c] + cs)[..1] == [c] && ([c] + cs)[1..] == cs;
    assert ([r] + rs)[1..] == rs;
  }

  lemma {:induction false} DescriptorRegionFacts(start: u64, pages: u64)
    requires start % 4096 == 0 && start + pages * 4096 < WORD_LIMIT
    requires DescriptorRegion(start, pages).Some?
    ensures var r := DescriptorRegion(start, pages).value;
            && PAGE_SIZE <= r.lo < r.hi < WORD_LIMIT && r.lo % 4096 == 0 && r.hi % 4096 == 0
            && start <= r.lo && r.hi == start + pages * 4096
  {
  }

  lemma {:induction false} AtLeastAPage(a: nat, b: nat)
    requires 4096 * a < 4096 * b
    ensures 4096 * b - 4096 * a >= 4096
  {
  }

  lemma {:induction false} OneChunkCovers(r: Region)
    requires r.lo < r.hi && r.lo % 4096 == 0 && r.hi % 4096 == 0
    ensures Covers([Chunk(r.lo, r.hi - r.lo, false)], r.lo, r.hi)
  {
    var cs := [Chunk(r.lo, r.hi - r.lo, false)];
    assert cs[1..] == [];
    MultiplesOf32(r.hi, r.lo, 128 * (r.hi / 4096), 128 * (r.lo / 4096));
    MultiplesOf32(r.lo, 0, 128 * (r.lo / 4096), 0);
    assert Aligned(cs[0]) by { AtLeastAPage(r.lo / 4096, r.hi / 4096); }
  }

  lemma {:induction false} GoodCons(r: Region, rs: seq<Region>)
    requires GoodRegions(rs) && PAGE_SIZE <= r.lo < r.hi < WORD_LIMIT && r.lo % 4096 == 0 && r.hi % 4096 == 0
    requires forall q | q in rs :: RegionsApart(q, r)
    ensures GoodRegions([r] + rs)
  {
    forall i, j | 0 <= i < j < |[r] + rs| ensures RegionsApart(([r] + rs)[i], ([r] + rs)[j]) {
      assert rs[j - 1] in rs;
    }
  }

  lemma {:induction false} AccountedCons(c: Chunk, cs: seq<Chunk>, live: map<nat, Layout>)
    requires Accounted(cs, live) && !c.used
    ensures Accounted([c] + cs, live)
  {
    forall p | p in live ensures Backed([c] + cs, p, live[p]) {
      assert Backed(cs, p, live[p]);
    }
  }

  lemma {:induction false} AddKeeps(s: State, start: u64, pages: u64)
    requires Inv(s) && Enabled(s, Add(start, pages))
    ensures Inv(Next(s, Add(start, pages)))
  {
    if DescriptorRegion(start, pages).Some? {
      var r := DescriptorRegion(start, pages).value;
      var c := Chunk(r.lo, r.hi - r.lo, false);
      DescriptorRegionFacts(start, pages);
      OneChunkCovers(r);
      TiledCons(c, s.chunks, r, s.regions);
      GoodCons(r, s.regions);
      AccountedCons(c, s.chunks, s.live);
    }
  }

  /* Allocating. */

  lemma {:induction false} ReplaceMembers(cs: seq<Chunk>, i: nat, s: seq<Chunk>, c: Chunk)
    requires i < |cs|
    ensures c in Replace(cs, i, s) ==> c in s || exists j :: 0 <= j < |cs| && j != i && cs[j] == c
    ensures c in s || (c in cs && c != cs[i]) ==> c in Replace(cs, i, s)
  {
    var ds := Replace(cs, i, s);
    if c in ds && c !in s {
      var k :| 0 <= k < |ds| && ds[k] == c;
      if k < i { assert cs[k] == c; } else { assert cs[k - |s| + 1] == c; }
    }
    if c in s {
      var k :| 0 <= k < |s| && s[k] == c;
      assert ds[i + k] == c;
    } else if c in cs && c != cs[i] {
      var k :| 0 <= k < |cs| && cs[k] == c;
      assert k < i ==> ds[k] == c;
      assert k > i ==> ds[k + |s| - 1] == c;
    }
  }

  /** A chunk that shares an address with the inside of chunk `i` is chunk `i`. */
  lemma {:induction false} SameChunk(s: State, c: Chunk, i: nat)
    requires Inv(s) && i < |s.chunks| && c in s.chunks
    requires s.chunks[i].addr <= c.addr < End(s.chunks[i])
    ensures c == s.chunks[i]
  {
    var j :| 0 <= j < |s.chunks| && s.chunks[j] == c;
    var _ := TiledMember(s.chunks, s.regions, j);
    if i < j { TiledApart(s.chunks, s.regions, i, j); }
    if j < i { TiledApart(s.chunks, s.regions, j, i); }
  }

  lemma {:induction false} SplitMembers(c: Chunk, l: Layout)
    requires Fits(c, l)
    ensures Chunk(Payload(c, l) - HEADER_SIZE, RequestSize(l) + HEADER_SIZE, true) in Split(c, l)
    ensures forall d | d in Split(c, l) && d.used :: d.addr + HEADER_SIZE == Payload(c, l)
    ensures c.addr < Payload(c, l) - HEADER_SIZE < End(c)
  {
    PayloadFacts(c, l);
    assert Split(c, l)[1] == Chunk(Payload(c, l) - HEADER_SIZE, RequestSize(l) + HEADER_SIZE, true);
  }

  lemma {:induction false} AllocBacksNew(cs: seq<Chunk>, i: nat, l: Layout)
    requires ValidLayout(l) && i < |cs| && Aligned(cs[i]) && Fits(cs[i], l)
    ensures Backed(Replace(cs, i, Split(cs[i], l)), Payload(cs[i], l), l)
  {
    var c := cs[i];
    SplitCovers(c, l);
    SplitMembers(c, l);
    ReplaceMembers(cs, i, Split(c, l), Owner(Payload(c, l), l));
  }

  lemma {:induction false} AllocBacksOld(cs: seq<Chunk>, i: nat, s: seq<Chunk>, p: nat, l: Layout)
    requires i < |cs| && !cs[i].used && Backed(cs, p, l)
    ensures Backed(Replace(cs, i, s), p, l)
  {
    ReplaceMembers(cs, i, s, Owner(p, l));
  }

  lemma {:induction false} AllocAccounted(cs: seq<Chunk>, live: map<nat, Layout>, i: nat, l: Layout)
    requires Accounted(cs, live)
    requires ValidLayout(l) && i < |cs| && Aligned(cs[i]) && Fits(cs[i], l)
    ensures Accounted(Replace(cs, i, Split(cs[i], l)), live[Payload(cs[i], l) := l])
  {
    var q, s := Payload(cs[i], l), Split(cs[i], l);
    var ds, live' := Replace(cs, i, s), live[q := l];
    forall p | p in live' ensures Backed(ds, p, live'[p]) {
      if p == q {
        AllocBacksNew(cs, i, l);
      } else {
        assert Backed(cs, p, live[p]);
        AllocBacksOld(cs, i, s, p, live[p]);
      }
    }
    forall d | d in ds && d.used ensures d.addr + HEADER_SIZE in live' {
      SplitMembers(cs[i], l);
      ReplaceMembers(cs, i, s, d);
    }
  }

  lemma {:induction false} AllocKeeps(s: State, l: Layout)
    requires Inv(s) && Enabled(s, Alloc(l))
    ensures Inv(Next(s, Alloc(l)))
  {
    var i := FirstFit(s.chunks, l);
    if i < |s.chunks| {
      var _ := TiledMember(s.chunks, s.regions, i);
      SplitCovers(s.chunks[i], l);
      TiledReplace(s.chunks, s.regions, i, Split(s.chunks[i], l));
      AllocAccounted(s.chunks, s.live, i, l);
    }
  }

  /* Freeing. */

  lemma {:induction false} CoversRelease(cs: seq<Chunk>, addr: int, lo: nat, hi: nat)
    requires Covers(cs, lo, hi)
    ensures Covers(Release(cs, addr), lo, hi)
  {
    if cs != [] {
      CoversRelease(cs[1..], addr, End(cs[0]), hi);
      assert Release(cs, addr)[1..] == Release(cs[1..], addr);
    }
  }

  lemma {:induction false} TiledRelease(cs: seq<Chunk>, rs: seq<Region>, addr: int)
    requires Tiled(cs, rs)
    ensures Tiled(Release(cs, addr), rs)
    decreases |rs|
  {
    if rs != [] {
      var k :| 0 <= k <= |cs| && Covers(cs[..k], rs[0].lo, rs[0].hi) && Tiled(cs[k..], rs[1..]);
      var ds := Release(cs, addr);
      CoversRelease(cs[..k], addr, rs[0].lo, rs[0].hi);
      TiledRelease(cs[k..], rs[1..], addr);
      ReleaseParts(cs, k, addr);
      TiledFrom(ds, rs, k);
    }
  }

  lemma {:induction false} ReleaseParts(cs: seq<Chunk>, k: nat, addr: int)
    requires k <= |cs|
    ensures Release(cs, addr)[..k] == Release(cs[..k], addr)
    ensures Release(cs, addr)[k..] == Release(cs[k..], addr)
  {
  }

  lemma {:induction false} DistinctAddresses(cs: seq<Chunk>, rs: seq<Region>, i: nat, j: nat)
    requires Tiled(cs, rs) && GoodRegions(rs) && i < |cs| && j < |cs| && cs[i].addr == cs[j].addr
    ensures i == j
  {
    var _ := TiledMember(cs, rs, i);
    var _ := TiledMember(cs, rs, j);
    if i < j { TiledApart(cs, rs, i, j); }
    if j < i { TiledApart(cs, rs, j, i); }
  }

  /** Releasing the address of chunk `i` changes the flag of that chunk alone. */
  lemma {:induction false} ReleaseOne(cs: seq<Chunk>, rs: seq<Region>, i: nat)
    requires Tiled(cs, rs) && GoodRegions(rs) && i < |cs|
    ensures forall j | 0 <= j < |cs| && j != i :: cs[j].addr != cs[i].addr
    ensures Release(cs, cs[i].addr) == cs[i := cs[i].(used := false)]
  {
    forall j | 0 <= j < |cs| && j != i ensures cs[j].addr != cs[i].addr {
      if cs[j].addr == cs[i].addr { DistinctAddresses(cs, rs, i, j); }
    }
  }

  lemma {:induction false} FreeBacks(cs: seq<Chunk>, i: nat, q: nat, l: Layout)
    requires i < |cs| && Backed(cs, q, l) && cs[i].addr != q - HEADER_SIZE
    ensures Backed(cs[i := cs[i].(used := false)], q, l)
  {
    var j :| 0 <= j < |cs| && cs[j] == Owner(q, l);
    assert cs[i := cs[i].(used := false)][j] == cs[j];
  }

  lemma {:induction false} FreeUsed(cs: seq<Chunk>, live: map<nat, Layout>, i: nat, c: Chunk)
    requires UsedAreLive(cs, live) && i < |cs|
    requires forall j | 0 <= j < |cs| && j != i :: cs[j].addr != cs[i].addr
    requires c in cs[i := cs[i].(used := false)] && c.used
    ensures c.addr + HEADER_SIZE in live && c.addr != cs[i].addr
  {
    var ds := cs[i := cs[i].(used := false)];
    var j :| 0 <= j < |ds| && ds[j] == c;
    assert c == cs[j];
  }

  lemma {:induction false} FreeAccounted(cs: seq<Chunk>, live: map<nat, Layout>, i: nat, p: nat)
    requires Accounted(cs, live) && i < |cs| && cs[i].addr == p - HEADER_SIZE
    requires forall j | 0 <= j < |cs| && j != i :: cs[j].addr != cs[i].addr
    ensures Accounted(cs[i := cs[i].(used := false)], live - {p})
  {
    var ds, live' := cs[i := cs[i].(used := false)], live - {p};
    forall q | q in live' ensures Backed(ds, q, live'[q]) {
      assert Backed(cs, q, live[q]);
      FreeBacks(cs, i, q, live[q]);
    }
    forall c | c in ds && c.used ensures c.addr + HEADER_SIZE in live' {
      FreeUsed(cs, live, i, c);
    }
  }

  lemma {:induction false} OwnerIndex(cs: seq<Chunk>, live: map<nat, Layout>, p: nat) returns (i: nat)
    requires Accounted(cs, live) && p in live
    ensures i < |cs| && p >= HEADER_SIZE && RoundUpPow2(live[p].size).Some? && cs[i] == Owner(p, live[p])
  {
    assert Backed(cs, p, live[p]);
    i :| 0 <= i < |cs| && cs[i] == Owner(p, live[p]);
  }

  lemma {:induction false} FreeKeeps(s: State, p: nat)
    requires Inv(s) && Enabled(s, Free(p))
    ensures Inv(Next(s, Free(p)))
  {
    var i := OwnerIndex(s.chunks, s.live, p);
    TiledRelease(s.chunks, s.regions, p - HEADER_SIZE);
    ReleaseOne(s.chunks, s.regions, i);
    FreeAccounted(s.chunks, s.live, i, p);
    assert Next(s, Free(p)).live == s.live - {p};
  }

  /** Every reachable state satisfies the invariant. */
  lemma {:induction false} RunInv(ops: seq<Op>)
    requires Legal(ops)
    ensures Inv(Run(ops))
  {
    if ops != [] {
      var s, op := Run(ops[..|ops| - 1]), ops[|ops| - 1];
      RunInv(ops[..|ops| - 1]);
      match op
      case Add(start, pages) => AddKeeps(s, start, pages);
      case Alloc(l) => AllocKeeps(s, l);
      case Free(p) => FreeKeeps(s, p);
    }
  }

  /* What the invariant means for callers. */

  /** The bytes a live pointer may use. */
  function Extent(s: State, p: nat): nat
    requires p in s.live && RoundUpPow2(s.live[p].size).Some?
  {
    RequestSize(s.live[p])
  }

  /** A live payload is big enough, aligned, inside one region and outside page 0, and shares no byte with
      another live payload or with any header. */
  ghost predicate Safe(s: State, p: nat)
    requires p in s.live
  {
    && RoundUpPow2(s.live[p].size).Some?
    && ValidLayout(s.live[p]) && s.live[p].size <= Extent(s, p)
    && p % s.live[p].align == 0
    && (exists r :: r in s.regions && r.lo <= p && p + Extent(s, p) <= r.hi)
    && p >= PAGE_SIZE
    && (forall q {:trigger s.live[q]} | q in s.live && q != p ::
          RoundUpPow2(s.live[q].size).Some? && Apart(p, Extent(s, p), q, Extent(s, q)))
    && (forall c | c in s.chunks :: Apart(p, Extent(s, p), c.addr, HEADER_SIZE))
  }

  lemma {:induction false} ChunksApart(s: State, i: nat, j: nat)
    requires Inv(s) && i < |s.chunks| && j < |s.chunks| && i != j
    ensures Apart(s.chunks[i].addr, s.chunks[i].size, s.chunks[j].addr, s.chunks[j].size)
    ensures s.chunks[i].size >= HEADER_SIZE
  {
    var _ := TiledMember(s.chunks, s.regions, i);
    if i < j { TiledApart(s.chunks, s.regions, i, j); } else { TiledApart(s.chunks, s.regions, j, i); }
  }

  lemma {:induction false} PayloadsApart(s: State, p: nat, q: nat)
    requires Inv(s) && p in s.live && q in s.live && p != q
    ensures RoundUpPow2(s.live[p].size).Some? && RoundUpPow2(s.live[q].size).Some?
    ensures Apart(p, Extent(s, p), q, Extent(s, q))
  {
    var i := OwnerIndex(s.chunks, s.live, p);
    var j := OwnerIndex(s.chunks, s.live, q);
    ChunksApart(s, i, j);
  }

  lemma {:induction false} HeadersApart(s: State, p: nat, c: Chunk)
    requires Inv(s) && p in s.live && c in s.chunks
    ensures RoundUpPow2(s.live[p].size).Some? && Apart(p, Extent(s, p), c.addr, HEADER_SIZE)
  {
    var i := OwnerIndex(s.chunks, s.live, p);
    var j :| 0 <= j < |s.chunks| && s.chunks[j] == c;
    if i != j {
      ChunksApart(s, i, j);
      ChunksApart(s, j, i);
    }
  }

  /** In every reachable state every live payload is safe. */
  lemma {:induction false} RunSafe(ops: seq<Op>, p: nat)
    requires Legal(ops) && p in Run(ops).live
    ensures Safe(Run(ops), p)
  {
    var s := Run(ops);
    RunInv(ops);
    var i := OwnerIndex(s.chunks, s.live, p);
    assert Backed(s.chunks, p, s.live[p]);
    RequestFacts(s.live[p]);
    var r := TiledMember(s.chunks, s.regions, i);
    assert s.regions[r] in s.regions;
    forall q | q in s.live && q != p
      ensures RoundUpPow2(s.live[q].size).Some? && Apart(p, Extent(s, p), q, Extent(s, q))
    {
      PayloadsApart(s, p, q);
    }
    forall c | c in s.chunks ensures Apart(p, Extent(s, p), c.addr, HEADER_SIZE) { HeadersApart(s, p, c); }
  }

  /** An allocation that succeeds returns a pointer that was not live, and whose whole chunk was free. */
  lemma {:induction false} AllocIsFresh(s: State, l: Layout)
    requires Inv(s) && ValidLayout(l) && AllocResult(s, l).Some?
    ensures AllocResult(s, l).value !in s.live
    ensures exists c :: c in s.chunks && !c.used && c.addr < AllocResult(s, l).value - HEADER_SIZE
                     && AllocResult(s, l).value + RequestSize(l) <= End(c)
  {
    var i := FirstFit(s.chunks, l);
    var c, p := s.chunks[i], AllocResult(s, l).value;
    PayloadFacts(c, l);
    assert c in s.chunks;
    if p in s.live {
      var j := OwnerIndex(s.chunks, s.live, p);
      SameChunk(s, s.chunks[j], i);
    }
  }

  /* Conservation and the lifetime bound. */

  function TotalSize(cs: seq<Chunk>): nat
  {
    if cs == [] then 0 else cs[0].size + TotalSize(cs[1..])
  }

  function RegionBytes(rs: seq<Region>): int
  {
    if rs == [] then 0 else rs[0].hi - rs[0].lo + RegionBytes(rs[1..])
  }

  lemma {:induction false} TotalConcat(a: seq<Chunk>, b: seq<Chunk>)
    ensures TotalSize(a + b) == TotalSize(a) + TotalSize(b)
  {
    if a == [] {
      assert a + b == b;
    } else {
      assert (a + b)[1..] == a[1..] + b;
      TotalConcat(a[1..], b);
    }
  }

  lemma {:induction false} CoversTotal(cs: seq<Chunk>, lo: nat, hi: nat)
    requires Covers(cs, lo, hi)
    ensures TotalSize(cs) == hi - lo
    ensures 32 * |cs| <= TotalSize(cs)
  {
    if cs != [] { CoversTotal(cs[1..], End(cs[0]), hi); }
  }

  /** The chunks account for every byte of the regions, at least 32 bytes each and one per region. */
  lemma {:induction false} TiledTotal(cs: seq<Chunk>, rs: seq<Region>)
    requires Tiled(cs, rs) && GoodRegions(rs)
    ensures TotalSize(cs) == RegionBytes(rs)
    ensures 32 * |cs| <= TotalSize(cs) && |rs| <= |cs|
    decreases |rs|
  {
    if rs != [] {
      var k :| 0 <= k <= |cs| && Covers(cs[..k], rs[0].lo, rs[0].hi) && Tiled(cs[k..], rs[1..]);
      GoodTail(rs);
      CoversTotal(cs[..k], rs[0].lo, rs[0].hi);
      TiledTotal(cs[k..], rs[1..]);
      TotalConcat(cs[..k], cs[k..]);
      assert cs[..k] + cs[k..] == cs;
      assert k > 0;
    }
  }

  /** Number of allocations in a run that did not return null. */
  ghost function Successes(ops: seq<Op>): nat
  {
    if ops == [] then 0
    else
      var s, op := Run(ops[..|ops| - 1]), ops[|ops| - 1];
      Successes(ops[..|ops| - 1]) + if op.Alloc? && AllocResult(s, op.layout).Some? then 1 else 0
  }

  lemma {:induction false} RunSplits(ops: seq<Op>)
    ensures |Run(ops).chunks| >= |Run(ops).regions| + Successes(ops)
  {
    if ops != [] { RunSplits(ops[..|ops| - 1]); }
  }

  /** Memory is never created or lost, and since nothing merges, the successes of a run of any length,
      whatever is freed in between, are bounded by the memory it was given. */
  lemma {:induction false} RunConserves(ops: seq<Op>)
    requires Legal(ops)
    ensures TotalSize(Run(ops).chunks) == RegionBytes(Run(ops).regions)
    ensures 32 * (Successes(ops) + |Run(ops).regions|) <= RegionBytes(Run(ops).regions)
  {
    RunInv(ops);
    RunSplits(ops);
    TiledTotal(Run(ops).chunks, Run(ops).regions);
  }

  /** Number of chunks of exactly `n` bytes. */
  function CountSize(cs: seq<Chunk>, n: nat): nat
  {
    if cs == [] then 0 else (if cs[0].size == n then 1 else 0) + CountSize(cs[1..], n)
  }

  lemma {:induction false} CountConcat(a: seq<Chunk>, b: seq<Chunk>, n: nat)
    ensures CountSize(a + b, n) == CountSize(a, n) + CountSize(b, n)
  {
    if a == [] {
      assert a + b == b;
    } else {
      assert (a + b)[1..] == a[1..] + b;
      CountConcat(a[1..], b, n);
    }
  }

  lemma {:induction false} CountBound(cs: seq<Chunk>, n: nat)
    ensures CountSize(cs, n) * n <= TotalSize(cs)
  {
    if cs != [] { CountBound(cs[1..], n); }
  }

  lemma {:induction false} CountRelease(cs: seq<Chunk>, addr: int, n: nat)
    ensures CountSize(Release(cs, addr), n) == CountSize(cs, n)
  {
    if cs != [] {
      CountRelease(cs[1..], addr, n);
      assert Release(cs, addr)[1..] == Release(cs[1..], addr);
    }
  }

  /* Freed memory. */

  predicate NotAcross(c: Chunk, a: nat, b: nat) { End(c) <= a || (a <= c.addr && End(c) <= b) || b <= c.addr }

  /** Bytes `a .. b` belong to one region and no chunk crosses either end of them. */
  ghost predicate Walled(s: State, a: nat, b: nat)
  {
    && (forall c | c in s.chunks :: NotAcross(c, a, b))
    && exists r :: r in s.regions && r.lo <= a && b <= r.hi
  }

  lemma {:induction false} ChunkWalled(s: State, i: nat)
    requires Inv(s) && i < |s.chunks|
    ensures Walled(s, s.chunks[i].addr, End(s.chunks[i]))
  {
    var c := s.chunks[i];
    var k := TiledMember(s.chunks, s.regions, i);
    assert s.regions[k] in s.regions;
    forall d | d in s.chunks ensures NotAcross(d, c.addr, End(c)) {
      var j :| 0 <= j < |s.chunks| && s.chunks[j] == d;
      if i < j { TiledApart(s.chunks, s.regions, i, j); }
      if j < i { TiledApart(s.chunks, s.regions, j, i); }
    }
  }

  lemma {:induction false} AddWalled(s: State, start: u64, pages: u64, a: nat, b: nat)
    requires Enabled(s, Add(start, pages)) && Walled(s, a, b) && a < b
    ensures Walled(Next(s, Add(start, pages)), a, b)
  {
    if DescriptorRegion(start, pages).Some? {
      DescriptorRegionFacts(start, pages);
      var q := DescriptorRegion(start, pages).value;
      var r :| r in s.regions && r.lo <= a && b <= r.hi;
      assert RegionsApart(r, Region(start, start + pages * 4096));
      assert r in [q] + s.regions;
    }
  }

  lemma {:induction false} PiecesInside(c: Chunk, l: Layout, d: Chunk)
    requires Fits(c, l) && d in Split(c, l)
    ensures c.addr <= d.addr && End(d) <= End(c)
  {
    PayloadFacts(c, l);
  }

  lemma {:induction false} AllocWalled(s: State, l: Layout, a: nat, b: nat)
    requires Walled(s, a, b)
    ensures Walled(Next(s, Alloc(l)), a, b)
  {
    var i := FirstFit(s.chunks, l);
    if i < |s.chunks| {
      var c, p := s.chunks[i], Split(s.chunks[i], l);
      assert c in s.chunks;
      forall d | d in Replace(s.chunks, i, p) ensures NotAcross(d, a, b) {
        ReplaceMembers(s.chunks, i, p, d);
        if d in p { PiecesInside(c, l, d); }
      }
    }
  }

  lemma {:induction false} FreeWalled(s: State, ptr: nat, a: nat, b: nat)
    requires Walled(s, a, b)
    ensures Walled(Next(s, Free(ptr)), a, b)
  {
    var ds := Release(s.chunks, ptr - HEADER_SIZE);
    forall d | d in ds ensures NotAcross(d, a, b) {
      var i :| 0 <= i < |ds| && ds[i] == d;
      assert s.chunks[i] in s.chunks;
    }
  }

  /** A wall once there stays for the rest of the run. */
  lemma {:induction false} RunWalled(ops: seq<Op>, k: nat, a: nat, b: nat)
    requires Legal(ops) && k <= |ops| && a < b && Walled(Run(ops[..k]), a, b)
    ensures Walled(Run(ops), a, b)
    decreases |ops|
  {
    if k == |ops| {
      assert ops[..k] == ops;
    } else {
      var before, op := ops[..|ops| - 1], ops[|ops| - 1];
      assert before[..k] == ops[..k];
      RunWalled(before, k, a, b);
      match op
      case Add(start, pages) => AddWalled(Run(before), start, pages, a, b);
      case Alloc(l) => AllocWalled(Run(before), l, a, b);
      case Free(p) => FreeWalled(Run(before), p, a, b);
    }
  }

  lemma {:induction false} LegalPrefix(ops: seq<Op>, k: nat)
    requires Legal(ops) && k <= |ops|
    ensures Legal(ops[..k])
    decreases |ops|
  {
    if k == |ops| {
      assert ops[..k] == ops;
    } else {
      LegalPrefix(ops[..|ops| - 1], k);
      assert ops[..|ops| - 1][..k] == ops[..k];
    }
  }

  /** Memory handed out for a rounded size `n` is never handed out again for that size or more: whatever is freed and
      allocated after step `k`, a request at least as large gets a chunk apart from the one that was live then. */
  lemma {:induction false} NeverServesAgain(ops: seq<Op>, k: nat, p: nat, l: Layout)
    requires Legal(ops) && k <= |ops| && p in Run(ops[..k]).live && AllocResult(Run(ops), l).Some?
    requires RoundUpPow2(Run(ops[..k]).live[p].size).Some? && RequestSize(Run(ops[..k]).live[p]) <= RequestSize(l)
    ensures p >= HEADER_SIZE && AllocResult(Run(ops), l).value >= HEADER_SIZE
    ensures Apart(p - HEADER_SIZE, RequestSize(Run(ops[..k]).live[p]) + HEADER_SIZE,
                  AllocResult(Run(ops), l).value - HEADER_SIZE, RequestSize(l) + HEADER_SIZE)
  {
    LegalPrefix(ops, k);
    RunInv(ops[..k]);
    var s, t := Run(ops[..k]), Run(ops);
    var j := OwnerIndex(s.chunks, s.live, p);
    var i := FirstFit(t.chunks, l);
    ChunkWalled(s, j);
    RunWalled(ops, k, s.chunks[j].addr, End(s.chunks[j]));
    PayloadFacts(t.chunks[i], l);
    assert t.chunks[i] in t.chunks && NotAcross(t.chunks[i], s.chunks[j].addr, End(s.chunks[j]));
  }

  lemma {:induction false} CountSplit(cs: seq<Chunk>, i: nat, l: Layout)
    requires i < |cs| && Fits(cs[i], l)
    ensures var n := RequestSize(l) + HEADER_SIZE;
            CountSize(Replace(cs, i, Split(cs[i], l)), n) >= CountSize(cs, n) + 1
  {
    var n, s := RequestSize(l) + HEADER_SIZE, Split(cs[i], l);
    assert cs == cs[..i] + ([cs[i]] + cs[i + 1..]);
    CountConcat(cs[..i], [cs[i]] + cs[i + 1..], n);
    CountConcat([cs[i]], cs[i + 1..], n);
    CountConcat(cs[..i] + s, cs[i + 1..], n);
    CountConcat(cs[..i], s, n);
    assert CountSize(s, n) >= 1 by { assert s[1..][0].size == n; }
  }

  /** Every allocation of the run asks for rounded size `n`. */
  ghost predicate AllOfSize(ops: seq<Op>, n: nat)
  {
    forall i | 0 <= i < |ops| && ops[i].Alloc? ::
      RoundUpPow2(ops[i].layout.size).Some? && RequestSize(ops[i].layout) == n
  }

  lemma {:induction false} CountStep(s: State, op: Op, n: nat)
    requires op.Alloc? ==> RoundUpPow2(op.layout.size).Some? && RequestSize(op.layout) == n
    ensures CountSize(Next(s, op).chunks, n + HEADER_SIZE)
         >= CountSize(s.chunks, n + HEADER_SIZE) + if op.Alloc? && AllocResult(s, op.layout).Some? then 1 else 0
  {
    match op
    case Add(start, pages) =>
      if DescriptorRegion(start, pages).Some? {
        var r := DescriptorRegion(start, pages).value;
        CountConcat([Chunk(r.lo, r.hi - r.lo, false)], s.chunks, n + HEADER_SIZE);
      }
    case Alloc(l) =>
      var i := FirstFit(s.chunks, l);
      if i < |s.chunks| { CountSplit(s.chunks, i, l); }
    case Free(p) => CountRelease(s.chunks, p - HEADER_SIZE, n + HEADER_SIZE);
  }

  lemma {:induction false} RunCounts(ops: seq<Op>, n: nat)
    requires AllOfSize(ops, n)
    ensures CountSize(Run(ops).chunks, n + HEADER_SIZE) >= Successes(ops)
  {
    if ops != [] {
      RunCounts(ops[..|ops| - 1], n);
      CountStep(Run(ops[..|ops| - 1]), ops[|ops| - 1], n);
    }
  }

  /** Freeing never pays off for requests of one size: if a run only allocates rounded size `n`, its successes
      fit the memory side by side, `n + 32` bytes each, no matter how much of it was freed. */
  lemma {:induction false} RunSameSize(ops: seq<Op>, n: nat)
    requires Legal(ops) && AllOfSize(ops, n)
    ensures Successes(ops) * (n + 32) <= RegionBytes(Run(ops).regions)
  {
    RunConserves(ops);
    RunCounts(ops, n);
    CountBound(Run(ops).chunks, n + HEADER_SIZE);
    Bits.MulMonotone(Successes(ops), CountSize(Run(ops).chunks, n + HEADER_SIZE), n + HEADER_SIZE);
  }
}
