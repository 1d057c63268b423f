/** The allocator itself: headers linked through the memory they describe. */
module Allocator {
  import opened Prelude
  import opened Bits
  import opened Heap
  import opened HeapRuns
  import opened HeapEffects
  import opened Uefi

  /** The 32-byte record in front of each chunk; `next` is the address of the next record. */
  datatype Header = Header(next: Option<u64>, size: u64, isAllocated: bool)

  type Memory = map<nat, Header>

  /** Address of chunk `i` of the list, or `None` past its end. */
  function LinkTo(cs: seq<Chunk>, i: nat): Option<int>
  {
    if i < |cs| then Some(cs[i].addr) else None
  }

  predicate Describes(h: Header, c: Chunk, next: Option<int>)
  {
    h.next == next && h.size == c.size && h.isAllocated == c.used
  }

  /** Always true: mentioning it names the chunk of the list a proof step is about. */
  predicate Node(i: int) { true }

  /** Each chunk's header is in memory at the chunk's address and links to the next chunk. */
  ghost predicate Linked(mem: Memory, cs: seq<Chunk>)
  {
    forall i {:trigger Node(i)} | Node(i) && 0 <= i < |cs| ::
      cs[i].addr in mem && Describes(mem[cs[i].addr], cs[i], LinkTo(cs, i + 1))
  }

  /** Headers of the pieces `s`, the last linking to `next`. */
  ghost predicate LinkedTo(mem: Memory, s: seq<Chunk>, next: Option<int>)
  {
    forall i {:trigger Node(i)} | Node(i) && 0 <= i < |s| ::
      s[i].addr in mem && Describes(mem[s[i].addr], s[i], if i + 1 < |s| then Some(s[i + 1].addr) else next)
  }

  /** Memory agrees on every address outside `lo .. hi`. */
  ghost predicate SameOutside(mem: Memory, mem': Memory, lo: nat, hi: nat)
  {
    forall a {:trigger a in mem'} | a < lo || a >= hi :: (a in mem <==> a in mem') && (a in mem ==> mem'[a] == mem[a])
  }

  /** Replacing a chunk by pieces whose headers are linked in, touching no header outside it, keeps the list linked. */
  lemma {:induction false} LinkedReplace(mem: Memory, mem': Memory, cs: seq<Chunk>, rs: seq<Region>, i: nat,
                                         s: seq<Chunk>)
    requires Linked(mem, cs) && i < |cs| && Tiled(cs, rs) && GoodRegions(rs)
    requires s != [] && s[0].addr == cs[i].addr && LinkedTo(mem', s, LinkTo(cs, i + 1))
    requires SameOutside(mem, mem', cs[i].addr, End(cs[i]))
    ensures Linked(mem', Replace(cs, i, s))
  {
    var ds := Replace(cs, i, s);
    forall k {:trigger ds[k]} | 0 <= k < |ds|
      ensures ds[k].addr in mem' && Describes(mem'[ds[k].addr], ds[k], LinkTo(ds, k + 1))
    {
      if i <= k < i + |s| {
        assert Node(k - i) && ds[k] == s[k - i];
      } else {
        var j := if k < i then k else k - |s| + 1;
        assert Node(j);
        assert ds[k] == cs[j] && LinkTo(ds, k + 1) == LinkTo(cs, j + 1);
        assert Outside(cs[j], cs[i]) by { OtherChunkOutside(cs, rs, i, j); }
      }
    }
  }

  predicate Outside(c: Chunk, d: Chunk) { c.addr < d.addr || c.addr >= End(d) }

  lemma {:induction false} OtherChunkOutside(cs: seq<Chunk>, rs: seq<Region>, i: nat, j: nat)
    requires Tiled(cs, rs) && GoodRegions(rs) && i < |cs| && j < |cs| && i != j
    ensures Outside(cs[j], cs[i])
  {
    var _ := TiledMember(cs, rs, j);
    if i < j { TiledApart(cs, rs, i, j); } else { TiledApart(cs, rs, j, i); }
  }

  lemma {:induction false} ChunkInWord(s: State, i: nat)
    requires Inv(s) && i < |s.chunks|
    ensures PAGE_SIZE <= s.chunks[i].addr && End(s.chunks[i]) < WORD_LIMIT && Aligned(s.chunks[i])
  {
    var r := TiledMember(s.chunks, s.regions, i);
  }

  lemma {:induction false} RequestAlignPow2(l: Layout)
    requires ValidLayout(l)
    ensures IsPow2(RequestAlign(l))
  {
    Powers();
    assert HEADER_SIZE == Pow2(5);
  }

  /** Memory after the headers of `Pieces(c, p, n)` have been written, the last linking to `next`. */
  function Carved(mem: Memory, c: Chunk, p: nat, n: nat, next: Option<u64>): Memory
    requires c.addr + 64 < p && p + n <= End(c) < WORD_LIMIT
  {
    var f, e := p - HEADER_SIZE, p + n;
    var self := Header(Some(f), f - c.addr, false);
    if e == End(c) then mem[f := Header(next, n + HEADER_SIZE, true)][c.addr := self]
    else mem[f := Header(Some(e), n + HEADER_SIZE, true)][e := Header(next, End(c) - e, false)][c.addr := self]
  }

  /** The same maps as the header writes make them, one update after the other: without padding ... */
  lemma {:induction false} PlainCarved(mem: Memory, m1: Memory, m2: Memory, c: Chunk, p: nat, n: nat, next: Option<u64>)
    requires c.addr + 64 < p && p + n == End(c) < WORD_LIMIT && c.addr in mem && !c.used
    requires Describes(mem[c.addr], c, next)
    requires var f := p - HEADER_SIZE;
             && m1 == mem[f := Header(next, n + HEADER_SIZE, true)][c.addr := mem[c.addr].(next := None)]
             && m2 == m1[c.addr := Header(Some(f), m1[c.addr].size - (n + HEADER_SIZE), m1[c.addr].isAllocated)]
    ensures m2 == Carved(mem, c, p, n, next)
  {
  }

  /** ... and with padding behind the payload. */
  lemma {:induction false} PaddedCarved(mem: Memory, m1: Memory, m2: Memory, m3: Memory, c: Chunk, p: nat, n: nat,
                                        next: Option<u64>)
    requires c.addr + 64 < p && p + n < End(c) < WORD_LIMIT && n > 0
    requires c.addr in mem && !c.used && Describes(mem[c.addr], c, next)
    requires var f, e := p - HEADER_SIZE, p + n;
             && m1 == mem[f := Header(next, n + HEADER_SIZE, true)][c.addr := mem[c.addr].(next := None)]
             && m2 == m1[e := Header(m1[f].next, End(c) - e, false)][f := m1[f].(next := Some(e))]
             && m3 == m2[c.addr := Header(Some(f), m2[c.addr].size - (n + HEADER_SIZE + (End(c) - e)),
                                          m2[c.addr].isAllocated)]
    ensures m3 == Carved(mem, c, p, n, next)
  {
  }

  lemma {:induction false} CarvedLinks(mem: Memory, c: Chunk, p: nat, n: nat, next: Option<u64>)
    requires c.addr + 64 < p && p + n <= End(c) < WORD_LIMIT
    ensures LinkedTo(Carved(mem, c, p, n, next), Pieces(c, p, n), next)
    ensures SameOutside(mem, Carved(mem, c, p, n, next), c.addr, End(c))
  {
  }

  function Range(d: Descriptor): Region { Region(d.physicalStart, d.physicalStart + d.numberOfPages * 4096) }

  /** What the firmware promises of its memory map: page-aligned, addressable, non-overlapping ranges. */
  ghost predicate GoodMemoryMap(descs: seq<Descriptor>)
  {
    && (forall i | 0 <= i < |descs| :: Range(descs[i]).lo % 4096 == 0 && Range(descs[i]).hi < WORD_LIMIT)
    && (forall i, j | 0 <= i < j < |descs| :: RegionsApart(Range(descs[i]), Range(descs[j])))
  }

  /** The region additions a memory map asks for. */
  function MapOps(descs: seq<Descriptor>): seq<Op>
  {
    if descs == [] then []
    else
      var d := descs[|descs| - 1];
      MapOps(descs[..|descs| - 1])
      + if d.memoryType.ConventionalMemory? then [Add(d.physicalStart, d.numberOfPages)] else []
  }

  /** The regions are exactly those that the conventional ranges of the map give. */
  ghost predicate FromMap(rs: seq<Region>, descs: seq<Descriptor>)
  {
    forall r :: r in rs <==> exists d :: d in descs && d.memoryType.ConventionalMemory? && Gives(d, r)
  }

  lemma {:induction false} MapRegions(descs: seq<Descriptor>)
    ensures FromMap(Run(MapOps(descs)).regions, descs) && Run(MapOps(descs)).live == map[]
  {
    if descs != [] {
      var before, d := descs[..|descs| - 1], descs[|descs| - 1];
      MapRegions(before);
      assert descs == before + [d];
      if d.memoryType.ConventionalMemory? {
        var done, op := MapOps(before), Add(d.physicalStart, d.numberOfPages);
        assert (done + [op])[..|done|] == done;
        AddMeaning(Run(done), d);
        MapGrows(Run(done).regions, Next(Run(done), op).regions, before, d);
      } else {
        assert MapOps(before) + [] == MapOps(before);
      }
    }
  }

  lemma {:induction false} MapGrows(rs: seq<Region>, rs': seq<Region>, descs: seq<Descriptor>, d: Descriptor)
    requires FromMap(rs, descs) && d.memoryType.ConventionalMemory?
    requires (forall r | Gives(d, r) :: rs' == [r] + rs) && ((forall r :: !Gives(d, r)) ==> rs' == rs)
    ensures FromMap(rs', descs + [d])
  {
    forall r ensures r in rs' <==> r in rs || Gives(d, r) {
      if q :| Gives(d, q) { assert rs' == [q] + rs; }
    }
    assert d in descs + [d];
  }

  /** Every region lies in the range of one of the descriptors. */
  ghost predicate FromDescriptors(rs: seq<Region>, descs: seq<Descriptor>)
  {
    forall r | r in rs :: exists d :: d in descs && Within(r, Range(d))
  }

  predicate Within(r: Region, q: Region) { q.lo <= r.lo && r.hi <= q.hi }

  lemma {:induction false} NextDescriptorEnabled(s: State, descs: seq<Descriptor>, i: nat)
    requires GoodMemoryMap(descs) && i < |descs| && FromDescriptors(s.regions, descs[..i])
    ensures Enabled(s, Add(descs[i].physicalStart, descs[i].numberOfPages))
  {
    forall r | r in s.regions ensures RegionsApart(r, Range(descs[i])) {
      var d :| d in descs[..i] && Within(r, Range(d));
      var j :| 0 <= j < i && descs[..i][j] == d;
      assert RegionsApart(Range(descs[j]), Range(descs[i]));
    }
  }

  lemma {:induction false} StillFromDescriptors(s: State, descs: seq<Descriptor>, i: nat)
    requires GoodMemoryMap(descs) && i < |descs| && FromDescriptors(s.regions, descs[..i])
    ensures FromDescriptors(s.regions, descs[..i + 1])
    ensures FromDescriptors(Next(s, Add(descs[i].physicalStart, descs[i].numberOfPages)).regions, descs[..i + 1])
  {
    var d := descs[i];
    assert descs[..i + 1] == descs[..i] + [d];
    if DescriptorRegion(d.physicalStart, d.numberOfPages).Some? {
      DescriptorRegionFacts(d.physicalStart, d.numberOfPages);
      assert Within(DescriptorRegion(d.physicalStart, d.numberOfPages).value, Range(d));
    }
  }

  /** Extends a run that added the first `i` descriptors by the next one. */
  lemma {:induction false} ExtendMapRun(s: State, descs: seq<Descriptor>, i: nat)
    requires GoodMemoryMap(descs) && i < |descs| && FromDescriptors(s.regions, descs[..i])
    requires Legal(MapOps(descs[..i])) && s == Run(MapOps(descs[..i]))
    ensures var op := Add(descs[i].physicalStart, descs[i].numberOfPages);
            var t := if descs[i].memoryType.ConventionalMemory? then Next(s, op) else s;
            && Enabled(s, op) && FromDescriptors(t.regions, descs[..i + 1])
            && t == Run(MapOps(descs[..i + 1])) && Legal(MapOps(descs[..i + 1]))
  {
    var done, op := MapOps(descs[..i]), Add(descs[i].physicalStart, descs[i].numberOfPages);
    NextDescriptorEnabled(s, descs, i);
    StillFromDescriptors(s, descs, i);
    assert descs[..i + 1][..i] == descs[..i];
    assert (done + [op])[..|done|] == done;
    assert done + [] == done;
  }

  lemma {:induction false} LinkedRelease(mem: Memory, cs: seq<Chunk>, rs: seq<Region>, i: nat)
    requires Linked(mem, cs) && Tiled(cs, rs) && GoodRegions(rs) && i < |cs|
    ensures cs[i].addr in mem
    ensures Linked(mem[cs[i].addr := mem[cs[i].addr].(isAllocated := false)], Release(cs, cs[i].addr))
    ensures LinkTo(Release(cs, cs[i].addr), 0) == LinkTo(cs, 0)
  {
    ReleaseOne(cs, rs, i);
    assert Node(i);
  }

  /** 32 bytes below a live pointer is the header of its own chunk. */
  lemma {:induction false} LiveHeader(mem: Memory, s: State, p: nat) returns (i: nat)
    requires Inv(s) && Linked(mem, s.chunks) && p in s.live
    ensures i < |s.chunks| && p >= HEADER_SIZE && s.chunks[i].addr == p - HEADER_SIZE && p - HEADER_SIZE in mem
  {
    i := OwnerIndex(s.chunks, s.live, p);
    assert Node(i);
  }

  /** Clearing the flag in it links the list after the free. */
  lemma {:induction false} FreeLinked(mem: Memory, s: State, p: nat, a: int)
    requires Inv(s) && Linked(mem, s.chunks) && p in s.live && a == p - HEADER_SIZE
    ensures 0 <= a && a in mem
    ensures Linked(mem[a := mem[a].(isAllocated := false)], Release(s.chunks, a))
    ensures LinkTo(Release(s.chunks, a), 0) == LinkTo(s.chunks, 0)
  {
    var i := LiveHeader(mem, s, p);
    LinkedRelease(mem, s.chunks, s.regions, i);
  }

  lemma {:induction false} LinkedCons(mem: Memory, cs: seq<Chunk>, c: Chunk, h: Header)
    requires Linked(mem, cs) && (forall i | 0 <= i < |cs| :: cs[i].addr != c.addr)
    requires Describes(h, c, LinkTo(cs, 0))
    ensures Linked(mem[c.addr := h], [c] + cs)
  {
    var ds, mem' := [c] + cs, mem[c.addr := h];
    forall i {:trigger ds[i]} | 0 <= i < |ds|
      ensures ds[i].addr in mem' && Describes(mem'[ds[i].addr], ds[i], LinkTo(ds, i + 1))
    {
      if i > 0 { assert Node(i - 1) && ds[i] == cs[i - 1] && LinkTo(ds, i + 1) == LinkTo(cs, i); }
    }
  }

  /** The chunk list after `provide` split chunk `i`, given the headers it wrote. */
  lemma {:induction false} SplitLinks(mem: Memory, mem': Memory, s: State, i: nat, l: Layout)
    requires Inv(s) && Linked(mem, s.chunks) && i < |s.chunks| && ValidLayout(l) && Fits(s.chunks[i], l)
    requires LinkedTo(mem', Split(s.chunks[i], l), LinkTo(s.chunks, i + 1))
    requires SameOutside(mem, mem', s.chunks[i].addr, End(s.chunks[i]))
    ensures Linked(mem', Replace(s.chunks, i, Split(s.chunks[i], l)))
  {
    LinkedReplace(mem, mem', s.chunks, s.regions, i, Split(s.chunks[i], l));
  }

  /** What one chunk makes of a request: it serves it exactly if it is free and has room. */
  ghost predicate Provides(c: Chunk, l: Layout, r: Option<nat>)
  {
    forall n {:trigger Rounded(n, l.size)} | Rounded(n, l.size) ::
      && (r.Some? <==> l.size > 0 && Roomy(c, n, l.align))
      && (r.Some? ==> Highest(r.value, c.addr + c.size, n, l.align))
  }

  lemma {:induction false} ProvideMeaning(c: Chunk, l: Layout)
    requires ValidLayout(l)
    ensures Provides(c, l, if Fits(c, l) then Some(Payload(c, l)) else None)
  {
    forall n | Rounded(n, l.size)
      ensures Fits(c, l) <==> l.size > 0 && Roomy(c, n, l.align)
      ensures Fits(c, l) ==> Highest(Payload(c, l), c.addr + c.size, n, l.align)
    {
      FitMeaning(c, l, n);
    }
  }

  /** The first chunk that serves a request makes the step ... */
  lemma {:induction false} TakenAt(mem: Memory, s: State, l: Layout, i: nat)
    requires Inv(s) && ValidLayout(l) && i < |s.chunks| && Fits(s.chunks[i], l)
    requires forall j | 0 <= j < i :: !Fits(s.chunks[j], l)
    requires Linked(mem, Replace(s.chunks, i, Split(s.chunks[i], l)))
    ensures var t, r := Next(s, HeapRuns.Alloc(l)), Some(Payload(s.chunks[i], l));
            && Inv(t) && Linked(mem, t.chunks) && LinkTo(t.chunks, 0) == LinkTo(s.chunks, 0)
            && r == AllocResult(s, l) && Allocates(s, l, r, t)
  {
    FirstFitIs(s.chunks, l, i);
    AllocKeeps(s, l);
    AllocMeaning(s, l);
  }

  /** ... and without one nothing changes. */
  lemma {:induction false} NoneTaken(s: State, l: Layout)
    requires ValidLayout(l) && forall j | 0 <= j < |s.chunks| :: !Fits(s.chunks[j], l)
    ensures Next(s, HeapRuns.Alloc(l)) == s && AllocResult(s, l) == None && Allocates(s, l, None, s)
  {
    FirstFitIs(s.chunks, l, |s.chunks|);
    AllocMeaning(s, l);
  }

  class FirstFitAllocator {
    var firstHeader: Option<u64>
    var mem: Memory
    ghost var heap: State

    ghost predicate Valid()
      reads this
    {
      Inv(heap) && Linked(mem, heap.chunks) && firstHeader == LinkTo(heap.chunks, 0)
    }

    constructor ()
      ensures Valid() && heap == EMPTY
    {
      firstHeader := None;
      mem := map[];
      heap := EMPTY;
    }

    /** `Header::new_from_addr`: writes a blank record. */
    method NewFromAddr(addr: u64)
      modifies this`mem
      ensures mem == old(mem)[addr := Header(None, 0, false)]
    {
      mem := mem[addr := Header(None, 0, false)];
    }

    /** A new header with its flag and size set and no link yet. */
    method NewHeader(addr: u64, size: u64, used: bool)
      modifies this`mem
      ensures mem == old(mem)[addr := Header(None, size, used)]
    {
      NewFromAddr(addr);
      mem := mem[addr := mem[addr].(isAllocated := used)];
      mem := mem[addr := mem[addr].(size := size)];
    }

    /** `take()` on the link of `giver`, and the link it had stored in `taker`. */
    method MoveLink(giver: u64, taker: u64)
      requires giver in mem && taker in mem && giver != taker
      modifies this`mem
      ensures mem == old(mem)[taker := old(mem)[taker].(next := old(mem)[giver].next)]
                             [giver := old(mem)[giver].(next := None)]
    {
      var taken := mem[giver].next;
      mem := mem[giver := mem[giver].(next := None)];
      mem := mem[taker := mem[taker].(next := taken)];
    }

    /** `Header::provide` on the header of chunk `i`, at address `self`. */
    method Provide(self: u64, size: u64, align: u64, ghost i: nat) returns (r: Option<u64>)
      requires Valid() && i < |heap.chunks| && heap.chunks[i].addr == self
      requires ValidLayout(Layout(size, align))
      modifies this`mem
      ensures r.Some? <==> Fits(heap.chunks[i], Layout(size, align))
      ensures r.None? ==> mem == old(mem)
      ensures r.Some? ==> r.value == Payload(heap.chunks[i], Layout(size, align))
      ensures Provides(heap.chunks[i], Layout(size, align), r)
      ensures r.Some? ==> Linked(mem, Replace(heap.chunks, i, Split(heap.chunks[i], Layout(size, align))))
    {
      ghost var l := Layout(size, align);
      ghost var c := heap.chunks[i];
      ProvideMeaning(c, l);
      var rounded := RoundUpPow2(size);
      if rounded.None? {
        return None;
      }
      RequestFacts(l);
      ChunkInWord(heap, i);
      assert Node(i);
      var size: u64 := Max(rounded.value, HEADER_SIZE);
      var align: u64 := Max(align, HEADER_SIZE);
      var needed: u64 := size + 64 + align;
      if mem[self].isAllocated || !(mem[self].size >= needed) {
        return None;
      }
      PayloadFacts(c, l);
      RequestAlignPow2(l);
      var endAddr: u64 := self + mem[self].size;
      var payload: u64 := MaskDown(endAddr - size, align);
      assert payload == Payload(c, l) && size == RequestSize(l);
      r := Some(payload);
      Carve(self, payload, size, i);
      SplitLinks(old(mem), mem, heap, i, l);
    }

    /** The header writes of `provide`: payload of `size` bytes at `payload`, inside chunk `i`. */
    method Carve(self: u64, payload: u64, size: u64, ghost i: nat)
      requires Linked(mem, heap.chunks) && i < |heap.chunks| && heap.chunks[i].addr == self
      requires !heap.chunks[i].used
      requires self + 64 < payload && payload + size <= End(heap.chunks[i]) < WORD_LIMIT
      requires size >= HEADER_SIZE
      modifies this`mem
      ensures LinkedTo(mem, Pieces(heap.chunks[i], payload, size), LinkTo(heap.chunks, i + 1))
      ensures SameOutside(old(mem), mem, self, End(heap.chunks[i]))
    {
      ghost var c, next := heap.chunks[i], LinkTo(heap.chunks, i + 1);
      var forAllocated: u64 := payload - HEADER_SIZE;
      assert Node(i) && Describes(mem[self], c, next);
      var sizeUsed := MakeAllocatedHeader(self, forAllocated, size);
      ghost var m1 := mem;
      var allocatedEnd: u64 := forAllocated + mem[forAllocated].size;
      var selfEnd: u64 := self + mem[self].size;
      if allocatedEnd != selfEnd {
        var padding := MakePaddingHeader(forAllocated, allocatedEnd, selfEnd);
        ghost var m2 := mem;
        ShrinkSelf(self, forAllocated, sizeUsed + padding);
        PaddedCarved(old(mem), m1, m2, mem, c, payload, size, next);
      } else {
        ShrinkSelf(self, forAllocated, sizeUsed);
        PlainCarved(old(mem), m1, mem, c, payload, size, next);
      }
      CarvedLinks(old(mem), c, payload, size, next);
    }

    /** Takes the used bytes off `self` and links it to the allocated chunk; the assertion is the source's own. */
    method ShrinkSelf(self: u64, forAllocated: u64, sizeUsed: u64)
      requires self in mem && mem[self].size >= sizeUsed + HEADER_SIZE
      modifies this`mem
      ensures mem
           == old(mem)[self := Header(Some(forAllocated), old(mem)[self].size - sizeUsed, old(mem)[self].isAllocated)]
    {
      assert mem[self].size >= sizeUsed + HEADER_SIZE;
      mem := mem[self := mem[self].(size := mem[self].size - sizeUsed)];
      mem := mem[self := mem[self].(next := Some(forAllocated))];
    }

    /** Writes the allocated chunk's header and moves the link of `self` into it. */
    method MakeAllocatedHeader(self: u64, addr: u64, size: u64) returns (sizeUsed: u64)
      requires self in mem && self != addr && size + HEADER_SIZE < WORD_LIMIT
      modifies this`mem
      ensures sizeUsed == size + HEADER_SIZE
      ensures mem == old(mem)[addr := Header(old(mem)[self].next, size + HEADER_SIZE, true)]
                             [self := old(mem)[self].(next := None)]
    {
      NewHeader(addr, size + HEADER_SIZE, true);
      sizeUsed := mem[addr].size;
      MoveLink(self, addr);
    }

    /** Writes a free header from `addr` to `end` and links it in behind the allocated one. */
    method MakePaddingHeader(forAllocated: u64, addr: u64, end: u64) returns (padding: u64)
      requires forAllocated in mem && forAllocated != addr && addr <= end
      modifies this`mem
      ensures padding == end - addr
      ensures mem == old(mem)[addr := Header(old(mem)[forAllocated].next, padding, false)]
                             [forAllocated := old(mem)[forAllocated].(next := Some(addr))]
    {
      padding := end - addr;
      NewHeader(addr, padding, false);
      MoveLink(forAllocated, addr);
      mem := mem[forAllocated := mem[forAllocated].(next := Some(addr))];
    }

    /** `alloc_with_options`: walks the list and takes the first chunk that provides; `None` is the null pointer. */
    method AllocWithOptions(l: Layout) returns (r: Option<u64>)
      requires Valid() && ValidLayout(l)
      modifies this
      ensures Valid() && heap == Next(old(heap), HeapRuns.Alloc(l))
      ensures r == AllocResult(old(heap), l) && Allocates(old(heap), l, r, heap)
      ensures firstHeader == old(firstHeader)
    {
      ghost var i := 0;
      var header := firstHeader;
      while header.Some?
        invariant 0 <= i <= |heap.chunks| && header == LinkTo(heap.chunks, i)
        invariant forall j | 0 <= j < i :: !Fits(heap.chunks[j], l)
        invariant mem == old(mem) && heap == old(heap) && firstHeader == old(firstHeader)
        decreases |heap.chunks| - i
      {
        assert Node(i);
        r := Provide(header.value, l.size, l.align, i);
        if r.Some? {
          TakenAt(mem, heap, l, i);
          heap := Next(heap, HeapRuns.Alloc(l));
          return;
        }
        header := mem[header.value].next;
        i := i + 1;
      }
      r := None;
      NoneTaken(heap, l);
    }

    /** `dealloc`: clears the flag in the header just below the pointer, and with it frees that chunk. */
    method Dealloc(ptr: u64)
      requires Valid() && ptr in heap.live
      modifies this
      ensures Valid() && heap == Next(old(heap), Free(ptr))
      ensures ptr >= 32 && ptr - 32 in old(mem) && firstHeader == old(firstHeader)
      ensures mem == old(mem)[ptr - 32 := old(mem)[ptr - 32].(isAllocated := false)]
      ensures Frees(old(heap), ptr, heap)
    {
      var region: int := ptr - HEADER_SIZE;
      FreeLinked(mem, heap, ptr, region);
      FreeKeeps(heap, ptr);
      FreeMeaning(heap, ptr);
      mem := mem[region := mem[region].(isAllocated := false)];
      heap := Next(heap, Free(ptr));
    }

    /** `add_free_from_descriptor`: one free chunk over the descriptor's pages, at the head of the list. */
    method AddFreeFromDescriptor(desc: Descriptor)
      requires Valid() && Enabled(heap, Add(desc.physicalStart, desc.numberOfPages))
      modifies this
      ensures Valid() && heap == Next(old(heap), Add(desc.physicalStart, desc.numberOfPages))
      ensures Adds(old(heap), desc, heap)
    {
      AddMeaning(heap, desc);
      var startAddr: u64 := desc.physicalStart;
      var size: u64 := desc.numberOfPages * 4096;
      if startAddr == 0 {
        startAddr := startAddr + 4096;
        size := if size >= 4096 then size - 4096 else 0;
      }
      if size <= 4096 {
        return;
      }
      PushRegion(startAddr, size);
      AddKeeps(heap, desc.physicalStart, desc.numberOfPages);
      heap := Next(heap, Add(desc.physicalStart, desc.numberOfPages));
    }

    /** A header for the region `startAddr .. startAddr + size`, put in front of the list. */
    method PushRegion(startAddr: u64, size: u64)
      requires Inv(heap) && Linked(mem, heap.chunks) && firstHeader == LinkTo(heap.chunks, 0)
      requires 0 < size && forall q | q in heap.regions :: RegionsApart(q, Region(startAddr, startAddr + size))
      modifies this`mem, this`firstHeader
      ensures Linked(mem, [Chunk(startAddr, size, false)] + heap.chunks) && firstHeader == Some(startAddr)
    {
      NoHeaderIn(heap, Region(startAddr, startAddr + size));
      NewHeader(startAddr, size, false);
      var prevLast := firstHeader;
      firstHeader := Some(startAddr);
      mem := mem[startAddr := mem[startAddr].(next := prevLast)];
      assert mem == old(mem)[startAddr := Header(prevLast, size, false)];
      LinkedCons(old(mem), heap.chunks, Chunk(startAddr, size, false), Header(prevLast, size, false));
    }

    /** `init_with_mmap`: the state after it is the run that adds every conventional range. */
    method InitWithMmap(memoryMap: seq<Descriptor>)
      requires Valid() && heap == EMPTY && GoodMemoryMap(memoryMap)
      modifies this
      ensures Valid() && heap == Run(MapOps(memoryMap)) && Legal(MapOps(memoryMap))
      ensures heap.live == map[] && FromMap(heap.regions, memoryMap)
    {
      MapRegions(memoryMap);
      for i := 0 to |memoryMap|
        invariant Valid() && FromDescriptors(heap.regions, memoryMap[..i])
        invariant heap == Run(MapOps(memoryMap[..i])) && Legal(MapOps(memoryMap[..i]))
      {
        var e := memoryMap[i];
        ExtendMapRun(heap, memoryMap, i);
        if e.memoryType != ConventionalMemory {
          continue;
        }
        AddFreeFromDescriptor(e);
      }
      assert memoryMap[..|memoryMap|] == memoryMap;
    }
  }

  lemma {:induction false} FirstFitIs(cs: seq<Chunk>, l: Layout, i: nat)
    requires i <= |cs| && (forall j | 0 <= j < i :: !Fits(cs[j], l)) && (i < |cs| ==> Fits(cs[i], l))
    ensures FirstFit(cs, l) == i
  {
    var k := FirstFit(cs, l);
    assert k < |cs| ==> Fits(cs[k], l);
  }

  /** No chunk starts in a region that is apart from all regions of the heap. */
  lemma {:induction false} NoHeaderIn(s: State, r: Region)
    requires Inv(s) && r.lo < r.hi && forall q | q in s.regions :: RegionsApart(q, r)
    ensures forall i | 0 <= i < |s.chunks| :: s.chunks[i].addr != r.lo
  {
    forall i | 0 <= i < |s.chunks| ensures s.chunks[i].addr != r.lo {
      var k := TiledMember(s.chunks, s.regions, i);
      assert s.regions[k] in s.regions;
    }
  }

  /** `x & !(align - 1)` in a 64-bit word. */
  method MaskDown(x: u64, align: u64) returns (r: u64)
    requires IsPow2(align)
    ensures r == AlignDown(x, align)
  {
    ghost var k: nat :| align == Pow2(k);
    Powers();
    if k >= 64 { Pow2Monotone(64, k); }
    AndNotLow(64, k, x);
    r := And(x, Not(64, align - 1));
  }
}
