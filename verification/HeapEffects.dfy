/** What each operation on the heap does to the chunk list, said in chunks and powers of two alone. */
module HeapEffects {
  import opened Prelude
  import opened Bits
  import opened Heap
  import opened HeapRuns
  import opened Uefi

  /** `n` is the least power of two that holds `size` bytes and a header's 32. */
  ghost predicate Rounded(n: nat, size: nat)
  {
    IsPow2(n) && size <= n && 32 <= n && forall k: nat :: size <= Pow2(k) && 32 <= Pow2(k) ==> n <= Pow2(k)
  }

  /** Free, and with room for the payload, two headers and the alignment. */
  predicate Roomy(c: Chunk, n: nat, align: nat) { !c.used && c.size >= n + 64 + Max(align, 32) }

  /** The highest aligned address that leaves `n` bytes below `end`. */
  predicate Highest(p: nat, end: nat, n: nat, align: nat)
  {
    p % Max(align, 32) == 0 && p + n <= end < p + n + Max(align, 32)
  }

  lemma {:induction false} RequestIs(l: Layout, n: nat)
    requires ValidLayout(l) && l.size > 0 && Rounded(n, l.size)
    ensures RoundUpPow2(l.size).Some? && RequestSize(l) == n && RequestAlign(l) == Max(l.align, 32)
  {
    Powers();
    RoundUpFails(l.size);
    var k: nat :| n == Pow2(k);
    RoundUpIsLeast(l.size, k);
    var j: nat :| RoundUpPow2(l.size).value == Pow2(j);
    assert 32 == Pow2(5);
  }

  /** `provide` serves a request exactly from a free chunk with room, and puts the payload as high as it can. */
  lemma {:induction false} FitMeaning(c: Chunk, l: Layout, n: nat)
    requires ValidLayout(l) && Rounded(n, l.size)
    ensures Fits(c, l) <==> l.size > 0 && Roomy(c, n, l.align)
    ensures Fits(c, l) ==> Highest(Payload(c, l), c.addr + c.size, n, l.align)
  {
    RoundUpFails(l.size);
    if l.size > 0 {
      RequestIs(l, n);
      if Fits(c, l) { AlignDownFacts(End(c) - n, Max(l.align, 32)); }
    }
  }

  /** Chunk `i` is the first with room; its end becomes the payload at `p`, with padding behind it if any is left. */
  ghost predicate Served(s: State, t: State, l: Layout, n: nat, p: nat, i: nat)
  {
    && i < |s.chunks| && Roomy(s.chunks[i], n, l.align)
    && (forall j | 0 <= j < i :: !Roomy(s.chunks[j], n, l.align))
    && var c := s.chunks[i];
    var end := c.addr + c.size;
    && Highest(p, end, n, l.align)
    && t.regions == s.regions && t.live == s.live[p := l]
    && t.chunks == s.chunks[..i]
                   + ([Chunk(c.addr, p - 32 - c.addr, false), Chunk(p - 32, n + 32, true)]
                      + if p + n < end then [Chunk(p + n, end - (p + n), false)] else [])
                   + s.chunks[i + 1..]
  }

  /** The whole effect of a request that returned `r`: null only for an empty request or if no free chunk has room. */
  ghost predicate Allocates(s: State, l: Layout, r: Option<nat>, t: State)
  {
    forall n {:trigger Rounded(n, l.size)} | Rounded(n, l.size) ::
      && (r.None? <==> l.size == 0 || forall c | c in s.chunks :: !Roomy(c, n, l.align))
      && (r.None? ==> t == s)
      && (r.Some? ==> exists i :: Served(s, t, l, n, r.value, i))
  }

  lemma {:induction false} AllocMeaning(s: State, l: Layout)
    requires ValidLayout(l)
    ensures Allocates(s, l, AllocResult(s, l), Next(s, Alloc(l)))
  {
    forall n | Rounded(n, l.size)
      ensures AllocResult(s, l).None? <==> l.size == 0 || forall c | c in s.chunks :: !Roomy(c, n, l.align)
      ensures AllocResult(s, l).Some? ==> exists i :: Served(s, Next(s, Alloc(l)), l, n, AllocResult(s, l).value, i)
    {
      var i := FirstFit(s.chunks, l);
      forall c | c in s.chunks ensures Fits(c, l) <==> l.size > 0 && Roomy(c, n, l.align) { FitMeaning(c, l, n); }
      if i < |s.chunks| {
        assert s.chunks[i] in s.chunks;
        AllocServed(s, l, n);
      }
    }
  }

  lemma {:induction false} SplitIs(c: Chunk, l: Layout, n: nat)
    requires ValidLayout(l) && Rounded(n, l.size) && Fits(c, l)
    ensures var p, end := Payload(c, l), c.addr + c.size;
            && c.addr + 64 < p && p + n <= end
            && Split(c, l) == [Chunk(c.addr, p - 32 - c.addr, false), Chunk(p - 32, n + 32, true)]
                              + if p + n < end then [Chunk(p + n, end - (p + n), false)] else []
  {
    RoundUpFails(l.size);
    RequestIs(l, n);
    PayloadFacts(c, l);
  }

  lemma {:induction false} AllocServed(s: State, l: Layout, n: nat)
    requires ValidLayout(l) && Rounded(n, l.size) && AllocResult(s, l).Some?
    ensures Served(s, Next(s, Alloc(l)), l, n, AllocResult(s, l).value, FirstFit(s.chunks, l))
  {
    var i := FirstFit(s.chunks, l);
    FitMeaning(s.chunks[i], l, n);
    SplitIs(s.chunks[i], l, n);
    forall j | 0 <= j < i ensures !Roomy(s.chunks[j], n, l.align) { FitMeaning(s.chunks[j], l, n); }
  }

  /** The whole effect of freeing `p`: the chunk 32 bytes below it is free again and nothing else changes. */
  ghost predicate Frees(s: State, p: nat, t: State)
  {
    && t.live == s.live - {p} && t.regions == s.regions
    && exists i :: 0 <= i < |s.chunks| && s.chunks[i].addr + 32 == p && s.chunks[i].used
                   && t.chunks == s.chunks[i := s.chunks[i].(used := false)]
  }

  lemma {:induction false} FreeMeaning(s: State, p: nat)
    requires Inv(s) && p in s.live
    ensures Frees(s, p, Next(s, Free(p)))
  {
    var i := OwnerIndex(s.chunks, s.live, p);
    ReleaseOne(s.chunks, s.regions, i);
  }

  /** What was freed can be had again: right after a free no request is refused that the freed chunk has room for. */
  lemma {:induction false} FreedServes(ops: seq<Op>, p: nat, c: Chunk, l: Layout, n: nat)
    requires Legal(ops) && p in Run(ops).live && c in Run(ops).chunks && c.addr + 32 == p
    requires ValidLayout(l) && l.size > 0 && Rounded(n, l.size) && n + 64 + Max(l.align, 32) <= c.size
    ensures Legal(ops + [Free(p)]) && AllocResult(Run(ops + [Free(p)]), l).Some?
  {
    var s, t := Run(ops), Run(ops + [Free(p)]);
    assert (ops + [Free(p)])[..|ops|] == ops;
    RunInv(ops);
    FreeMeaning(s, p);
    var i :| 0 <= i < |s.chunks| && s.chunks[i].addr + 32 == p
             && t.chunks == s.chunks[i := s.chunks[i].(used := false)];
    var j :| 0 <= j < |s.chunks| && s.chunks[j] == c;
    DistinctAddresses(s.chunks, s.regions, i, j);
    AllocMeaning(t, l);
    assert t.chunks[i] in t.chunks && Roomy(t.chunks[i], n, l.align);
  }

  /** The free region a descriptor adds: none for page 0 alone, and one page is not enough. */
  predicate Gives(d: Descriptor, r: Region)
  {
    && r.lo == (if d.physicalStart == 0 then 4096 else d.physicalStart)
    && r.hi == d.physicalStart + 4096 * d.numberOfPages && r.lo + 4096 < r.hi
  }

  /** The whole effect of adding a descriptor's range. */
  ghost predicate Adds(s: State, d: Descriptor, t: State)
  {
    && t.live == s.live
    && (forall r | Gives(d, r) ::
          t.regions == [r] + s.regions && t.chunks == [Chunk(r.lo, r.hi - r.lo, false)] + s.chunks)
    && ((forall r :: !Gives(d, r)) ==> t == s)
  }

  lemma {:induction false} AddMeaning(s: State, d: Descriptor)
    ensures Adds(s, d, Next(s, Add(d.physicalStart, d.numberOfPages)))
  {
    var lo := if d.physicalStart == 0 then 4096 else d.physicalStart;
    var r := Region(lo, d.physicalStart + 4096 * d.numberOfPages);
    assert Gives(d, r) <==> DescriptorRegion(d.physicalStart, d.numberOfPages) == Some(r);
  }
}
