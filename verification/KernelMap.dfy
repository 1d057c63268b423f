/** The kernel's address space over its whole life: `init_paging`, then any number of `disable_cache` calls. */
module KernelMap {
  import opened Prelude
  import opened Uefi
  import opened PageTree
  import opened TableCount
  import opened Paging

  /** Pages below `end`, cut at the 48-bit window. */
  function PagesBelow(end: nat): nat { Min((end + 4095) / 4096, PAGES) }

  /** A range passed to `disable_cache`. */
  datatype IoRange = IoRange(start: u64, end: u64)

  /** Page-aligned, above page 0 and inside the 48-bit window. */
  predicate GoodRange(r: IoRange) { r.start % 4096 == 0 && 4096 <= r.start < 0x1_0000_0000_0000 }

  predicate Covered(p: nat, r: IoRange)
  {
    PageOf(r.start) <= p < PageOf(r.start) + PageCount(r.start, r.end)
  }

  ghost predicate CoveredBySome(p: nat, rs: seq<IoRange>)
  {
    exists i :: 0 <= i < |rs| && Covered(p, rs[i])
  }

  function InitialMap(f: Flat, end: u64): Flat
  {
    MapPages(MapPages(f, 0, PageCount(0, end), 0, ReadWriteKernel), 0, 1, 0, NotPresent)
  }

  function DisableCacheMap(f: Flat, r: IoRange): Flat
  {
    MapPages(f, PageOf(r.start), PageCount(r.start, r.end), r.start, ReadWriteIo)
  }

  /** The address space after initialisation and the given calls, in order. */
  function MapAfter(end: u64, rs: seq<IoRange>): Flat
  {
    if rs == [] then InitialMap(Blank(), end) else DisableCacheMap(MapAfter(end, rs[..|rs| - 1]), rs[|rs| - 1])
  }

  /** Page 0 is unmapped; a page is mapped exactly when it is below `end` or in an I/O range, and then to itself,
      writable, and uncached exactly when it is in an I/O range. */
  ghost function Identity(end: u64, rs: seq<IoRange>, p: nat): Option<Mapping>
  {
    if 0 < p && (p < PagesBelow(end) || CoveredBySome(p, rs))
    then Some(Mapping(4096 * p, true, CoveredBySome(p, rs), CoveredBySome(p, rs)))
    else None
  }

  ghost predicate IdentityMapped(f: Flat, end: u64, rs: seq<IoRange>, p: nat)
  {
    p in f && f[p] == Identity(end, rs, p)
  }

  lemma {:induction false} InitialIdentity(end: u64, p: nat)
    requires end > 0 && p < PAGES
    ensures IdentityMapped(InitialMap(Blank(), end), end, [], p)
  {
  }

  lemma {:induction false} GoodRangePages(r: IoRange, p: nat)
    requires GoodRange(r)
    ensures PageOf(r.start) * 4096 == r.start && PageOf(r.start) >= 1
    ensures Covered(p, r) ==> r.start + 4096 * (p - PageOf(r.start)) == 4096 * p && 0 < p < PAGES
  {
  }

  /** A range covers the page it starts on and every page of the window that starts before its end. */
  lemma {:induction false} CoveredMeaning(r: IoRange, p: nat)
    requires GoodRange(r)
    ensures Covered(p, r) <==> p < PAGES && r.start <= 4096 * p && (4096 * p == r.start || 4096 * p < r.end)
  {
    GoodRangePages(r, p);
    AlignedBound(r.end - r.start, p - PageOf(r.start));
  }

  lemma {:induction false} AlignedBound(size: int, k: int)
    ensures 4096 * k < size <==> k < (size + 4095) / 4096
  {
  }

  lemma {:induction false} CoveredExtend(p: nat, rs: seq<IoRange>, r: IoRange)
    ensures CoveredBySome(p, rs + [r]) <==> CoveredBySome(p, rs) || Covered(p, r)
  {
    var ss := rs + [r];
    if CoveredBySome(p, rs) {
      var i :| 0 <= i < |rs| && Covered(p, rs[i]);
      assert Covered(p, ss[i]);
    }
    if Covered(p, r) { assert Covered(p, ss[|rs|]); }
  }

  lemma {:induction false} DisableCacheKeeps(f: Flat, end: u64, rs: seq<IoRange>, r: IoRange, p: nat)
    requires IdentityMapped(f, end, rs, p) && GoodRange(r)
    ensures IdentityMapped(DisableCacheMap(f, r), end, rs + [r], p)
  {
    GoodRangePages(r, p);
    CoveredExtend(p, rs, r);
  }

  /** After initialisation and any page-aligned `disable_cache` calls above page 0, the address space is the
      identity. */
  lemma {:induction false} AlwaysIdentity(end: u64, rs: seq<IoRange>, p: nat)
    requires end > 0 && p < PAGES
    requires forall i | 0 <= i < |rs| :: GoodRange(rs[i])
    ensures IdentityMapped(MapAfter(end, rs), end, rs, p)
  {
    if rs == [] {
      InitialIdentity(end, p);
    } else {
      var n := |rs| - 1;
      AlwaysIdentity(end, rs[..n], p);
      DisableCacheKeeps(MapAfter(end, rs[..n]), end, rs[..n], rs[n], p);
      assert rs[..n] + [rs[n]] == rs;
    }
  }

  /* The live table: the processor walks it and sets flags in it between calls. */

  /** The tables in memory, with the place of each. */
  datatype Space = Space(mem: Memory, root: int, places: map<int, Place>)

  datatype Step =
    | Disable(range: IoRange)
    | Flagging(table: int, index: nat, flag: Flag)

  /** A `disable_cache` call may link tables in and changes the translation as specified; the processor may set the
      accessed or dirty flag of any present entry. */
  ghost predicate Takes(s: Space, step: Step, t: Space)
  {
    && t.root == s.root
    && match step
       case Disable(r) =>
         && GoodRange(r) && Wf(t.mem, t.root, t.places)
         && FlatOf(t.mem, t.root) == DisableCacheMap(FlatOf(s.mem, s.root), r)
       case Flagging(u, i, flag) =>
         && u in s.mem && i < 512 && i < |s.mem[u]| && IsPresent(s.mem[u][i])
         && t == s.(mem := Mark(s.mem, u, i, flag))
  }

  /** The ranges of the `disable_cache` calls among the steps. */
  function Ranges(steps: seq<Step>): seq<IoRange>
  {
    if steps == [] then []
    else Ranges(steps[..|steps| - 1]) + if steps[|steps| - 1].Disable? then [steps[|steps| - 1].range] else []
  }

  /** The states of a run: each step leads from one to the next. */
  ghost predicate Lives(spaces: seq<Space>, steps: seq<Step>, end: u64)
  {
    && |spaces| == |steps| + 1
    && Wf(spaces[0].mem, spaces[0].root, spaces[0].places)
    && FlatOf(spaces[0].mem, spaces[0].root) == MapAfter(end, [])
    && forall i | 0 <= i < |steps| :: Takes(spaces[i], steps[i], spaces[i + 1])
  }

  lemma {:induction false} RangesGood(spaces: seq<Space>, steps: seq<Step>, end: u64)
    requires Lives(spaces, steps, end)
    ensures forall i | 0 <= i < |Ranges(steps)| :: GoodRange(Ranges(steps)[i])
  {
    if steps != [] {
      var n := |steps| - 1;
      RangesGood(spaces[..n + 1], steps[..n], end);
      assert Takes(spaces[n], steps[n], spaces[n + 1]);
    }
  }

  /** In every interleaving of calls and flag updates the tree stays well-formed, and the translation is that of the
      calls alone. */
  lemma {:induction false} FlagsDoNotMatter(spaces: seq<Space>, steps: seq<Step>, end: u64)
    requires Lives(spaces, steps, end)
    ensures var s := spaces[|steps|];
            Wf(s.mem, s.root, s.places) && FlatOf(s.mem, s.root) == MapAfter(end, Ranges(steps))
  {
    if steps != [] {
      var n := |steps| - 1;
      FlagsDoNotMatter(spaces[..n + 1], steps[..n], end);
      StepMap(spaces[n], steps[n], spaces[n + 1], end, Ranges(steps[..n]));
    }
  }

  lemma {:induction false} StepMap(s: Space, step: Step, t: Space, end: u64, rs: seq<IoRange>)
    requires Takes(s, step, t) && Wf(s.mem, s.root, s.places) && FlatOf(s.mem, s.root) == MapAfter(end, rs)
    ensures Wf(t.mem, t.root, t.places)
    ensures FlatOf(t.mem, t.root) == MapAfter(end, rs + if step.Disable? then [step.range] else [])
  {
    match step
    case Disable(r) => assert (rs + [r])[..|rs|] == rs;
    case Flagging(u, i, flag) =>
      MarkEffect(s.mem, s.root, s.places, u, i, flag);
      assert rs + [] == rs;
  }

  /** What the processor sees, in every such run: the identity, writable, on exactly the pages below `end` and in I/O
      ranges but not page 0; everything else faults. */
  lemma {:induction false} ProcessorSeesIdentity(spaces: seq<Space>, steps: seq<Step>, end: u64, p: nat)
    requires Lives(spaces, steps, end) && end > 0 && p < PAGES
    ensures var s := spaces[|steps|];
            Walk(s.mem, s.root, 4, p) == Reading(Identity(end, Ranges(steps), p))
  {
    var s := spaces[|steps|];
    FlagsDoNotMatter(spaces, steps, end);
    RangesGood(spaces, steps, end);
    AlwaysIdentity(end, Ranges(steps), p);
    WalkIsLeaf(s.mem, s.root, s.places, p);
    assert FlatOf(s.mem, s.root)[p] == Leaf(s.mem, s.root, p);
  }

  /* The code that builds it. */

  function EndOf(d: Descriptor): nat { d.physicalStart + d.numberOfPages * 4096 }

  /** 4 GiB, or the end of the last conventional or loader range if that is higher. */
  ghost predicate EndsAt(memoryMap: seq<Descriptor>, end: nat)
  {
    && end >= 0x1_0000_0000
    && (forall d | d in memoryMap && (d.memoryType.ConventionalMemory? || d.memoryType.LoaderCode?
                                      || d.memoryType.LoaderData?) ::
          d.physicalStart + 4096 * d.numberOfPages <= end)
    && (end == 0x1_0000_0000
        || exists d :: d in memoryMap && (d.memoryType.ConventionalMemory? || d.memoryType.LoaderCode?
                                          || d.memoryType.LoaderData?)
                       && d.physicalStart + 4096 * d.numberOfPages == end)
  }

  /** Every page that starts below `end` but page 0 is mapped to itself, writable and cached; the rest is not mapped. */
  ghost predicate MapsBelow(f: Flat, end: nat)
  {
    forall p: nat | p < PAGES ::
      p in f && f[p] == if 0 < p && 4096 * p < end then Some(Mapping(4096 * p, true, false, false)) else None
  }

  /** Every page on which a conventional or loader range has a byte, page 0 excepted, is mapped to itself. */
  ghost predicate MapsMemory(f: Flat, memoryMap: seq<Descriptor>)
  {
    forall d, p: nat {:trigger f[p], d.memoryType} |
      && d in memoryMap && (d.memoryType.ConventionalMemory? || d.memoryType.LoaderCode? || d.memoryType.LoaderData?)
      && d.physicalStart < 4096 * p + 4096 && 4096 * p < d.physicalStart + 4096 * d.numberOfPages
      && 0 < p < PAGES && p in f ::
      f[p] == Some(Mapping(4096 * p, true, false, false))
  }

  lemma {:induction false} InitialMeaning(memoryMap: seq<Descriptor>, end: u64)
    requires EndsAt(memoryMap, end)
    ensures MapsBelow(MapAfter(end, []), end) && MapsMemory(MapAfter(end, []), memoryMap)
  {
    forall p: nat | p < PAGES
      ensures IdentityMapped(MapAfter(end, []), end, [], p) && (p < PagesBelow(end) <==> 4096 * p < end)
    {
      InitialIdentity(end, p);
    }
  }

  /** The loop of `init_paging`: the end of usable memory, at least 4 GiB. */
  method EndOfMemory(memoryMap: seq<Descriptor>) returns (end: u64)
    requires forall i | 0 <= i < |memoryMap| :: EndOf(memoryMap[i]) < WORD_LIMIT
    ensures EndsAt(memoryMap, end)
  {
    end := 0x1_0000_0000;
    for i := 0 to |memoryMap|
      invariant EndsAt(memoryMap[..i], end)
    {
      var e := memoryMap[i];
      assert memoryMap[..i + 1] == memoryMap[..i] + [e];
      match e.memoryType
      case ConventionalMemory | LoaderCode | LoaderData =>
        end := Max(end, e.physicalStart + e.numberOfPages * 4096);
      case OtherMemory =>
    }
    assert memoryMap[..|memoryMap|] == memoryMap;
  }

  /** `init_paging`: anything but `Ok` is a panic, and it succeeds exactly when the heap can supply the tables. */
  method InitPaging(memoryMap: seq<Descriptor>, address: int, supply: seq<int>, updates: seq<seq<Update>>)
    returns (table: PageTables, out: Outcome, end: u64)
    requires forall i | 0 <= i < |memoryMap| :: EndOf(memoryMap[i]) < WORD_LIMIT
    requires GoodSupply(address, supply)
    ensures table.Valid() && fresh(table) && EndsAt(memoryMap, end)
    ensures out.Ok? <==> |supply| >= TablesNeeded(0, PagesBelow(end))
    ensures out.Ok? ==> table.Translation() == MapAfter(end, [])
    ensures out.Ok? ==> MapsBelow(table.Translation(), end) && MapsMemory(table.Translation(), memoryMap)
    ensures !out.Ok? ==> out == OutOfMemory
  {
    table := new PageTables(address, supply, updates);
    end := EndOfMemory(memoryMap);
    ZeroCounts(end);
    BareAbsent(table.mem, table.root, 0, PagesBelow(end));
    InitialMeaning(memoryMap, end);
    out := MapKernel(table, end);
  }

  /** The two mappings of `init_paging`: all memory, then page 0 taken out again, for which no table is missing. */
  method MapKernel(table: PageTables, end: u64) returns (out: Outcome)
    requires table.Valid() && end > 0
    modifies table
    ensures table.Valid()
    ensures out.Ok? <==> |old(table.pool)| >= |Absent(old(table.mem), table.root, 0, PagesBelow(end))|
    ensures out.Ok? ==> table.Translation() == InitialMap(old(table.Translation()), end)
    ensures !out.Ok? ==> out == OutOfMemory
  {
    ghost var done;
    ZeroCounts(end);
    out, done := table.CreateMapping(0, end, 0, ReadWriteKernel);
    if out.Ok? {
      PageZeroMapped(table.mem, table.root, old(table.Translation()), PagesBelow(end));
      out, done := table.CreateMapping(0, 4096, 0, NotPresent);
    }
  }

  lemma {:induction false} ZeroCounts(end: u64)
    requires end > 0
    ensures PageOf(0) == 0 && PageCount(0, 4096) == 1 && 4096 * PageCount(0, end) <= WORD_LIMIT
    ensures PageCount(0, end) == PagesBelow(end) > 0
  {
  }

  /** Page 0 has a leaf table once it has been mapped. */
  lemma {:induction false} PageZeroMapped(mem: Memory, root: int, f: Flat, n: nat)
    requires n > 0 && 0 in f && FlatOf(mem, root) == MapPages(f, 0, n, 0, ReadWriteKernel)
    ensures Absent(mem, root, 0, 1) == {}
  {
    assert FlatOf(mem, root)[0] == Leaf(mem, root, 0);
    MappedAbsent(mem, root, 0, 1);
  }

  /** `disable_cache` on the current table: anything but `Ok` is a panic, and only an unaligned range can be refused.
      It needs memory only for tables that are missing: none if the range is mapped, as `NothingMissing` says. */
  method DisableCache(table: PageTables, start: u64, size: u64)
    returns (out: Outcome)
    requires table.Valid()
    requires start + size < WORD_LIMIT && 2 * start + 4096 * PageCount(start, start + size) <= WORD_LIMIT
    modifies table
    ensures table.Valid()
    ensures out.Ok? ==> table.Translation() == DisableCacheMap(old(table.Translation()), IoRange(start, start + size))
    ensures out.OutOfMemory? <==>
              |old(table.pool)| < MissingFor(old(table.mem), table.root, start, start + size, start)
    ensures !out.OutOfMemory? ==> (out.Ok? <==> start % 4096 == 0)
    ensures out.Misaligned? ==> table.Translation() == old(table.Translation())
  {
    out := MapUncached(table, start, start + size);
  }

  method MapUncached(table: PageTables, start: u64, end: u64)
    returns (out: Outcome)
    requires table.Valid() && 2 * start + 4096 * PageCount(start, end) <= WORD_LIMIT
    modifies table
    ensures table.Valid()
    ensures out.Ok? ==> table.Translation() == DisableCacheMap(old(table.Translation()), IoRange(start, end))
    ensures out.OutOfMemory? <==> |old(table.pool)| < MissingFor(old(table.mem), table.root, start, end, start)
    ensures !out.OutOfMemory? ==> (out.Ok? <==> start % 4096 == 0)
    ensures out.Misaligned? ==> table.Translation() == old(table.Translation())
  {
    ghost var done;
    NoPages(table.Translation(), PageOf(start), start);
    out, done := table.CreateMapping(start, end, start, ReadWriteIo);
  }

  lemma {:induction false} NoPages(f: Flat, first: nat, phys: int)
    ensures MapPages(f, first, 0, phys, ReadWriteIo) == f
  {
  }

  ghost predicate AllMapped(f: Flat, start: u64, end: u64)
  {
    forall p | PageOf(start) <= p < PageOf(start) + PageCount(start, end) :: p in f && f[p].Some?
  }

  /** On a range that is mapped already no table is missing, so `disable_cache` cannot run out of memory. */
  lemma {:induction false} NothingMissing(mem: Memory, root: int, start: u64, end: u64)
    ensures AllMapped(FlatOf(mem, root), start, end) ==> MissingFor(mem, root, start, end, start) == 0
  {
    if AllMapped(FlatOf(mem, root), start, end) {
      var first, n := PageOf(start), PageCount(start, end);
      forall p | first <= p < first + n ensures TableAt(mem, root, 1, p).Some? {
        assert FlatOf(mem, root)[p] == Leaf(mem, root, p);
      }
      MappedAbsent(mem, root, first, if start % 4096 == 0 then n else 1);
    }
  }

  /** A successful call is a step of the live table, whatever flags the processor has set before it. */
  method DisableCacheLive(table: PageTables, start: u64, size: u64) returns (out: Outcome)
    requires table.Valid() && start + size < WORD_LIMIT && GoodRange(IoRange(start, start + size))
    requires 2 * start + 4096 * PageCount(start, start + size) <= WORD_LIMIT
    modifies table
    ensures table.Valid() && !out.Misaligned?
    ensures out.Ok? ==> Takes(old(SpaceOf(table)), Disable(IoRange(start, start + size)), SpaceOf(table))
  {
    out := DisableCache(table, start, size);
  }

  ghost function SpaceOf(table: PageTables): Space
    reads table
  {
    Space(table.mem, table.root, table.places)
  }
}
