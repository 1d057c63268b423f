/** Building page tables: `create_mapping` refines "update this range of pages" on the flat translation. */
module Paging {
  import opened Prelude
  import opened Bits
  import opened PageTree
  import opened TableCount

  datatype PageAttr = NotPresent | ReadWriteKernel | ReadWriteIo

  /** Entry bits: present 1, writable 2, write-through 8, cache-disable 16. */
  function AttrBits(attr: PageAttr): nat
  {
    match attr
    case NotPresent => 0
    case ReadWriteKernel => 3
    case ReadWriteIo => 27
  }

  /** What a leaf entry made from an aligned address and an attribute says. */
  function AttrMapping(phys: int, attr: PageAttr): Option<Mapping>
  {
    match attr
    case NotPresent => None
    case ReadWriteKernel => Some(Mapping(phys, true, false, false))
    case ReadWriteIo => Some(Mapping(phys, true, true, true))
  }

  /* The flat specification. */

  /** The translation with `n` pages from `first` mapped in order to the frames from `phys` on. */
  function MapPages(f: Flat, first: nat, n: nat, phys: int, attr: PageAttr): Flat
  {
    map p | p in f :: if first <= p < first + n then AttrMapping(phys + 4096 * (p - first), attr) else f[p]
  }

  /** Page of the 48-bit window an address falls on. */
  function PageOf(addr: u64): nat { (addr / 4096) % 0x10_0000_0000 }

  /** Pages a call touches: `virt_start .. virt_end` rounded up to pages, at least one, cut at the window's end. */
  function PageCount(virtStart: u64, virtEnd: u64): nat
  {
    Min(Max(1, (virtEnd - virtStart + 4095) / 4096), PAGES - PageOf(virtStart))
  }

  /** The page numbers `first .. first + n` in order. */
  function PageRun(first: nat, n: nat): seq<nat>
  {
    if n == 0 then [] else PageRun(first, n - 1) + [first + n - 1]
  }

  /* Indices. */

  function CalcIndex(level: nat, addr: u64): nat
    requires 1 <= level <= 4
  {
    And(Shr(addr, (level - 1) * 9 + 12), 0x1FF)
  }

  lemma {:induction false} ShrNine(x: nat)
    ensures Shr(x, 9) == x / 512 && And(x, 0x1FF) == x % 512
  {
    Powers();
    ShiftIsDivision(x, 9);
    AndLow(9, x);
  }

  lemma {:induction false} ShrTwelve(x: nat)
    ensures Shr(x, 12) == x / 4096 && And(x, 0xFFF) == x % 4096
  {
    Powers();
    ShiftIsDivision(x, 12);
    AndLow(12, x);
  }

  lemma {:induction false} ShrUp(x: nat, n: nat)
    ensures Shr(x, n * 9 + 12) == Up(x / 4096, n)
  {
    if n == 0 {
      ShrTwelve(x);
    } else {
      ShrUp(x, n - 1);
      ShrShr(x, (n - 1) * 9 + 12, 9);
      ShrNine(Shr(x, (n - 1) * 9 + 12));
    }
  }

  /** Indices do not see the bits above the 48-bit window. */
  lemma {:induction false} UpWindow(x: nat, n: nat)
    requires n <= 3
    ensures Up(x, n) % 512 == Up(x % 0x10_0000_0000, n) % 512
  {
    var q, r := x / 0x10_0000_0000, x % 0x10_0000_0000;
    assert x == 0x10_0000_0000 * q + r;
    assert Up(x, 1) == 0x800_0000 * q + Up(r, 1);
    assert Up(x, 2) == 0x4_0000 * q + Up(r, 2);
    assert Up(x, 3) == 512 * q + Up(r, 3);
  }

  /** The shift and mask of `calc_index` pick the index of the address's page. */
  lemma {:induction false} CalcIndexIs(level: nat, addr: u64)
    requires 1 <= level <= 4
    ensures CalcIndex(level, addr) == Index(level, PageOf(addr))
  {
    ShrUp(addr, level - 1);
    ShrNine(Up(addr / 4096, level - 1));
    UpWindow(addr / 4096, level - 1);
  }

  /* Addresses along a range. */

  lemma {:induction false} PageAlong(virtStart: u64, k: nat)
    requires PageOf(virtStart) + k < PAGES
    ensures virtStart + 4096 * k < WORD_LIMIT
    ensures PageOf(virtStart + 4096 * k) == PageOf(virtStart) + k
  {
    var x := virtStart / 4096;
    assert (virtStart + 4096 * k) / 4096 == x + k;
    assert x < 0x10_0000_0000_0000;
    var q, r := x / 0x10_0000_0000, x % 0x10_0000_0000;
    assert x + k == 0x10_0000_0000 * q + (r + k);
  }

  /** While pages are left the next address is below `virt_end`; after the last it is not, unless the window ended. */
  lemma {:induction false} CountIsExact(virtStart: u64, virtEnd: u64, k: nat)
    requires 1 <= k <= PageCount(virtStart, virtEnd)
    ensures k < PageCount(virtStart, virtEnd) ==> virtStart + 4096 * k < virtEnd
    ensures k == PageCount(virtStart, virtEnd) ==>
              virtStart + 4096 * k >= virtEnd || PageOf(virtStart) + k == PAGES
  {
  }

  lemma {:induction false} LastIndices(level: nat)
    requires 1 <= level <= 4
    ensures Index(level, PAGES - 1) == 511
  {
    var p := PAGES - 1;
    assert Up(p, 1) == 0x7FF_FFFF;
    assert Up(p, 2) == 0x3_FFFF;
    assert Up(p, 3) == 511;
  }

  /** Stepping to the next page of a lower table either stays in the current table or leaves it at its last entry. */
  lemma {:induction false} UpStep(q: nat, level: nat)
    requires q > 0 && level >= 1 && Up(q, level - 1) == Up(q - 1, level - 1) + 1
    ensures Up(q, level) == Up(q - 1, level) + if Index(level, q - 1) == 511 then 1 else 0
  {
  }

  datatype Outcome = Ok | Misaligned | OutOfMemory

  /** A call of `create_mapping`: the pages it is to map, and the translation, leaf writes, memory and free pages it
      found at the start. */
  datatype Origin = Origin(first: nat, count: nat, flat: Flat, writes: seq<nat>, mem: Memory, pool: seq<int>)

  /** The pages of the call are those of its range of addresses. */
  ghost predicate Spans(o: Origin, virtStart: u64, virtEnd: u64)
  {
    forall key {:trigger Opened(key)} | Opened(key) ::
      o.first == PageOf(virtStart) && o.count == PageCount(virtStart, virtEnd)
  }

  /** The processor setting a flag in entry `index` of a table. */
  datatype Update = Update(table: int, index: nat, flag: Flag)

  /** What `populate` did. */
  datatype Populated = Linked(table: int) | AlreadyPresent | NoMemory

  /** Page-aligned distinct addresses: that of the root, and those the heap will return for new tables, in order. */
  predicate GoodSupply(address: int, supply: seq<int>)
  {
    && address % 4096 == 0 && 0 < address < WORD_LIMIT && address !in supply
    && (forall i | 0 <= i < |supply| :: supply[i] % 4096 == 0 && 0 < supply[i] < WORD_LIMIT)
    && (forall i, j | 0 <= i < j < |supply| :: supply[i] != supply[j])
  }

  /** Page-aligned distinct addresses that are not tables. */
  ghost predicate FreePages(mem: Memory, pool: seq<int>)
  {
    && (forall i | 0 <= i < |pool| :: pool[i] % 4096 == 0 && 0 < pool[i] < WORD_LIMIT && pool[i] !in mem)
    && (forall i, j | 0 <= i < j < |pool| :: pool[i] != pool[j])
  }

  /** Everything linking the first free page in as a table below page `p` changes and keeps. */
  lemma {:induction false} NextLinked(mem: Memory, root: int, places: map<int, Place>, pool: seq<int>,
                                      linked: set<Place>, o: Origin, t: int, level: nat, p: nat)
    requires Wf(mem, root, places) && FreePages(mem, pool) && pool != []
    requires Grown(o.mem, o.pool, mem, pool, linked, root)
    requires 2 <= level <= 4 && p < PAGES && TableAt(mem, root, level, p) == Some(t)
    requires TableAt(mem, root, level - 1, p).None?
    ensures t in mem && Index(level, p) < |mem[t]| && t in places && places[t].level > 1
    ensures var i, a := Index(level, p), pool[0];
            var mem' := Link(mem, t, i, a);
            && Wf(mem', root, LinkPlaces(places, t, i, a)) && FreePages(mem', pool[1..])
            && FlatOf(mem', root) == FlatOf(mem, root) && Keeps(mem, mem', root)
            && TableAt(mem', root, level - 1, p) == Some(a)
            && Grown(o.mem, o.pool, mem', pool[1..], linked + {Place(level - 1, Up(p, level - 1))}, root)
  {
    TablePlace(mem, root, places, level, p);
    LinkEffect(mem, root, places, t, level, p, pool[0]);
    GrownLink(o.mem, o.pool, mem, pool, linked, root, places, t, level, p);
  }

  lemma {:induction false} BareRoot(mem: Memory, root: int, level: nat, p: nat)
    requires mem == map[root := Zeroed()] && 1 <= level < 4
    ensures TableAt(mem, root, level, p).None?
    decreases 4 - level
  {
    if level < 3 { BareRoot(mem, root, level + 1, p); }
  }

  class PageTables {
    var mem: Memory
    const root: int
    /** Page-aligned addresses the heap will return for new tables, in order. */
    var pool: seq<int>
    /** Flag updates the processor will make, in the groups in which they fall between the steps of the code. */
    var updates: seq<seq<Update>>
    ghost var places: map<int, Place>
    /** Pages whose leaf entry was written, in order. */
    ghost var leafWrites: seq<nat>
    /** The tables linked in by the current call of `create_mapping`. */
    ghost var linked: set<Place>

    ghost predicate Valid()
      reads this
    {
      Wf(mem, root, places) && FreePages(mem, pool)
    }

    ghost function Translation(): Flat
      reads this
    {
      FlatOf(mem, root)
    }

    /** `PML4::new`: a zeroed root table at `address`; no page is mapped and every other table is missing. */
    constructor (address: int, supply: seq<int>, updates: seq<seq<Update>>)
      requires GoodSupply(address, supply)
      ensures Valid() && leafWrites == [] && Translation() == Blank() && pool == supply
      ensures forall level, p | 1 <= level < 4 && 0 <= p < PAGES :: TableAt(mem, root, level, p).None?
    {
      mem := map[address := Zeroed()];
      root := address;
      pool := supply;
      this.updates := updates;
      places := map[address := Place(4, 0)];
      leafWrites, linked := [], {};
      new;
      forall level, p | 1 <= level < 4 && 0 <= p < PAGES ensures TableAt(mem, root, level, p).None? {
        BareRoot(mem, root, level, p);
      }
    }

    /** `ensure_populated` and `table_mut`: the table entry `index` points to, linking in a zeroed one if it is empty.
        `None` if the heap has no memory for it. */
    method EnsurePopulated(table: int, index: nat, ghost level: nat, ghost p: nat, ghost o: Origin)
      returns (next: Option<int>)
      requires Valid() && Since(o) && 2 <= level <= 4 && p < PAGES
      requires TableAt(mem, root, level, p) == Some(table) && index == Index(level, p)
      modifies this
      ensures Valid() && Since(o) && Translation() == old(Translation()) && leafWrites == old(leafWrites)
      ensures Keeps(old(mem), mem, root)
      ensures next.Some? ==> TableAt(mem, root, level - 1, p) == next
      ensures next.None? <==> TableAt(old(mem), root, level - 1, p).None? && old(pool) == []
      ensures next.None? ==> mem == old(mem) && pool == [] && TableAt(mem, root, 1, p).None?
      ensures pool == if TableAt(old(mem), root, level - 1, p).None? && old(pool) != [] then old(pool)[1..]
                      else old(pool)
      ensures linked == old(linked) || linked == old(linked) + {Place(level - 1, Up(p, level - 1))}
    {
      TablePlace(mem, root, places, level, p);
      next := TableMut(mem[table][index]);
      if next.None? {
        var made := Populate(table, index, level, p, o);
        if made.Linked? {
          next := Some(made.table);
        } else {
          NoneBelow(mem, root, level - 1, p);
        }
      }
    }

    /** `populate`: links a zeroed table into an empty entry, and refuses an entry that is already present. */
    method Populate(table: int, index: nat, ghost level: nat, ghost p: nat, ghost o: Origin) returns (made: Populated)
      requires Valid() && Since(o) && 2 <= level <= 4 && p < PAGES
      requires TableAt(mem, root, level, p) == Some(table) && index == Index(level, p)
      modifies this
      ensures Valid() && Since(o) && Translation() == old(Translation()) && leafWrites == old(leafWrites)
      ensures Keeps(old(mem), mem, root)
      ensures made.AlreadyPresent? <==> TableAt(old(mem), root, level - 1, p).Some?
      ensures made.NoMemory? <==> TableAt(old(mem), root, level - 1, p).None? && old(pool) == []
      ensures made.Linked? ==> TableAt(mem, root, level - 1, p) == Some(made.table)
      ensures made.Linked? ==> pool == old(pool)[1..] && linked == old(linked) + {Place(level - 1, Up(p, level - 1))}
      ensures table in old(mem) && index < |old(mem)[table]|
      ensures made.Linked? ==>
                mem == old(mem)[table := old(mem)[table][index := made.table + 3]][made.table := Zeroed()]
      ensures !made.Linked? ==> mem == old(mem) && pool == old(pool) && linked == old(linked)
    {
      TablePlace(mem, root, places, level, p);
      var present := TableMut(mem[table][index]);
      if present.Some? {
        made := AlreadyPresent;
      } else if pool == [] {
        made := NoMemory;
      } else {
        made := Linked(pool[0]);
        LinkNext(table, index, level, p, o);
      }
    }

    /** The new table takes the first free page. */
    method LinkNext(table: int, index: nat, ghost level: nat, ghost p: nat, ghost o: Origin)
      requires Valid() && Since(o) && 2 <= level <= 4 && p < PAGES && pool != []
      requires TableAt(mem, root, level, p) == Some(table) && index == Index(level, p)
      requires table in mem && index < |mem[table]| && !IsPresent(mem[table][index])
      modifies this
      ensures Valid() && Since(o) && Translation() == old(Translation()) && leafWrites == old(leafWrites)
      ensures Keeps(old(mem), mem, root) && TableAt(mem, root, level - 1, p) == Some(old(pool)[0])
      ensures pool == old(pool)[1..] && linked == old(linked) + {Place(level - 1, Up(p, level - 1))}
      ensures mem == Link(old(mem), table, index, old(pool)[0])
    {
      var a := pool[0];
      NextLinked(mem, root, places, pool, linked, o, table, level, p);
      StoreTable(table, index, a);
      places := LinkPlaces(places, table, index, a);
      pool := pool[1..];
      linked := linked + {Place(level - 1, Up(p, level - 1))};
    }

    /** Zeroes the page at `a` and writes its address, present and writable, into an entry. */
    method StoreTable(table: int, index: nat, a: u64)
      requires table in mem && index < |mem[table]| && a % 4096 == 0
      modifies this`mem
      ensures mem == Link(old(mem), table, index, a)
    {
      var entry := WithFlags(a, 3);
      mem := mem[table := mem[table][index := entry]][a := Zeroed()];
    }

    /** `set_page` on the leaf entry of page `p`. */
    method SetPage(table: int, index: nat, phys: u64, attr: PageAttr, ghost p: nat) returns (out: Outcome)
      requires Valid() && p < PAGES && TableAt(mem, root, 1, p) == Some(table) && index == Index(1, p)
      modifies this`mem, this`leafWrites
      ensures Valid() && SamePaths(old(mem), mem, root) && mem.Keys == old(mem).Keys
      ensures out == if phys % 4096 == 0 then Ok else Misaligned
      ensures out.Ok? ==> Translation() == old(Translation())[p := AttrMapping(phys, attr)]
      ensures out.Ok? ==> leafWrites == old(leafWrites) + [p]
      ensures table in old(mem) && index < |old(mem)[table]|
      ensures out.Ok? ==>
                mem == old(mem)[table := old(mem)[table][index := phys + match attr case NotPresent => 0
                                                                          case ReadWriteKernel => 3
                                                                          case ReadWriteIo => 27]]
      ensures out.Misaligned? ==> mem == old(mem) && leafWrites == old(leafWrites)
    {
      var offset := LowBits(phys);
      if offset != 0 {
        out := Misaligned;
      } else {
        var e := LeafWord(phys, attr);
        TablePlace(mem, root, places, 1, p);
        WriteLeaf(table, index, e, p, AttrMapping(phys, attr));
        out := Ok;
      }
    }

    /** Overwrites the leaf entry of page `p` with a value that stands for `v`. */
    method WriteLeaf(table: int, index: nat, e: u64, ghost p: nat, ghost v: Option<Mapping>)
      requires Valid() && p < PAGES && TableAt(mem, root, 1, p) == Some(table) && index == Index(1, p)
      requires v == EntryMapping(e)
      modifies this`mem, this`leafWrites
      ensures Valid() && SamePaths(old(mem), mem, root) && mem.Keys == old(mem).Keys
      ensures Translation() == old(Translation())[p := v] && leafWrites == old(leafWrites) + [p]
      ensures table in old(mem) && index < |old(mem)[table]|
      ensures mem == old(mem)[table := old(mem)[table][index := e]]
    {
      SetLeafEffect(mem, root, places, table, e, p, v);
      mem := mem[table := mem[table][index := e]];
      leafWrites := leafWrites + [p];
      assert mem == SetEntry(old(mem), table, p % 512, e);
    }

    /** The processor sets the accessed or dirty flag of a present entry; nothing the kernel relies on changes. */
    method ProcessorMarks(u: Update)
      requires Valid()
      modifies this`mem
      ensures Valid() && Translation() == old(Translation()) && SamePaths(old(mem), mem, root)
      ensures mem.Keys == old(mem).Keys
      ensures mem == if u.table in old(mem) && u.index < 512 && IsPresent(old(mem)[u.table][u.index])
                     then Mark(old(mem), u.table, u.index, u.flag) else old(mem)
    {
      if u.table in mem && u.index < 512 && IsPresent(mem[u.table][u.index]) {
        MarkEffect(mem, root, places, u.table, u.index, u.flag);
        mem := Mark(mem, u.table, u.index, u.flag);
      }
    }

    /** The next group of flag updates. */
    method ProcessorTurn()
      requires Valid()
      modifies this`mem, this`updates
      ensures Valid() && Translation() == old(Translation()) && SamePaths(old(mem), mem, root)
      ensures mem.Keys == old(mem).Keys
    {
      if updates == [] {
        return;
      }
      var group := updates[0];
      updates := updates[1..];
      for i := 0 to |group|
        invariant Valid() && Translation() == old(Translation()) && SamePaths(old(mem), mem, root)
        invariant mem.Keys == old(mem).Keys
      {
        ghost var mem' := mem;
        ProcessorMarks(group[i]);
        SamePathsTwice(old(mem), mem', mem, root);
      }
    }

    /** Whatever flags the processor sets before an entry is looked at, the loops know the same. */
    method Await(level: nat, table: int, addr: u64, virtStart: u64, virtEnd: u64, ghost o: Origin, ghost phys: u64,
                 ghost attr: PageAttr, ghost k: nat)
      requires Ready(level, table, addr, virtStart, virtEnd, o, phys, attr, k)
      modifies this`mem, this`updates
      ensures Ready(level, table, addr, virtStart, virtEnd, o, phys, attr, k) && Keeps(old(mem), mem, root)
    {
      assert Opened(0) && OnPath(level, o.first + k);
      ProcessorTurn();
      GrownLeaf(o.mem, o.pool, old(mem), pool, linked, root, mem);
      SameKeeps(old(mem), mem, root, o.first, o.first + k);
    }

    /** The pages taken so far are the tables linked in so far. */
    ghost predicate Since(o: Origin)
      reads this
    {
      Grown(o.mem, o.pool, mem, pool, linked, root)
    }

    /** The state after `k` pages of the call. */
    ghost predicate Progress(o: Origin, k: nat, phys: int, attr: PageAttr)
      reads this
    {
      forall key {:trigger Opened(key)} | Opened(key) ::
        && Valid() && Since(o) && Reached(mem, root, o.first, o.first + k)
        && Mapped(Translation(), leafWrites, o, k, phys, attr)
    }

    /** What a loop over the entries of a table, or the body of one, says after pages `k0` to `k` of the range: no table
        was linked in off the paths of the pages done and the one it stopped at. */
    ghost predicate Filled(out: Outcome, o: Origin, phys: u64, attr: PageAttr, k0: nat, k: nat)
      reads this
    {
      match out
      case Ok => k0 <= k <= o.count && Progress(o, k, phys, attr) && Within(linked, o.first, k) && phys % 4096 == 0
      case Misaligned =>
        && phys % 4096 != 0 && k == k0 < o.count && Progress(o, k, phys, attr)
        && Within(linked, o.first, k + 1) && TableAt(mem, root, 1, o.first + k).Some?
      case OutOfMemory =>
        && (phys % 4096 != 0 ==> k == k0) && k0 <= k < o.count && Progress(o, k, phys, attr)
        && pool == [] && Within(linked, o.first, k + 1) && TableAt(mem, root, 1, o.first + k).None?
    }

    /** What the loops know when they look at an entry: `k` pages are done and `table` is on the path of the next. */
    ghost predicate Ready(level: nat, table: int, addr: u64, virtStart: u64, virtEnd: u64, o: Origin, phys: u64,
                          attr: PageAttr, k: nat)
      reads this
    {
      && 1 <= level <= 4 && k < o.count && addr == virtStart + 4096 * k
      && Spans(o, virtStart, virtEnd) && o.first + o.count <= PAGES && phys + virtStart + 4096 * o.count <= WORD_LIMIT
      && (forall p: nat | p < PAGES :: p in o.flat)
      && Progress(o, k, phys, attr) && Within(linked, o.first, k + 1)
      && TableAt(mem, root, level, o.first + k) == Some(table)
    }

    /** The loop of `create_mapping` over one table of level `level`. It starts at page `k0` of the range and returns
        where it stopped: at the end of the range, or behind the last entry of this table. */
    method FillTable(level: nat, table: int, start: u64, virtStart: u64, virtEnd: u64, phys: u64, attr: PageAttr,
                     ghost o: Origin, ghost k0: nat)
      returns (out: Outcome, addr: u64, ghost k: nat)
      requires Ready(level, table, start, virtStart, virtEnd, o, phys, attr, k0)
      modifies this
      ensures Filled(out, o, phys, attr, k0, k) && Keeps(old(mem), mem, root)
      ensures out.Ok? ==> Stopped(level, addr, virtStart, o.first, o.count, k0, k)
      decreases level, 2
    {
      addr, k := start, k0;
      while true
        invariant k0 <= k && SameTable(level, o.first + k0, o.first + k)
        invariant Ready(level, table, addr, virtStart, virtEnd, o, phys, attr, k) && Keeps(old(mem), mem, root)
        invariant k0 < k ==> phys % 4096 == 0
        decreases o.count - k
      {
        ghost var k', mem' := k, mem;
        var index := IndexAt(level, addr, virtStart, virtEnd, o, k);
        out, addr, k := FillStep(level, table, index, addr, virtStart, virtEnd, phys, attr, o, k);
        KeepsTwice(old(mem), mem', mem, root);
        if !out.Ok? {
          return;
        }
        StoppedSince(level, addr, virtStart, o.first, o.count, k0, k', k);
        if index + 1 >= 512 || addr >= virtEnd {
          break;
        }
      }
    }

    /** One iteration of a loop, with what its break test then tells. */
    method FillStep(level: nat, table: int, index: nat, start: u64, virtStart: u64, virtEnd: u64, phys: u64,
                    attr: PageAttr, ghost o: Origin, ghost k0: nat)
      returns (out: Outcome, addr: u64, ghost k: nat)
      requires Ready(level, table, start, virtStart, virtEnd, o, phys, attr, k0)
      requires index == Index(level, o.first + k0)
      modifies this
      ensures Filled(out, o, phys, attr, k0, k) && Keeps(old(mem), mem, root)
      ensures out.Ok? ==> k0 < k
      ensures out.Ok? && (index + 1 >= 512 || addr >= virtEnd) ==>
                Stopped(level, addr, virtStart, o.first, o.count, k0, k)
      ensures out.Ok? && !(index + 1 >= 512 || addr >= virtEnd) ==>
                && Ready(level, table, addr, virtStart, virtEnd, o, phys, attr, k)
                && SameTable(level, o.first + k0, o.first + k)
      decreases level, 1
    {
      Await(level, table, start, virtStart, virtEnd, o, phys, attr, k0);
      ghost var mem' := mem;
      assert TableAt(mem, root, level, o.first + k0) == Some(table);
      out, addr, k := FillEntry(level, table, index, start, virtStart, virtEnd, phys, attr, o, k0);
      KeepsTwice(old(mem), mem', mem, root);
      if out.Ok? {
        AfterEntry(level, index, addr, virtStart, virtEnd, o, k0, k);
        if !(index + 1 >= 512 || addr >= virtEnd) {
          StillOnPath(mem', mem, root, level, o.first + k0, o.first + k);
          WithinMore(linked, o.first, k, k + 1);
        }
      }
    }

    /** The body of a loop: at the leaves it writes one entry, above them it runs the loop over the next table. */
    method FillEntry(level: nat, table: int, index: nat, start: u64, virtStart: u64, virtEnd: u64, phys: u64,
                     attr: PageAttr, ghost o: Origin, ghost k0: nat)
      returns (out: Outcome, addr: u64, ghost k: nat)
      requires Ready(level, table, start, virtStart, virtEnd, o, phys, attr, k0)
      requires index == Index(level, o.first + k0)
      modifies this
      ensures Filled(out, o, phys, attr, k0, k) && Keeps(old(mem), mem, root)
      ensures out.Ok? ==> Stopped(level - 1, addr, virtStart, o.first, o.count, k0, k)
      decreases level, 0
    {
      if level == 1 {
        out, addr, k := FillPage(table, index, start, virtStart, virtEnd, phys, attr, o, k0);
      } else {
        out, addr, k := FillBelow(level, table, index, start, virtStart, virtEnd, phys, attr, o, k0);
      }
    }

    /** At the leaves: one page. */
    method FillPage(table: int, index: nat, start: u64, virtStart: u64, virtEnd: u64, phys: u64, attr: PageAttr,
                    ghost o: Origin, ghost k0: nat)
      returns (out: Outcome, addr: u64, ghost k: nat)
      requires Ready(1, table, start, virtStart, virtEnd, o, phys, attr, k0) && index == Index(1, o.first + k0)
      modifies this`mem, this`leafWrites
      ensures Filled(out, o, phys, attr, k0, k) && Keeps(old(mem), mem, root)
      ensures out.Ok? ==> Stopped(0, addr, virtStart, o.first, o.count, k0, k)
    {
      out, k := FillLeaf(table, index, phys + start - virtStart, phys, attr, o, k0);
      addr := NextPage(out, start, virtStart, o, k0, k);
    }

    /** Above the leaves: the loop over the next table, linked in first if need be. */
    method FillBelow(level: nat, table: int, index: nat, start: u64, virtStart: u64, virtEnd: u64, phys: u64,
                     attr: PageAttr, ghost o: Origin, ghost k0: nat)
      returns (out: Outcome, addr: u64, ghost k: nat)
      requires Ready(level, table, start, virtStart, virtEnd, o, phys, attr, k0) && level > 1
      requires index == Index(level, o.first + k0)
      modifies this
      ensures Filled(out, o, phys, attr, k0, k) && Keeps(old(mem), mem, root)
      ensures out.Ok? ==> Stopped(level - 1, addr, virtStart, o.first, o.count, k0, k)
      decreases level - 1, 3
    {
      var next := Descend(level, table, index, phys, attr, o, k0);
      if next.None? {
        out, addr, k := OutOfMemory, start, k0;
      } else {
        ghost var mem' := mem;
        out, addr, k := FillTable(level - 1, next.value, start, virtStart, virtEnd, phys, attr, o, k0);
        KeepsTwice(old(mem), mem', mem, root);
      }
    }

    /** To the next table on the path of page `k` of the range. */
    method Descend(level: nat, table: int, index: nat, phys: u64, attr: PageAttr, ghost o: Origin, ghost k: nat)
      returns (next: Option<int>)
      requires 2 <= level <= 4 && k < o.count && o.first + o.count <= PAGES
      requires Progress(o, k, phys, attr) && Within(linked, o.first, k + 1)
      requires TableAt(mem, root, level, o.first + k) == Some(table) && index == Index(level, o.first + k)
      modifies this
      ensures Keeps(old(mem), mem, root) && Progress(o, k, phys, attr) && Within(linked, o.first, k + 1)
      ensures next.Some? ==> TableAt(mem, root, level - 1, o.first + k) == next
      ensures next.None? ==> pool == [] && TableAt(mem, root, 1, o.first + k).None?
    {
      ghost var p := o.first + k;
      assert Opened(0);
      WithinLink(linked, o.first, k, level - 1);
      next := EnsurePopulated(table, index, level, p, o);
      ReachedKept(old(mem), mem, root, o.first, p);
    }

    /** One leaf write, on page `k0` of the range. */
    method FillLeaf(table: int, index: nat, physAddr: u64, ghost phys: u64, attr: PageAttr, ghost o: Origin,
                    ghost k0: nat)
      returns (out: Outcome, ghost k: nat)
      requires Progress(o, k0, phys, attr) && Within(linked, o.first, k0 + 1)
      requires k0 < o.count && o.first + o.count <= PAGES && o.first + k0 in o.flat
      requires TableAt(mem, root, 1, o.first + k0) == Some(table) && index == Index(1, o.first + k0)
      requires physAddr == phys + 4096 * k0
      modifies this`mem, this`leafWrites
      ensures Filled(out, o, phys, attr, k0, k) && Keeps(old(mem), mem, root)
      ensures out.Ok? ==> k == k0 + 1
    {
      out := WriteNext(table, index, physAddr, phys, attr, o, k0);
      AlignedAlong(phys, k0);
      k := if out.Ok? then k0 + 1 else k0;
    }

    method WriteNext(table: int, index: nat, physAddr: u64, ghost phys: u64, attr: PageAttr, ghost o: Origin,
                     ghost k: nat)
      returns (out: Outcome)
      requires Progress(o, k, phys, attr) && o.first + k < PAGES && o.first + k in o.flat
      requires TableAt(mem, root, 1, o.first + k) == Some(table) && index == Index(1, o.first + k)
      requires physAddr == phys + 4096 * k
      modifies this`mem, this`leafWrites
      ensures out == if physAddr % 4096 == 0 then Ok else Misaligned
      ensures Progress(o, if out.Ok? then k + 1 else k, phys, attr)
      ensures TableAt(mem, root, 1, o.first + k).Some? && Keeps(old(mem), mem, root)
    {
      assert Opened(0);
      MapNextPage(o, Translation(), leafWrites, k, phys, physAddr, attr);
      out := SetPage(table, index, physAddr, attr, o.first + k);
      GrownLeaf(o.mem, o.pool, old(mem), pool, linked, root, mem);
      LeafReached(old(mem), mem, root, o.first, o.first + k);
    }

    /** `create_mapping`: maps the pages of the range in order, one leaf write each, and changes no other translation.
        It refuses an unaligned physical address at the first page, and runs out of memory exactly when the heap cannot
        supply the tables that are missing on the paths of the pages it would touch. Of the heap it takes just these. */
    method CreateMapping(virtStart: u64, virtEnd: u64, phys: u64, attr: PageAttr)
      returns (out: Outcome, ghost done: nat)
      requires Valid()
      requires phys + virtStart + 4096 * PageCount(virtStart, virtEnd) <= WORD_LIMIT
      modifies this
      ensures Valid()
      ensures Translation() == MapPages(old(Translation()), PageOf(virtStart), done, phys, attr)
      ensures leafWrites == old(leafWrites) + PageRun(PageOf(virtStart), done)
      ensures out.Ok? ==> phys % 4096 == 0 && done == PageCount(virtStart, virtEnd)
      ensures out.Misaligned? ==> phys % 4096 != 0
      ensures phys % 4096 != 0 ==> done == 0
      ensures Keeps(old(mem), mem, root) && Grown(old(mem), old(pool), mem, pool, linked, root)
      ensures out.OutOfMemory? <==> |old(pool)| < MissingFor(old(mem), root, virtStart, virtEnd, phys)
      ensures |old(pool)| >= TablesNeeded(PageOf(virtStart), PageCount(virtStart, virtEnd)) ==> !out.OutOfMemory?
      ensures out.OutOfMemory? ==> pool == [] && done < PageCount(virtStart, virtEnd)
      ensures !out.OutOfMemory? ==> |old(pool)| - |pool| == MissingFor(old(mem), root, virtStart, virtEnd, phys)
    {
      ghost var o := Origin(PageOf(virtStart), PageCount(virtStart, virtEnd), Translation(), leafWrites, mem, pool);
      MapNoPages(o, phys, attr);
      linked := {};
      GrownStart(mem, pool, root);
      var addr;
      out, addr, done := FillTable(4, root, virtStart, virtStart, virtEnd, phys, attr, o, 0);
      if out.Ok? { WindowEnd(o.first + done); }
      assert Opened(0);
      CallDecided(out, o, mem, pool, linked, root, done, virtStart, virtEnd, phys);
    }
  }

  /** What a call takes, and whether the free pages suffice, is decided by what was missing at the start. */
  lemma {:induction false} SupplyDecides(out: Outcome, o: Origin, mem: Memory, pool: seq<int>, linked: set<Place>,
                                         root: int, done: nat, n: nat)
    requires Grown(o.mem, o.pool, mem, pool, linked, root) && Reached(mem, root, o.first, o.first + done)
    requires Within(linked, o.first, if out.Ok? then done else done + 1) && o.first + n <= PAGES
    requires match out
             case Ok => done == n
             case Misaligned => done == 0 && n == 1 && TableAt(mem, root, 1, o.first).Some?
             case OutOfMemory => done < n && pool == [] && TableAt(mem, root, 1, o.first + done).None?
    ensures out.OutOfMemory? <==> |o.pool| < |Absent(o.mem, root, o.first, n)|
    ensures !out.OutOfMemory? ==> |o.pool| - |pool| == |Absent(o.mem, root, o.first, n)|
  {
    if out.OutOfMemory? {
      WithinMore(linked, o.first, done + 1, n);
      NotAllLinked(o.mem, o.pool, mem, pool, linked, root, o.first, n, o.first + done);
    } else {
      AllLinked(o.mem, o.pool, mem, pool, linked, root, o.first, n);
    }
  }

  lemma {:induction false} CallDecided(out: Outcome, o: Origin, mem: Memory, pool: seq<int>, linked: set<Place>,
                                       root: int, done: nat, virtStart: u64, virtEnd: u64, phys: u64)
    requires Spans(o, virtStart, virtEnd)
    requires Grown(o.mem, o.pool, mem, pool, linked, root) && Reached(mem, root, o.first, o.first + done)
    requires Within(linked, o.first, if out.Ok? then done else done + 1) && o.first + o.count <= PAGES
    requires match out
             case Ok => done == o.count && phys % 4096 == 0
             case Misaligned => done == 0 && phys % 4096 != 0 && TableAt(mem, root, 1, o.first).Some?
             case OutOfMemory =>
               && done < (if phys % 4096 == 0 then o.count else 1) && pool == []
               && TableAt(mem, root, 1, o.first + done).None?
    ensures out.OutOfMemory? <==> |o.pool| < MissingFor(o.mem, root, virtStart, virtEnd, phys)
    ensures !out.OutOfMemory? ==> |o.pool| - |pool| == MissingFor(o.mem, root, virtStart, virtEnd, phys)
    ensures PageCount(virtStart, virtEnd) > 0
    ensures |o.pool| >= TablesNeeded(PageOf(virtStart), PageCount(virtStart, virtEnd)) ==> !out.OutOfMemory?
  {
    assert Opened(0);
    EnoughSupply(o.mem, root, virtStart, virtEnd, phys);
    SupplyDecides(out, o, mem, pool, linked, root, done, if phys % 4096 == 0 then o.count else 1);
  }

  lemma {:induction false} KeepsTwice(mem: Memory, mem': Memory, mem'': Memory, root: int)
    requires Keeps(mem, mem', root) && Keeps(mem', mem'', root)
    ensures Keeps(mem, mem'', root)
  {
  }

  lemma {:induction false} SamePathsTwice(mem: Memory, mem': Memory, mem'': Memory, root: int)
    requires SamePaths(mem, mem', root) && SamePaths(mem', mem'', root)
    ensures SamePaths(mem, mem'', root)
  {
  }

  lemma {:induction false} SameKeeps(mem: Memory, mem': Memory, root: int, first: nat, end: nat)
    requires Reached(mem, root, first, end) && SamePaths(mem, mem', root) && end <= PAGES
    ensures Reached(mem', root, first, end) && Keeps(mem, mem', root)
  {
  }

  lemma {:induction false} LeafReached(mem: Memory, mem': Memory, root: int, first: nat, p: nat)
    requires Reached(mem, root, first, p) && SamePaths(mem, mem', root) && first <= p < PAGES
    requires TableAt(mem, root, 1, p).Some?
    ensures Reached(mem', root, first, p + 1) && TableAt(mem', root, 1, p).Some? && Keeps(mem, mem', root)
  {
    assert OnPath(1, p);
  }

  /** Tables missing on the paths of the pages a call touches: all of the range, or the first if `phys` is refused. */
  ghost function MissingFor(mem: Memory, root: int, virtStart: u64, virtEnd: u64, phys: u64): nat
  {
    |Absent(mem, root, PageOf(virtStart), if phys % 4096 == 0 then PageCount(virtStart, virtEnd) else 1)|
  }

  /** A call never misses more than the tables its range needs at each level. */
  lemma {:induction false} EnoughSupply(mem: Memory, root: int, virtStart: u64, virtEnd: u64, phys: u64)
    ensures PageCount(virtStart, virtEnd) > 0
    ensures MissingFor(mem, root, virtStart, virtEnd, phys)
         <= TablesNeeded(PageOf(virtStart), PageCount(virtStart, virtEnd))
  {
    var first, n := PageOf(virtStart), PageCount(virtStart, virtEnd);
    AbsentMonotone(mem, root, first, 1, n);
    Smaller(Absent(mem, root, first, 1), Absent(mem, root, first, n));
    AbsentBound(mem, root, first, n);
  }

  /** The translation and the leaf writes after `k` pages of a call. */
  ghost predicate Mapped(f: Flat, writes: seq<nat>, o: Origin, k: nat, phys: int, attr: PageAttr)
  {
    forall key {:trigger Opened(key)} | Opened(key) ::
      f == MapPages(o.flat, o.first, k, phys, attr) && writes == o.writes + PageRun(o.first, k)
  }

  lemma {:induction false} MapNoPages(o: Origin, phys: int, attr: PageAttr)
    ensures Mapped(o.flat, o.writes, o, 0, phys, attr)
  {
    assert o.writes + PageRun(o.first, 0) == o.writes;
    assert MapPages(o.flat, o.first, 0, phys, attr) == o.flat;
  }

  lemma {:induction false} MapNextPage(o: Origin, f: Flat, writes: seq<nat>, k: nat, phys: int, a: int, attr: PageAttr)
    requires Mapped(f, writes, o, k, phys, attr) && o.first + k in o.flat && a == phys + 4096 * k
    ensures Mapped(f[o.first + k := AttrMapping(a, attr)], writes + [o.first + k], o, k + 1, phys, attr)
  {
    assert Opened(0);
    assert o.writes + PageRun(o.first, k) + [o.first + k] == o.writes + PageRun(o.first, k + 1);
    assert f[o.first + k := AttrMapping(a, attr)] == MapPages(o.flat, o.first, k + 1, phys, attr);
  }

  /** Where a loop over a table of level `level` stopped: past at least one page, all of one table, at the end of the
      range or of the table. */
  predicate Stopped(level: nat, addr: u64, virtStart: u64, first: nat, count: nat, k0: nat, k: nat)
  {
    && k0 < k <= count && addr == (virtStart + 4096 * k) % 0x1_0000_0000_0000_0000
    && SameTable(level, first + k0, first + k - 1)
    && (k == count || TableEnd(level, first + k))
  }

  /** One page on after a leaf write. */
  method NextPage(out: Outcome, start: u64, virtStart: u64, ghost o: Origin, ghost k0: nat, ghost k: nat)
    returns (addr: u64)
    requires start == virtStart + 4096 * k0 && k0 < o.count && (out.Ok? ==> k == k0 + 1)
    ensures out.Ok? ==> Stopped(0, addr, virtStart, o.first, o.count, k0, k)
  {
    if out.Ok? {
      addr := (start + 4096) % 0x1_0000_0000_0000_0000;
      LeafStopped(addr, virtStart, o.first, o.count, k0);
    } else {
      addr := start;
    }
  }

  /** After one leaf write: one page on, in the "table" that is the page itself. */
  lemma {:induction false} LeafStopped(addr: u64, virtStart: u64, first: nat, count: nat, k0: nat)
    requires k0 < count && addr == (virtStart + 4096 * (k0 + 1)) % 0x1_0000_0000_0000_0000
    ensures Stopped(0, addr, virtStart, first, count, k0, k0 + 1)
  {
  }

  lemma {:induction false} AlignedAlong(phys: nat, k: nat)
    ensures (phys + 4096 * k) % 4096 == phys % 4096
  {
  }

  lemma {:induction false} StoppedSince(level: nat, addr: u64, virtStart: u64, first: nat, count: nat, k0: nat,
                                        k': nat, k: nat)
    requires k0 <= k' && SameTable(level, first + k0, first + k')
    ensures Stopped(level, addr, virtStart, first, count, k', k) ==>
              Stopped(level, addr, virtStart, first, count, k0, k)
    ensures SameTable(level, first + k', first + k) ==> SameTable(level, first + k0, first + k)
  {
  }

  lemma {:induction false} StillOnPath(mem': Memory, mem: Memory, root: int, level: nat, p: nat, q: nat)
    requires Keeps(mem', mem, root) && 1 <= level <= 4 && p < PAGES && SameTable(level, p, q)
    requires TableAt(mem', root, level, p).Some?
    ensures TableAt(mem, root, level, q) == TableAt(mem', root, level, p)
  {
    assert OnPath(level, p);
    SamePrefixSameTable(mem, root, level, p, q);
  }

  /** `calc_index` on the running address: the index of the page. */
  method IndexAt(level: nat, addr: u64, virtStart: u64, virtEnd: u64, ghost o: Origin, ghost k: nat)
    returns (index: nat)
    requires 1 <= level <= 4 && Spans(o, virtStart, virtEnd) && o.first + k < PAGES && addr == virtStart + 4096 * k
    ensures index == Index(level, o.first + k)
  {
    assert Opened(0);
    PageAlong(virtStart, k);
    CalcIndexIs(level, addr);
    index := CalcIndex(level, addr);
  }

  /** The address after page `k - 1`: below `virt_end` exactly while pages are left, unless the window ended. */
  lemma {:induction false} NextAddress(addr: u64, virtStart: u64, virtEnd: u64, o: Origin, k: nat)
    requires Spans(o, virtStart, virtEnd) && 1 <= k <= o.count
    requires addr == (virtStart + 4096 * k) % 0x1_0000_0000_0000_0000
    ensures if k < o.count then addr == virtStart + 4096 * k && addr < virtEnd
            else addr >= virtEnd || o.first + k == PAGES
  {
    assert Opened(0);
    CountIsExact(virtStart, virtEnd, k);
    if k < o.count || o.first + k < PAGES { PageAlong(virtStart, k); }
  }

  /** The break test after entry `index`: it fires exactly when the range or this table is used up. */
  lemma {:induction false} AfterEntry(level: nat, index: nat, addr: u64, virtStart: u64, virtEnd: u64, o: Origin,
                                      k0: nat, k: nat)
    requires 1 <= level <= 4 && Spans(o, virtStart, virtEnd) && o.first + o.count <= PAGES
    requires Stopped(level - 1, addr, virtStart, o.first, o.count, k0, k)
    requires index == Index(level, o.first + k0)
    ensures index + 1 >= 512 || addr >= virtEnd ==> Stopped(level, addr, virtStart, o.first, o.count, k0, k)
    ensures !(index + 1 >= 512 || addr >= virtEnd) ==>
              && k < o.count && addr == virtStart + 4096 * k
              && SameTable(level, o.first + k0, o.first + k)
  {
    NextAddress(addr, virtStart, virtEnd, o, k);
    if k < o.count {
      UpStep(o.first + k, level);
    } else if o.first + k == PAGES {
      LastIndices(level);
    }
  }

  lemma {:induction false} WindowEnd(q: nat)
    requires 0 < q <= PAGES
    ensures TableEnd(4, q) ==> q == PAGES
  {
    if q < PAGES { UpTop(q); UpTop(q - 1); }
  }

  lemma {:induction false} AttrEntry(phys: int, attr: PageAttr)
    requires phys % 4096 == 0
    ensures EntryMapping(phys + AttrBits(attr)) == AttrMapping(phys, attr)
  {
    var q, bits := phys / 4096, AttrBits(attr);
    FramePart(phys + bits, q, bits);
    LowPart(phys + bits, 128 * q, bits);
  }

  /** The word `set_page` writes. */
  method LeafWord(phys: u64, attr: PageAttr) returns (e: u64)
    requires phys % 4096 == 0
    ensures EntryMapping(e) == AttrMapping(phys, attr)
    ensures e == phys + match attr case NotPresent => 0 case ReadWriteKernel => 3 case ReadWriteIo => 27
  {
    var word := WithFlags(phys, AttrBits(attr));
    AttrEntry(phys, attr);
    e := word;
  }

  predicate SameTable(level: nat, p: nat, q: nat) { Up(p, level) == Up(q, level) }

  method LowBits(x: u64) returns (r: nat)
    ensures r == x % 4096
  {
    ShrTwelve(x);
    r := And(x, 0xFFF);
  }

  /** `table_mut`: the table a present entry points to. */
  method TableMut(e: u64) returns (r: Option<int>)
    ensures r == if IsPresent(e) then Some(Frame(e)) else None
  {
    EntryBits(e);
    if And(e, 1) != 0 {
      r := Some(And(e, Not(64, 0xFFF)));
    } else {
      r := None;
    }
  }

  /** An aligned address or-ed with entry flags. */
  method WithFlags(a: u64, flags: nat) returns (e: int)
    requires a % 4096 == 0 && flags < 4096
    ensures e == a + flags < WORD_LIMIT
  {
    OrFlags(a, flags);
    e := Or(a, flags);
  }

  /** The bit tests on an entry: present is bit 0, the frame is what the attribute mask leaves. */
  lemma {:induction false} EntryBits(e: u64)
    ensures And(e, 1) != 0 <==> IsPresent(e)
    ensures 0xFFF < Pow2(64) && And(e, Not(64, 0xFFF)) == Frame(e)
  {
    Powers();
    AndLow(1, e);
    AndNotLow(64, 12, e);
  }

  /** Or-ing flags into an aligned address adds them. */
  lemma {:induction false} OrFlags(a: nat, flags: nat)
    requires a % 4096 == 0 && flags < 4096
    ensures Or(a, flags) == a + flags
  {
    Powers();
    ShlIsProduct(a / 4096, 12);
    OrDisjoint(12, a / 4096, flags);
  }
}
