/** Four-level page tables in memory, the translation they stand for (Intel SDM Vol. 3A, section 4.5),
    and what writing one entry does to it. */
module PageTree {
  import opened Prelude

  const PAGES: nat := 0x10_0000_0000

  /** Physical memory restricted to page tables: 512 entries at each table's address. */
  type Memory = map<int, seq<int>>

  /** Where a table sits: its level, and the page number bits above those it indexes. */
  datatype Place = Place(level: nat, prefix: nat)

  predicate IsPresent(e: int) { e % 2 == 1 }

  function Frame(e: int): int { e - e % 4096 }

  predicate Bit(e: int, mask: nat)
    requires mask > 0
  {
    (e / mask) % 2 == 1
  }

  /** What a leaf entry means for accesses to its page. */
  datatype Mapping = Mapping(frame: int, writable: bool, writeThrough: bool, cacheDisabled: bool)

  function LeafMapping(e: int): Mapping { Mapping(Frame(e), Bit(e, 2), Bit(e, 8), Bit(e, 16)) }

  /** The same for an entry that need not be present. The accessed and dirty flags have no part in it. */
  function EntryMapping(e: int): Option<Mapping> { if IsPresent(e) then Some(LeafMapping(e)) else None }

  /** Page number `p` without its lowest `n` groups of nine bits. */
  function Up(p: nat, n: nat): nat
  {
    if n == 0 then p else Up(p, n - 1) / 512
  }

  /** Entry of a level-`level` table that page `p` goes through. */
  function Index(level: nat, p: nat): nat
    requires level >= 1
  {
    Up(p, level - 1) % 512
  }

  /** The level-`level` table on the path of page `p`, if every entry above it is present. */
  function TableAt(mem: Memory, root: int, level: nat, p: nat): Option<int>
    decreases 4 - level
  {
    if level >= 4 then Some(root)
    else
      match TableAt(mem, root, level + 1, p)
      case None => None
      case Some(t) => Child(mem, t, Index(level + 1, p))
  }

  /** The table entry `i` of table `t` points to. */
  function Child(mem: Memory, t: int, i: nat): Option<int>
  {
    if t in mem && i < |mem[t]| && IsPresent(mem[t][i]) then Some(Frame(mem[t][i])) else None
  }

  /** What the leaf entry of page `p` says, if there is a present one. */
  function Leaf(mem: Memory, root: int, p: nat): Option<Mapping>
  {
    match TableAt(mem, root, 1, p)
    case None => None
    case Some(t) => if t in mem && p % 512 < |mem[t]| then EntryMapping(mem[t][p % 512]) else None
  }

  type Flat = map<nat, Option<Mapping>>

  /** The whole translation: the mapping of every page of the 48-bit address space. */
  function FlatOf(mem: Memory, root: int): Flat
  {
    map p: nat | p < PAGES :: Leaf(mem, root, p)
  }

  function Unmapped(p: nat): Option<Mapping> { None }

  /** The translation that maps nothing. */
  function Blank(): Flat { map p: nat | p < PAGES :: Unmapped(p) }

  /** Every table has one place, and present entries above the leaves are writable, no large pages, and point to the
      table of the right place. Since a table has one place only, no two entries share a table. */
  ghost predicate Wf(mem: Memory, root: int, places: map<int, Place>)
  {
    && root in mem && mem.Keys == places.Keys
    && places[root] == Place(4, 0)
    && (forall t {:trigger mem[t]} | t in mem :: |mem[t]| == 512 && t % 4096 == 0 && 1 <= places[t].level <= 4)
    && (forall t, i {:trigger mem[t][i]} | t in mem && 0 <= i < 512 :: 0 <= mem[t][i] < WORD_LIMIT)
    && (forall t, i {:trigger mem[t][i]} | t in mem && places[t].level > 1 && 0 <= i < 512 && IsPresent(mem[t][i]) ::
          GoodLink(mem, places, t, i))
  }

  ghost predicate GoodLink(mem: Memory, places: map<int, Place>, t: int, i: nat)
    requires t in mem && t in places && 0 <= i < |mem[t]|
  {
    var e := mem[t][i];
    && Bit(e, 2) && !Bit(e, 128) && Frame(e) in places && Frame(e) % 4096 == 0
    && places[t].level > 1 && places[Frame(e)] == Place(places[t].level - 1, places[t].prefix * 512 + i)
  }

  lemma {:induction false} UpTop(p: nat)
    requires p < PAGES
    ensures Up(p, 4) == 0
  {
    assert Up(p, 1) == p / 512;
    assert Up(p, 2) == Up(p, 1) / 512;
    assert Up(p, 3) == Up(p, 2) / 512;
  }

  /** The table on the path of a page is the one whose place is that page's prefix. */
  lemma {:induction false} TablePlace(mem: Memory, root: int, places: map<int, Place>, level: nat, p: nat)
    requires Wf(mem, root, places) && p < PAGES && 1 <= level <= 4 && TableAt(mem, root, level, p).Some?
    ensures TableAt(mem, root, level, p).value in mem
    ensures places[TableAt(mem, root, level, p).value] == Place(level, Up(p, level))
    decreases 4 - level
  {
    if level == 4 {
      UpTop(p);
    } else {
      TablePlace(mem, root, places, level + 1, p);
      var t := TableAt(mem, root, level + 1, p).value;
      assert GoodLink(mem, places, t, Index(level + 1, p));
    }
  }

  /** Pages with the same prefix go through the same table. */
  lemma {:induction false} SamePrefixSameTable(mem: Memory, root: int, level: nat, p: nat, q: nat)
    requires 1 <= level <= 4 && Up(p, level) == Up(q, level)
    ensures TableAt(mem, root, level, p) == TableAt(mem, root, level, q)
    decreases 4 - level
  {
    if level < 4 {
      assert Up(p, level + 1) == Up(q, level + 1);
      SamePrefixSameTable(mem, root, level + 1, p, q);
    }
  }

  /* Writing a leaf entry. */

  function SetEntry(mem: Memory, t: int, i: nat, e: int): Memory
    requires t in mem && i < |mem[t]|
  {
    mem[t := mem[t][i := e]]
  }

  lemma {:induction false} SetLeafWf(mem: Memory, root: int, places: map<int, Place>, t: int, i: nat, e: int)
    requires Wf(mem, root, places) && t in mem && places[t].level == 1 && i < 512 && 0 <= e < WORD_LIMIT
    ensures Wf(SetEntry(mem, t, i, e), root, places)
  {
    var mem' := SetEntry(mem, t, i, e);
    forall u, j {:trigger mem'[u][j]} | u in mem' && places[u].level > 1 && 0 <= j < 512 && IsPresent(mem'[u][j])
      ensures GoodLink(mem', places, u, j)
    {
      assert mem'[u] == mem[u];
      assert GoodLink(mem, places, u, j);
    }
  }

  lemma {:induction false} SetLeafTables(mem: Memory, root: int, places: map<int, Place>, t: int, i: nat, e: int,
                                         level: nat, p: nat)
    requires Wf(mem, root, places) && t in mem && places[t].level == 1 && i < 512
    requires 1 <= level <= 4 && p < PAGES
    ensures TableAt(SetEntry(mem, t, i, e), root, level, p) == TableAt(mem, root, level, p)
    decreases 4 - level
  {
    if level < 4 {
      SetLeafTables(mem, root, places, t, i, e, level + 1, p);
      if TableAt(mem, root, level + 1, p).Some? {
        TablePlace(mem, root, places, level + 1, p);
      }
    }
  }

  /** Writing entry `p % 512` of the leaf table of page `p` changes the translation of page `p` and of no other. */
  lemma {:induction false} SetLeafFlat(mem: Memory, root: int, places: map<int, Place>, t: int, e: int, p: nat)
    requires Wf(mem, root, places) && p < PAGES && TableAt(mem, root, 1, p) == Some(t)
    ensures t in mem && |mem[t]| == 512 && places[t].level == 1
    ensures FlatOf(SetEntry(mem, t, p % 512, e), root)
         == FlatOf(mem, root)[p := EntryMapping(e)]
  {
    TablePlace(mem, root, places, 1, p);
    var mem' := SetEntry(mem, t, p % 512, e);
    forall q: nat | q < PAGES
      ensures Leaf(mem', root, q) == if q == p then EntryMapping(e) else Leaf(mem, root, q)
    {
      SetLeafTables(mem, root, places, t, p % 512, e, 1, q);
      if TableAt(mem, root, 1, q) == Some(t) && q % 512 == p % 512 {
        TablePlace(mem, root, places, 1, q);
        OnePageApart(p, q);
      }
    }
  }

  lemma {:induction false} OnePageApart(p: nat, q: nat)
    requires Up(p, 1) == Up(q, 1) && p % 512 == q % 512
    ensures p == q
  {
    assert Up(p, 1) == p / 512 && Up(q, 1) == q / 512;
  }

  /* Linking a zeroed table into an empty entry. */

  /** A fresh table: all entries zero, so none present. */
  function Zeroed(): (t: seq<int>)
    ensures |t| == 512 && forall i | 0 <= i < 512 :: t[i] == 0
  {
    seq(512, _ => 0)
  }

  lemma {:induction false} FrameOf(a: int)
    requires a % 4096 == 0
    ensures IsPresent(a + 3) && Frame(a + 3) == a && Bit(a + 3, 2) && !Bit(a + 3, 128)
  {
    var q := a / 4096;
    assert (a + 3) / 128 == 32 * q;
    FramePart(a + 3, q, 3);
    LowPart(a + 3, 128 * q, 3);
  }

  lemma {:induction false} FramePart(e: int, q: int, r: int)
    requires e == 4096 * q + r && 0 <= r < 4096
    ensures Frame(e) == 4096 * q
  {
  }

  /** The low five bits of an entry: present, writable, write-through and cache-disable are among them. */
  lemma {:induction false} LowPart(e: int, q: int, r: int)
    requires e == 32 * q + r && 0 <= r < 32
    ensures IsPresent(e) == (r % 2 == 1)
    ensures Bit(e, 2) == Bit(r, 2) && Bit(e, 8) == Bit(r, 8) && Bit(e, 16) == Bit(r, 16)
  {
    BitAbove(e, 1, 16 * q, r);
    BitAbove(e, 2, 8 * q, r);
    BitAbove(e, 8, 2 * q, r);
    BitAbove(e, 16, q, r);
  }

  /** A bit is not changed by adding a multiple of twice its weight. */
  lemma {:induction false} BitAbove(e: int, mask: nat, q: int, r: int)
    requires mask == 1 || mask == 2 || mask == 8 || mask == 16
    requires e == 2 * mask * q + r
    ensures Bit(e, mask) == Bit(r, mask)
  {
    assert e / mask == 2 * q + r / mask;
  }

  function Link(mem: Memory, t: int, i: nat, a: int): Memory
    requires t in mem && i < |mem[t]|
  {
    SetEntry(mem, t, i, a + 3)[a := Zeroed()]
  }

  /** Entry `i` of table `t` above the leaves is empty and `a` is the address of a new table. */
  ghost predicate CanLink(mem: Memory, root: int, places: map<int, Place>, t: int, i: nat, a: int)
  {
    && Wf(mem, root, places) && t in mem && i < 512 && places[t].level > 1
    && !IsPresent(mem[t][i]) && a !in mem && a % 4096 == 0 && 0 <= a < WORD_LIMIT
  }

  function LinkPlaces(places: map<int, Place>, t: int, i: nat, a: int): map<int, Place>
    requires t in places && places[t].level > 1
  {
    places[a := Place(places[t].level - 1, places[t].prefix * 512 + i)]
  }

  lemma {:induction false} LinkWf(mem: Memory, root: int, places: map<int, Place>, t: int, i: nat, a: int)
    requires CanLink(mem, root, places, t, i, a)
    ensures Wf(Link(mem, t, i, a), root, LinkPlaces(places, t, i, a))
  {
    var mem', places' := Link(mem, t, i, a), LinkPlaces(places, t, i, a);
    assert a + 3 < WORD_LIMIT;
    assert mem'.Keys == mem.Keys + {a};
    forall u, j {:trigger mem'[u][j]} | u in mem' && places'[u].level > 1 && 0 <= j < 512 && IsPresent(mem'[u][j])
      ensures GoodLink(mem', places', u, j)
    {
      if u == t && j == i {
        FrameOf(a);
      } else {
        assert u != a && mem'[u][j] == mem[u][j];
        assert GoodLink(mem, places, u, j);
      }
    }
  }

  /** Following entry `j` of an old table `u`: as before, except that the linked entry now leads to the new table. */
  lemma {:induction false} LinkChild(mem: Memory, t: int, i: nat, a: int, u: int, j: nat)
    requires t in mem && i < |mem[t]| && !IsPresent(mem[t][i]) && a !in mem && a % 4096 == 0 && u in mem
    ensures Child(Link(mem, t, i, a), u, j) == if u == t && j == i then Some(a) else Child(mem, u, j)
  {
    FrameOf(a);
    assert Link(mem, t, i, a)[u] == if u == t then mem[t][i := a + 3] else mem[u];
  }

  /** The new table leads nowhere. */
  lemma {:induction false} LinkNoChild(mem: Memory, t: int, i: nat, a: int, j: nat)
    requires t in mem && i < |mem[t]|
    ensures Child(Link(mem, t, i, a), a, j) == None
  {
    assert Link(mem, t, i, a)[a] == Zeroed();
  }

  /** Tables that were on a path stay on it; the only new one is the linked one, on the paths below its entry. */
  lemma {:induction false} LinkTables(mem: Memory, root: int, places: map<int, Place>, t: int, i: nat, a: int,
                                      level: nat, p: nat)
    requires CanLink(mem, root, places, t, i, a) && 1 <= level <= 4 && p < PAGES
    ensures var was, now := TableAt(mem, root, level, p), TableAt(Link(mem, t, i, a), root, level, p);
            (was.Some? ==> now == was) && (was.None? ==> now.None? || now == Some(a))
    decreases 4 - level
  {
    if level < 4 {
      LinkTables(mem, root, places, t, i, a, level + 1, p);
      var was := TableAt(mem, root, level + 1, p);
      if was.Some? {
        TablePlace(mem, root, places, level + 1, p);
        LinkChild(mem, t, i, a, was.value, Index(level + 1, p));
      } else {
        LinkNoChild(mem, t, i, a, Index(level + 1, p));
      }
    }
  }

  /** Linking an empty table changes no translation. */
  lemma {:induction false} LinkFlat(mem: Memory, root: int, places: map<int, Place>, t: int, i: nat, a: int)
    requires CanLink(mem, root, places, t, i, a)
    ensures FlatOf(Link(mem, t, i, a), root) == FlatOf(mem, root)
  {
    forall q: nat | q < PAGES ensures Leaf(Link(mem, t, i, a), root, q) == Leaf(mem, root, q) {
      LinkLeaf(mem, root, places, t, i, a, q);
    }
  }

  lemma {:induction false} LinkLeaf(mem: Memory, root: int, places: map<int, Place>, t: int, i: nat, a: int, q: nat)
    requires CanLink(mem, root, places, t, i, a) && q < PAGES
    ensures Leaf(Link(mem, t, i, a), root, q) == Leaf(mem, root, q)
  {
    LinkTables(mem, root, places, t, i, a, 1, q);
    if TableAt(mem, root, 1, q).Some? {
      TablePlace(mem, root, places, 1, q);
      var u := TableAt(mem, root, 1, q).value;
      assert u != t && Link(mem, t, i, a)[u] == mem[u];
    } else {
      assert Link(mem, t, i, a)[a] == Zeroed();
    }
  }

  /** Always true: mentioning it names the path a proof step is about, so that no other path is looked at. */
  predicate OnPath(level: int, p: int) { true }

  /** Tables on a path before are on it after. */
  ghost predicate Keeps(mem: Memory, mem': Memory, root: int)
  {
    forall level, p {:trigger OnPath(level, p)} | OnPath(level, p) && 1 <= level <= 4 && 0 <= p < PAGES ::
      TableAt(mem, root, level, p).Some? ==> TableAt(mem', root, level, p) == TableAt(mem, root, level, p)
  }

  /** The tables on every path are the same. */
  ghost predicate SamePaths(mem: Memory, mem': Memory, root: int)
  {
    forall level, p {:trigger OnPath(level, p)} | OnPath(level, p) && 1 <= level <= 4 && 0 <= p < PAGES ::
      TableAt(mem', root, level, p) == TableAt(mem, root, level, p)
  }

  lemma {:induction false} LinkKeeps(mem: Memory, root: int, places: map<int, Place>, t: int, i: nat, a: int)
    requires CanLink(mem, root, places, t, i, a)
    ensures Keeps(mem, Link(mem, t, i, a), root)
  {
    forall level, p | 1 <= level <= 4 && 0 <= p < PAGES && TableAt(mem, root, level, p).Some?
      ensures TableAt(Link(mem, t, i, a), root, level, p) == TableAt(mem, root, level, p)
    {
      LinkTables(mem, root, places, t, i, a, level, p);
    }
  }

  /** Linking a new table below page `p` keeps the tree well-formed and the translation, and puts the table on the
      path of `p`. */
  lemma {:induction false} LinkEffect(mem: Memory, root: int, places: map<int, Place>, t: int, level: nat, p: nat,
                                      a: int)
    requires 2 <= level <= 4 && p < PAGES && CanLink(mem, root, places, t, Index(level, p), a)
    requires TableAt(mem, root, level, p) == Some(t)
    ensures var mem', i := Link(mem, t, Index(level, p), a), Index(level, p);
            && Wf(mem', root, LinkPlaces(places, t, i, a)) && FlatOf(mem', root) == FlatOf(mem, root)
            && Keeps(mem, mem', root) && TableAt(mem', root, level - 1, p) == Some(a)
  {
    var i := Index(level, p);
    LinkWf(mem, root, places, t, i, a);
    LinkFlat(mem, root, places, t, i, a);
    LinkKeeps(mem, root, places, t, i, a);
    LinkTables(mem, root, places, t, i, a, level, p);
    LinkChild(mem, t, i, a, t, i);
  }

  /** Writing the leaf entry of page `p` with a value that stands for `v`. */
  lemma {:induction false} SetLeafEffect(mem: Memory, root: int, places: map<int, Place>, t: int, e: int, p: nat,
                                         v: Option<Mapping>)
    requires v == EntryMapping(e)
    requires Wf(mem, root, places) && p < PAGES && TableAt(mem, root, 1, p) == Some(t) && 0 <= e < WORD_LIMIT
    ensures t in mem && |mem[t]| == 512
    ensures var mem' := SetEntry(mem, t, p % 512, e);
            && Wf(mem', root, places) && SamePaths(mem, mem', root) && mem'.Keys == mem.Keys
            && FlatOf(mem', root) == FlatOf(mem, root)[p := v]
  {
    SetLeafFlat(mem, root, places, t, e, p);
    SetLeafWf(mem, root, places, t, p % 512, e);
    forall level, q | 1 <= level <= 4 && 0 <= q < PAGES
      ensures TableAt(SetEntry(mem, t, p % 512, e), root, level, q) == TableAt(mem, root, level, q)
    {
      SetLeafTables(mem, root, places, t, p % 512, e, level, q);
    }
  }

  /* What the processor does with a virtual address. */

  /** A fault, a page of 4 KiB, or a large page mapped by an entry above the leaves. */
  datatype Walked = Fault | Page(mapping: Mapping) | Large(entry: int)

  /** One level of the walk from table `t`: rights are the conjunction of the rights along the path. */
  function Walk(mem: Memory, t: int, level: nat, p: nat): Walked
    decreases level
  {
    if level == 0 || t !in mem || Index(level, p) >= |mem[t]| then Fault
    else
      var e := mem[t][Index(level, p)];
      if !IsPresent(e) then Fault
      else if level == 1 then Page(LeafMapping(e))
      else if Bit(e, 128) then Large(e)
      else
        match Walk(mem, Frame(e), level - 1, p)
        case Page(m) => Page(m.(writable := m.writable && Bit(e, 2)))
        case other => other
  }

  function Reading(m: Option<Mapping>): Walked { if m.Some? then Page(m.value) else Fault }

  lemma {:induction false} WalkFrom(mem: Memory, root: int, places: map<int, Place>, level: nat, p: nat)
    requires Wf(mem, root, places) && p < PAGES && 1 <= level <= 4 && TableAt(mem, root, level, p).Some?
    ensures Walk(mem, TableAt(mem, root, level, p).value, level, p) == Reading(Leaf(mem, root, p))
    decreases level
  {
    TablePlace(mem, root, places, level, p);
    var t := TableAt(mem, root, level, p).value;
    var i := Index(level, p);
    var e := mem[t][i];
    if level == 1 {
      assert i == p % 512;
    } else if IsPresent(e) {
      assert GoodLink(mem, places, t, i);
      WalkFrom(mem, root, places, level - 1, p);
    } else {
      NoneBelow(mem, root, level - 1, p);
    }
  }

  lemma {:induction false} NoneBelow(mem: Memory, root: int, level: nat, p: nat)
    requires 1 <= level < 4 && TableAt(mem, root, level, p).None?
    ensures TableAt(mem, root, 1, p).None?
    decreases level
  {
    if level > 1 { NoneBelow(mem, root, level - 1, p); }
  }

  /** The processor's walk from the root finds what the leaf entry says. */
  lemma {:induction false} WalkIsLeaf(mem: Memory, root: int, places: map<int, Place>, p: nat)
    requires Wf(mem, root, places) && p < PAGES
    ensures Walk(mem, root, 4, p) == Reading(Leaf(mem, root, p))
  {
    WalkFrom(mem, root, places, 4, p);
  }

  /* What the processor writes (Intel SDM Vol. 3A, section 4.8). */

  datatype Flag = Accessed | Dirty

  /** An entry with the flag set, bit 5 or bit 6. */
  function Flagged(e: int, flag: Flag): int
  {
    match flag
    case Accessed => if Bit(e, 32) then e else e + 32
    case Dirty => if Bit(e, 64) then e else e + 64
  }

  /** Two entries that no walk tells apart. */
  predicate SameUses(e: int, f: int)
  {
    IsPresent(e) == IsPresent(f) && LeafMapping(e) == LeafMapping(f) && Bit(e, 128) == Bit(f, 128)
  }

  lemma {:induction false} FrameAbove(q: int, r: int)
    requires 0 <= r < 128
    ensures Frame(128 * q + r) == 4096 * (q / 32)
  {
    FramePart(128 * q + r, q / 32, 128 * (q % 32) + r);
  }

  /** Entries that differ in bits 5 and 6 only. */
  lemma {:induction false} FlagsUnused(q: int, h: nat, k: nat, r: int)
    requires 0 <= r < 32 && h < 4 && k < 4
    ensures SameUses(128 * q + 32 * h + r, 128 * q + 32 * k + r)
  {
    FrameAbove(q, 32 * h + r);
    FrameAbove(q, 32 * k + r);
    assert (128 * q + 32 * h + r) / 128 == q == (128 * q + 32 * k + r) / 128;
    LowPart(128 * q + 32 * h + r, 4 * q + h, r);
    LowPart(128 * q + 32 * k + r, 4 * q + k, r);
  }

  lemma {:induction false} ClearFlag(e: int, q: int, h: nat, r: int)
    requires e == 128 * q + 32 * h + r && 0 <= r < 32 && h < 4
    ensures Bit(e, 32) <==> h == 1 || h == 3
    ensures Bit(e, 64) <==> h >= 2
  {
    var m, b := if h < 2 then 0 else 1, if h == 1 || h == 3 then 1 else 0;
    FifthBit(e, 4 * q + h, r);
    Odd(4 * q + h, 2 * q + m, b);
    SixthBit(e, 2 * q + m, 32 * b + r);
    Odd(2 * q + m, q, m);
  }

  lemma {:induction false} Odd(x: int, m: int, b: nat)
    requires x == 2 * m + b && b < 2
    ensures x % 2 == 1 <==> b == 1
  {
  }

  lemma {:induction false} FifthBit(e: int, q: int, r: int)
    requires e == 32 * q + r && 0 <= r < 32
    ensures Bit(e, 32) <==> q % 2 == 1
  {
  }

  lemma {:induction false} SixthBit(e: int, q: int, r: int)
    requires e == 64 * q + r && 0 <= r < 64
    ensures Bit(e, 64) <==> q % 2 == 1
  {
  }

  lemma {:induction false} Decompose(e: int) returns (q: int, h: nat, r: int)
    ensures e == 128 * q + 32 * h + r && 0 <= r < 32 && h < 4
  {
    q := e / 128;
    h := (e % 128) / 32;
    r := (e % 128) % 32;
  }

  /** Setting a flag changes nothing a walk looks at. */
  lemma {:induction false} FlaggedUses(e: int, flag: Flag)
    ensures SameUses(Flagged(e, flag), e)
    ensures 0 <= e < WORD_LIMIT ==> 0 <= Flagged(e, flag) < WORD_LIMIT
  {
    var q, h, r := Decompose(e);
    ClearFlag(e, q, h, r);
    var k := match flag case Accessed => if Bit(e, 32) then h else h + 1 case Dirty => if Bit(e, 64) then h else h + 2;
    FlagsUnused(q, k, h, r);
    assert Flagged(e, flag) == 128 * q + 32 * k + r;
    assert e < WORD_LIMIT ==> q < 0x200_0000_0000_0000;
  }

  /** Entry `i` of table `t` after a walk has set a flag in it. */
  function Mark(mem: Memory, t: int, i: nat, flag: Flag): Memory
    requires t in mem && i < |mem[t]|
  {
    SetEntry(mem, t, i, Flagged(mem[t][i], flag))
  }

  lemma {:induction false} MarkEntry(mem: Memory, t: int, i: nat, flag: Flag, u: int, j: nat)
    requires t in mem && i < |mem[t]| && u in mem && j < |mem[u]|
    ensures |Mark(mem, t, i, flag)[u]| == |mem[u]| && SameUses(Mark(mem, t, i, flag)[u][j], mem[u][j])
  {
    FlaggedUses(mem[t][i], flag);
  }

  /** Flags lead no path elsewhere. */
  lemma {:induction false} MarkTables(mem: Memory, root: int, t: int, i: nat, flag: Flag, level: nat, p: nat)
    requires t in mem && i < |mem[t]| && 1 <= level <= 4
    ensures TableAt(Mark(mem, t, i, flag), root, level, p) == TableAt(mem, root, level, p)
    decreases 4 - level
  {
    if level < 4 {
      MarkTables(mem, root, t, i, flag, level + 1, p);
      var u, j := TableAt(mem, root, level + 1, p), Index(level + 1, p);
      if u.Some? && u.value in mem && j < |mem[u.value]| { MarkEntry(mem, t, i, flag, u.value, j); }
    }
  }

  lemma {:induction false} MarkWf(mem: Memory, root: int, places: map<int, Place>, t: int, i: nat, flag: Flag)
    requires Wf(mem, root, places) && t in mem && i < 512
    ensures Wf(Mark(mem, t, i, flag), root, places)
  {
    var mem' := Mark(mem, t, i, flag);
    FlaggedUses(mem[t][i], flag);
    forall u, j {:trigger mem'[u][j]} | u in mem' && places[u].level > 1 && 0 <= j < 512 && IsPresent(mem'[u][j])
      ensures GoodLink(mem', places, u, j)
    {
      MarkEntry(mem, t, i, flag, u, j);
      assert GoodLink(mem, places, u, j);
    }
  }

  /** Setting the accessed or dirty flag of any entry keeps the tree, every path and the translation. */
  lemma {:induction false} MarkEffect(mem: Memory, root: int, places: map<int, Place>, t: int, i: nat, flag: Flag)
    requires Wf(mem, root, places) && t in mem && i < 512
    ensures var mem' := Mark(mem, t, i, flag);
            Wf(mem', root, places) && FlatOf(mem', root) == FlatOf(mem, root) && SamePaths(mem, mem', root)
  {
    MarkWf(mem, root, places, t, i, flag);
    forall level, p | 1 <= level <= 4 && 0 <= p < PAGES
      ensures TableAt(Mark(mem, t, i, flag), root, level, p) == TableAt(mem, root, level, p)
    {
      MarkTables(mem, root, t, i, flag, level, p);
    }
    forall p: nat | p < PAGES ensures Leaf(Mark(mem, t, i, flag), root, p) == Leaf(mem, root, p) {
      MarkLeaf(mem, root, t, i, flag, p);
    }
  }

  lemma {:induction false} MarkLeaf(mem: Memory, root: int, t: int, i: nat, flag: Flag, p: nat)
    requires t in mem && i < |mem[t]|
    ensures Leaf(Mark(mem, t, i, flag), root, p) == Leaf(mem, root, p)
  {
    MarkTables(mem, root, t, i, flag, 1, p);
    var u := TableAt(mem, root, 1, p);
    if u.Some? && u.value in mem && p % 512 < |mem[u.value]| { MarkEntry(mem, t, i, flag, u.value, p % 512); }
  }
}
