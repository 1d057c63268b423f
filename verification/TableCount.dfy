/** Which page tables a range of pages needs, which of them a tree lacks, and what linking them in takes from the
    heap. */
module TableCount {
  import opened Prelude
  import opened PageTree

  lemma {:induction false} UpMonotone(p: nat, q: nat, n: nat)
    requires p <= q
    ensures Up(p, n) <= Up(q, n)
  {
    if n > 0 { UpMonotone(p, q, n - 1); }
  }

  lemma {:induction false} UpNext(p: nat, n: nat)
    ensures Up(p, n) <= Up(p + 1, n) <= Up(p, n) + 1
  {
    if n > 0 { UpNext(p, n - 1); }
  }

  /* Counting. */

  /** Tables of levels 1 to 3 on the paths of the `n` pages from `first`. */
  ghost function PathTables(first: nat, n: nat): set<Place>
  {
    set l, p | 1 <= l <= 3 && first <= p < first + n :: Place(l, Up(p, l))
  }

  /** Those of them that are missing. */
  ghost function Absent(mem: Memory, root: int, first: nat, n: nat): set<Place>
  {
    set l, p | 1 <= l <= 3 && first <= p < first + n && TableAt(mem, root, l, p).None? :: Place(l, Up(p, l))
  }

  /** Tables of one level that a range goes through, from the first page's to the last page's. */
  function Span(l: nat, first: nat, n: nat): nat
    requires n > 0
  {
    UpMonotone(first, first + n - 1, l);
    Up(first + n - 1, l) - Up(first, l) + 1
  }

  /** The tables a range needs below the root. */
  function TablesNeeded(first: nat, n: nat): nat
    requires n > 0
  {
    Span(1, first, n) + Span(2, first, n) + Span(3, first, n)
  }

  ghost function LevelTables(l: nat, first: nat, n: nat): set<Place>
  {
    set p | first <= p < first + n :: Place(l, Up(p, l))
  }

  lemma {:induction false} LevelCount(l: nat, first: nat, n: nat)
    requires n > 0
    ensures |LevelTables(l, first, n)| == Span(l, first, n)
    decreases n
  {
    if n == 1 {
      assert LevelTables(l, first, n) == {Place(l, Up(first, l))};
    } else {
      LevelCount(l, first, n - 1);
      LevelNext(l, first, n - 1);
    }
  }

  lemma {:induction false} LevelNext(l: nat, first: nat, n: nat)
    requires n > 0
    ensures |LevelTables(l, first, n + 1)| == |LevelTables(l, first, n)| + Up(first + n, l) - Up(first + n - 1, l)
  {
    var s, t := LevelTables(l, first, n), Place(l, Up(first + n, l));
    UpNext(first + n - 1, l);
    assert LevelTables(l, first, n + 1) == s + {t};
    if Up(first + n, l) == Up(first + n - 1, l) {
      assert t == Place(l, Up(first + n - 1, l)) && t in s;
      assert s + {t} == s;
    } else {
      NotYet(l, first, n);
    }
  }

  lemma {:induction false} NotYet(l: nat, first: nat, n: nat)
    requires n > 0 && Up(first + n, l) > Up(first + n - 1, l)
    ensures Place(l, Up(first + n, l)) !in LevelTables(l, first, n)
  {
    forall p | first <= p < first + n ensures Up(p, l) < Up(first + n, l) {
      UpMonotone(p, first + n - 1, l);
    }
  }

  /** A range needs as many tables as its paths have, counted level by level. */
  lemma {:induction false} NeededIsCount(first: nat, n: nat)
    requires n > 0
    ensures |PathTables(first, n)| == TablesNeeded(first, n)
  {
    var a, b, c := LevelTables(1, first, n), LevelTables(2, first, n), LevelTables(3, first, n);
    LevelCount(1, first, n);
    LevelCount(2, first, n);
    LevelCount(3, first, n);
    assert PathTables(first, n) == a + b + c by { ByLevel(first, n); }
    assert a !! b && (a + b) !! c;
  }

  lemma {:induction false} ByLevel(first: nat, n: nat)
    ensures PathTables(first, n) == LevelTables(1, first, n) + LevelTables(2, first, n) + LevelTables(3, first, n)
  {
  }

  /** No more tables are missing than the range needs. */
  lemma {:induction false} AbsentBound(mem: Memory, root: int, first: nat, n: nat)
    requires n > 0
    ensures |Absent(mem, root, first, n)| <= TablesNeeded(first, n)
  {
    NeededIsCount(first, n);
    Smaller(Absent(mem, root, first, n), PathTables(first, n));
  }

  lemma {:induction false} Smaller(a: set<Place>, b: set<Place>)
    requires a <= b
    ensures |a| <= |b| && (a != b ==> |a| < |b|)
  {
    assert b == a + (b - a);
    assert |b| == |a| + |b - a|;
  }

  /** Below a bare root all of them are missing. */
  lemma {:induction false} BareAbsent(mem: Memory, root: int, first: nat, n: nat)
    requires n > 0 && forall l, p | 1 <= l <= 3 && first <= p < first + n :: TableAt(mem, root, l, p).None?
    ensures |Absent(mem, root, first, n)| == TablesNeeded(first, n)
  {
    NeededIsCount(first, n);
    assert Absent(mem, root, first, n) == PathTables(first, n);
  }

  /** Nothing is missing on the paths of pages that have a leaf table. */
  lemma {:induction false} MappedAbsent(mem: Memory, root: int, first: nat, n: nat)
    requires forall p | first <= p < first + n :: TableAt(mem, root, 1, p).Some?
    ensures Absent(mem, root, first, n) == {}
  {
    forall l, p | 1 <= l <= 3 && first <= p < first + n ensures TableAt(mem, root, l, p).Some? {
      AboveLeaf(mem, root, l, p);
    }
  }

  lemma {:induction false} AboveLeaf(mem: Memory, root: int, l: nat, p: nat)
    requires 1 <= l <= 3 && TableAt(mem, root, 1, p).Some?
    ensures TableAt(mem, root, l, p).Some?
  {
    if TableAt(mem, root, l, p).None? {
      NoneBelow(mem, root, l, p);
      assert false;
    }
  }

  lemma {:induction false} AbsentMonotone(mem: Memory, root: int, first: nat, n: nat, m: nat)
    requires n <= m
    ensures Absent(mem, root, first, n) <= Absent(mem, root, first, m)
  {
  }

  /* Linking tables in. */

  /** Always true: mentioning it names the table a proof step is about, by its address or its place. */
  predicate Named<T>(t: T) { true }

  /** The table is on the path of page `p`. */
  predicate Serves(t: Place, p: nat) { 1 <= t.level <= 3 && t.prefix == Up(p, t.level) }

  /** Where a call stands that started in memory `mem` with free pages `pool` and has linked in the tables `linked`: it
      took one page for each from the front of `pool`; paths have the tables they had and the linked ones. */
  ghost predicate Grown(mem: Memory, pool: seq<int>, mem': Memory, pool': seq<int>, linked: set<Place>, root: int)
  {
    && |pool'| <= |pool| && pool' == pool[|pool| - |pool'|..] && |linked| == |pool| - |pool'|
    && (forall t: int {:trigger Named(t)} | Named(t) :: t in mem' <==> t in mem || t in pool[..|pool| - |pool'|])
    && (forall l, p {:trigger OnPath(l, p)} | OnPath(l, p) && 1 <= l <= 4 && 0 <= p < PAGES ::
          && (TableAt(mem', root, l, p).Some? <==> TableAt(mem, root, l, p).Some? || Place(l, Up(p, l)) in linked)
          && (Place(l, Up(p, l)) in linked ==> TableAt(mem, root, l, p).None?))
  }

  /** Every linked table is on the path of one of the `n` pages from `first`. */
  ghost predicate Within(linked: set<Place>, first: nat, n: nat)
  {
    forall t: Place {:trigger Named(t)} | Named(t) && t in linked :: exists p :: first <= p < first + n && Serves(t, p)
  }

  /** The pages from `first` up to `end` have leaf tables. */
  ghost predicate Reached(mem: Memory, root: int, first: nat, end: nat)
  {
    forall p {:trigger OnPath(1, p)} | OnPath(1, p) && first <= p < end :: TableAt(mem, root, 1, p).Some?
  }

  lemma {:induction false} GrownStart(mem: Memory, pool: seq<int>, root: int)
    ensures Grown(mem, pool, mem, pool, {}, root)
  {
  }

  /** Where a new table is found, its place is the one it was linked at. */
  lemma {:induction false} NewPlace(mem: Memory, root: int, places: map<int, Place>, a: int, level: nat, p: nat,
                                    l: nat, q: nat)
    requires Wf(mem, root, places) && 1 <= level <= 4 && 1 <= l <= 4 && p < PAGES && q < PAGES
    requires TableAt(mem, root, level, p) == Some(a) && TableAt(mem, root, l, q) == Some(a)
    ensures Place(l, Up(q, l)) == Place(level, Up(p, level))
  {
    TablePlace(mem, root, places, level, p);
    TablePlace(mem, root, places, l, q);
  }

  /** Linking a table in puts it on the paths of the pages below its entry and on no others. */
  lemma {:induction false} LinkOnly(mem: Memory, root: int, places: map<int, Place>, t: int, level: nat, p: nat, a: int,
                                    l: nat, q: nat)
    requires 2 <= level <= 4 && p < PAGES && CanLink(mem, root, places, t, Index(level, p), a)
    requires TableAt(mem, root, level, p) == Some(t) && 1 <= l <= 4 && q < PAGES
    ensures TableAt(Link(mem, t, Index(level, p), a), root, l, q).Some?
       <==> TableAt(mem, root, l, q).Some? || Place(l, Up(q, l)) == Place(level - 1, Up(p, level - 1))
  {
    var i := Index(level, p);
    var mem' := Link(mem, t, i, a);
    LinkEffect(mem, root, places, t, level, p, a);
    LinkTables(mem, root, places, t, i, a, l, q);
    NewOnly(mem, mem', root, LinkPlaces(places, t, i, a), a, level - 1, p, l, q);
  }

  lemma {:induction false} NewOnly(mem: Memory, mem': Memory, root: int, places: map<int, Place>, a: int, level: nat,
                                   p: nat, l: nat, q: nat)
    requires Wf(mem', root, places) && 1 <= level <= 4 && 1 <= l <= 4 && p < PAGES && q < PAGES
    requires TableAt(mem', root, level, p) == Some(a)
    requires var was, now := TableAt(mem, root, l, q), TableAt(mem', root, l, q);
             (was.Some? ==> now == was) && (was.None? ==> now.None? || now == Some(a))
    ensures TableAt(mem', root, l, q).Some?
       <==> TableAt(mem, root, l, q).Some? || Place(l, Up(q, l)) == Place(level, Up(p, level))
  {
    if TableAt(mem', root, l, q) == Some(a) { NewPlace(mem', root, places, a, level, p, l, q); }
    if l == level && Up(q, l) == Up(p, l) { SamePrefixSameTable(mem', root, l, p, q); }
  }

  lemma {:induction false} TakeOne(pool: seq<int>, pool': seq<int>, t: int)
    requires 0 < |pool'| <= |pool| && pool' == pool[|pool| - |pool'|..]
    ensures var n := |pool| - |pool'|;
            pool'[1..] == pool[n + 1..] && (t in pool[..n + 1] <==> t in pool[..n] || t == pool'[0])
  {
    var n := |pool| - |pool'|;
    assert pool[..n + 1] == pool[..n] + [pool'[0]];
  }

  /** One more table, from the front of the free pages. */
  lemma {:induction false} GrownLink(mem0: Memory, pool0: seq<int>, mem: Memory, pool: seq<int>, linked: set<Place>,
                                     root: int, places: map<int, Place>, t: int, level: nat, p: nat)
    requires Grown(mem0, pool0, mem, pool, linked, root) && pool != []
    requires 2 <= level <= 4 && p < PAGES && CanLink(mem, root, places, t, Index(level, p), pool[0])
    requires TableAt(mem, root, level, p) == Some(t) && TableAt(mem, root, level - 1, p).None?
    ensures Place(level - 1, Up(p, level - 1)) !in linked
    ensures Grown(mem0, pool0, Link(mem, t, Index(level, p), pool[0]), pool[1..],
                  linked + {Place(level - 1, Up(p, level - 1))}, root)
  {
    var mem', new' := Link(mem, t, Index(level, p), pool[0]), Place(level - 1, Up(p, level - 1));
    assert OnPath(level - 1, p);
    forall u: int ensures u in mem' <==> u in mem0 || u in pool0[..|pool0| - |pool[1..]|] {
      assert Named(u);
      TakeOne(pool0, pool, u);
    }
    forall l, q | 1 <= l <= 4 && 0 <= q < PAGES
      ensures TableAt(mem', root, l, q).Some? <==>
                TableAt(mem0, root, l, q).Some? || Place(l, Up(q, l)) in linked + {new'}
      ensures Place(l, Up(q, l)) in linked + {new'} ==> TableAt(mem0, root, l, q).None?
    {
      LinkedPath(mem0, pool0, mem, pool, linked, root, places, t, level, p, l, q);
    }
    TakeOne(pool0, pool, 0);
  }

  lemma {:induction false} LinkedPath(mem0: Memory, pool0: seq<int>, mem: Memory, pool: seq<int>, linked: set<Place>,
                                      root: int, places: map<int, Place>, t: int, level: nat, p: nat, l: nat, q: nat)
    requires Grown(mem0, pool0, mem, pool, linked, root) && pool != []
    requires 2 <= level <= 4 && p < PAGES && CanLink(mem, root, places, t, Index(level, p), pool[0])
    requires TableAt(mem, root, level, p) == Some(t) && TableAt(mem, root, level - 1, p).None?
    requires 1 <= l <= 4 && q < PAGES
    ensures var mem', now := Link(mem, t, Index(level, p), pool[0]), linked + {Place(level - 1, Up(p, level - 1))};
            && (TableAt(mem', root, l, q).Some? <==> TableAt(mem0, root, l, q).Some? || Place(l, Up(q, l)) in now)
            && (Place(l, Up(q, l)) in now ==> TableAt(mem0, root, l, q).None?)
  {
    assert OnPath(l, q);
    LinkOnly(mem, root, places, t, level, p, pool[0], l, q);
    if Place(l, Up(q, l)) == Place(level - 1, Up(p, level - 1)) {
      SamePrefixSameTable(mem, root, l, q, p);
    }
  }

  /** A leaf write changes nothing here. */
  lemma {:induction false} GrownLeaf(mem0: Memory, pool0: seq<int>, mem: Memory, pool: seq<int>, linked: set<Place>,
                                     root: int, mem': Memory)
    requires Grown(mem0, pool0, mem, pool, linked, root) && SamePaths(mem, mem', root) && mem'.Keys == mem.Keys
    ensures Grown(mem0, pool0, mem', pool, linked, root)
  {
  }

  lemma {:induction false} WithinLink(linked: set<Place>, first: nat, n: nat, l: nat)
    requires Within(linked, first, n + 1) && 1 <= l <= 3
    ensures Within(linked + {Place(l, Up(first + n, l))}, first, n + 1)
  {
    assert Serves(Place(l, Up(first + n, l)), first + n);
  }

  lemma {:induction false} WithinMore(linked: set<Place>, first: nat, n: nat, m: nat)
    requires Within(linked, first, n) && n <= m
    ensures Within(linked, first, m)
  {
  }

  lemma {:induction false} ReachedKept(mem: Memory, mem': Memory, root: int, first: nat, end: nat)
    requires Reached(mem, root, first, end) && Keeps(mem, mem', root) && end <= PAGES
    ensures Reached(mem', root, first, end)
  {
  }

  /* What can be told from the start. */

  lemma {:induction false} LinkedAbsent(mem0: Memory, pool0: seq<int>, mem: Memory, pool: seq<int>, linked: set<Place>,
                                        root: int, first: nat, n: nat)
    requires Grown(mem0, pool0, mem, pool, linked, root) && Within(linked, first, n) && first + n <= PAGES
    ensures linked <= Absent(mem0, root, first, n)
  {
    forall t | t in linked ensures t in Absent(mem0, root, first, n) {
      assert Named(t);
      var p :| first <= p < first + n && Serves(t, p);
      assert OnPath(t.level, p) && t == Place(t.level, Up(p, t.level));
    }
  }

  /** All pages reached: exactly the missing tables were linked in. */
  lemma {:induction false} AllLinked(mem0: Memory, pool0: seq<int>, mem: Memory, pool: seq<int>, linked: set<Place>,
                                     root: int, first: nat, n: nat)
    requires Grown(mem0, pool0, mem, pool, linked, root) && Within(linked, first, n) && first + n <= PAGES
    requires Reached(mem, root, first, first + n)
    ensures |pool0| - |pool| == |Absent(mem0, root, first, n)|
  {
    LinkedAbsent(mem0, pool0, mem, pool, linked, root, first, n);
    forall l, p | 1 <= l <= 3 && first <= p < first + n && TableAt(mem0, root, l, p).None?
      ensures Place(l, Up(p, l)) in linked
    {
      assert OnPath(1, p) && OnPath(l, p);
      AboveLeaf(mem, root, l, p);
    }
    assert linked == Absent(mem0, root, first, n);
  }

  /** A page not reached, and no free page left: fewer free pages than missing tables. */
  lemma {:induction false} NotAllLinked(mem0: Memory, pool0: seq<int>, mem: Memory, pool: seq<int>, linked: set<Place>,
                                        root: int, first: nat, n: nat, p: nat)
    requires Grown(mem0, pool0, mem, pool, linked, root) && Within(linked, first, n) && first + n <= PAGES
    requires pool == [] && first <= p < first + n && TableAt(mem, root, 1, p).None?
    ensures |pool0| < |Absent(mem0, root, first, n)|
  {
    LinkedAbsent(mem0, pool0, mem, pool, linked, root, first, n);
    assert OnPath(1, p);
    assert Place(1, Up(p, 1)) in Absent(mem0, root, first, n) && Place(1, Up(p, 1)) !in linked;
    Smaller(linked, Absent(mem0, root, first, n));
  }

  /** Page `q` is the first page of a level-`level` table. */
  predicate TableEnd(level: nat, q: nat) { q > 0 && Up(q, level) == Up(q - 1, level) + 1 }
}
