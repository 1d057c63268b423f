/** Where page tables come from: the pages `populate` and `PML4::new` take from the heap. */
module TableSupply {
  import opened Prelude
  import opened Bits
  import opened Heap
  import opened HeapRuns
  import Paging

  /** The layout of a page table. */
  const PAGE: Layout := Layout(4096, 4096)

  lemma {:induction false} PageLayout()
    ensures ValidLayout(PAGE) && RoundUpPow2(4096).Some? && RequestSize(PAGE) == 4096
  {
    Powers();
    assert PAGE.align == Pow2(12);
    RoundUpFails(4096);
    RoundUpIsLeast(4096, 12);
  }

  /** A table overlaps no header and no other live payload. */
  ghost predicate Undisturbed(s: State, p: nat)
  {
    && (forall c | c in s.chunks :: Apart(p, 4096, c.addr, HEADER_SIZE))
    && (forall q {:trigger s.live[q]} | q in s.live && q != p ::
          RoundUpPow2(s.live[q].size).Some? && Apart(p, 4096, q, Extent(s, q)))
  }

  /** What every live page is, in every run. */
  lemma {:induction false} LivePage(ops: seq<Op>, p: nat)
    requires Legal(ops) && p in Run(ops).live && Run(ops).live[p] == PAGE
    ensures p % 4096 == 0 && 0 < p < WORD_LIMIT && Undisturbed(Run(ops), p)
  {
    RunSafe(ops, p);
    RunInv(ops);
    PageLayout();
    var r :| r in Run(ops).regions && r.lo <= p && p + 4096 <= r.hi;
  }

  /** Live pages are a supply for the page tables. */
  lemma {:induction false} LivePagesSupply(ops: seq<Op>, pages: seq<nat>)
    requires Legal(ops) && pages != []
    requires forall i | 0 <= i < |pages| :: pages[i] in Run(ops).live && Run(ops).live[pages[i]] == PAGE
    requires forall i, j | 0 <= i < j < |pages| :: pages[i] != pages[j]
    ensures Paging.GoodSupply(pages[0], pages[1..])
    ensures forall i | 0 <= i < |pages| :: Undisturbed(Run(ops), pages[i])
  {
    forall i | 0 <= i < |pages|
      ensures pages[i] % 4096 == 0 && 0 < pages[i] < WORD_LIMIT && Undisturbed(Run(ops), pages[i])
    {
      LivePage(ops, pages[i]);
    }
  }

  /* Allocating them one after the other. */

  function Repeat(k: nat): seq<Op>
  {
    if k == 0 then [] else [Alloc(PAGE)] + Repeat(k - 1)
  }

  /** The pages that up to `k` allocations return, as long as they succeed. */
  function Pages(s: State, k: nat): seq<nat>
    decreases k
  {
    if k == 0 || AllocResult(s, PAGE).None? then []
    else [AllocResult(s, PAGE).value] + Pages(Next(s, Alloc(PAGE)), k - 1)
  }

  lemma {:induction false} OneMore(ops: seq<Op>)
    requires Legal(ops)
    ensures Legal(ops + [Alloc(PAGE)]) && Run(ops + [Alloc(PAGE)]) == Next(Run(ops), Alloc(PAGE))
  {
    PageLayout();
    assert (ops + [Alloc(PAGE)])[..|ops|] == ops;
  }

  /** An allocation takes nothing away from the live pointers and adds a new one. */
  lemma {:induction false} AllocAdds(s: State)
    requires Inv(s)
    ensures var t := Next(s, Alloc(PAGE));
            && StillLive(s, t)
            && (AllocResult(s, PAGE).Some? ==>
                  var p := AllocResult(s, PAGE).value;
                  p !in s.live && p in t.live && t.live[p] == PAGE)
  {
    PageLayout();
    if AllocResult(s, PAGE).Some? { AllocIsFresh(s, PAGE); }
  }

  /** From `s` to `t` no pointer was freed, and `pages` are distinct new ones. */
  ghost predicate AllNew(s: State, t: State, pages: seq<nat>)
  {
    forall key {:trigger Opened(key)} | Opened(key) ::
      && StillLive(s, t)
      && (forall i | 0 <= i < |pages| :: pages[i] !in s.live && pages[i] in t.live && t.live[pages[i]] == PAGE)
      && (forall i, j | 0 <= i < j < |pages| :: pages[i] != pages[j])
  }

  ghost predicate StillLive(s: State, t: State)
  {
    forall key {:trigger Opened(key)} | Opened(key) :: forall q | q in s.live :: q in t.live && t.live[q] == s.live[q]
  }

  lemma {:induction false} AllNewCons(s: State, m: State, t: State, p: nat, pages: seq<nat>)
    requires AllNew(m, t, pages) && StillLive(s, m)
    requires p !in s.live && p in m.live && m.live[p] == PAGE
    ensures AllNew(s, t, [p] + pages)
  {
    assert Opened(0);
    var all := [p] + pages;
    forall i, j | 0 <= i < j < |all| ensures all[i] != all[j] {
      assert all[j] == pages[j - 1];
      if i > 0 { assert all[i] == pages[i - 1]; }
    }
  }

  /** One page more, and the run it extends. */
  lemma {:induction false} PageMore(ops: seq<Op>)
    requires Legal(ops) && AllocResult(Run(ops), PAGE).Some?
    ensures var next, p := ops + [Alloc(PAGE)], AllocResult(Run(ops), PAGE).value;
            && Legal(next) && Run(next) == Next(Run(ops), Alloc(PAGE))
            && StillLive(Run(ops), Run(next)) && p !in Run(ops).live && p in Run(next).live && Run(next).live[p] == PAGE
  {
    RunInv(ops);
    OneMore(ops);
    AllocAdds(Run(ops));
  }

  lemma {:induction false} AllocPages(ops: seq<Op>, k: nat)
    requires Legal(ops) && |Pages(Run(ops), k)| == k
    ensures Legal(ops + Repeat(k)) && AllNew(Run(ops), Run(ops + Repeat(k)), Pages(Run(ops), k))
    decreases k
  {
    if k == 0 {
      assert ops + [] == ops;
    } else {
      var next := ops + [Alloc(PAGE)];
      PageMore(ops);
      PagesNext(Run(ops), k);
      AllocPages(next, k - 1);
      RepeatNext(ops, k);
      AllNewCons(Run(ops), Run(next), Run(next + Repeat(k - 1)), AllocResult(Run(ops), PAGE).value,
                 Pages(Run(next), k - 1));
    }
  }

  lemma {:induction false} RepeatNext(ops: seq<Op>, k: nat)
    requires k > 0
    ensures ops + [Alloc(PAGE)] + Repeat(k - 1) == ops + Repeat(k)
  {
  }

  lemma {:induction false} PagesNext(s: State, k: nat)
    requires k > 0 && AllocResult(s, PAGE).Some?
    ensures Pages(s, k) == [AllocResult(s, PAGE).value] + Pages(Next(s, Alloc(PAGE)), k - 1)
  {
  }

  /** After any run of the heap, successive successful allocations of a page give a root and a supply of tables:
      aligned, distinct, in no header and in no live payload. */
  lemma {:induction false} HeapSupplies(ops: seq<Op>, k: nat)
    requires Legal(ops) && k > 0 && |Pages(Run(ops), k)| == k
    ensures var pages, t := Pages(Run(ops), k), Run(ops + Repeat(k));
            && Legal(ops + Repeat(k)) && Paging.GoodSupply(pages[0], pages[1..])
            && forall i | 0 <= i < k :: pages[i] !in Run(ops).live && Undisturbed(t, pages[i])
  {
    AllocPages(ops, k);
    assert Opened(0);
    LivePagesSupply(ops + Repeat(k), Pages(Run(ops), k));
  }
}
