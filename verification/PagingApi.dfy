/** The paging services as callers see them: byte addresses, the masked table
    walk of paging_virt2phys, and what a caller can rely on across calls. */
module PagingApi {
  import opened Common
  import opened Arith
  import opened PageTree
  import opened PagingSpec
  import opened Release
  import opened Overwrite
  import opened Paging

  const PAGE_SIZE: nat := 4096

  function PageOf(a: nat): nat {
    a / PAGE_SIZE
  }

  /** PAGES(size), the page count of PAGE_ALIGN(size). */
  function Pages(size: nat): nat {
    (size + PAGE_SIZE - 1) / PAGE_SIZE
  }

  // ----- absolute addresses and the get_entry masks -----

  /** The entry get_entry picks for virtual page v in a table of level l. */
  function EntryFor(cfg: seq<Level>, l: nat, t: seq<Entry>, v: nat): Entry
    requires At(cfg, l) && WF(cfg, l, t)
  {
    t[(v / cfg[l].span) % cfg[l].entries]
  }

  function Offset(cfg: seq<Level>, l: nat, v: nat): (o: nat)
    requires At(cfg, l)
    ensures o < Coverage(cfg, l)
  {
    MulMono(1, cfg[l].entries, cfg[l].span);
    v % Coverage(cfg, l)
  }

  /** Walking with the whole address or with the remainder finds the same entries. */
  lemma OffsetStep(cfg: seq<Level>, l: nat, t: seq<Entry>, v: nat)
    requires At(cfg, l) && WF(cfg, l, t)
    ensures EntryFor(cfg, l, t, v) == t[Idx(cfg, l, Offset(cfg, l, v))]
    ensures Rem(cfg, l, Offset(cfg, l, v)) == v % cfg[l].span
    ensures l + 1 < |cfg| ==> Rem(cfg, l, Offset(cfg, l, v)) == Offset(cfg, l + 1, v)
  {
    MulMono(1, cfg[l].entries, cfg[l].span);
    MaskIndex(v, cfg[l].entries, cfg[l].span);
    if l + 1 < |cfg| {
      SpanShrinks(cfg, l);
    }
  }

  lemma OffsetSmall(cfg: seq<Level>, l: nat, v: nat)
    requires At(cfg, l) && v < Coverage(cfg, l)
    ensures Offset(cfg, l, v) == v
  {
    DivUnique(v, 0, v, Coverage(cfg, l));
  }

  // ----- when paging_destroy is exact -----

  /** For each level page size P <= s, v is P-aligned or lies under a table of that level. */
  ghost predicate Destroyable(cfg: seq<Level>, l: nat, t: seq<Entry>, v: nat, s: nat)
    requires At(cfg, l) && WF(cfg, l, t)
    decreases |cfg| - l
  {
    var e := EntryFor(cfg, l, t, v);
    && (cfg[l].terminal && cfg[l].span <= s ==> v % cfg[l].span == 0 || e.Table?)
    && (assert WFEntry(cfg, l, e);
        if e.Table? then Destroyable(cfg, l + 1, e.sub, v, s) else AlignedBelowLevel(cfg, l, v, s))
  }

  ghost predicate AlignedBelowLevel(cfg: seq<Level>, l: nat, v: nat, s: nat)
    requires At(cfg, l)
  {
    forall j | l < j < |cfg| && cfg[j].terminal && cfg[j].span <= s :: v % cfg[j].span == 0
  }

  lemma {:induction false} FitAligned(cfg: seq<Level>, l: nat, v: nat, s: nat)
    requires At(cfg, l) && s >= 1
    ensures FitBlock(cfg, l, Offset(cfg, l, v), s).start == Offset(cfg, l, v) <==>
            (cfg[l].terminal && cfg[l].span <= s ==> v % cfg[l].span == 0) && AlignedBelowLevel(cfg, l, v, s)
    decreases |cfg| - l
  {
    OffsetStep(cfg, l, Blank(cfg, l), v);
    if cfg[l].terminal && cfg[l].span <= s {
      if v % cfg[l].span == 0 {
        forall j | l < j < |cfg| ensures v % cfg[j].span == 0 {
          AlignedDown(cfg, l, j, v);
        }
      }
    } else {
      NotLast(cfg, l);
      FitAligned(cfg, l + 1, v, s);
    }
  }

  /** The first round clears from v on exactly when v is destroyable. */
  lemma {:induction false} DestroyableIff(cfg: seq<Level>, l: nat, t: seq<Entry>, v: nat, s: nat)
    requires At(cfg, l) && WF(cfg, l, t) && s >= 1
    requires Lookup(cfg, l, t, Offset(cfg, l, v)).Some?
    ensures Destroyable(cfg, l, t, v, s) <==>
            ClearBlock(cfg, l, t, Offset(cfg, l, v), s).start == Offset(cfg, l, v)
    decreases |cfg| - l
  {
    OffsetStep(cfg, l, t, v);
    var e := EntryFor(cfg, l, t, v);
    assert WFEntry(cfg, l, e);
    if e.Table? {
      SpanShrinks(cfg, l);
      DestroyableIff(cfg, l + 1, e.sub, v, s);
    } else {
      FitAligned(cfg, l, v, s);
    }
  }

  // ----- results across calls -----

  /** Mapping an unmapped range of a pruned tree and unmapping it again cannot fail
      and gives back the very tree and the very number of free pages. */
  method MapThenUnmap(cfg: seq<Level>, t: seq<Entry>, free: nat, v: nat, p: nat, s: nat, f: nat)
    returns (mapped: bool, ok: bool, t': seq<Entry>, free': nat)
    requires At(cfg, 0) && WF(cfg, 0, t) && v + s <= Coverage(cfg, 0)
    requires Pruned(t) && Vacant(cfg, 0, t, v, s)
    ensures mapped ==> ok && t' == t && free' == free
    ensures Gapless(cfg) && free >= 2 * s * (|cfg| - 1) ==> mapped
  {
    ghost var done;
    mapped, t', free', done := Create(cfg, 0, t, free, v, p, s, f);
    ghost var created := t';
    ok, t', free' := Destroy(cfg, 0, t', free', v, s);
    if mapped {
      LeavesBack(cfg, t, created, t', v, s);
    }
  }

  lemma LeavesBack(cfg: seq<Level>, t: seq<Entry>, t1: seq<Entry>, t2: seq<Entry>, v: nat, s: nat)
    requires At(cfg, 0) && WF(cfg, 0, t) && WF(cfg, 0, t1) && WF(cfg, 0, t2)
    requires Pruned(t) && Pruned(t2) && Vacant(cfg, 0, t, v, s)
    requires SameLeaves(cfg, 0, t, t1, v, s) && ClearsLeaves(cfg, 0, t1, t2, v, s)
    ensures t2 == t
  {
    hide LeafAt, Lookup;
    LeavesDetermineTree(cfg, 0, t2, t);
  }

  /** Tables from level l down to level g, whose first entry is a page. */
  function Chain(cfg: seq<Level>, l: nat, g: nat, f: nat): (t: seq<Entry>)
    requires At(cfg, l) && l <= g < |cfg| && cfg[g].terminal
    ensures WF(cfg, l, t)
    decreases g - l
  {
    DivUnique(0, 0, 0, cfg[g].span);
    Blank(cfg, l)[0 := if l == g then Leaf(0, f) else Table(Chain(cfg, l + 1, g, f))]
  }

  lemma {:induction false} ChainHas(cfg: seq<Level>, l: nat, g: nat, f: nat)
    requires At(cfg, l) && l <= g && g + 1 < |cfg| && cfg[g].terminal && !cfg[g + 1].terminal
    ensures 0 < Coverage(cfg, l) && GapAt(cfg, l, Chain(cfg, l, g, f), 0, 1)
    ensures LeafAt(cfg, l, Chain(cfg, l, g, f), 0) == Some(LeafInfo(0, cfg[g].span, 0, f))
    decreases g - l
  {
    MulMono(1, cfg[l].entries, cfg[l].span);
    DivUnique(0, 0, 0, cfg[l].span);
    SpanShrinks(cfg, l);
    if l < g {
      ChainHas(cfg, l + 1, g, f);
    }
  }

  /** Why a failing request keeps other translations only without gaps: every mode that has a gap
      has a tree and a request for one page that fails for lack of a second free page and drops
      the translation of the page beside it. */
  method GapLosesMapping(cfg: seq<Level>, f: nat) returns (ok: bool, t: seq<Entry>, t': seq<Entry>)
    requires ValidConfig(cfg) && !Gapless(cfg)
    ensures WF(cfg, 0, t) && WF(cfg, 0, t') && 1 < Coverage(cfg, 0)
    ensures !ok && Lookup(cfg, 0, t, 1).Some? && Lookup(cfg, 0, t', 1).None?
  {
    var g := 0;
    while !(cfg[g].terminal && !cfg[g + 1].terminal)
      invariant 0 <= g < |cfg| - 1
      decreases |cfg| - g
      invariant forall i | 0 <= i < g :: cfg[i].terminal ==> cfg[i + 1].terminal
    {
      g := g + 1;
    }
    SpanShrinks(cfg, g);
    SpanShrinks(cfg, 0);
    MulMono(1, cfg[0].entries, cfg[0].span);
    t := Chain(cfg, 0, g, f);
    ChainHas(cfg, 0, g, f);
    LeafConstant(cfg, 0, t, 0, 1);
    var free';
    ghost var done;
    ok, t', free', done := Create(cfg, 0, t, 1, 0, 0, 1, f);
    assert LeafAt(cfg, 0, t', 1).None?;
  }

  // ----- inputs on which the documentation fails -----

  /** Two levels of two entries, pages of two and of one. */
  const TWO_LEVELS: seq<Level> := [Level(2, 2, true), Level(2, 1, true)]

  /** Three levels of two entries, pages of four, two and one. */
  const THREE_LEVELS: seq<Level> := [Level(2, 4, true), Level(2, 2, true), Level(2, 1, true)]

  /** Unmapping two pages from the middle of the first of two mapped hugepages succeeds, but
      unmaps the page before the range and leaves the last page of the range mapped. */
  method UnalignedDestroyMisses(free: nat, f: nat) returns (ok: bool, t: seq<Entry>, t': seq<Entry>)
    ensures At(TWO_LEVELS, 0) && WF(TWO_LEVELS, 0, t) && WF(TWO_LEVELS, 0, t') && Coverage(TWO_LEVELS, 0) == 4
    ensures Populated(TWO_LEVELS, 0, t, 1, 2) && !Destroyable(TWO_LEVELS, 0, t, 1, 2)
    ensures ok && Lookup(TWO_LEVELS, 0, t, 0).Some? && Lookup(TWO_LEVELS, 0, t', 0).None?
    ensures Lookup(TWO_LEVELS, 0, t', 2).Some?
  {
    var cfg := TWO_LEVELS;
    assert Nested(cfg, 0);
    t := [Leaf(0, f), Leaf(2, f)];
    var free';
    ok, t', free' := Destroy(cfg, 0, t, free, 1, 2);
    assert LeafAt(cfg, 0, t, 1) == Some(LeafInfo(0, 2, 0, f));
    assert LeafAt(cfg, 0, t', 0).None? && LeafAt(cfg, 0, t', 2) == LeafAt(cfg, 0, t, 2);
  }

  /** A hole of two pages and a hugepage behind it. */
  function HoleThenPage(f: nat): (t: seq<Entry>)
    ensures At(TWO_LEVELS, 0) && WF(TWO_LEVELS, 0, t) && Pruned(t) && Tables(t) == 0
  {
    assert Nested(TWO_LEVELS, 0);
    var t := [Invalid, Leaf(2, f)];
    assert t[1..] == [Leaf(2, f)] && t[1..][1..] == [];
    assert Tables(t[1..][1..]) == 0 && Tables(t[1..]) == 0;
    t
  }

  lemma HoleLeaves(f: nat)
    ensures Coverage(TWO_LEVELS, 0) == 4 && LeafAt(TWO_LEVELS, 0, HoleThenPage(f), 1).None?
    ensures LeafAt(TWO_LEVELS, 0, HoleThenPage(f), 2) == Some(LeafInfo(2, 2, 2, f))
    ensures LeafAt(TWO_LEVELS, 0, HoleThenPage(f), 3) == Some(LeafInfo(2, 2, 2, f))
    ensures Stride(TWO_LEVELS, 0, HoleThenPage(f), 1, 1) == 2
  {
  }

  /** Unmapping from page 1 to the end cuts no page, yet strides from the hole into the middle of the
      hugepage. */
  lemma HoleCuts(f: nat)
    ensures Coverage(TWO_LEVELS, 0) == 4 && Sweeps(TWO_LEVELS, 0, HoleThenPage(f), 1, 3)
    ensures Cuts(TWO_LEVELS, 0, HoleThenPage(f), 1, 1, 4) && !AllMet(TWO_LEVELS, 0, HoleThenPage(f), 1, 1, 4)
  {
    hide LeafAt, Lookup, Stride, HoleThenPage, WF;
    HoleLeaves(f);
    var cfg, t := TWO_LEVELS, HoleThenPage(f);
    assert StepFrom(cfg, 0, t, 1, 1) == 2;
    assert EndsBeyond(cfg, 0, t, 2, 3) && CutAt(cfg, 0, t, 3, 4);
    assert SkipsNone(cfg, 0, t, 1, 1, 4);
    assert Cuts(cfg, 0, t, 1, 3, 4) && !AllMet(cfg, 0, t, 1, 3, 4);
  }

  /** A request that covers only full pages: without a free page it fails, with enough of them it
      succeeds and leaves a page of the range mapped. */
  method HoleBeforeHugepage(free: nat, f: nat) returns (ok: bool, t: seq<Entry>, t': seq<Entry>)
    ensures At(TWO_LEVELS, 0) && WF(TWO_LEVELS, 0, t) && WF(TWO_LEVELS, 0, t') && Coverage(TWO_LEVELS, 0) == 4
    ensures Inside(TWO_LEVELS, 0, t, 1, 4) && (free == 0 ==> !ok) && (free >= 3 ==> ok)
    ensures ok ==> Lookup(TWO_LEVELS, 0, t', 2).Some? || Lookup(TWO_LEVELS, 0, t', 3).Some?
  {
    hide LeafAt, Lookup, AllMet, Cuts, HoleThenPage, WF, Tables;
    HoleLeaves(f);
    HoleCuts(f);
    t := HoleThenPage(f);
    var free';
    ok, t', free' := Destroy(TWO_LEVELS, 0, t, free, 1, 3);
    if ok {
      ShrunkAt(TWO_LEVELS, 0, t, t', 1);
      assert LeafAt(TWO_LEVELS, 0, t', 1).None?;
    }
  }

  lemma ThreeLevels()
    ensures ValidConfig(THREE_LEVELS) && Coverage(THREE_LEVELS, 0) == 8
    ensures Coverage(THREE_LEVELS, 1) == 4 && Coverage(THREE_LEVELS, 2) == 2
  {
    assert Nested(THREE_LEVELS, 0) && Nested(THREE_LEVELS, 1);
  }

  lemma Places()
    ensures ValidConfig(THREE_LEVELS) && Coverage(THREE_LEVELS, 0) == 8 && Coverage(THREE_LEVELS, 1) == 4
    ensures forall a: nat | a < 4 :: Idx(THREE_LEVELS, 0, a) == 0 && Rem(THREE_LEVELS, 0, a) == a
    ensures Idx(THREE_LEVELS, 1, 0) == 0 && Rem(THREE_LEVELS, 1, 0) == 0
    ensures Idx(THREE_LEVELS, 1, 1) == 0 && Rem(THREE_LEVELS, 1, 1) == 1
    ensures Idx(THREE_LEVELS, 1, 2) == 1 && Rem(THREE_LEVELS, 1, 2) == 0
  {
    ThreeLevels();
    assert THREE_LEVELS[0].span == 4 && THREE_LEVELS[1].span == 2;
    forall a: nat | a < 4 ensures Idx(THREE_LEVELS, 0, a) == 0 && Rem(THREE_LEVELS, 0, a) == a {
      DivUnique(a, 0, a, 4);
    }
    DivUnique(0, 0, 0, 2);
    DivUnique(1, 0, 1, 2);
    DivUnique(2, 1, 0, 2);
  }

  /** A table of two single pages, the second one mapped if `both`. */
  function Pair(p: nat, f: nat, both: bool): (t: seq<Entry>)
    ensures ValidConfig(THREE_LEVELS) && WF(THREE_LEVELS, 2, t) && Pruned(t) && !IsBlank(t)
  {
    ThreeLevels();
    var t := [Leaf(p, f), if both then Leaf(p + 1, f) else Invalid];
    assert !t[0].Invalid?;
    t
  }

  /** A table whose first subtable maps its first page only and whose second one is full. */
  function Sparse(f: nat): (t: seq<Entry>)
    ensures ValidConfig(THREE_LEVELS) && WF(THREE_LEVELS, 1, t) && Pruned(t) && !IsBlank(t)
    ensures |t| == 2 && t[0] == Table(Pair(0, f, false)) && t[1] == Table(Pair(2, f, true))
  {
    var t := [Table(Pair(0, f, false)), Table(Pair(2, f, true))];
    assert !t[0].Invalid?;
    t
  }

  function SparseRoot(f: nat): (t: seq<Entry>)
    ensures ValidConfig(THREE_LEVELS) && WF(THREE_LEVELS, 0, t) && Pruned(t)
    ensures |t| == 2 && t[0] == Table(Sparse(f))
  {
    [Table(Sparse(f)), Invalid]
  }

  lemma PairLeaves(p: nat, f: nat, both: bool)
    ensures Coverage(THREE_LEVELS, 2) == 2
    ensures LeafAt(THREE_LEVELS, 2, Pair(p, f, both), 0) == Some(LeafInfo(0, 1, p, f))
    ensures !both ==> LeafAt(THREE_LEVELS, 2, Pair(p, f, both), 1).None?
  {
    ThreeLevels();
  }

  lemma SparseLeaves(f: nat)
    ensures Coverage(THREE_LEVELS, 1) == 4
    ensures LeafAt(THREE_LEVELS, 1, Sparse(f), 0) == Some(LeafInfo(0, 1, 0, f))
    ensures LeafAt(THREE_LEVELS, 1, Sparse(f), 1).None?
    ensures LeafAt(THREE_LEVELS, 1, Sparse(f), 2) == Some(LeafInfo(2, 1, 2, f))
  {
    hide Lookup, LeafAt, Pair, Sparse, WF, WFEntry, Pruned, Idx, Rem, Coverage, ValidConfig;
    ThreeLevels();
    PairLeaves(0, f, false);
    PairLeaves(2, f, true);
    var cfg, c := THREE_LEVELS, Sparse(f);
    LeafOfEntry(cfg, 1, c, 0, 0, 2, Pair(0, f, false));
    LeafOfEntry(cfg, 1, c, 0, 1, 2, Pair(0, f, false));
    LeafOfEntry(cfg, 1, c, 1, 0, 2, Pair(2, f, true));
  }

  lemma RootLeaf(f: nat, a: nat)
    requires a < 3
    ensures Coverage(THREE_LEVELS, 0) == 8 && Coverage(THREE_LEVELS, 1) == 4
    ensures LeafAt(THREE_LEVELS, 0, SparseRoot(f), a) == LeafAt(THREE_LEVELS, 1, Sparse(f), a)
  {
    hide Lookup, LeafAt, Sparse, SparseRoot, WF, WFEntry, Pruned, Idx, Rem, Coverage, ValidConfig;
    ThreeLevels();
    LeafOfEntry(THREE_LEVELS, 0, SparseRoot(f), 0, a, 1, Sparse(f));
  }

  lemma RootLeaves(f: nat)
    ensures Coverage(THREE_LEVELS, 0) == 8
    ensures forall a: nat | a < 3 :: LeafAt(THREE_LEVELS, 0, SparseRoot(f), a) == LeafAt(THREE_LEVELS, 1, Sparse(f), a)
  {
    hide LeafAt, Sparse, SparseRoot, WF, Coverage;
    ThreeLevels();
    forall a: nat | a < 3 ensures LeafAt(THREE_LEVELS, 0, SparseRoot(f), a) == LeafAt(THREE_LEVELS, 1, Sparse(f), a) {
      RootLeaf(f, a);
    }
  }

  lemma SparseStride(f: nat)
    ensures Coverage(THREE_LEVELS, 0) == 8 && Stride(THREE_LEVELS, 0, SparseRoot(f), 0, 1) == 2
  {
    hide Lookup, LeafAt, Sparse, SparseRoot, WF, WFEntry, Pruned, Idx, Rem, Coverage, Stride, RestVacant, Base;
    ThreeLevels();
    Places();
    SparseLeaves(f);
    RootLeaves(f);
    var cfg, t := THREE_LEVELS, SparseRoot(f);
    StrideIs(cfg, 0, t, 0, 1, 1, Sparse(f));
    StrideIs(cfg, 1, Sparse(f), 0, 1, 2, Pair(0, f, false));
    RestMapped(cfg, 0, t, 0, 1, 2);
    LastVacant(cfg, 1, Sparse(f), 0, 1);
  }

  /** The release clears page 0 and with it the first subtable, finds the hole at page 1 one level
      higher, strides two pages from there and steps over page 2. */
  lemma SparseSkips(f: nat)
    ensures Coverage(THREE_LEVELS, 0) == 8 && !AllMet(THREE_LEVELS, 0, SparseRoot(f), 0, 0, 4)
  {
    hide Lookup, LeafAt, Sparse, SparseRoot, WF, WFEntry, Pruned, Stride, Idx, Rem, Coverage;
    ThreeLevels();
    SparseLeaves(f);
    RootLeaves(f);
    SparseStride(f);
    var cfg, t := THREE_LEVELS, SparseRoot(f);
    assert StepFrom(cfg, 0, t, 0, 0) == 1 && StepFrom(cfg, 0, t, 0, 1) == 2;
    assert LeafAt(cfg, 0, t, 2).Some? && !EndsBeyond(cfg, 0, t, 2, 3);
    assert !SkipsNone(cfg, 0, t, 0, 1, 4);
    assert !AllMet(cfg, 0, t, 0, 1, 4);
  }

  /** Mapping one hugepage over that table loses table pages, although nothing fails. */
  method SparseOverwriteStrands(free: nat, f: nat) returns (ok: bool, t: seq<Entry>, t': seq<Entry>, free': nat)
    ensures At(THREE_LEVELS, 0) && WF(THREE_LEVELS, 0, t) && Pruned(t) && WF(THREE_LEVELS, 0, t')
    ensures ok && free' + Tables(t') < free + Tables(t)
  {
    hide AllMet, Lookup, LeafAt, Tables;
    ThreeLevels();
    t := SparseRoot(f);
    SparseSkips(f);
    var ps;
    ok, t', free', ps := CreateStep(THREE_LEVELS, 0, t, free, 0, 0, 4, f);
    assert PageFits(THREE_LEVELS, 0, 0, 0, 4);
  }

  // ----- byte addresses -----

  const ENOMEM: int := 12

  /** mem_pool as single-page allocations see it. */
  class PageCounter {
    var free: nat
    var used: nat

    constructor (free: nat, used: nat)
      ensures this.free == free && this.used == used
    {
      this.free, this.used := free, used;
    }
  }

  /** What the tree says about byte address a. */
  function Translation(cfg: seq<Level>, root: seq<Entry>, a: nat): Option<Mapping>
    requires At(cfg, 0) && WF(cfg, 0, root) && PageOf(a) < Coverage(cfg, 0)
  {
    match Lookup(cfg, 0, root, PageOf(a))
    case None => None
    case Some(m) => Some(Mapping(m.phys * PAGE_SIZE + a % PAGE_SIZE, m.flags))
  }

  /** Byte a lies in one of the pages that a request for `size` bytes at `virt` means. */
  predicate InPages(a: nat, virt: nat, size: nat) {
    PageOf(virt) <= PageOf(a) < PageOf(virt) + Pages(size)
  }

  lemma PageSplit(a: nat, virt: nat)
    ensures a == PageOf(a) * PAGE_SIZE + a % PAGE_SIZE
    ensures (PageOf(a) - PageOf(virt)) * PAGE_SIZE + a % PAGE_SIZE == a - PageOf(virt) * PAGE_SIZE
  {
  }

  lemma CreateBytes(cfg: seq<Level>, t: seq<Entry>, u: seq<Entry>, phys: nat, virt: nat, size: nat, done: nat, f: nat)
    requires At(cfg, 0) && WF(cfg, 0, t) && WF(cfg, 0, u) && PageOf(virt) + done <= Coverage(cfg, 0)
    requires done <= Pages(size)
    requires Maps(cfg, 0, u, PageOf(virt), done, PageOf(phys), f) && SameOutside(cfg, 0, t, u, PageOf(virt), done)
    ensures forall a: nat | PageOf(a) < Coverage(cfg, 0) :: Translation(cfg, u, a) ==
              if PageOf(virt) <= PageOf(a) < PageOf(virt) + done
              then Some(Mapping(PageOf(phys) * PAGE_SIZE + (a - PageOf(virt) * PAGE_SIZE), f))
              else Translation(cfg, t, a)
  {
    hide Lookup, Coverage;
    forall a: nat | PageOf(a) < Coverage(cfg, 0)
      ensures Translation(cfg, u, a) ==
              if PageOf(virt) <= PageOf(a) < PageOf(virt) + done
              then Some(Mapping(PageOf(phys) * PAGE_SIZE + (a - PageOf(virt) * PAGE_SIZE), f))
              else Translation(cfg, t, a)
    {
      PageSplit(a, virt);
    }
  }

  /** A successful paging_destroy of a populated range is exact just when virt is destroyable. */
  lemma DestroyBytes(cfg: seq<Level>, t: seq<Entry>, u: seq<Entry>, virt: nat, size: nat)
    requires At(cfg, 0) && WF(cfg, 0, t) && WF(cfg, 0, u) && PageOf(virt) + Pages(size) <= Coverage(cfg, 0)
    requires Populated(cfg, 0, t, PageOf(virt), Pages(size))
    requires Exact(cfg, 0, t, PageOf(virt), Pages(size)) ==> Clears(cfg, 0, t, u, PageOf(virt), Pages(size))
    requires Misaligned(cfg, 0, t, PageOf(virt), Pages(size)) ==>
               Lookup(cfg, 0, t, PageOf(virt) - 1).Some? && Lookup(cfg, 0, u, PageOf(virt) - 1).None?
    ensures Pages(size) == 0 || Destroyable(cfg, 0, t, PageOf(virt), Pages(size)) <==>
            forall a: nat | PageOf(a) < Coverage(cfg, 0) ::
              Translation(cfg, u, a) == if InPages(a, virt, size) then None else Translation(cfg, t, a)
  {
    hide Lookup, Coverage, Destroyable, ClearBlock, Clears, Populated;
    var v, s := PageOf(virt), Pages(size);
    if s > 0 {
      PopulatedAt(cfg, 0, t, v, s, v);
      OffsetSmall(cfg, 0, v);
      DestroyableIff(cfg, 0, t, v, s);
    }
    if s == 0 || ClearBlock(cfg, 0, t, v, s).start == v {
      forall a: nat | PageOf(a) < Coverage(cfg, 0)
        ensures Translation(cfg, u, a) == if InPages(a, virt, size) then None else Translation(cfg, t, a)
      {
        ClearsAt(cfg, 0, t, u, v, s, PageOf(a));
      }
    } else {
      var a := (v - 1) * PAGE_SIZE;
      assert PageOf(a) == v - 1;
      assert Translation(cfg, u, a) != if InPages(a, virt, size) then None else Translation(cfg, t, a);
    }
  }

  /** The walk to some page of the request still lacks a table or has to split a page. */
  ghost predicate StillNeeds(cfg: seq<Level>, t: seq<Entry>, phys: nat, virt: nat, size: nat)
    requires At(cfg, 0) && WF(cfg, 0, t) && PageOf(virt) + Pages(size) <= Coverage(cfg, 0)
  {
    exists k: nat | k < Pages(size) :: NeedAt(cfg, t, PageOf(virt), PageOf(phys), Pages(size), k) > 0
  }

  /** The pages that mapping the k-th page of the request needs. */
  function NeedAt(cfg: seq<Level>, t: seq<Entry>, v: nat, p: nat, s: nat, k: nat): nat
    requires At(cfg, 0) && WF(cfg, 0, t) && v + s <= Coverage(cfg, 0) && k < s
  {
    Need(cfg, 0, t, v + k, p + k, s - k)
  }

  class PagingStructures {
    const cfg: seq<Level>
    var root: seq<Entry>

    ghost predicate Valid()
      reads this
    {
      At(cfg, 0) && WF(cfg, 0, root)
    }

    constructor (cfg: seq<Level>)
      requires ValidConfig(cfg)
      ensures Valid() && this.cfg == cfg && IsBlank(root)
    {
      this.cfg := cfg;
      this.root := Blank(cfg, 0);
    }

    ghost function Translate(a: nat): Option<Mapping>
      requires Valid() && PageOf(a) < Coverage(cfg, 0)
      reads this
    {
      Translation(cfg, root, a)
    }

    /** paging_virt2phys, for the access flags of the mapping itself. */
    method Virt2Phys(virt: nat) returns (r: Option<Mapping>)
      requires Valid() && PageOf(virt) < Coverage(cfg, 0)
      ensures r == Translate(virt)
    {
      var l: nat, pt, v := 0, root, PageOf(virt);
      OffsetSmall(cfg, 0, v);
      while true
        invariant At(cfg, l) && WF(cfg, l, pt)
        invariant Lookup(cfg, l, pt, Offset(cfg, l, v)) == Lookup(cfg, 0, root, v)
        decreases |cfg| - l
      {
        var pte := EntryFor(cfg, l, pt, v);
        OffsetStep(cfg, l, pt, v);
        assert WFEntry(cfg, l, pte);
        if pte.Invalid? {
          return None;
        } else if pte.Leaf? {
          return Some(Mapping((pte.phys + v % cfg[l].span) * PAGE_SIZE + virt % PAGE_SIZE, pte.flags));
        }
        l, pt := l + 1, pte.sub;
      }
    }

    /** paging_create */
    method Create(pool: PageCounter, phys: nat, size: nat, virt: nat, flags: nat) returns (err: int)
      requires Valid() && PageOf(virt) + Pages(size) <= Coverage(cfg, 0) && pool.used >= Tables(root)
      modifies this`root, pool
      ensures Valid() && (err == 0 || err == -ENOMEM)
      ensures err != 0 ==> pool.free == 0 && (Gapless(cfg) ==> StillNeeds(cfg, root, phys, virt, size))
      ensures Gapless(cfg) && old(pool.free) >= 2 * Pages(size) * (|cfg| - 1) ==> err == 0
      ensures err == 0 ==> forall a: nat | PageOf(a) < Coverage(cfg, 0) ::
                Translate(a) == if InPages(a, virt, size)
                                then Some(Mapping(PageOf(phys) * PAGE_SIZE + (a - PageOf(virt) * PAGE_SIZE), flags))
                                else old(Translate(a))
      ensures Gapless(cfg) ==> forall a: nat | PageOf(a) < Coverage(cfg, 0) && !InPages(a, virt, size) ::
                Translate(a) == old(Translate(a))
      ensures pool.free + pool.used == old(pool.free + pool.used) && pool.used >= Tables(root)
      ensures old(Pruned(root)) && err == 0 ==>
                && Pruned(root)
                && (pool.used - Tables(root) == old(pool.used - Tables(root)) <==>
                    old(CleanRange(cfg, 0, root, PageOf(virt), PageOf(phys), Pages(size))))
    {
      var ok, free';
      ghost var done;
      ghost var was := root;
      ok, root, free', done := Paging.Create(cfg, 0, root, pool.free, PageOf(virt), PageOf(phys), Pages(size), flags);
      err := if ok then 0 else -ENOMEM;
      pool.used, pool.free := pool.used + pool.free - free', free';
      assert !ok && Gapless(cfg) ==> NeedAt(cfg, root, PageOf(virt), PageOf(phys), Pages(size), done) > 0;
      if ok || Gapless(cfg) {
        CreateBytes(cfg, was, root, phys, virt, size, done, flags);
      }
    }

    /** paging_destroy */
    method Destroy(pool: PageCounter, virt: nat, size: nat) returns (err: int)
      requires Valid() && PageOf(virt) + Pages(size) <= Coverage(cfg, 0) && pool.used >= Tables(root)
      modifies this`root, pool
      ensures Valid() && (err == 0 || err == -ENOMEM)
      ensures err != 0 ==>
                pool.free == 0 && (Gapless(cfg) ==> CutLeft(cfg, 0, root, PageOf(virt), PageOf(virt) + Pages(size)))
      ensures Gapless(cfg) && old(pool.free) >= Pages(size) * (|cfg| - 1) ==> err == 0
      ensures pool.free + pool.used == old(pool.free + pool.used)
      ensures pool.used - Tables(root) == old(pool.used - Tables(root))
      ensures old(Covered(cfg, 0, root, PageOf(virt), Pages(size))) ==> err == 0
      ensures err == 0 && old(Populated(cfg, 0, root, PageOf(virt), Pages(size))) ==>
                (old(Pages(size) == 0 || Destroyable(cfg, 0, root, PageOf(virt), Pages(size))) <==>
                 forall a: nat | PageOf(a) < Coverage(cfg, 0) ::
                   Translate(a) == if InPages(a, virt, size) then None else old(Translate(a)))
    {
      hide Exact, Misaligned, Populated, Covered, Destroyable, Clears, ClearsLeaves;
      hide Lookup, LeafAt, Translation, AllMet, Coverage, Tables, CutLeft;
      var ok, free';
      var v, s := PageOf(virt), Pages(size);
      ghost var was := root;
      ok, root, free' := Paging.Destroy(cfg, 0, root, pool.free, v, s);
      err := if ok then 0 else -ENOMEM;
      pool.used, pool.free := pool.used + pool.free - free', free';
      if ok && Populated(cfg, 0, was, v, s) {
        DestroyBytes(cfg, was, root, virt, size);
      }
    }
  }
}
