/** The memory hooks of the life-cycle model and the page tables behind them: on ARM,
    arch_map_memory_region and arch_unmap_memory_region (hypervisor/arch/arm-common/mmu_cell.c) are
    paging_create and paging_destroy on the cell's tables.  Says when they do what the life cycle
    counts on. */
module RootTree {
  import opened Common
  import opened PageTree
  import opened PagingSpec
  import opened Release
  import opened PagingApi
  import Paging
  import RM = RootMemory

  /** What a tree maps, as a page map. */
  ghost function MapOf(cfg: seq<Level>, t: seq<Entry>): (m: RM.PageMap)
    requires At(cfg, 0) && WF(cfg, 0, t)
    ensures forall v: nat :: RM.At(m, v) == LookupIn(cfg, t, v)
  {
    map v: nat | v < Coverage(cfg, 0) && LookupIn(cfg, t, v).Some? :: LookupIn(cfg, t, v).value
  }

  function LookupIn(cfg: seq<Level>, t: seq<Entry>, v: nat): Option<Mapping>
    requires At(cfg, 0) && WF(cfg, 0, t)
  {
    if v < Coverage(cfg, 0) then Lookup(cfg, 0, t, v) else None
  }

  lemma SameMap(m: RM.PageMap, m': RM.PageMap)
    requires forall v: nat :: RM.At(m, v) == RM.At(m', v)
    ensures m == m'
  {
    forall v: nat ensures (v in m <==> v in m') && (v in m ==> m[v] == m'[v]) {
      assert RM.At(m, v) == RM.At(m', v);
    }
    assert m.Keys == m'.Keys;
  }

  /** Clearing a range of a tree is unmapping the region from its map. */
  lemma ClearsIsUnmap(cfg: seq<Level>, t: seq<Entry>, u: seq<Entry>, r: RM.Region)
    requires At(cfg, 0) && WF(cfg, 0, t) && WF(cfg, 0, u) && r.virt + r.size <= Coverage(cfg, 0)
    ensures Clears(cfg, 0, t, u, r.virt, r.size) <==> MapOf(cfg, u) == RM.UnmapRegion(MapOf(cfg, t), r)
  {
    hide Lookup, LeafAt, Coverage, MapOf;
    if Clears(cfg, 0, t, u, r.virt, r.size) {
      forall v: nat ensures RM.At(MapOf(cfg, u), v) == RM.At(RM.UnmapRegion(MapOf(cfg, t), r), v) {
        if v < Coverage(cfg, 0) {
          ClearsAt(cfg, 0, t, u, r.virt, r.size, v);
        }
      }
      SameMap(MapOf(cfg, u), RM.UnmapRegion(MapOf(cfg, t), r));
    }
    if MapOf(cfg, u) == RM.UnmapRegion(MapOf(cfg, t), r) {
      forall a | 0 <= a < Coverage(cfg, 0)
        ensures Lookup(cfg, 0, u, a) == if r.virt <= a < r.virt + r.size then None else Lookup(cfg, 0, t, a)
      {
        assert RM.At(MapOf(cfg, u), a) == if RM.InVirt(a, r) then None else RM.At(MapOf(cfg, t), a);
      }
      ClearsFrom(cfg, 0, t, u, r.virt, r.size);
    }
  }

  /** For a request that loses the page before it, the map is not the unmapped one. */
  lemma MisalignedIsNot(cfg: seq<Level>, t: seq<Entry>, u: seq<Entry>, r: RM.Region)
    requires At(cfg, 0) && WF(cfg, 0, t) && WF(cfg, 0, u) && 0 < r.virt && r.virt + r.size <= Coverage(cfg, 0)
    requires Lookup(cfg, 0, t, r.virt - 1).Some? && Lookup(cfg, 0, u, r.virt - 1).None?
    ensures !Clears(cfg, 0, t, u, r.virt, r.size)
  {
    if Clears(cfg, 0, t, u, r.virt, r.size) {
      ClearsAt(cfg, 0, t, u, r.virt, r.size, r.virt - 1);
    }
  }

  lemma ClearsByLeaves(cfg: seq<Level>, t: seq<Entry>, u: seq<Entry>, v: nat, s: nat)
    requires At(cfg, 0) && WF(cfg, 0, t) && WF(cfg, 0, u) && v + s <= Coverage(cfg, 0) && SameLeaves(cfg, 0, t, u, v, s)
    ensures Clears(cfg, 0, t, u, v, s) <==> Vacant(cfg, 0, u, v, s)
  {
    hide Lookup, LeafAt, Coverage;
    if Vacant(cfg, 0, u, v, s) {
      LeavesGiveClears(cfg, 0, t, u, v, s);
    }
  }

  lemma PopulatedCase(cfg: seq<Level>, t: seq<Entry>, v: nat, s: nat)
    requires At(cfg, 0) && WF(cfg, 0, t) && v + s <= Coverage(cfg, 0) && Populated(cfg, 0, t, v, s)
    ensures s == 0 || Destroyable(cfg, 0, t, v, s) <==> Exact(cfg, 0, t, v, s)
    ensures Exact(cfg, 0, t, v, s) || Misaligned(cfg, 0, t, v, s)
    ensures Misaligned(cfg, 0, t, v, s) ==> v > 0
  {
    hide Lookup, Destroyable, LeafAt;
    if s > 0 {
      PopulatedAt(cfg, 0, t, v, s, v);
      OffsetSmall(cfg, 0, v);
      DestroyableIff(cfg, 0, t, v, s);
    }
  }

  /** arch_unmap_memory_region on a tree.  A success unmaps exactly the region if and only if, where
      all of it is mapped, it is destroyable, and where it cuts no page, all its pages are met.  In a
      mode without gaps a destroyable region is all that the life cycle counts on, also on failure. */
  method UnmapHook(cfg: seq<Level>, t: seq<Entry>, free: nat, r: RM.Region)
    returns (ok: bool, t': seq<Entry>, free': nat)
    requires At(cfg, 0) && WF(cfg, 0, t) && r.virt + r.size <= Coverage(cfg, 0)
    ensures WF(cfg, 0, t') && (!ok ==> free' == 0)
    ensures Gapless(cfg) && free >= r.size * (|cfg| - 1) ==> ok
    ensures ok && Populated(cfg, 0, t, r.virt, r.size) ==>
              (r.size == 0 || Destroyable(cfg, 0, t, r.virt, r.size) <==>
               MapOf(cfg, t') == RM.UnmapRegion(MapOf(cfg, t), r))
    ensures ok && Sweeps(cfg, 0, t, r.virt, r.size) ==>
              (AllMet(cfg, 0, t, r.virt, r.virt, r.virt + r.size) <==>
               MapOf(cfg, t') == RM.UnmapRegion(MapOf(cfg, t), r))
    ensures Gapless(cfg) && Populated(cfg, 0, t, r.virt, r.size) && Destroyable(cfg, 0, t, r.virt, r.size) ==>
              RM.UnmapsWithin(MapOf(cfg, t), r, ok, MapOf(cfg, t'))
  {
    hide Lookup, LeafAt, Coverage, Destroyable, Populated, Exact, Misaligned, Clears, SameOutside, SameLeaves, Vacant;
    hide AllMet, Sweeps, MapOf, Gapless, RM.UnmapsWithin;
    ok, t', free' := Paging.Destroy(cfg, 0, t, free, r.virt, r.size);
    ClearsIsUnmap(cfg, t, t', r);
    if Populated(cfg, 0, t, r.virt, r.size) {
      PopulatedCase(cfg, t, r.virt, r.size);
      if ok && Misaligned(cfg, 0, t, r.virt, r.size) {
        MisalignedIsNot(cfg, t, t', r);
      }
      if Gapless(cfg) && Exact(cfg, 0, t, r.virt, r.size) {
        HookKept(cfg, t, t', r, ok);
      }
    }
    if ok && Sweeps(cfg, 0, t, r.virt, r.size) {
      ClearsByLeaves(cfg, t, t', r.virt, r.size);
    }
  }

  lemma HookKept(cfg: seq<Level>, t: seq<Entry>, u: seq<Entry>, r: RM.Region, ok: bool)
    requires At(cfg, 0) && WF(cfg, 0, t) && WF(cfg, 0, u) && r.virt + r.size <= Coverage(cfg, 0)
    requires Shrunk(cfg, 0, t, u)
    requires if ok then Clears(cfg, 0, t, u, r.virt, r.size) else SameOutside(cfg, 0, t, u, r.virt, r.size)
    ensures RM.UnmapsWithin(MapOf(cfg, t), r, ok, MapOf(cfg, u))
  {
    hide Lookup, LeafAt, Coverage, MapOf, Clears;
    if ok {
      ClearsIsUnmap(cfg, t, u, r);
    }
    var m, m' := MapOf(cfg, t), MapOf(cfg, u);
    forall v: nat ensures RM.At(m', v) == RM.At(m, v) || RM.At(m', v) == RM.At(RM.UnmapRegion(m, r), v) {
      if v < Coverage(cfg, 0) {
        ShrunkAt(cfg, 0, t, u, v);
        if !RM.InVirt(v, r) && !ok {
          assert Lookup(cfg, 0, u, v) == Lookup(cfg, 0, t, v);
        }
      }
    }
  }

  /** arch_map_memory_region on a tree: a success is always exact, and without gaps a failure stays
      inside the region. */
  method MapHook(cfg: seq<Level>, t: seq<Entry>, free: nat, r: RM.Region)
    returns (ok: bool, t': seq<Entry>, free': nat)
    requires At(cfg, 0) && WF(cfg, 0, t) && r.virt + r.size <= Coverage(cfg, 0)
    ensures WF(cfg, 0, t') && (!ok ==> free' == 0)
    ensures Gapless(cfg) && free >= 2 * r.size * (|cfg| - 1) ==> ok
    ensures ok ==> MapOf(cfg, t') == RM.MapRegion(MapOf(cfg, t), r)
    ensures ok || Gapless(cfg) ==> RM.MapsWithin(MapOf(cfg, t), r, ok, MapOf(cfg, t'))
  {
    hide Lookup, LeafAt, Coverage, Maps, SameOutside, MapOf, Gapless, RM.MapsWithin;
    ghost var done;
    ok, t', free', done := Paging.Create(cfg, 0, t, free, r.virt, r.phys, r.size, r.flags);
    if ok || Gapless(cfg) {
      MapKept(cfg, t, t', r, done, ok);
    }
  }

  lemma MapKept(cfg: seq<Level>, t: seq<Entry>, u: seq<Entry>, r: RM.Region, done: nat, ok: bool)
    requires At(cfg, 0) && WF(cfg, 0, t) && WF(cfg, 0, u) && r.virt + r.size <= Coverage(cfg, 0)
    requires done <= r.size && (ok <==> done == r.size)
    requires Maps(cfg, 0, u, r.virt, done, r.phys, r.flags) && SameOutside(cfg, 0, t, u, r.virt, done)
    ensures RM.MapsWithin(MapOf(cfg, t), r, ok, MapOf(cfg, u))
    ensures ok ==> MapOf(cfg, u) == RM.MapRegion(MapOf(cfg, t), r)
  {
    hide Lookup, LeafAt, Coverage, MapOf;
    var m, m' := MapOf(cfg, t), MapOf(cfg, u);
    forall v: nat
      ensures RM.At(m', v) == if r.virt <= v < r.virt + done then RM.At(RM.MapRegion(m, r), v) else RM.At(m, v)
    {
      if v < Coverage(cfg, 0) && !(r.virt <= v < r.virt + done) {
        assert Lookup(cfg, 0, u, v) == Lookup(cfg, 0, t, v);
      }
    }
    if ok {
      forall v: nat ensures RM.At(m', v) == RM.At(RM.MapRegion(m, r), v) {
        assert RM.InVirt(v, r) <==> r.virt <= v < r.virt + done;
      }
      SameMap(m', RM.MapRegion(m, r));
    }
  }

  /** A root that maps four pages one to one by two hugepages, and a private region in the middle:
      the hook succeeds, and a page of the region is still mapped in the root. */
  method PrivatePageStays(free: nat, f: nat) returns (ok: bool, t: seq<Entry>, t': seq<Entry>)
    ensures At(TWO_LEVELS, 0) && WF(TWO_LEVELS, 0, t) && WF(TWO_LEVELS, 0, t')
    ensures var r := RM.Region(1, 1, 2, false, false, false, f);
            && ok && RM.Private(r) && RM.InRegion(2, r)
            && RM.At(MapOf(TWO_LEVELS, t), 2).Some? && RM.At(MapOf(TWO_LEVELS, t'), 2).Some?
            && MapOf(TWO_LEVELS, t') != RM.UnmapRegion(MapOf(TWO_LEVELS, t), r)
  {
    hide Lookup, LeafAt, MapOf;
    ok, t, t' := UnalignedDestroyMisses(free, f);
    PopulatedAt(TWO_LEVELS, 0, t, 1, 2, 2);
    ghost var r := RM.Region(1, 1, 2, false, false, false, f);
    assert RM.InVirt(2, r) && RM.At(RM.UnmapRegion(MapOf(TWO_LEVELS, t), r), 2) == None;
  }
}
