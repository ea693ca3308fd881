/** Moving memory between the root cell and the others (hypervisor/control.c):
    address_in_region, unmap_from_root_cell and remap_to_root_cell.  All numbers are page
    numbers; regions are neither subpage nor coloured. */
module RootMemory {
  import opened Common

  /** A struct jailhouse_memory. */
  datatype Region = Region(phys: nat, virt: nat, size: nat, comm: bool, rootShared: bool, loadable: bool, flags: nat)

  type PageMap = map<nat, Mapping>

  /** address_in_region */
  predicate InRegion(v: nat, r: Region) {
    r.phys <= v < r.phys + r.size
  }

  /** Neither the communication region nor shared with the root cell. */
  predicate Private(r: Region) {
    !r.comm && !r.rootShared
  }

  function At(m: PageMap, v: nat): Option<Mapping> {
    if v in m then Some(m[v]) else None
  }

  /** v is an address the region is mapped at. */
  predicate InVirt(v: nat, r: Region) {
    r.virt <= v < r.virt + r.size
  }

  /** arch_map_memory_region that succeeds. */
  function MapRegion(m: PageMap, r: Region): (m': PageMap)
    ensures forall v: nat :: At(m', v) ==
              if InVirt(v, r) then Some(Mapping(r.phys + (v - r.virt), r.flags)) else At(m, v)
  {
    m + map v: nat | r.virt <= v < r.virt + r.size && InVirt(v, r) :: Mapping(r.phys + (v - r.virt), r.flags)
  }

  /** arch_unmap_memory_region that succeeds. */
  function UnmapRegion(m: PageMap, r: Region): (m': PageMap)
    ensures forall v: nat :: At(m', v) == if InVirt(v, r) then None else At(m, v)
  {
    m - set v: nat | r.virt <= v < r.virt + r.size && InVirt(v, r)
  }

  /** What is assumed of arch_map_memory_region: exact, or failed part-way inside the region. */
  ghost predicate MapsWithin(m: PageMap, r: Region, ok: bool, m': PageMap) {
    && (ok ==> m' == MapRegion(m, r))
    && forall v: nat :: At(m', v) == At(m, v) || At(m', v) == At(MapRegion(m, r), v)
  }

  /** What is assumed of arch_unmap_memory_region: exact, or failed part-way inside the region. */
  ghost predicate UnmapsWithin(m: PageMap, r: Region, ok: bool, m': PageMap) {
    && (ok ==> m' == UnmapRegion(m, r))
    && forall v: nat :: At(m', v) == At(m, v) || At(m', v) == At(UnmapRegion(m, r), v)
  }

  /** arch_map_memory_region with the given outcome; it may fail part-way. */
  method ArchMap(m: PageMap, r: Region, ok: bool) returns (m': PageMap)
    ensures MapsWithin(m, r, ok, m') && (ok ==> m' == MapRegion(m, r))
  {
    if ok {
      m' := MapRegion(m, r);
    } else {
      var done: nat :| done <= r.size;
      m' := MapRegion(m, r.(size := done));
    }
  }

  /** arch_unmap_memory_region with the given outcome; it may fail part-way. */
  method ArchUnmap(m: PageMap, r: Region, ok: bool) returns (m': PageMap)
    ensures UnmapsWithin(m, r, ok, m')
  {
    if ok {
      m' := UnmapRegion(m, r);
    } else {
      var done: nat :| done <= r.size;
      m' := UnmapRegion(m, r.(size := done));
    }
  }

  // ----- overlaps -----

  /** The part of mem that remap_to_root_cell maps for one configured region of the root. */
  function Overlap(mem: Region, root: Region): Option<Region> {
    if InRegion(mem.phys, root) then
      var size := root.size - (mem.phys - root.phys);
      Some(root.(phys := mem.phys, virt := root.virt + mem.phys - root.phys,
                 size := if size > mem.size then mem.size else size))
    else if InRegion(root.phys, mem) then
      var size := mem.size - (root.phys - mem.phys);
      Some(root.(size := if size > root.size then root.size else size))
    else None
  }

  /** The overlap is the intersection, at the root's own offset and with the root's flags. */
  lemma OverlapIsIntersection(mem: Region, root: Region)
    ensures forall v: nat :: InRegion(v, mem) && InRegion(v, root) <==>
                        Overlap(mem, root).Some? && InRegion(v, Overlap(mem, root).value)
    ensures Overlap(mem, root).Some? ==>
              var o := Overlap(mem, root).value;
              o.virt - o.phys == root.virt - root.phys && o.flags == root.flags
  {
  }

  // ----- what the root cell is configured to map -----

  predicate OneToOne(rs: seq<Region>) {
    forall i | 0 <= i < |rs| :: rs[i].virt == rs[i].phys
  }

  /** Where regions overlap, they map to the same pages. */
  ghost predicate Agreeing(rs: seq<Region>) {
    forall i, j, v: nat | 0 <= i < j < |rs| && InVirt(v, rs[i]) && InVirt(v, rs[j]) ::
      rs[i].phys - rs[i].virt == rs[j].phys - rs[j].virt
  }

  /** What the region maps v to. */
  function Image(r: Region, v: nat): Mapping
    requires InVirt(v, r)
  {
    Mapping(r.phys + (v - r.virt), r.flags)
  }

  /** x is the mapping of v by one of the regions. */
  ghost predicate FromRoot(rs: seq<Region>, v: nat, x: Mapping) {
    exists i | 0 <= i < |rs| :: InVirt(v, rs[i]) && x == Image(rs[i], v)
  }

  /** What the configured regions map, later ones winning. */
  function Configured(rs: seq<Region>): PageMap {
    if rs == [] then map[] else MapRegion(Configured(rs[..|rs| - 1]), rs[|rs| - 1])
  }

  /** The page that v is configured to map to. */
  function PhysOf(rs: seq<Region>, v: nat): nat {
    if v in Configured(rs) then Configured(rs)[v].phys else v
  }

  lemma {:induction false} ConfiguredFrom(rs: seq<Region>, v: nat)
    requires v in Configured(rs)
    ensures FromRoot(rs, v, Configured(rs)[v])
  {
    var init, last := rs[..|rs| - 1], rs[|rs| - 1];
    assert At(Configured(rs), v) ==
      if InVirt(v, last) then Some(Image(last, v)) else At(Configured(init), v);
    if !InVirt(v, last) {
      ConfiguredFrom(init, v);
      var i :| 0 <= i < |init| && InVirt(v, init[i]) && Configured(init)[v] == Image(init[i], v);
      assert rs[i] == init[i];
    }
  }

  lemma OneToOneAgrees(rs: seq<Region>, v: nat)
    requires OneToOne(rs)
    ensures Agreeing(rs) && PhysOf(rs, v) == v
  {
    if v in Configured(rs) {
      ConfiguredFrom(rs, v);
    }
  }

  /** remap_to_root_cell without failures. */
  function Remapped(m: PageMap, mem: Region, rs: seq<Region>): PageMap {
    if rs == [] then m
    else
      var m1 := Remapped(m, mem, rs[..|rs| - 1]);
      var o := Overlap(mem, rs[|rs| - 1]);
      if o.Some? then MapRegion(m1, o.value) else m1
  }

  /** The root's translation of v, configured again if v is given back. */
  function GivenBack(m: PageMap, root: seq<Region>, v: nat, back: bool): Option<Mapping> {
    if back && v in Configured(root) then At(Configured(root), v) else At(m, v)
  }

  /** It gives what the root is configured to see of mem its mapping back and touches nothing else. */
  lemma {:induction false} RemappedAt(m: PageMap, mem: Region, rs: seq<Region>, v: nat)
    ensures Agreeing(rs) ==> At(Remapped(m, mem, rs), v) == GivenBack(m, rs, v, InRegion(PhysOf(rs, v), mem))
  {
    hide MapRegion, Overlap, Agreeing;
    if rs != [] && Agreeing(rs) {
      var init, last := rs[..|rs| - 1], rs[|rs| - 1];
      AgreeingInit(rs, v);
      RemappedAt(m, mem, init, v);
      ConfiguredStep(rs, v);
      RemappedStep(m, mem, rs, v);
    }
  }

  lemma ConfiguredStep(rs: seq<Region>, v: nat)
    requires rs != []
    ensures var init, last := rs[..|rs| - 1], rs[|rs| - 1];
      At(Configured(rs), v) == if InVirt(v, last) then Some(Image(last, v)) else At(Configured(init), v)
  {
    hide MapRegion;
  }

  lemma RemappedStep(m: PageMap, mem: Region, rs: seq<Region>, v: nat)
    requires rs != []
    ensures var m1, last := Remapped(m, mem, rs[..|rs| - 1]), rs[|rs| - 1];
      At(Remapped(m, mem, rs), v) ==
        if InVirt(v, last) && InRegion(Image(last, v).phys, mem) then Some(Image(last, v)) else At(m1, v)
  {
    hide MapRegion, Overlap;
    OverlapAt(mem, rs[|rs| - 1], v);
  }

  lemma AgreeingInit(rs: seq<Region>, v: nat)
    requires rs != [] && Agreeing(rs)
    ensures var init, last := rs[..|rs| - 1], rs[|rs| - 1];
      && Agreeing(init)
      && (InVirt(v, last) && v in Configured(init) ==> Configured(init)[v].phys == Image(last, v).phys)
  {
    var init, last := rs[..|rs| - 1], rs[|rs| - 1];
    assert forall i | 0 <= i < |init| :: init[i] == rs[i];
    if InVirt(v, last) && v in Configured(init) {
      ConfiguredFrom(init, v);
      var i :| 0 <= i < |init| && InVirt(v, init[i]) && Configured(init)[v] == Image(init[i], v);
      assert rs[i] == init[i] && InVirt(v, rs[i]) && InVirt(v, rs[|rs| - 1]);
    }
  }

  /** v is mapped for the overlap just if the root's region maps it to a page of mem, and as there. */
  lemma OverlapAt(mem: Region, root: Region, v: nat)
    ensures var o := Overlap(mem, root);
      && (o.Some? && InVirt(v, o.value) <==> InVirt(v, root) && InRegion(Image(root, v).phys, mem))
      && (o.Some? && InVirt(v, o.value) ==> Image(o.value, v) == Image(root, v))
  {
  }

  /** Every translation of a page map is the identity. */
  ghost predicate Identity(m: PageMap) {
    forall v <- m :: m[v].phys == v
  }

  // ----- remapping, complete or not -----

  ghost function PagesOf(mem: Region): iset<nat> {
    iset p: nat | InRegion(p, mem)
  }

  /** Only translations to the given pages were added, and as the root is configured. */
  ghost predicate Touches(m: PageMap, m': PageMap, root: seq<Region>, pages: iset<nat>) {
    forall v: nat :: At(m', v) == At(m, v) || (v in m' && m'[v].phys in pages && FromRoot(root, v, m'[v]))
  }

  /** All of what the root is configured to see of the given pages is back, and nothing else changed. */
  ghost predicate GivesBack(m: PageMap, m': PageMap, root: seq<Region>, pages: iset<nat>) {
    forall v: nat :: At(m', v) == GivenBack(m, root, v, PhysOf(root, v) in pages)
  }

  lemma TouchesJoin(m: PageMap, m1: PageMap, m2: PageMap, root: seq<Region>, p: iset<nat>, q: iset<nat>)
    requires Touches(m, m1, root, p) && Touches(m1, m2, root, q)
    ensures Touches(m, m2, root, p + q)
  {
    hide FromRoot;
    forall v: nat ensures At(m2, v) == At(m, v) || (v in m2 && m2[v].phys in p + q && FromRoot(root, v, m2[v])) {
      assert At(m2, v) == At(m1, v) || (v in m2 && m2[v].phys in q && FromRoot(root, v, m2[v]));
      assert At(m1, v) == At(m, v) || (v in m1 && m1[v].phys in p && FromRoot(root, v, m1[v]));
    }
  }

  lemma GivesBackJoin(m: PageMap, m1: PageMap, m2: PageMap, root: seq<Region>, p: iset<nat>, q: iset<nat>)
    requires GivesBack(m, m1, root, p) && GivesBack(m1, m2, root, q)
    ensures GivesBack(m, m2, root, p + q)
  {
    hide Configured, PhysOf;
    forall v: nat ensures At(m2, v) == GivenBack(m, root, v, PhysOf(root, v) in p + q) {
      assert At(m2, v) == GivenBack(m1, root, v, PhysOf(root, v) in q);
      assert At(m1, v) == GivenBack(m, root, v, PhysOf(root, v) in p);
    }
  }

  lemma TouchesNothing(m: PageMap, root: seq<Region>)
    ensures Touches(m, m, root, iset{}) && GivesBack(m, m, root, iset{})
  {
  }

  lemma TouchesStep(m: PageMap, m1: PageMap, m2: PageMap, mem: Region, rs: seq<Region>, n: nat)
    requires n < |rs| && Touches(m, m1, rs, PagesOf(mem)) && Overlap(mem, rs[n]).Some?
    requires forall v: nat :: At(m2, v) == At(m1, v) || At(m2, v) == At(MapRegion(m1, Overlap(mem, rs[n]).value), v)
    ensures Touches(m, m2, rs, PagesOf(mem))
  {
    hide MapRegion, Overlap;
    var o := Overlap(mem, rs[n]).value;
    forall v: nat ensures At(m2, v) == At(m1, v) || (v in m2 && m2[v].phys in PagesOf(mem) && FromRoot(rs, v, m2[v])) {
      OverlapAt(mem, rs[n], v);
      assert At(MapRegion(m1, o), v) == if InVirt(v, o) then Some(Image(o, v)) else At(m1, v);
    }
    TouchesJoin(m, m1, m2, rs, PagesOf(mem), PagesOf(mem));
    assert PagesOf(mem) + PagesOf(mem) == PagesOf(mem);
  }

  lemma RemappedAll(m: PageMap, mem: Region, rs: seq<Region>)
    requires Agreeing(rs)
    ensures GivesBack(m, Remapped(m, mem, rs), rs, PagesOf(mem))
  {
    forall v: nat ensures At(Remapped(m, mem, rs), v) == GivenBack(m, rs, v, PhysOf(rs, v) in PagesOf(mem)) {
      RemappedAt(m, mem, rs, v);
    }
  }

  /** The hooks succeed for all that region number i shares with the root's configured regions. */
  predicate RemapsAll(mem: Region, rs: seq<Region>, i: nat, oks: (nat, nat) -> bool) {
    forall j | 0 <= j < |rs| && Overlap(mem, rs[j]).Some? :: oks(i, j)
  }

  lemma RemapsMore(mem: Region, rs: seq<Region>, i: nat, oks: (nat, nat) -> bool, n: nat)
    requires n < |rs|
    ensures RemapsAll(mem, rs[..n + 1], i, oks) <==>
            RemapsAll(mem, rs[..n], i, oks) && (Overlap(mem, rs[n]).Some? ==> oks(i, n))
    ensures RemapsAll(mem, rs, i, oks) ==> RemapsAll(mem, rs[..n + 1], i, oks)
  {
    hide Overlap;
    assert rs[..n + 1][n] == rs[n] && forall j | 0 <= j < n :: rs[..n + 1][j] == rs[j] == rs[..n][j];
  }

  /** remap_to_root_cell for region number i; `abort` is ABORT_ON_ERROR, otherwise failures only warn. */
  method RemapToRoot(m: PageMap, mem: Region, rs: seq<Region>, abort: bool, i: nat, oks: (nat, nat) -> bool)
    returns (ok: bool, warned: bool, m': PageMap)
    ensures Touches(m, m', rs, PagesOf(mem))
    ensures (ok && !warned <==> RemapsAll(mem, rs, i, oks)) && (abort ==> !warned) && (!abort && !ok ==> warned)
    ensures ok && !warned ==> m' == Remapped(m, mem, rs)
    ensures ok && !warned && Agreeing(rs) ==> GivesBack(m, m', rs, PagesOf(mem))
  {
    assert Touches(m, m, rs, PagesOf(mem));
    assert RemapsAll(mem, rs[..0], i, oks);
    hide Touches, GivesBack, MapRegion, Overlap, RemapsAll;
    ok, warned, m' := true, false, m;
    var n := 0;
    while n < |rs|
      invariant n <= |rs| && Touches(m, m', rs, PagesOf(mem))
      invariant !warned ==> ok && m' == Remapped(m, mem, rs[..n])
      invariant !warned <==> RemapsAll(mem, rs[..n], i, oks)
      invariant abort ==> !warned
    {
      assert rs[..n + 1][..n] == rs[..n];
      RemapsMore(mem, rs, i, oks, n);
      var o := Overlap(mem, rs[n]);
      if o.Some? {
        ghost var m1 := m';
        ok := oks(i, n);
        m' := ArchMap(m', o.value, ok);
        TouchesStep(m, m1, m', mem, rs, n);
        if !ok {
          if abort {
            break;
          }
          warned := true;
        }
      }
      n := n + 1;
    }
    assert rs[..|rs|] == rs;
    if Agreeing(rs) {
      RemappedAll(m, mem, rs);
    }
  }

  /** unmap_from_root_cell: the root's copy of mem lies at its physical address. */
  method UnmapFromRoot(m: PageMap, mem: Region, ok: bool) returns (m': PageMap)
    ensures ok ==> m' == UnmapRegion(m, mem.(virt := mem.phys))
    ensures forall v: nat :: At(m', v) == At(m, v) || (InRegion(v, mem) && v !in m')
    ensures Private(mem) ==> TakenWithin(m, m', [mem])
  {
    m' := ArchUnmap(m, mem.(virt := mem.phys), ok);
    assert forall v: nat :: Private(mem) && InRegion(v, mem) ==> PrivateIn([mem], v) by {
      assert [mem][0] == mem;
    }
  }

  /** What the root can still reach of mem afterwards: nothing, exactly if the root had mapped
      those pages at no other addresses than their own. */
  lemma UnmapHidesIff(m: PageMap, mem: Region)
    ensures var m' := UnmapRegion(m, mem.(virt := mem.phys));
      Reachable(m', mem) == {} <==> forall v <- m :: InRegion(m[v].phys, mem) ==> InRegion(v, mem)
  {
    var m' := UnmapRegion(m, mem.(virt := mem.phys));
    forall v | v in m ensures v in Reachable(m', mem) <==> InRegion(m[v].phys, mem) && !InRegion(v, mem) {
      assert At(m', v) == if InVirt(v, mem.(virt := mem.phys)) then None else At(m, v);
    }
    forall v | v in m' ensures v in m && m'[v] == m[v] {
      assert At(m', v) == Some(m'[v]);
    }
  }

  /** The root's addresses that lead to pages of mem. */
  function Reachable(m: PageMap, mem: Region): set<nat> {
    set v | v in m && InRegion(m[v].phys, mem)
  }

  /** A root region that is not mapped one to one stays reachable after its memory was given away. */
  lemma ShiftedRootLeaks()
    ensures var mem := Region(0, 0, 1, false, false, false, 0);
      var m := Configured([Region(0, 10, 1, false, false, false, 0)]);
      10 in m && 10 in Reachable(UnmapRegion(m, mem), mem)
  {
    var root := Region(0, 10, 1, false, false, false, 0);
    var mem := Region(0, 0, 1, false, false, false, 0);
    assert [root][..0] == [];
    var m := Configured([root]);
    assert InVirt(10, root) && At(m, 10) == Some(Mapping(0, 0));
    assert !InVirt(10, mem) && At(UnmapRegion(m, mem), 10) == At(m, 10);
  }

  // ----- whole configurations -----

  predicate PrivateIn(rs: seq<Region>, v: nat) {
    exists i | 0 <= i < |rs| :: Private(rs[i]) && InRegion(v, rs[i])
  }

  predicate LoadableIn(rs: seq<Region>, v: nat) {
    exists i | 0 <= i < |rs| :: rs[i].loadable && InRegion(v, rs[i])
  }

  lemma OneMore(rs: seq<Region>, n: nat, v: nat)
    requires n < |rs|
    ensures PrivateIn(rs[..n + 1], v) <==> PrivateIn(rs[..n], v) || (Private(rs[n]) && InRegion(v, rs[n]))
    ensures LoadableIn(rs[..n + 1], v) <==> LoadableIn(rs[..n], v) || (rs[n].loadable && InRegion(v, rs[n]))
  {
    var a, b := rs[..n + 1], rs[..n];
    assert a[n] == rs[n] && forall i | 0 <= i < n :: a[i] == b[i];
    if PrivateIn(b, v) {
      var i :| 0 <= i < |b| && Private(b[i]) && InRegion(v, b[i]);
      assert Private(a[i]) && InRegion(v, a[i]);
    }
    if LoadableIn(b, v) {
      var i :| 0 <= i < |b| && b[i].loadable && InRegion(v, b[i]);
      assert a[i].loadable && InRegion(v, a[i]);
    }
  }

  /** The root's translations changed at most on private pages, and stayed one to one. */
  ghost predicate PrivateChange(m: PageMap, m': PageMap, rs: seq<Region>) {
    forall v: nat :: At(m', v) == At(m, v) || (PrivateIn(rs, v) && (v in m' ==> m'[v].phys == v))
  }

  ghost predicate LoadableChange(m: PageMap, m': PageMap, rs: seq<Region>) {
    forall v: nat :: At(m', v) == At(m, v) || (LoadableIn(rs, v) && (v in m' ==> m'[v].phys == v))
  }

  ghost function PrivatePages(rs: seq<Region>): iset<nat> {
    iset p: nat | PrivateIn(rs, p)
  }

  ghost function LoadablePages(rs: seq<Region>): iset<nat> {
    iset p: nat | LoadableIn(rs, p)
  }

  lemma PagesOneMore(rs: seq<Region>, n: nat)
    requires n < |rs|
    ensures PrivatePages(rs[..n + 1]) ==
            if Private(rs[n]) then PrivatePages(rs[..n]) + PagesOf(rs[n]) else PrivatePages(rs[..n])
    ensures LoadablePages(rs[..n + 1]) ==
            if rs[n].loadable then LoadablePages(rs[..n]) + PagesOf(rs[n]) else LoadablePages(rs[..n])
  {
    hide PrivateIn, LoadableIn;
    GivenSoFar(rs, n);
  }

  lemma NoPages()
    ensures PrivatePages([]) == iset{} && LoadablePages([]) == iset{}
  {
  }

  /** For a root that maps one to one, the pages are the addresses. */
  lemma OneToOneMeans(m: PageMap, m': PageMap, root: seq<Region>, pages: iset<nat>)
    requires OneToOne(root)
    ensures Touches(m, m', root, pages) ==>
              forall v: nat :: At(m', v) == At(m, v) || (v in pages && v in m' && m'[v].phys == v)
    ensures GivesBack(m, m', root, pages) ==> forall v: nat :: At(m', v) == GivenBack(m, root, v, v in pages)
  {
    hide Configured, PhysOf;
    if Touches(m, m', root, pages) {
      forall v: nat ensures At(m', v) == At(m, v) || (v in pages && v in m' && m'[v].phys == v) {
        assert At(m', v) == At(m, v) || (v in m' && m'[v].phys in pages && FromRoot(root, v, m'[v]));
      }
    }
    if GivesBack(m, m', root, pages) {
      forall v: nat ensures At(m', v) == GivenBack(m, root, v, v in pages) {
        OneToOneAgrees(root, v);
      }
    }
  }

  /** The root lost the private pages and nothing else. */
  ghost predicate TakenExactly(m: PageMap, m': PageMap, rs: seq<Region>) {
    forall v: nat :: At(m', v) == if PrivateIn(rs, v) then None else At(m, v)
  }

  /** The root lost at most private pages. */
  ghost predicate TakenWithin(m: PageMap, m': PageMap, rs: seq<Region>) {
    forall v: nat :: At(m', v) == At(m, v) || (PrivateIn(rs, v) && v !in m')
  }

  lemma TakenOne(m: PageMap, m1: PageMap, m2: PageMap, rs: seq<Region>, n: nat, ok: bool)
    requires n < |rs| && TakenExactly(m, m1, rs[..n])
    requires Private(rs[n]) ==>
               (ok ==> m2 == UnmapRegion(m1, rs[n].(virt := rs[n].phys))) && TakenWithin(m1, m2, [rs[n]])
    requires !Private(rs[n]) ==> ok && m2 == m1
    ensures TakenWithin(m, m2, rs) && (ok ==> TakenExactly(m, m2, rs[..n + 1]))
  {
    GivenSoFar(rs, n);
    forall v: nat ensures At(m2, v) == At(m, v) || (PrivateIn(rs, v) && v !in m2) {
      if PrivateIn([rs[n]], v) {
        assert Private(rs[n]) && InRegion(v, rs[n]);
      }
    }
  }

  lemma GivenNone(m: PageMap, rs: seq<Region>)
    ensures Configured(rs[..0]) == map[] && TakenExactly(m, m, rs[..0]) && TakenWithin(m, m, rs)
  {
  }

  /** The hooks succeed for all regions of a new cell. */
  predicate GivesAll(rs: seq<Region>, unmaps: nat -> bool, maps: nat -> bool) {
    forall i | 0 <= i < |rs| :: (Private(rs[i]) ==> unmaps(i)) && maps(i)
  }

  /** The region loop of cell_create: take private regions from the root, map all to the cell. */
  method GiveRegions(rootMap: PageMap, rs: seq<Region>, unmaps: nat -> bool, maps: nat -> bool)
    returns (ok: bool, rootMap': PageMap, mem: PageMap)
    ensures ok <==> GivesAll(rs, unmaps, maps)
    ensures TakenWithin(rootMap, rootMap', rs)
    ensures ok ==> TakenExactly(rootMap, rootMap', rs) && mem == Configured(rs)
  {
    hide Configured, MapRegion, UnmapRegion, TakenExactly, TakenWithin, MapsWithin, Private, PrivateIn, At, InRegion;
    GivenNone(rootMap, rs);
    rootMap', mem := rootMap, map[];
    var n := 0;
    while n < |rs|
      invariant n <= |rs|
      invariant TakenExactly(rootMap, rootMap', rs[..n]) && TakenWithin(rootMap, rootMap', rs)
      invariant mem == Configured(rs[..n])
      invariant forall i | 0 <= i < n :: (Private(rs[i]) ==> unmaps(i)) && maps(i)
    {
      ghost var before := rootMap';
      ok := true;
      if Private(rs[n]) {
        ok := unmaps(n);
        rootMap' := UnmapFromRoot(rootMap', rs[n], ok);
      }
      TakenOne(rootMap, before, rootMap', rs, n, ok);
      if ok {
        ok := maps(n);
        mem := ArchMap(mem, rs[n], ok);
        if ok {
          ConfiguredOneMore(rs, n);
        }
      }
      if !ok {
        return;
      }
      n := n + 1;
    }
    assert rs[..|rs|] == rs;
    ok := true;
  }

  lemma GivenSoFar(rs: seq<Region>, n: nat)
    requires n < |rs|
    ensures forall v: nat :: PrivateIn(rs[..n + 1], v) <==>
              PrivateIn(rs[..n], v) || (Private(rs[n]) && InRegion(v, rs[n]))
    ensures forall v: nat :: LoadableIn(rs[..n + 1], v) <==>
              LoadableIn(rs[..n], v) || (rs[n].loadable && InRegion(v, rs[n]))
    ensures forall v: nat :: PrivateIn(rs[..n + 1], v) ==> PrivateIn(rs, v)
    ensures forall v: nat :: LoadableIn(rs[..n + 1], v) ==> LoadableIn(rs, v)
  {
    forall v: nat
      ensures PrivateIn(rs[..n + 1], v) <==> PrivateIn(rs[..n], v) || (Private(rs[n]) && InRegion(v, rs[n]))
      ensures LoadableIn(rs[..n + 1], v) <==> LoadableIn(rs[..n], v) || (rs[n].loadable && InRegion(v, rs[n]))
    {
      OneMore(rs, n, v);
    }
    assert forall i | 0 <= i <= n :: rs[..n + 1][i] == rs[i];
  }

  lemma ConfiguredOneMore(rs: seq<Region>, n: nat)
    requires n < |rs|
    ensures Configured(rs[..n + 1]) == MapRegion(Configured(rs[..n]), rs[n])
  {
    assert rs[..n + 1][..n] == rs[..n];
  }

  /** The hooks succeed for all that the private regions share with the root's configured regions. */
  predicate ReturnsAll(rs: seq<Region>, root: seq<Region>, oks: (nat, nat) -> bool) {
    forall i | 0 <= i < |rs| && Private(rs[i]) :: RemapsAll(rs[i], root, i, oks)
  }

  /** The same for the loadable regions. */
  predicate OffersAll(rs: seq<Region>, root: seq<Region>, oks: (nat, nat) -> bool) {
    forall i | 0 <= i < |rs| && rs[i].loadable :: RemapsAll(rs[i], root, i, oks)
  }

  /** The region loop of cell_destroy_internal: unmap all from the cell, give private regions
      back to the root.  `warned` says that some of that failed. */
  method ReturnRegions(rootMap: PageMap, mem: PageMap, rs: seq<Region>, root: seq<Region>, oks: (nat, nat) -> bool)
    returns (warned: bool, rootMap': PageMap, mem': PageMap)
    ensures warned <==> !ReturnsAll(rs, root, oks)
    ensures Touches(rootMap, rootMap', root, PrivatePages(rs))
    ensures !warned && Agreeing(root) ==> GivesBack(rootMap, rootMap', root, PrivatePages(rs))
    ensures OneToOne(root) ==> PrivateChange(rootMap, rootMap', rs)
    ensures OneToOne(root) && !warned ==> Returned(rootMap, rootMap', root, rs)
  {
    hide Configured, Remapped, Overlap, Touches, GivesBack, Agreeing, PrivatePages, PagesOf, PrivateIn, RemapsAll;
    warned, rootMap', mem' := false, rootMap, mem;
    TouchesNothing(rootMap, root);
    NoPages();
    assert rs[..0] == [];
    var n := 0;
    while n < |rs|
      invariant n <= |rs|
      invariant Touches(rootMap, rootMap', root, PrivatePages(rs[..n]))
      invariant !warned && Agreeing(root) ==> GivesBack(rootMap, rootMap', root, PrivatePages(rs[..n]))
      invariant !warned <==> forall i | 0 <= i < n && Private(rs[i]) :: RemapsAll(rs[i], root, i, oks)
    {
      PagesOneMore(rs, n);
      var unmapped: bool := *;
      mem' := ArchUnmap(mem', rs[n], unmapped);
      if Private(rs[n]) {
        ghost var before, gone := rootMap', PrivatePages(rs[..n]);
        var ok, w;
        ok, w, rootMap' := RemapToRoot(rootMap', rs[n], root, false, n, oks);
        TouchesJoin(rootMap, before, rootMap', root, gone, PagesOf(rs[n]));
        if w {
          warned := true;
        } else if !warned && Agreeing(root) {
          GivesBackJoin(rootMap, before, rootMap', root, gone, PagesOf(rs[n]));
        }
      }
      n := n + 1;
    }
    assert rs[..|rs|] == rs;
    ReturnsOneToOne(rootMap, rootMap', root, rs, warned);
  }

  lemma ReturnsOneToOne(m: PageMap, m': PageMap, root: seq<Region>, rs: seq<Region>, warned: bool)
    requires Touches(m, m', root, PrivatePages(rs))
    requires (!warned && Agreeing(root) ==> GivesBack(m, m', root, PrivatePages(rs)))
    ensures OneToOne(root) ==> PrivateChange(m, m', rs)
    ensures OneToOne(root) && !warned ==> Returned(m, m', root, rs)
  {
    hide Configured, Touches, GivesBack, PrivateIn;
    if OneToOne(root) {
      OneToOneAgrees(root, 0);
      OneToOneMeans(m, m', root, PrivatePages(rs));
    }
  }

  /** The root lost at most loadable pages of rs. */
  ghost predicate LoadableWithin(m: PageMap, m': PageMap, rs: seq<Region>) {
    forall v: nat :: At(m', v) == At(m, v) || (LoadableIn(rs, v) && v !in m')
  }

  /** The root lost the loadable pages of rs and nothing else. */
  ghost predicate LoadableTaken(m: PageMap, m': PageMap, rs: seq<Region>) {
    forall v: nat :: At(m', v) == if LoadableIn(rs, v) then None else At(m, v)
  }

  /** The root got the loadable pages of rs back as configured, and nothing else changed. */
  ghost predicate LoadableReturned(m: PageMap, m': PageMap, root: seq<Region>, rs: seq<Region>) {
    forall v: nat :: At(m', v) == GivenBack(m, root, v, LoadableIn(rs, v))
  }

  /** The root got the private pages of rs back as configured, and nothing else changed. */
  ghost predicate Returned(m: PageMap, m': PageMap, root: seq<Region>, rs: seq<Region>) {
    forall v: nat :: At(m', v) == GivenBack(m, root, v, PrivateIn(rs, v))
  }

  /** The hooks succeed for all loadable regions. */
  predicate TakesAll(rs: seq<Region>, unmaps: nat -> bool) {
    forall i | 0 <= i < |rs| && rs[i].loadable :: unmaps(i)
  }

  /** The loop of cell_start: take the loadable regions from the root. */
  method TakeLoadable(rootMap: PageMap, rs: seq<Region>, unmaps: nat -> bool) returns (ok: bool, rootMap': PageMap)
    ensures ok <==> TakesAll(rs, unmaps)
    ensures LoadableWithin(rootMap, rootMap', rs) && (ok ==> LoadableTaken(rootMap, rootMap', rs))
  {
    rootMap' := rootMap;
    var n := 0;
    while n < |rs|
      invariant n <= |rs|
      invariant forall v: nat :: At(rootMap', v) == if LoadableIn(rs[..n], v) then None else At(rootMap, v)
      invariant forall i | 0 <= i < n && rs[i].loadable :: unmaps(i)
    {
      GivenSoFar(rs, n);
      if rs[n].loadable {
        ok := unmaps(n);
        rootMap' := UnmapFromRoot(rootMap', rs[n], ok);
        if !ok {
          return;
        }
      }
      n := n + 1;
    }
    assert rs[..|rs|] == rs;
    ok := true;
  }

  /** The loop of cell_set_loadable: map the loadable regions into the root. */
  method OfferLoadable(rootMap: PageMap, rs: seq<Region>, root: seq<Region>, oks: (nat, nat) -> bool)
    returns (ok: bool, rootMap': PageMap)
    ensures ok <==> OffersAll(rs, root, oks)
    ensures Touches(rootMap, rootMap', root, LoadablePages(rs))
    ensures ok && Agreeing(root) ==> GivesBack(rootMap, rootMap', root, LoadablePages(rs))
    ensures OneToOne(root) ==> LoadableChange(rootMap, rootMap', rs)
    ensures OneToOne(root) && ok ==> LoadableReturned(rootMap, rootMap', root, rs)
  {
    hide Configured, Remapped, Overlap, Touches, GivesBack, Agreeing, LoadablePages, PagesOf, LoadableIn, RemapsAll;
    rootMap' := rootMap;
    TouchesNothing(rootMap, root);
    NoPages();
    assert rs[..0] == [];
    ok := true;
    var n := 0;
    while n < |rs|
      invariant n <= |rs| && ok
      invariant Touches(rootMap, rootMap', root, LoadablePages(rs[..n]))
      invariant Agreeing(root) ==> GivesBack(rootMap, rootMap', root, LoadablePages(rs[..n]))
      invariant forall i | 0 <= i < n && rs[i].loadable :: RemapsAll(rs[i], root, i, oks)
    {
      PagesOneMore(rs, n);
      if rs[n].loadable {
        ghost var before, given := rootMap', LoadablePages(rs[..n]);
        var w;
        ok, w, rootMap' := RemapToRoot(rootMap', rs[n], root, true, n, oks);
        TouchesJoin(rootMap, before, rootMap', root, given, PagesOf(rs[n]));
        if !ok {
          LoadablePrefix(rootMap, rootMap', root, rs, n + 1);
          break;
        }
        if Agreeing(root) {
          GivesBackJoin(rootMap, before, rootMap', root, given, PagesOf(rs[n]));
        }
      }
      n := n + 1;
    }
    assert rs[..|rs|] == rs;
    OffersOneToOne(rootMap, rootMap', root, rs, ok);
  }

  lemma LoadablePrefix(m: PageMap, m': PageMap, root: seq<Region>, rs: seq<Region>, n: nat)
    requires n <= |rs| && Touches(m, m', root, LoadablePages(rs[..n]))
    ensures Touches(m, m', root, LoadablePages(rs))
  {
    hide FromRoot;
    assert forall i | 0 <= i < n :: rs[..n][i] == rs[i];
    forall p | p in LoadablePages(rs[..n]) ensures p in LoadablePages(rs) {
    }
  }

  lemma OffersOneToOne(m: PageMap, m': PageMap, root: seq<Region>, rs: seq<Region>, ok: bool)
    requires Touches(m, m', root, LoadablePages(rs))
    requires (ok && Agreeing(root) ==> GivesBack(m, m', root, LoadablePages(rs)))
    ensures OneToOne(root) ==> LoadableChange(m, m', rs)
    ensures OneToOne(root) && ok ==> LoadableReturned(m, m', root, rs)
  {
    hide Configured, Touches, GivesBack, LoadableIn;
    if OneToOne(root) {
      OneToOneAgrees(root, 0);
      OneToOneMeans(m, m', root, LoadablePages(rs));
    }
  }
}
