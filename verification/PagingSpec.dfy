/** What paging_create and paging_destroy (hypervisor/paging.c) promise, as predicates on
    page-table trees, and how a promise about one table carries over to the table above. */
module PagingSpec {
  import opened Common
  import opened Arith
  import opened PageTree

  // ----- what the operations promise, page by page -----

  /** [v, v + s) is mapped to p onwards with flags f. */
  ghost predicate Maps(cfg: seq<Level>, l: nat, t: seq<Entry>, v: nat, s: nat, p: nat, f: nat)
    requires At(cfg, l) && WF(cfg, l, t) && v + s <= Coverage(cfg, l)
  {
    forall a | v <= a < v + s :: Lookup(cfg, l, t, a) == Some(Mapping(p + (a - v), f))
  }

  /** Nothing in [v, v + s) is mapped. */
  ghost predicate Vacant(cfg: seq<Level>, l: nat, t: seq<Entry>, v: nat, s: nat)
    requires At(cfg, l) && WF(cfg, l, t)
  {
    forall a | v <= a < v + s && a < Coverage(cfg, l) :: LeafAt(cfg, l, t, a).None?
  }

  /** Every page of [v, v + s) is mapped. */
  ghost predicate Populated(cfg: seq<Level>, l: nat, t: seq<Entry>, v: nat, s: nat)
    requires At(cfg, l) && WF(cfg, l, t) && v + s <= Coverage(cfg, l)
  {
    forall a | v <= a < v + s :: Lookup(cfg, l, t, a).Some?
  }

  /** Every page of [v, v + s) lies in a leaf that stays inside the range. */
  ghost predicate Covered(cfg: seq<Level>, l: nat, t: seq<Entry>, v: nat, s: nat)
    requires At(cfg, l) && WF(cfg, l, t) && v + s <= Coverage(cfg, l)
  {
    forall a | v <= a < v + s ::
      var x := LeafAt(cfg, l, t, a);
      x.Some? && v <= x.value.start && x.value.start + x.value.size <= v + s
  }

  /** Translations agree outside [v, v + s). */
  ghost predicate SameOutside(cfg: seq<Level>, l: nat, t: seq<Entry>, u: seq<Entry>, v: nat, s: nat)
    requires At(cfg, l) && WF(cfg, l, t) && WF(cfg, l, u)
  {
    forall a | 0 <= a < Coverage(cfg, l) && !(v <= a < v + s) :: Lookup(cfg, l, u, a) == Lookup(cfg, l, t, a)
  }

  /** Even the leaves agree outside [v, v + s). */
  ghost predicate SameLeaves(cfg: seq<Level>, l: nat, t: seq<Entry>, u: seq<Entry>, v: nat, s: nat)
    requires At(cfg, l) && WF(cfg, l, t) && WF(cfg, l, u)
  {
    forall a | 0 <= a < Coverage(cfg, l) && !(v <= a < v + s) :: LeafAt(cfg, l, u, a) == LeafAt(cfg, l, t, a)
  }

  /** The operation only removed translations. */
  ghost predicate Shrunk(cfg: seq<Level>, l: nat, t: seq<Entry>, u: seq<Entry>)
    requires At(cfg, l) && WF(cfg, l, t) && WF(cfg, l, u)
  {
    forall a | 0 <= a < Coverage(cfg, l) ::
      Lookup(cfg, l, u, a) == Lookup(cfg, l, t, a) || Lookup(cfg, l, u, a).None?
  }

  /** Nothing changed. */
  ghost predicate SameAll(cfg: seq<Level>, l: nat, t: seq<Entry>, u: seq<Entry>)
    requires At(cfg, l) && WF(cfg, l, t) && WF(cfg, l, u)
  {
    forall a | 0 <= a < Coverage(cfg, l) :: Lookup(cfg, l, u, a) == Lookup(cfg, l, t, a)
  }

  /** [o, o + ps) is one leaf. */
  ghost predicate NewLeaf(cfg: seq<Level>, l: nat, t: seq<Entry>, o: nat, ps: nat, p: nat, f: nat)
    requires At(cfg, l) && WF(cfg, l, t) && o + ps <= Coverage(cfg, l)
  {
    forall a | o <= a < o + ps :: LeafAt(cfg, l, t, a) == Some(LeafInfo(o, ps, p, f))
  }

  /** [v, v + s) is mapped by pages of the first level that has pages. */
  ghost predicate Even(cfg: seq<Level>, l: nat, t: seq<Entry>, v: nat, s: nat)
    requires At(cfg, l) && WF(cfg, l, t) && v + s <= Coverage(cfg, l)
  {
    forall a | v <= a < v + s :: SizeAt(cfg, l, t, a) == cfg[FirstTerminal(cfg, l)].span
  }

  /** Size of the page a lies in, 0 if unmapped. */
  function SizeAt(cfg: seq<Level>, l: nat, t: seq<Entry>, a: nat): nat
    requires At(cfg, l) && WF(cfg, l, t) && a < Coverage(cfg, l)
  {
    var x := LeafAt(cfg, l, t, a);
    if x.Some? then x.value.size else 0
  }

  lemma SizeOfEntry(cfg: seq<Level>, l: nat, t: seq<Entry>, o: nat)
    requires At(cfg, l) && WF(cfg, l, t) && o < Coverage(cfg, l)
    ensures t[Idx(cfg, l, o)].Invalid? ==> SizeAt(cfg, l, t, o) == 0
    ensures t[Idx(cfg, l, o)].Leaf? ==> SizeAt(cfg, l, t, o) == cfg[l].span
    ensures t[Idx(cfg, l, o)].Table? ==>
              && l + 1 < |cfg| && WF(cfg, l + 1, t[Idx(cfg, l, o)].sub) && Rem(cfg, l, o) < Coverage(cfg, l + 1)
              && SizeAt(cfg, l, t, o) == SizeAt(cfg, l + 1, t[Idx(cfg, l, o)].sub, Rem(cfg, l, o))
  {
    assert WFEntry(cfg, l, t[Idx(cfg, l, o)]);
    if t[Idx(cfg, l, o)].Table? {
      SpanShrinks(cfg, l);
    }
  }

  /** [v, v + s) lost its translation, the rest kept it. */
  ghost predicate Clears(cfg: seq<Level>, l: nat, t: seq<Entry>, u: seq<Entry>, v: nat, s: nat)
    requires At(cfg, l) && WF(cfg, l, t) && WF(cfg, l, u)
  {
    SameOutside(cfg, l, t, u, v, s) && Vacant(cfg, l, u, v, s)
  }

  ghost predicate ClearsLeaves(cfg: seq<Level>, l: nat, t: seq<Entry>, u: seq<Entry>, v: nat, s: nat)
    requires At(cfg, l) && WF(cfg, l, t) && WF(cfg, l, u)
  {
    SameLeaves(cfg, l, t, u, v, s) && Vacant(cfg, l, u, v, s)
  }

  /** All entries but the i-th are the same. */
  ghost predicate SameEntries(t: seq<Entry>, u: seq<Entry>, i: nat) {
    |u| == |t| && forall j | 0 <= j < |t| && j != i :: u[j] == t[j]
  }

  lemma Unchanged(cfg: seq<Level>, l: nat, t: seq<Entry>, v: nat, p: nat, f: nat)
    requires At(cfg, l) && WF(cfg, l, t) && v <= Coverage(cfg, l)
    ensures Maps(cfg, l, t, v, 0, p, f) && Covered(cfg, l, t, v, 0)
    ensures SameOutside(cfg, l, t, t, v, 0) && SameLeaves(cfg, l, t, t, v, 0)
    ensures Clears(cfg, l, t, t, v, 0) && ClearsLeaves(cfg, l, t, t, v, 0)
    ensures Shrunk(cfg, l, t, t) && SameAll(cfg, l, t, t)
  {
  }

  lemma BlankVacant(cfg: seq<Level>, l: nat)
    requires At(cfg, l)
    ensures Vacant(cfg, l, Blank(cfg, l), 0, Coverage(cfg, l)) && Tables(Blank(cfg, l)) == 0 && Pruned(Blank(cfg, l))
  {
    TablesBlank(Blank(cfg, l));
  }

  // ----- one table seen from the one above -----

  /** `sub` is the table of level m == l + 1 that stands for the entry of o in t. */
  ghost predicate Stands(cfg: seq<Level>, l: nat, t: seq<Entry>, o: nat, m: nat, sub: seq<Entry>)
    requires At(cfg, l) && WF(cfg, l, t) && o < Coverage(cfg, l) && At(cfg, m) && WF(cfg, m, sub)
    requires m == l + 1
  {
    forall a | 0 <= a < Coverage(cfg, l) && Idx(cfg, l, a) == Idx(cfg, l, o) ::
      Rem(cfg, l, a) < Coverage(cfg, m) && Lookup(cfg, l, t, a) == Lookup(cfg, m, sub, Rem(cfg, l, a))
  }

  lemma EntryStands(cfg: seq<Level>, l: nat, t: seq<Entry>, o: nat, m: nat, sub: seq<Entry>)
    requires At(cfg, l) && WF(cfg, l, t) && o < Coverage(cfg, l) && m == l + 1 && At(cfg, m) && WF(cfg, m, sub)
    requires t[Idx(cfg, l, o)] == Table(sub) || (t[Idx(cfg, l, o)].Invalid? && IsBlank(sub))
    ensures Stands(cfg, l, t, o, m, sub)
  {
    SpanShrinks(cfg, l);
  }

  lemma SplitStands(cfg: seq<Level>, l: nat, t: seq<Entry>, o: nat, m: nat, sub: seq<Entry>)
    requires At(cfg, l) && WF(cfg, l, t) && o < Coverage(cfg, l) && m == l + 1 && At(cfg, m) && WF(cfg, m, sub)
    requires t[Idx(cfg, l, o)].Leaf?
    requires Maps(cfg, m, sub, 0, Coverage(cfg, m), t[Idx(cfg, l, o)].phys, t[Idx(cfg, l, o)].flags)
    ensures Stands(cfg, l, t, o, m, sub)
  {
    SpanShrinks(cfg, l);
  }

  /** What changed in the table below changed here, shifted. */
  lemma LiftOutside(cfg: seq<Level>, l: nat, t: seq<Entry>, u: seq<Entry>, o: nat,
                    m: nat, sub: seq<Entry>, sub': seq<Entry>, v: nat, ps: nat)
    requires At(cfg, l) && WF(cfg, l, t) && WF(cfg, l, u) && o < Coverage(cfg, l)
    requires m == l + 1 && At(cfg, m) && WF(cfg, m, sub) && WF(cfg, m, sub')
    requires SameEntries(t, u, Idx(cfg, l, o))
    requires Stands(cfg, l, t, o, m, sub) && Stands(cfg, l, u, o, m, sub')
    requires SameOutside(cfg, m, sub, sub', v, ps)
    ensures SameOutside(cfg, l, t, u, Base(cfg, l, o) + v, ps)
  {
    forall a | 0 <= a < Coverage(cfg, l) && !(Base(cfg, l, o) + v <= a < Base(cfg, l, o) + v + ps)
      ensures Lookup(cfg, l, u, a) == Lookup(cfg, l, t, a)
    {
      SameEntry(cfg, l, a, o);
    }
  }

  lemma LiftShrunk(cfg: seq<Level>, l: nat, t: seq<Entry>, u: seq<Entry>, o: nat,
                   m: nat, sub: seq<Entry>, sub': seq<Entry>)
    requires At(cfg, l) && WF(cfg, l, t) && WF(cfg, l, u) && o < Coverage(cfg, l)
    requires m == l + 1 && At(cfg, m) && WF(cfg, m, sub) && WF(cfg, m, sub')
    requires SameEntries(t, u, Idx(cfg, l, o))
    requires Stands(cfg, l, t, o, m, sub) && Stands(cfg, l, u, o, m, sub')
    requires Shrunk(cfg, m, sub, sub')
    ensures Shrunk(cfg, l, t, u)
  {
    forall a | 0 <= a < Coverage(cfg, l)
      ensures Lookup(cfg, l, u, a) == Lookup(cfg, l, t, a) || Lookup(cfg, l, u, a).None?
    {
      SameEntry(cfg, l, a, o);
    }
  }

  /** Mapping a block in the table below maps it here. */
  lemma LiftMaps(cfg: seq<Level>, l: nat, u: seq<Entry>, o: nat, m: nat, sub': seq<Entry>, ps: nat, p: nat, f: nat)
    requires At(cfg, l) && WF(cfg, l, u) && o < Coverage(cfg, l)
    requires m == l + 1 && At(cfg, m) && WF(cfg, m, sub')
    requires Stands(cfg, l, u, o, m, sub')
    requires Rem(cfg, l, o) + ps <= Coverage(cfg, m)
    requires Maps(cfg, m, sub', Rem(cfg, l, o), ps, p, f)
    ensures o + ps <= Base(cfg, l, o) + cfg[l].span <= Coverage(cfg, l)
    ensures Maps(cfg, l, u, o, ps, p, f)
  {
    SpanShrinks(cfg, l);
    BlockInside(cfg, l, o);
    forall a | o <= a < o + ps ensures Lookup(cfg, l, u, a) == Some(Mapping(p + (a - o), f)) {
      SameEntry(cfg, l, a, o);
    }
  }

  lemma LiftVacant(cfg: seq<Level>, l: nat, u: seq<Entry>, o: nat, m: nat, sub': seq<Entry>, v: nat, ps: nat)
    requires At(cfg, l) && WF(cfg, l, u) && o < Coverage(cfg, l)
    requires m == l + 1 && At(cfg, m) && WF(cfg, m, sub')
    requires Stands(cfg, l, u, o, m, sub')
    requires v + ps <= Coverage(cfg, m) && Vacant(cfg, m, sub', v, ps)
    ensures Vacant(cfg, l, u, Base(cfg, l, o) + v, ps)
  {
    SpanShrinks(cfg, l);
    BlockInside(cfg, l, o);
    forall a | Base(cfg, l, o) + v <= a < Base(cfg, l, o) + v + ps && a < Coverage(cfg, l)
      ensures LeafAt(cfg, l, u, a).None?
    {
      SameEntry(cfg, l, a, o);
      assert LeafAt(cfg, m, sub', Rem(cfg, l, a)).None?;
    }
  }

  lemma LiftSame(cfg: seq<Level>, l: nat, t: seq<Entry>, u: seq<Entry>, o: nat,
                 m: nat, sub: seq<Entry>, sub': seq<Entry>)
    requires At(cfg, l) && WF(cfg, l, t) && WF(cfg, l, u) && o < Coverage(cfg, l)
    requires m == l + 1 && At(cfg, m) && WF(cfg, m, sub) && WF(cfg, m, sub')
    requires SameEntries(t, u, Idx(cfg, l, o))
    requires Stands(cfg, l, t, o, m, sub) && Stands(cfg, l, u, o, m, sub')
    requires SameAll(cfg, m, sub, sub')
    ensures SameAll(cfg, l, t, u)
  {
    forall a | 0 <= a < Coverage(cfg, l) ensures Lookup(cfg, l, u, a) == Lookup(cfg, l, t, a) {
      SameEntry(cfg, l, a, o);
    }
  }

  /** The same for leaves, when the entry was no leaf. */
  lemma LiftLeaves(cfg: seq<Level>, l: nat, t: seq<Entry>, u: seq<Entry>, o: nat,
                   m: nat, sub: seq<Entry>, sub': seq<Entry>, v: nat, ps: nat)
    requires At(cfg, l) && WF(cfg, l, t) && WF(cfg, l, u) && o < Coverage(cfg, l)
    requires m == l + 1 && At(cfg, m) && WF(cfg, m, sub) && WF(cfg, m, sub')
    requires SameEntries(t, u, Idx(cfg, l, o))
    requires u[Idx(cfg, l, o)] == Table(sub') || (u[Idx(cfg, l, o)].Invalid? && IsBlank(sub'))
    requires t[Idx(cfg, l, o)] == Table(sub) || (t[Idx(cfg, l, o)].Invalid? && IsBlank(sub))
    requires SameLeaves(cfg, m, sub, sub', v, ps)
    ensures SameLeaves(cfg, l, t, u, Base(cfg, l, o) + v, ps)
  {
    hide LeafAt, Lookup, WFEntry, IsBlank, Idx, Rem, Coverage;
    SpanShrinks(cfg, l);
    forall a | 0 <= a < Coverage(cfg, l) && !(Base(cfg, l, o) + v <= a < Base(cfg, l, o) + v + ps)
      ensures LeafAt(cfg, l, u, a) == LeafAt(cfg, l, t, a)
    {
      SameEntry(cfg, l, a, o);
      if Idx(cfg, l, a) == Idx(cfg, l, o) {
        LeafBelow(cfg, l, t, a, m, sub);
        LeafBelow(cfg, l, u, a, m, sub');
      } else {
        LeafSame(cfg, l, t, u, a);
      }
    }
  }

  lemma LiftNewLeaf(cfg: seq<Level>, l: nat, u: seq<Entry>, o: nat, m: nat, sub': seq<Entry>,
                    ps: nat, p: nat, f: nat)
    requires At(cfg, l) && WF(cfg, l, u) && o < Coverage(cfg, l)
    requires m == l + 1 && At(cfg, m) && WF(cfg, m, sub') && u[Idx(cfg, l, o)] == Table(sub')
    requires Rem(cfg, l, o) + ps <= Coverage(cfg, m)
    requires forall b | Rem(cfg, l, o) <= b < Rem(cfg, l, o) + ps ::
               LeafAt(cfg, m, sub', b) == Some(LeafInfo(Rem(cfg, l, o), ps, p, f))
    ensures o + ps <= Coverage(cfg, l)
    ensures forall a | o <= a < o + ps :: LeafAt(cfg, l, u, a) == Some(LeafInfo(o, ps, p, f))
  {
    SpanShrinks(cfg, l);
    BlockInside(cfg, l, o);
    forall a | o <= a < o + ps ensures LeafAt(cfg, l, u, a) == Some(LeafInfo(o, ps, p, f)) {
      SameEntry(cfg, l, a, o);
      SameEntry(cfg, l, o, a);
    }
  }

  /** In a pruned tree, an entry whose whole block is unmapped is invalid. */
  lemma VacantEntry(cfg: seq<Level>, l: nat, t: seq<Entry>, o: nat, s: nat)
    requires At(cfg, l) && WF(cfg, l, t) && Pruned(t) && o < Coverage(cfg, l)
    requires o % cfg[l].span == 0 && cfg[l].span <= s && Vacant(cfg, l, t, o, s)
    ensures t[Idx(cfg, l, o)].Invalid?
  {
    assert LeafAt(cfg, l, t, o).None?;
    if t[Idx(cfg, l, o)].Table? {
      TableMaps(cfg, l, t, o);
    }
  }

  lemma TableMaps(cfg: seq<Level>, l: nat, t: seq<Entry>, o: nat)
    requires At(cfg, l) && WF(cfg, l, t) && Pruned(t) && o < Coverage(cfg, l) && t[Idx(cfg, l, o)].Table?
    ensures Base(cfg, l, o) + cfg[l].span <= Coverage(cfg, l)
    ensures exists a | Base(cfg, l, o) <= a < Base(cfg, l, o) + cfg[l].span :: LeafAt(cfg, l, t, a).Some?
  {
    var i := Idx(cfg, l, o);
    assert WFEntry(cfg, l, t[i]) && PrunedEntry(t[i]);
    SpanShrinks(cfg, l);
    BlockInside(cfg, l, o);
    var r := LeafExists(cfg, l + 1, t[i].sub);
    var a := EntryStart(cfg, l, i, r);
    SameEntry(cfg, l, a, o);
    assert LeafAt(cfg, l, t, a).Some?;
  }

  /** The part of a vacant range inside o's entry is vacant in the table below. */
  lemma VacantBelow(cfg: seq<Level>, l: nat, t: seq<Entry>, o: nat, s: nat, m: nat, sub: seq<Entry>)
    requires At(cfg, l) && WF(cfg, l, t) && o < Coverage(cfg, l) && m == l + 1 && At(cfg, m)
    requires t[Idx(cfg, l, o)] == Table(sub) && Vacant(cfg, l, t, o, s)
    ensures WF(cfg, m, sub) && Vacant(cfg, m, sub, Rem(cfg, l, o), s)
  {
    assert WFEntry(cfg, l, t[Idx(cfg, l, o)]);
    SpanShrinks(cfg, l);
    BlockInside(cfg, l, o);
    forall b | Rem(cfg, l, o) <= b < Rem(cfg, l, o) + s && b < Coverage(cfg, m)
      ensures LeafAt(cfg, m, sub, b).None?
    {
      var a := Base(cfg, l, o) + b;
      SameEntry(cfg, l, a, o);
      assert LeafAt(cfg, l, t, a).None?;
    }
  }

  // ----- splitting and descending -----

  lemma MapsNotBlank(cfg: seq<Level>, l: nat, t: seq<Entry>, v: nat, s: nat, p: nat, f: nat)
    requires At(cfg, l) && WF(cfg, l, t) && s >= 1 && v + s <= Coverage(cfg, l) && Maps(cfg, l, t, v, s, p, f)
    ensures !IsBlank(t)
  {
    assert Lookup(cfg, l, t, v).Some?;
  }

  lemma NoLeafInVacant(cfg: seq<Level>, l: nat, t: seq<Entry>, o: nat, s: nat)
    requires At(cfg, l) && WF(cfg, l, t) && o < Coverage(cfg, l) && t[Idx(cfg, l, o)].Leaf?
    ensures s >= 1 ==> !Vacant(cfg, l, t, o, s)
  {
    assert LeafAt(cfg, l, t, o).Some?;
  }

  lemma BlankVacantFrom(cfg: seq<Level>, l: nat, o: nat, s: nat)
    requires At(cfg, l)
    ensures Vacant(cfg, l, Blank(cfg, l), o, s)
  {
  }

  // ----- paging_create -----

  /** One page of ps pages was put at o. */
  ghost predicate StepMaps(cfg: seq<Level>, l: nat, t: seq<Entry>, u: seq<Entry>, o: nat, s: nat, ps: nat, p: nat,
                           f: nat)
    requires At(cfg, l) && WF(cfg, l, t) && WF(cfg, l, u)
  {
    && 1 <= ps <= s && o + ps <= Coverage(cfg, l)
    && Maps(cfg, l, u, o, ps, p, f) && SameOutside(cfg, l, t, u, o, ps)
  }

  /** Where nothing was mapped before, that page is one leaf and no other leaf changed. */
  ghost predicate StepFresh(cfg: seq<Level>, l: nat, t: seq<Entry>, u: seq<Entry>, o: nat, ps: nat, p: nat, f: nat)
    requires At(cfg, l) && WF(cfg, l, t) && WF(cfg, l, u)
  {
    && o + ps <= Coverage(cfg, l)
    && SameLeaves(cfg, l, t, u, o, ps) && NewLeaf(cfg, l, u, o, ps, p, f)
  }

  lemma LiftStepMaps(cfg: seq<Level>, l: nat, t: seq<Entry>, u: seq<Entry>, o: nat, s: nat, ps: nat, p: nat, f: nat,
                     m: nat, sub: seq<Entry>, sub': seq<Entry>)
    requires At(cfg, l) && WF(cfg, l, t) && WF(cfg, l, u) && o < Coverage(cfg, l)
    requires m == l + 1 && At(cfg, m) && WF(cfg, m, sub) && WF(cfg, m, sub')
    requires SameEntries(t, u, Idx(cfg, l, o)) && u[Idx(cfg, l, o)] == Table(sub')
    requires Stands(cfg, l, t, o, m, sub)
    requires StepMaps(cfg, m, sub, sub', Rem(cfg, l, o), s, ps, p, f)
    ensures StepMaps(cfg, l, t, u, o, s, ps, p, f) && !IsBlank(sub')
  {
    hide Lookup, LeafAt, Maps, SameOutside, Stands, WFEntry;
    EntryStands(cfg, l, u, o, m, sub');
    LiftMaps(cfg, l, u, o, m, sub', ps, p, f);
    LiftOutside(cfg, l, t, u, o, m, sub, sub', Rem(cfg, l, o), ps);
    MapsNotBlank(cfg, m, sub', Rem(cfg, l, o), ps, p, f);
  }

  lemma LiftStepFresh(cfg: seq<Level>, l: nat, t: seq<Entry>, u: seq<Entry>, o: nat, ps: nat, p: nat, f: nat,
                      m: nat, sub: seq<Entry>, sub': seq<Entry>)
    requires At(cfg, l) && WF(cfg, l, t) && WF(cfg, l, u) && o < Coverage(cfg, l)
    requires m == l + 1 && At(cfg, m) && WF(cfg, m, sub) && WF(cfg, m, sub')
    requires SameEntries(t, u, Idx(cfg, l, o)) && u[Idx(cfg, l, o)] == Table(sub')
    requires t[Idx(cfg, l, o)] == Table(sub) || (t[Idx(cfg, l, o)].Invalid? && IsBlank(sub))
    requires StepFresh(cfg, m, sub, sub', Rem(cfg, l, o), ps, p, f)
    ensures StepFresh(cfg, l, t, u, o, ps, p, f)
  {
    hide Lookup, LeafAt, SameLeaves, WFEntry;
    LiftLeaves(cfg, l, t, u, o, m, sub, sub', Rem(cfg, l, o), ps);
    LiftNewLeaf(cfg, l, u, o, m, sub', ps, p, f);
  }

  /** A terminal entry of level l fits at o. */
  predicate PageFits(cfg: seq<Level>, l: nat, o: nat, p: nat, s: nat)
    requires At(cfg, l)
  {
    cfg[l].terminal && cfg[l].span <= s && o % cfg[l].span == 0 && p % cfg[l].span == 0
  }

  /** o lies in a page larger than s of a level that is followed by one without pages. */
  ghost predicate GapAt(cfg: seq<Level>, l: nat, t: seq<Entry>, o: nat, s: nat)
    requires At(cfg, l) && WF(cfg, l, t) && o < Coverage(cfg, l)
    decreases |cfg| - l
  {
    match t[Idx(cfg, l, o)]
    case Invalid => false
    case Leaf(_, _) => l + 1 < |cfg| && !cfg[l + 1].terminal && s < cfg[l].span
    case Table(sub) =>
      assert WFEntry(cfg, l, t[Idx(cfg, l, o)]);
      SpanShrinks(cfg, l);
      GapAt(cfg, l + 1, sub, Rem(cfg, l, o), s)
  }

  lemma {:induction false} GapBelow(cfg: seq<Level>, l: nat, t: seq<Entry>, o: nat, s: nat)
    requires At(cfg, l) && WF(cfg, l, t) && o < Coverage(cfg, l) && GapAt(cfg, l, t, o, s)
    ensures s < cfg[l].span && LeafAt(cfg, l, t, o).Some?
    ensures t[Idx(cfg, l, o)].Leaf? ==> l + 1 < |cfg| && !cfg[l + 1].terminal
    decreases |cfg| - l
  {
    var e := t[Idx(cfg, l, o)];
    assert WFEntry(cfg, l, e);
    if e.Table? {
      SpanShrinks(cfg, l);
      GapBelow(cfg, l + 1, e.sub, Rem(cfg, l, o), s);
    }
  }

  /** The page o lay in is gone as a whole. */
  ghost predicate PageLost(cfg: seq<Level>, l: nat, t: seq<Entry>, u: seq<Entry>, o: nat)
    requires At(cfg, l) && WF(cfg, l, t) && WF(cfg, l, u) && o < Coverage(cfg, l)
  {
    var x := LeafAt(cfg, l, t, o);
    x.Some? && Vacant(cfg, l, u, x.value.start, x.value.size)
  }

  lemma LiftPageLost(cfg: seq<Level>, l: nat, t: seq<Entry>, u: seq<Entry>, o: nat, m: nat, sub: seq<Entry>,
                     sub': seq<Entry>)
    requires At(cfg, l) && WF(cfg, l, t) && WF(cfg, l, u) && o < Coverage(cfg, l)
    requires m == l + 1 && At(cfg, m) && WF(cfg, m, sub) && WF(cfg, m, sub') && Rem(cfg, l, o) < Coverage(cfg, m)
    requires t[Idx(cfg, l, o)] == Table(sub) && u[Idx(cfg, l, o)] == Table(sub')
    requires PageLost(cfg, m, sub, sub', Rem(cfg, l, o))
    ensures PageLost(cfg, l, t, u, o)
  {
    hide Lookup, LeafAt, Vacant, Stands;
    LeafBelow(cfg, l, t, o, m, sub);
    EntryStands(cfg, l, u, o, m, sub');
    BlockInside(cfg, m, Rem(cfg, l, o));
    var x := LeafAt(cfg, m, sub, Rem(cfg, l, o)).value;
    LiftVacant(cfg, l, u, o, m, sub', x.start, x.size);
  }

  lemma LeafLost(cfg: seq<Level>, l: nat, t: seq<Entry>, u: seq<Entry>, o: nat, m: nat, sub': seq<Entry>)
    requires At(cfg, l) && WF(cfg, l, t) && WF(cfg, l, u) && o < Coverage(cfg, l) && m == l + 1 && At(cfg, m)
    requires WF(cfg, m, sub')
    requires t[Idx(cfg, l, o)].Leaf? && u[Idx(cfg, l, o)] == Table(sub') && IsBlank(sub')
    ensures PageLost(cfg, l, t, u, o)
  {
    hide Lookup, LeafAt, Stands;
    LeafHere(cfg, l, t, o, 1);
    EntryStands(cfg, l, u, o, m, sub');
    SpanShrinks(cfg, l);
    BlankVacantFrom(cfg, m, 0, Coverage(cfg, m));
    BlankIs(cfg, m, sub');
    LiftVacant(cfg, l, u, o, m, sub', 0, Coverage(cfg, m));
  }

  lemma BlankIs(cfg: seq<Level>, l: nat, t: seq<Entry>)
    requires At(cfg, l) && WF(cfg, l, t) && IsBlank(t)
    ensures t == Blank(cfg, l)
  {
  }

  lemma PrunedUpdate(t: seq<Entry>, i: nat, e: Entry)
    requires i < |t| && Pruned(t) && PrunedEntry(e)
    ensures Pruned(t[i := e])
  {
  }

  /** Storing a terminal entry for an aligned block maps exactly that block. */
  lemma SetTerminal(cfg: seq<Level>, l: nat, t: seq<Entry>, u: seq<Entry>, o: nat, s: nat, p: nat, f: nat)
    requires At(cfg, l) && WF(cfg, l, t) && WF(cfg, l, u) && o < Coverage(cfg, l) && o % cfg[l].span == 0
    requires SameEntries(t, u, Idx(cfg, l, o)) && u[Idx(cfg, l, o)] == Leaf(p, f) && cfg[l].span <= s
    ensures StepMaps(cfg, l, t, u, o, s, cfg[l].span, p, f) && StepFresh(cfg, l, t, u, o, cfg[l].span, p, f)
  {
    BlockInside(cfg, l, o);
    forall a | 0 <= a < Coverage(cfg, l)
      ensures LeafAt(cfg, l, u, a) ==
              if o <= a < o + cfg[l].span then Some(LeafInfo(o, cfg[l].span, p, f)) else LeafAt(cfg, l, t, a)
    {
      hide Lookup;
      SameEntry(cfg, l, a, o);
      if Idx(cfg, l, a) != Idx(cfg, l, o) {
        LeafSame(cfg, l, t, u, a);
      }
    }
    LeavesGiveLookups(cfg, l, t, u, o, cfg[l].span, p, f);
  }

  lemma LeavesGiveLookups(cfg: seq<Level>, l: nat, t: seq<Entry>, u: seq<Entry>, o: nat, ps: nat, p: nat, f: nat)
    requires At(cfg, l) && WF(cfg, l, t) && WF(cfg, l, u) && StepFresh(cfg, l, t, u, o, ps, p, f)
    ensures Maps(cfg, l, u, o, ps, p, f) && SameOutside(cfg, l, t, u, o, ps)
  {
    hide Lookup, LeafAt, Coverage;
    forall a | 0 <= a < Coverage(cfg, l)
      ensures Lookup(cfg, l, u, a) ==
              if o <= a < o + ps then Some(Mapping(p + (a - o), f)) else Lookup(cfg, l, t, a)
    {
      assert LeafAt(cfg, l, u, a) == if o <= a < o + ps then Some(LeafInfo(o, ps, p, f)) else LeafAt(cfg, l, t, a);
    }
  }

  lemma JoinMaps(cfg: seq<Level>, l: nat, t: seq<Entry>, t1: seq<Entry>, t2: seq<Entry>,
                 v: nat, done: nat, ps: nat, n: nat, p: nat, f: nat)
    requires At(cfg, l) && WF(cfg, l, t) && WF(cfg, l, t1) && WF(cfg, l, t2) && v + done <= Coverage(cfg, l)
    requires Maps(cfg, l, t1, v, done, p, f) && SameOutside(cfg, l, t, t1, v, done)
    requires StepMaps(cfg, l, t1, t2, v + done, n, ps, p + done, f)
    ensures 1 <= ps <= n && v + done + ps <= Coverage(cfg, l)
    ensures Maps(cfg, l, t2, v, done + ps, p, f) && SameOutside(cfg, l, t, t2, v, done + ps)
  {
    hide Lookup;
  }

  lemma JoinSame(cfg: seq<Level>, l: nat, t: seq<Entry>, t1: seq<Entry>, t2: seq<Entry>, v: nat, done: nat, p: nat,
                 f: nat)
    requires At(cfg, l) && WF(cfg, l, t) && WF(cfg, l, t1) && WF(cfg, l, t2) && v + done <= Coverage(cfg, l)
    requires Maps(cfg, l, t1, v, done, p, f) && SameOutside(cfg, l, t, t1, v, done) && SameAll(cfg, l, t1, t2)
    ensures Maps(cfg, l, t2, v, done, p, f) && SameOutside(cfg, l, t, t2, v, done)
  {
    hide Lookup;
  }

  lemma JoinLeaves(cfg: seq<Level>, l: nat, t: seq<Entry>, t1: seq<Entry>, t2: seq<Entry>,
                   v: nat, done: nat, ps: nat, p: nat, f: nat)
    requires At(cfg, l) && WF(cfg, l, t) && WF(cfg, l, t1) && WF(cfg, l, t2) && v + done <= Coverage(cfg, l)
    requires SameLeaves(cfg, l, t, t1, v, done) && Covered(cfg, l, t1, v, done)
    requires StepFresh(cfg, l, t1, t2, v + done, ps, p, f)
    ensures v + done + ps <= Coverage(cfg, l)
    ensures SameLeaves(cfg, l, t, t2, v, done + ps) && Covered(cfg, l, t2, v, done + ps)
  {
    hide Lookup, LeafAt;
  }

  lemma VacantRest(cfg: seq<Level>, l: nat, t: seq<Entry>, t1: seq<Entry>, v: nat, done: nat, n: nat)
    requires At(cfg, l) && WF(cfg, l, t) && WF(cfg, l, t1)
    requires Vacant(cfg, l, t, v, done + n) && SameLeaves(cfg, l, t, t1, v, done)
    ensures Vacant(cfg, l, t1, v + done, n)
  {
  }

  /** Where a whole table is filled, a page of the first level that has pages fits next. */
  lemma FillNext(cfg: seq<Level>, l: nat, x: nat, p: nat, n: nat)
    requires At(cfg, l) && x + n == Coverage(cfg, l) && n > 0
    requires x % cfg[FirstTerminal(cfg, l)].span == 0 && p % cfg[FirstTerminal(cfg, l)].span == 0
    ensures PageFits(cfg, FirstTerminal(cfg, l), x, p + x, n)
    ensures (x + cfg[FirstTerminal(cfg, l)].span) % cfg[FirstTerminal(cfg, l)].span == 0
  {
    var m := FirstTerminal(cfg, l);
    CoverageAligned(cfg, l, m);
    SumOfMultiples(p, x, cfg[m].span);
    DivUnique(cfg[m].span, 1, 0, cfg[m].span);
    SumOfMultiples(x, cfg[m].span, cfg[m].span);
    NextMultiple(x, Coverage(cfg, l), cfg[m].span);
  }

  lemma TerminalFirst(cfg: seq<Level>, l: nat)
    requires At(cfg, l) && cfg[l].terminal
    ensures FirstTerminal(cfg, l) == l
  {
  }

  lemma FillStart(cfg: seq<Level>, l: nat, t: seq<Entry>)
    requires At(cfg, l) && WF(cfg, l, t) && IsBlank(t)
    ensures Pruned(t) && Vacant(cfg, l, t, 0, Coverage(cfg, l)) && Even(cfg, l, t, 0, 0)
    ensures 0 % cfg[FirstTerminal(cfg, l)].span == 0
  {
    DivUnique(0, 0, 0, cfg[FirstTerminal(cfg, l)].span);
  }

  lemma JoinEven(cfg: seq<Level>, l: nat, t1: seq<Entry>, t2: seq<Entry>, done: nat, ps: nat, p: nat, f: nat)
    requires At(cfg, l) && WF(cfg, l, t1) && WF(cfg, l, t2) && done <= Coverage(cfg, l)
    requires Even(cfg, l, t1, 0, done) && StepFresh(cfg, l, t1, t2, done, ps, p, f)
    requires ps == cfg[FirstTerminal(cfg, l)].span
    ensures done + ps <= Coverage(cfg, l) && Even(cfg, l, t2, 0, done + ps)
  {
    hide Lookup, LeafAt, FirstTerminal;
    forall a | 0 <= a < done + ps ensures SizeAt(cfg, l, t2, a) == ps {
      assert a < done ==> SizeAt(cfg, l, t1, a) == ps;
    }
  }

  /** The request fills an empty table. */
  predicate Fills(cfg: seq<Level>, l: nat, t: seq<Entry>, v: nat, p: nat, s: nat)
    requires At(cfg, l)
  {
    IsBlank(t) && v == 0 && s == Coverage(cfg, l) && p % cfg[FirstTerminal(cfg, l)].span == 0
  }

  // ----- paging_destroy -----

  /** The block that gets cleared lies in one page, so all of it was mapped. */
  lemma {:induction false} ClearBlockMapped(cfg: seq<Level>, l: nat, t: seq<Entry>, o: nat, s: nat)
    requires At(cfg, l) && WF(cfg, l, t) && o < Coverage(cfg, l) && s >= 1 && Lookup(cfg, l, t, o).Some?
    ensures var b := ClearBlock(cfg, l, t, o, s);
            && b.start + b.size <= Coverage(cfg, l)
            && forall a | b.start <= a < b.start + b.size :: Lookup(cfg, l, t, a).Some?
    decreases |cfg| - l
  {
    var i, b := Idx(cfg, l, o), ClearBlock(cfg, l, t, o, s);
    BlockInside(cfg, l, o);
    assert WFEntry(cfg, l, t[i]);
    if t[i].Table? {
      SpanShrinks(cfg, l);
      ClearBlockMapped(cfg, l + 1, t[i].sub, Rem(cfg, l, o), s);
    }
    forall a | b.start <= a < b.start + b.size ensures Lookup(cfg, l, t, a).Some? {
      SameEntry(cfg, l, a, o);
    }
  }

  lemma NothingHere(cfg: seq<Level>, l: nat, t: seq<Entry>, o: nat)
    requires At(cfg, l) && WF(cfg, l, t) && o < Coverage(cfg, l) && t[Idx(cfg, l, o)].Invalid?
    ensures LeafAt(cfg, l, t, o).None? && Lookup(cfg, l, t, o).None?
  {
  }

  lemma LeafHere(cfg: seq<Level>, l: nat, t: seq<Entry>, o: nat, s: nat)
    requires At(cfg, l) && WF(cfg, l, t) && o < Coverage(cfg, l) && t[Idx(cfg, l, o)].Leaf? && s >= 1
    ensures LeafAt(cfg, l, t, o) ==
            Some(LeafInfo(Base(cfg, l, o), cfg[l].span, t[Idx(cfg, l, o)].phys, t[Idx(cfg, l, o)].flags))
    ensures Lookup(cfg, l, t, o).Some? && ClearBlock(cfg, l, t, o, s) == FitBlock(cfg, l, o, s)
    ensures cfg[l].span <= s ==> FitBlock(cfg, l, o, s) == Block(Base(cfg, l, o), cfg[l].span)
  {
    assert WFEntry(cfg, l, t[Idx(cfg, l, o)]);
  }

  lemma TableHere(cfg: seq<Level>, l: nat, t: seq<Entry>, o: nat, s: nat, m: nat, sub: seq<Entry>)
    requires At(cfg, l) && WF(cfg, l, t) && o < Coverage(cfg, l) && s >= 1
    requires t[Idx(cfg, l, o)] == Table(sub) && m == l + 1 && At(cfg, m) && WF(cfg, m, sub)
    ensures Rem(cfg, l, o) < Coverage(cfg, m)
    ensures LeafAt(cfg, l, t, o) == Shift(LeafAt(cfg, m, sub, Rem(cfg, l, o)), Base(cfg, l, o))
    ensures Lookup(cfg, l, t, o) == Lookup(cfg, m, sub, Rem(cfg, l, o))
    ensures Lookup(cfg, l, t, o).Some? ==>
              var b := ClearBlock(cfg, m, sub, Rem(cfg, l, o), s);
              ClearBlock(cfg, l, t, o, s) == b.(start := b.start + Base(cfg, l, o))
  {
    SpanShrinks(cfg, l);
  }

  /** Splitting leaves the block that fits, found one level down. */
  lemma SplitHere(cfg: seq<Level>, l: nat, o: nat, s: nat, m: nat, sub: seq<Entry>)
    requires At(cfg, l) && o < Coverage(cfg, l) && s >= 1 && cfg[l].span > s
    requires m == l + 1 && At(cfg, m) && WF(cfg, m, sub) && Rem(cfg, l, o) < Coverage(cfg, m)
    requires Even(cfg, m, sub, 0, Coverage(cfg, m))
    ensures Lookup(cfg, m, sub, Rem(cfg, l, o)).Some?
    ensures var b := ClearBlock(cfg, m, sub, Rem(cfg, l, o), s);
            FitBlock(cfg, l, o, s) == b.(start := b.start + Base(cfg, l, o))
  {
    EvenFits(cfg, m, sub, Rem(cfg, l, o), s);
  }

  /** Where all pages are of the first size there is, the block to clear depends on the mode only. */
  lemma {:induction false} EvenFits(cfg: seq<Level>, l: nat, t: seq<Entry>, o: nat, s: nat)
    requires At(cfg, l) && WF(cfg, l, t) && o < Coverage(cfg, l) && s >= 1 && Even(cfg, l, t, 0, Coverage(cfg, l))
    ensures Lookup(cfg, l, t, o).Some? && ClearBlock(cfg, l, t, o, s) == FitBlock(cfg, l, o, s)
    decreases |cfg| - l
  {
    var i := Idx(cfg, l, o);
    assert SizeAt(cfg, l, t, o) == cfg[FirstTerminal(cfg, l)].span;
    assert WFEntry(cfg, l, t[i]);
    if t[i].Table? {
      EvenBelow(cfg, l, t, o, l + 1, t[i].sub);
      SpanShrinks(cfg, l);
      EvenFits(cfg, l + 1, t[i].sub, Rem(cfg, l, o), s);
    }
  }

  lemma EvenBelow(cfg: seq<Level>, l: nat, t: seq<Entry>, o: nat, m: nat, sub: seq<Entry>)
    requires At(cfg, l) && WF(cfg, l, t) && o < Coverage(cfg, l) && Even(cfg, l, t, 0, Coverage(cfg, l))
    requires m == l + 1 && At(cfg, m) && WF(cfg, m, sub) && t[Idx(cfg, l, o)] == Table(sub)
    ensures !cfg[l].terminal && Even(cfg, m, sub, 0, Coverage(cfg, m))
  {
    hide Lookup, LeafAt;
    SpanShrinks(cfg, l);
    assert SizeAt(cfg, l, t, o) == cfg[FirstTerminal(cfg, l)].span;
    LeafBelow(cfg, l, t, o, m, sub);
    forall b | 0 <= b < Coverage(cfg, m) ensures SizeAt(cfg, m, sub, b) == cfg[FirstTerminal(cfg, m)].span {
      var a := EntryStart(cfg, l, Idx(cfg, l, o), b);
      LeafBelow(cfg, l, t, a, m, sub);
      assert SizeAt(cfg, l, t, a) == cfg[FirstTerminal(cfg, l)].span;
    }
  }

  lemma ClearLeaf(cfg: seq<Level>, l: nat, t: seq<Entry>, u: seq<Entry>, o: nat)
    requires At(cfg, l) && WF(cfg, l, t) && WF(cfg, l, u) && o < Coverage(cfg, l)
    requires SameEntries(t, u, Idx(cfg, l, o)) && u[Idx(cfg, l, o)].Invalid?
    ensures ClearsLeaves(cfg, l, t, u, Base(cfg, l, o), cfg[l].span)
    ensures Clears(cfg, l, t, u, Base(cfg, l, o), cfg[l].span) && Shrunk(cfg, l, t, u)
  {
    hide LeafAt, Lookup, WFEntry, Rem, Coverage;
    forall a | 0 <= a < Coverage(cfg, l)
      ensures LeafAt(cfg, l, u, a) ==
              if Base(cfg, l, o) <= a < Base(cfg, l, o) + cfg[l].span then None else LeafAt(cfg, l, t, a)
    {
      SameEntry(cfg, l, a, o);
      if Idx(cfg, l, a) != Idx(cfg, l, o) {
        LeafSame(cfg, l, t, u, a);
      } else {
        NothingHere(cfg, l, u, a);
      }
    }
    LeavesGiveClears(cfg, l, t, u, Base(cfg, l, o), cfg[l].span);
  }

  lemma LeavesGiveClears(cfg: seq<Level>, l: nat, t: seq<Entry>, u: seq<Entry>, v: nat, s: nat)
    requires At(cfg, l) && WF(cfg, l, t) && WF(cfg, l, u) && ClearsLeaves(cfg, l, t, u, v, s)
    ensures Clears(cfg, l, t, u, v, s) && Shrunk(cfg, l, t, u)
  {
    hide Lookup;
    forall a | 0 <= a < Coverage(cfg, l)
      ensures Lookup(cfg, l, u, a) == if v <= a < v + s then None else Lookup(cfg, l, t, a)
    {
      assert LeafAt(cfg, l, u, a) == if v <= a < v + s then None else LeafAt(cfg, l, t, a);
    }
  }

  /** What clearing in the table below means here. */
  lemma LiftClears(cfg: seq<Level>, l: nat, t: seq<Entry>, u: seq<Entry>, o: nat,
                   m: nat, sub: seq<Entry>, sub': seq<Entry>, v: nat, s: nat)
    requires At(cfg, l) && WF(cfg, l, t) && WF(cfg, l, u) && o < Coverage(cfg, l)
    requires m == l + 1 && At(cfg, m) && WF(cfg, m, sub) && WF(cfg, m, sub')
    requires SameEntries(t, u, Idx(cfg, l, o))
    requires Stands(cfg, l, t, o, m, sub) && Stands(cfg, l, u, o, m, sub')
    requires v + s <= Coverage(cfg, m) && Clears(cfg, m, sub, sub', v, s)
    ensures Clears(cfg, l, t, u, Base(cfg, l, o) + v, s)
  {
    hide Lookup, LeafAt, SameOutside, Vacant, Stands, WFEntry;
    LiftOutside(cfg, l, t, u, o, m, sub, sub', v, s);
    LiftVacant(cfg, l, u, o, m, sub', v, s);
  }

  lemma LiftClearsLeaves(cfg: seq<Level>, l: nat, t: seq<Entry>, u: seq<Entry>, o: nat,
                         m: nat, sub: seq<Entry>, sub': seq<Entry>, v: nat, s: nat)
    requires At(cfg, l) && WF(cfg, l, t) && WF(cfg, l, u) && o < Coverage(cfg, l)
    requires m == l + 1 && At(cfg, m) && WF(cfg, m, sub) && WF(cfg, m, sub')
    requires SameEntries(t, u, Idx(cfg, l, o)) && t[Idx(cfg, l, o)] == Table(sub)
    requires u[Idx(cfg, l, o)] == Table(sub') || (u[Idx(cfg, l, o)].Invalid? && IsBlank(sub'))
    requires v + s <= Coverage(cfg, m) && ClearsLeaves(cfg, m, sub, sub', v, s)
    ensures ClearsLeaves(cfg, l, t, u, Base(cfg, l, o) + v, s)
  {
    hide Lookup, LeafAt, SameLeaves, Vacant, Stands, WFEntry;
    EntryStands(cfg, l, u, o, m, sub');
    LiftLeaves(cfg, l, t, u, o, m, sub, sub', v, s);
    LiftVacant(cfg, l, u, o, m, sub', v, s);
  }

  /** What one round of paging_destroy at o with s pages left does to the translation:
      it clears the block around o that fits; a page that fits goes as a whole. */
  ghost predicate StepClears(cfg: seq<Level>, l: nat, t: seq<Entry>, u: seq<Entry>, o: nat, s: nat, ok: bool, ps: nat)
    requires At(cfg, l) && WF(cfg, l, t) && WF(cfg, l, u) && o < Coverage(cfg, l) && s >= 1
  {
    && (ok || Gapless(cfg) ==> Shrunk(cfg, l, t, u))
    && (!ok && Gapless(cfg) ==> SameAll(cfg, l, t, u))
    && (ok && Lookup(cfg, l, t, o).Some? ==>
          var b := ClearBlock(cfg, l, t, o, s);
          ps == b.size && Clears(cfg, l, t, u, b.start, b.size))
    && (LeafAt(cfg, l, t, o).Some? && LeafAt(cfg, l, t, o).value.size <= s ==>
          var x := LeafAt(cfg, l, t, o).value;
          ok && ps == x.size && ClearsLeaves(cfg, l, t, u, x.start, x.size))
  }

  /** Clearing below a table, or below the table a split put there, clears here. */
  lemma LiftStepClears(cfg: seq<Level>, l: nat, t: seq<Entry>, u: seq<Entry>, o: nat, s: nat, ok: bool, ps: nat,
                       m: nat, sub: seq<Entry>, sub': seq<Entry>)
    requires At(cfg, l) && WF(cfg, l, t) && WF(cfg, l, u) && o < Coverage(cfg, l) && s >= 1
    requires m == l + 1 && At(cfg, m) && WF(cfg, m, sub) && WF(cfg, m, sub') && Rem(cfg, l, o) < Coverage(cfg, m)
    requires SameEntries(t, u, Idx(cfg, l, o)) && Stands(cfg, l, t, o, m, sub)
    requires u[Idx(cfg, l, o)] == Table(sub') || (u[Idx(cfg, l, o)].Invalid? && IsBlank(sub'))
    requires t[Idx(cfg, l, o)] == Table(sub) || (t[Idx(cfg, l, o)].Leaf? && cfg[l].span > s)
    requires t[Idx(cfg, l, o)].Leaf? ==> Even(cfg, m, sub, 0, Coverage(cfg, m))
    requires StepClears(cfg, m, sub, sub', Rem(cfg, l, o), s, ok, ps)
    ensures StepClears(cfg, l, t, u, o, s, ok, ps)
  {
    hide Lookup, LeafAt, ClearBlock, FitBlock, Maps, SameOutside, SameLeaves, SameAll, NewLeaf, Vacant, Shrunk;
    hide Covered, Populated, Stands, StepMaps, StepFresh, Clears, ClearsLeaves, Idx, Coverage, Tables, Even;
    hide Gapless, Rem, WFEntry, IsBlank;
    EntryStands(cfg, l, u, o, m, sub');
    if t[Idx(cfg, l, o)].Table? {
      TableHere(cfg, l, t, o, s, m, sub);
    } else {
      LeafHere(cfg, l, t, o, s);
      SplitHere(cfg, l, o, s, m, sub);
    }
    BlockInside(cfg, m, Rem(cfg, l, o));
    if ok || Gapless(cfg) {
      LiftShrunk(cfg, l, t, u, o, m, sub, sub');
    }
    if !ok && Gapless(cfg) {
      LiftSame(cfg, l, t, u, o, m, sub, sub');
    }
    if ok && Lookup(cfg, l, t, o).Some? {
      var b := ClearBlock(cfg, m, sub, Rem(cfg, l, o), s);
      LiftClears(cfg, l, t, u, o, m, sub, sub', b.start, b.size);
    }
    if LeafAt(cfg, l, t, o).Some? && LeafAt(cfg, l, t, o).value.size <= s {
      var x := LeafAt(cfg, m, sub, Rem(cfg, l, o)).value;
      LiftClearsLeaves(cfg, l, t, u, o, m, sub, sub', x.start, x.size);
    }
  }

  lemma StepClearsLeaf(cfg: seq<Level>, l: nat, t: seq<Entry>, u: seq<Entry>, o: nat, s: nat)
    requires At(cfg, l) && WF(cfg, l, t) && WF(cfg, l, u) && o < Coverage(cfg, l) && s >= 1
    requires SameEntries(t, u, Idx(cfg, l, o)) && u[Idx(cfg, l, o)].Invalid?
    requires t[Idx(cfg, l, o)].Leaf? && cfg[l].span <= s
    ensures StepClears(cfg, l, t, u, o, s, true, cfg[l].span)
  {
    hide Lookup, LeafAt, ClearBlock, FitBlock, Maps, SameOutside, SameLeaves, SameAll, NewLeaf, Vacant, Shrunk;
    hide Covered, Populated, Stands, StepMaps, StepFresh, Clears, ClearsLeaves, Idx, Coverage, Tables, Even;
    LeafHere(cfg, l, t, o, s);
    ClearLeaf(cfg, l, t, u, o);
  }

  /** Nothing found, or the split failed before it changed anything. */
  lemma StepClearsNothing(cfg: seq<Level>, l: nat, t: seq<Entry>, u: seq<Entry>, o: nat, s: nat, ok: bool, ps: nat)
    requires At(cfg, l) && WF(cfg, l, t) && WF(cfg, l, u) && o < Coverage(cfg, l) && s >= 1
    requires if ok then t[Idx(cfg, l, o)].Invalid? else t[Idx(cfg, l, o)].Leaf? && cfg[l].span > s
    requires ok || Gapless(cfg) ==> u == t
    ensures StepClears(cfg, l, t, u, o, s, ok, ps)
  {
    hide Lookup, LeafAt, ClearBlock, FitBlock, Maps, SameOutside, SameLeaves, SameAll, NewLeaf, Vacant, Shrunk;
    hide Covered, Populated, Stands, StepMaps, StepFresh, Clears, ClearsLeaves, Idx, Coverage, Tables, Even;
    Unchanged(cfg, l, t, 0, 0, 0);
    if ok {
      NothingHere(cfg, l, t, o);
    } else {
      LeafHere(cfg, l, t, o, s);
    }
  }

  /** Once the page before x is unmapped, the page mapped at x starts there. */
  lemma NextStart(cfg: seq<Level>, l: nat, t: seq<Entry>, x: nat, n: nat)
    requires At(cfg, l) && WF(cfg, l, t) && 0 < x < Coverage(cfg, l) && n >= 1
    requires Lookup(cfg, l, t, x - 1).None? && Lookup(cfg, l, t, x).Some?
    ensures ClearBlock(cfg, l, t, x, n).start == x
  {
    ClearBlockMapped(cfg, l, t, x, n);
  }

  lemma {:induction false} LeafConstant(cfg: seq<Level>, l: nat, t: seq<Entry>, a: nat, b: nat)
    requires At(cfg, l) && WF(cfg, l, t) && a < Coverage(cfg, l) && b < Coverage(cfg, l)
    requires LeafAt(cfg, l, t, a).Some?
    requires LeafAt(cfg, l, t, a).value.start <= b < LeafAt(cfg, l, t, a).value.start + LeafAt(cfg, l, t, a).value.size
    ensures LeafAt(cfg, l, t, b) == LeafAt(cfg, l, t, a)
    decreases |cfg| - l
  {
    hide Lookup;
    var i := Idx(cfg, l, a);
    SameEntry(cfg, l, b, a);
    SameEntry(cfg, l, a, b);
    assert WFEntry(cfg, l, t[i]);
    if t[i].Table? {
      SpanShrinks(cfg, l);
      LeafConstant(cfg, l + 1, t[i].sub, Rem(cfg, l, a), Rem(cfg, l, b));
    }
  }

  /** Where a covered range is not cleared yet, the next leaf starts. */
  lemma NextLeaf(cfg: seq<Level>, l: nat, t: seq<Entry>, t1: seq<Entry>, v: nat, s: nat, x: nat)
    requires At(cfg, l) && WF(cfg, l, t) && WF(cfg, l, t1) && v <= x < v + s <= Coverage(cfg, l)
    requires Covered(cfg, l, t, v, s) && ClearsLeaves(cfg, l, t, t1, v, x - v)
    ensures var y := LeafAt(cfg, l, t1, x); y.Some? && y.value.start == x && x + y.value.size <= v + s
  {
    var y := LeafAt(cfg, l, t, x);
    assert LeafAt(cfg, l, t1, x) == y && y.Some?;
    if y.value.start < x {
      LeafConstant(cfg, l, t1, x, x - 1);
      assert false;
    }
  }

  lemma ShrunkTwice(cfg: seq<Level>, l: nat, t: seq<Entry>, t1: seq<Entry>, t2: seq<Entry>)
    requires At(cfg, l) && WF(cfg, l, t) && WF(cfg, l, t1) && WF(cfg, l, t2)
    requires Shrunk(cfg, l, t, t1) && Shrunk(cfg, l, t1, t2)
    ensures Shrunk(cfg, l, t, t2)
  {
    hide Lookup;
  }

  lemma ShrunkAt(cfg: seq<Level>, l: nat, t: seq<Entry>, u: seq<Entry>, a: nat)
    requires At(cfg, l) && WF(cfg, l, t) && WF(cfg, l, u) && Shrunk(cfg, l, t, u) && a < Coverage(cfg, l)
    ensures Lookup(cfg, l, u, a) == Lookup(cfg, l, t, a) || Lookup(cfg, l, u, a).None?
  {
  }

  lemma ClearsAt(cfg: seq<Level>, l: nat, t: seq<Entry>, u: seq<Entry>, v: nat, s: nat, a: nat)
    requires At(cfg, l) && WF(cfg, l, t) && WF(cfg, l, u) && Clears(cfg, l, t, u, v, s) && a < Coverage(cfg, l)
    ensures Lookup(cfg, l, u, a) == if v <= a < v + s then None else Lookup(cfg, l, t, a)
  {
    assert LeafAt(cfg, l, u, a).None? || !(v <= a < v + s);
  }

  /** Clearing next to what is cleared already. */
  lemma JoinClears(cfg: seq<Level>, l: nat, t: seq<Entry>, t1: seq<Entry>, t2: seq<Entry>, v: nat, done: nat, ps: nat)
    requires At(cfg, l) && WF(cfg, l, t) && WF(cfg, l, t1) && WF(cfg, l, t2)
    requires Clears(cfg, l, t, t1, v, done) && Clears(cfg, l, t1, t2, v + done, ps)
    ensures Clears(cfg, l, t, t2, v, done + ps)
  {
    hide Lookup, LeafAt, Clears;
    forall a | 0 <= a < Coverage(cfg, l)
      ensures Lookup(cfg, l, t2, a) == if v <= a < v + done + ps then None else Lookup(cfg, l, t, a)
    {
      ClearsAt(cfg, l, t, t1, v, done, a);
      ClearsAt(cfg, l, t1, t2, v + done, ps, a);
    }
    ClearsFrom(cfg, l, t, t2, v, done + ps);
  }

  lemma ClearsFrom(cfg: seq<Level>, l: nat, t: seq<Entry>, u: seq<Entry>, v: nat, s: nat)
    requires At(cfg, l) && WF(cfg, l, t) && WF(cfg, l, u)
    requires forall a | 0 <= a < Coverage(cfg, l) ::
               Lookup(cfg, l, u, a) == if v <= a < v + s then None else Lookup(cfg, l, t, a)
    ensures Clears(cfg, l, t, u, v, s)
  {
    hide Lookup;
  }

  lemma JoinClearsLeaves(cfg: seq<Level>, l: nat, t: seq<Entry>, t1: seq<Entry>, t2: seq<Entry>,
                         v: nat, done: nat, ps: nat)
    requires At(cfg, l) && WF(cfg, l, t) && WF(cfg, l, t1) && WF(cfg, l, t2)
    requires ClearsLeaves(cfg, l, t, t1, v, done) && ClearsLeaves(cfg, l, t1, t2, v + done, ps)
    ensures ClearsLeaves(cfg, l, t, t2, v, done + ps)
  {
    hide Lookup, LeafAt;
  }

  lemma ClearsSame(cfg: seq<Level>, l: nat, t: seq<Entry>, t1: seq<Entry>, t2: seq<Entry>, v: nat, done: nat, s: nat)
    requires At(cfg, l) && WF(cfg, l, t) && WF(cfg, l, t1) && WF(cfg, l, t2) && done <= s
    requires Clears(cfg, l, t, t1, v, done) && SameAll(cfg, l, t1, t2)
    ensures SameOutside(cfg, l, t, t2, v, s)
  {
    hide Lookup;
  }

  lemma PopulatedAt(cfg: seq<Level>, l: nat, t: seq<Entry>, v: nat, s: nat, a: nat)
    requires At(cfg, l) && WF(cfg, l, t) && v <= a < v + s <= Coverage(cfg, l) && Populated(cfg, l, t, v, s)
    ensures Lookup(cfg, l, t, a).Some?
  {
  }
}
