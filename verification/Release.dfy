/** Releasing what a hugepage overwrites: paging_destroy over the block of one entry
    (hypervisor/paging.c, called from paging_create).  It strides over holes by the page size of
    the level at which it finds nothing, from wherever it stands, and so can step over mapped
    pages.  When it does is decided here on the tree before the release. */
module Release {
  import opened Common
  import opened Sets
  import opened PageTree
  import opened PagingSpec

  // ----- leaf by leaf, what one round of paging_destroy does -----

  /** How far a round advances over a hole: the page size of the level of the invalid entry. */
  function HoleSpan(cfg: seq<Level>, l: nat, t: seq<Entry>, x: nat): (r: nat)
    requires At(cfg, l) && WF(cfg, l, t) && x < Coverage(cfg, l)
    ensures r >= 1
    decreases |cfg| - l
  {
    var e := t[Idx(cfg, l, x)];
    if e.Table? then
      assert WFEntry(cfg, l, e);
      SpanShrinks(cfg, l);
      HoleSpan(cfg, l + 1, e.sub, Rem(cfg, l, x))
    else if cfg[l].terminal then cfg[l].span else 1
  }

  /** A hole changes no leaf; a mapped page changes no leaf but its own. */
  ghost predicate StepLeaves(cfg: seq<Level>, l: nat, t: seq<Entry>, u: seq<Entry>, o: nat, ok: bool, ps: nat)
    requires At(cfg, l) && WF(cfg, l, t) && WF(cfg, l, u) && o < Coverage(cfg, l)
  {
    var x := LeafAt(cfg, l, t, o);
    && (x.None? ==> ok && ps == HoleSpan(cfg, l, t, o) && SameLeaves(cfg, l, t, u, 0, 0))
    && (x.Some? && ok ==> SameLeaves(cfg, l, t, u, x.value.start, x.value.size))
  }

  lemma LiftStepLeaves(cfg: seq<Level>, l: nat, t: seq<Entry>, u: seq<Entry>, o: nat, ok: bool, ps: nat,
                       m: nat, sub: seq<Entry>, sub': seq<Entry>)
    requires At(cfg, l) && WF(cfg, l, t) && WF(cfg, l, u) && o < Coverage(cfg, l)
    requires m == l + 1 && At(cfg, m) && WF(cfg, m, sub) && WF(cfg, m, sub') && Rem(cfg, l, o) < Coverage(cfg, m)
    requires SameEntries(t, u, Idx(cfg, l, o))
    requires u[Idx(cfg, l, o)] == Table(sub') || (u[Idx(cfg, l, o)].Invalid? && IsBlank(sub'))
    requires t[Idx(cfg, l, o)] == Table(sub) || t[Idx(cfg, l, o)].Leaf?
    requires StepLeaves(cfg, m, sub, sub', Rem(cfg, l, o), ok, ps)
    ensures StepLeaves(cfg, l, t, u, o, ok, ps)
  {
    hide Lookup, LeafAt, SameLeaves, Coverage;
    if t[Idx(cfg, l, o)].Leaf? {
      LeafHere(cfg, l, t, o, 1);
      SameElsewhere(cfg, l, t, u, o);
    } else {
      LeafBelow(cfg, l, t, o, m, sub);
      var x := LeafAt(cfg, m, sub, Rem(cfg, l, o));
      if x.None? {
        LiftLeaves(cfg, l, t, u, o, m, sub, sub', 0, 0);
        SameEverywhere(cfg, l, t, u, Base(cfg, l, o));
      } else if ok {
        LiftLeaves(cfg, l, t, u, o, m, sub, sub', x.value.start, x.value.size);
      }
    }
  }

  lemma SameEverywhere(cfg: seq<Level>, l: nat, t: seq<Entry>, u: seq<Entry>, v: nat)
    requires At(cfg, l) && WF(cfg, l, t) && WF(cfg, l, u) && SameLeaves(cfg, l, t, u, v, 0)
    ensures SameLeaves(cfg, l, t, u, 0, 0)
  {
  }

  lemma SameElsewhere(cfg: seq<Level>, l: nat, t: seq<Entry>, u: seq<Entry>, o: nat)
    requires At(cfg, l) && WF(cfg, l, t) && WF(cfg, l, u) && o < Coverage(cfg, l) && SameEntries(t, u, Idx(cfg, l, o))
    ensures SameLeaves(cfg, l, t, u, Base(cfg, l, o), cfg[l].span)
  {
    hide Lookup, LeafAt, Coverage;
    forall a | 0 <= a < Coverage(cfg, l) && !(Base(cfg, l, o) <= a < Base(cfg, l, o) + cfg[l].span)
      ensures LeafAt(cfg, l, u, a) == LeafAt(cfg, l, t, a)
    {
      SameEntry(cfg, l, a, o);
      LeafSame(cfg, l, t, u, a);
    }
  }

  /** Nothing there, or a page that goes as a whole. */
  lemma StepLeavesHere(cfg: seq<Level>, l: nat, t: seq<Entry>, u: seq<Entry>, o: nat)
    requires At(cfg, l) && WF(cfg, l, t) && WF(cfg, l, u) && o < Coverage(cfg, l)
    requires (t[Idx(cfg, l, o)].Invalid? && u == t) || (t[Idx(cfg, l, o)].Leaf? && SameEntries(t, u, Idx(cfg, l, o)))
    ensures StepLeaves(cfg, l, t, u, o, true, if cfg[l].terminal then cfg[l].span else 1)
  {
    hide Lookup, LeafAt, Coverage;
    if t[Idx(cfg, l, o)].Invalid? {
      NothingHere(cfg, l, t, o);
    } else {
      LeafHere(cfg, l, t, o, 1);
      SameElsewhere(cfg, l, t, u, o);
    }
  }

  lemma StepLeavesFails(cfg: seq<Level>, l: nat, t: seq<Entry>, u: seq<Entry>, o: nat, ps: nat)
    requires At(cfg, l) && WF(cfg, l, t) && WF(cfg, l, u) && o < Coverage(cfg, l) && t[Idx(cfg, l, o)].Leaf?
    ensures StepLeaves(cfg, l, t, u, o, false, ps)
  {
  }

  // ----- the strides, on the tree as it was -----

  /** Where v lies in the table below that begins at b. */
  function Below(v: nat, b: nat): nat {
    if v > b then v - b else 0
  }

  /** Outside [v, x), nothing in the entry's block is mapped. */
  ghost predicate RestVacant(cfg: seq<Level>, l: nat, t: seq<Entry>, v: nat, x: nat)
    requires At(cfg, l) && WF(cfg, l, t) && x < Coverage(cfg, l)
  {
    forall a | 0 <= a < Coverage(cfg, l) && Idx(cfg, l, a) == Idx(cfg, l, x) && !(v <= a < x) ::
      LeafAt(cfg, l, t, a).None?
  }

  /** The stride over a hole at x once [v, x) is released: the page size of the first level whose
      block around x has nothing left. */
  ghost function Stride(cfg: seq<Level>, l: nat, t: seq<Entry>, v: nat, x: nat): (r: nat)
    requires At(cfg, l) && WF(cfg, l, t) && x < Coverage(cfg, l)
    ensures r >= 1
    decreases |cfg| - l
  {
    var e := t[Idx(cfg, l, x)];
    if e.Table? && !RestVacant(cfg, l, t, v, x) then
      assert WFEntry(cfg, l, e);
      SpanShrinks(cfg, l);
      Stride(cfg, l + 1, e.sub, Below(v, Base(cfg, l, x)), Rem(cfg, l, x))
    else if cfg[l].terminal then cfg[l].span else 1
  }

  lemma RestMapped(cfg: seq<Level>, l: nat, t: seq<Entry>, v: nat, x: nat, a: nat)
    requires At(cfg, l) && WF(cfg, l, t) && x < Coverage(cfg, l) && a < Coverage(cfg, l)
    requires Idx(cfg, l, a) == Idx(cfg, l, x) && !(v <= a < x) && LeafAt(cfg, l, t, a).Some?
    ensures !RestVacant(cfg, l, t, v, x)
  {
  }

  /** The last page of a block alone is left. */
  lemma LastVacant(cfg: seq<Level>, l: nat, t: seq<Entry>, v: nat, x: nat)
    requires At(cfg, l) && WF(cfg, l, t) && x < Coverage(cfg, l) && Rem(cfg, l, x) == cfg[l].span - 1
    requires v <= Base(cfg, l, x) && LeafAt(cfg, l, t, x).None?
    ensures RestVacant(cfg, l, t, v, x)
  {
    hide LeafAt, Lookup;
    forall a | 0 <= a < Coverage(cfg, l) && Idx(cfg, l, a) == Idx(cfg, l, x) && !(v <= a < x) ensures a == x {
      SameEntry(cfg, l, a, x);
    }
  }

  lemma StrideIs(cfg: seq<Level>, l: nat, t: seq<Entry>, v: nat, x: nat, m: nat, sub: seq<Entry>)
    requires At(cfg, l) && WF(cfg, l, t) && x < Coverage(cfg, l) && m == l + 1 && At(cfg, m) && WF(cfg, m, sub)
    requires t[Idx(cfg, l, x)] == Table(sub)
    ensures Rem(cfg, l, x) < Coverage(cfg, m)
    ensures Stride(cfg, l, t, v, x) ==
            if !RestVacant(cfg, l, t, v, x) then Stride(cfg, m, sub, Below(v, Base(cfg, l, x)), Rem(cfg, l, x))
            else if cfg[l].terminal then cfg[l].span else 1
  {
    hide RestVacant;
    SpanShrinks(cfg, l);
  }

  /** The stride from x: the page mapped there, or over the hole. */
  ghost function StepFrom(cfg: seq<Level>, l: nat, t: seq<Entry>, v: nat, x: nat): (r: nat)
    requires At(cfg, l) && WF(cfg, l, t) && x < Coverage(cfg, l)
    ensures r >= 1
  {
    if LeafAt(cfg, l, t, x).Some? then LeafAt(cfg, l, t, x).value.size else Stride(cfg, l, t, v, x)
  }

  /** The leaf at a ends beyond e. */
  ghost predicate EndsBeyond(cfg: seq<Level>, l: nat, t: seq<Entry>, a: nat, e: nat)
    requires At(cfg, l) && WF(cfg, l, t) && a < Coverage(cfg, l)
  {
    var x := LeafAt(cfg, l, t, a);
    x.Some? && x.value.start + x.value.size > e
  }

  /** No leaf crosses a border of [v, end). */
  ghost predicate Inside(cfg: seq<Level>, l: nat, t: seq<Entry>, v: nat, end: nat)
    requires At(cfg, l) && WF(cfg, l, t) && end <= Coverage(cfg, l)
  {
    forall a | v <= a < end ::
      LeafAt(cfg, l, t, a).Some? ==> v <= LeafAt(cfg, l, t, a).value.start && !EndsBeyond(cfg, l, t, a, end)
  }

  /** The stride from x steps over no whole page. */
  ghost predicate SkipsNone(cfg: seq<Level>, l: nat, t: seq<Entry>, v: nat, x: nat, end: nat)
    requires At(cfg, l) && WF(cfg, l, t) && x < end <= Coverage(cfg, l)
  {
    var x' := x + StepFrom(cfg, l, t, v, x);
    forall a | x <= a < end && a < x' ::
      || LeafAt(cfg, l, t, a) == LeafAt(cfg, l, t, x)
      || LeafAt(cfg, l, t, a).None?
      || EndsBeyond(cfg, l, t, a, x')
  }

  /** The page at x is met in its middle and larger than what is left. */
  ghost predicate CutAt(cfg: seq<Level>, l: nat, t: seq<Entry>, x: nat, end: nat)
    requires At(cfg, l) && WF(cfg, l, t) && x < end <= Coverage(cfg, l)
  {
    var y := LeafAt(cfg, l, t, x);
    y.Some? && y.value.start != x && x + y.value.size > end
  }

  /** Some page that begins or is met in [v, end) is larger than what is left from there. */
  ghost predicate CutLeft(cfg: seq<Level>, l: nat, t: seq<Entry>, v: nat, end: nat)
    requires At(cfg, l) && WF(cfg, l, t) && end <= Coverage(cfg, l)
  {
    exists x | v <= x < end :: SizeAt(cfg, l, t, x) > end - x
  }

  /** The strides of a request for [v, end), from x on, meet every page: none is stepped over or cut. */
  ghost predicate AllMet(cfg: seq<Level>, l: nat, t: seq<Entry>, v: nat, x: nat, end: nat)
    requires At(cfg, l) && WF(cfg, l, t) && end <= Coverage(cfg, l)
    decreases end - x
  {
    x < end ==>
      && !CutAt(cfg, l, t, x, end)
      && SkipsNone(cfg, l, t, v, x, end)
      && AllMet(cfg, l, t, v, x + StepFrom(cfg, l, t, v, x), end)
  }

  /** The strides come to a page that is cut, without stepping over one before. */
  ghost predicate Cuts(cfg: seq<Level>, l: nat, t: seq<Entry>, v: nat, x: nat, end: nat)
    requires At(cfg, l) && WF(cfg, l, t) && end <= Coverage(cfg, l)
    decreases end - x
  {
    x < end &&
      (|| CutAt(cfg, l, t, x, end)
       || (SkipsNone(cfg, l, t, v, x, end) && Cuts(cfg, l, t, v, x + StepFrom(cfg, l, t, v, x), end)))
  }

  // ----- the release against the strides -----

  /** Of [v, end), the leaves that end beyond x are still there, and no others. */
  ghost predicate OnTrack(cfg: seq<Level>, l: nat, t: seq<Entry>, u: seq<Entry>, v: nat, end: nat, x: nat)
    requires At(cfg, l) && WF(cfg, l, t) && WF(cfg, l, u) && v <= end <= Coverage(cfg, l)
  {
    forall a | v <= a < end ::
      LeafAt(cfg, l, u, a) == if EndsBeyond(cfg, l, t, a, x) then LeafAt(cfg, l, t, a) else None
  }

  /** A whole leaf lies behind x. */
  ghost predicate LeftBehind(cfg: seq<Level>, l: nat, u: seq<Entry>, v: nat, end: nat, x: nat)
    requires At(cfg, l) && WF(cfg, l, u) && v <= end <= Coverage(cfg, l)
  {
    exists a | v <= a < end :: LeafAt(cfg, l, u, a).Some? && !EndsBeyond(cfg, l, u, a, x)
  }

  /** The mapped pages of [v, end). */
  ghost function Mapped(cfg: seq<Level>, l: nat, u: seq<Entry>, v: nat, end: nat): set<nat>
    requires At(cfg, l) && WF(cfg, l, u) && v <= end <= Coverage(cfg, l)
  {
    set a: nat | v <= a < end && LeafAt(cfg, l, u, a).Some?
  }

  /** More pages are mapped than the release can still reach. */
  ghost predicate TooMany(cfg: seq<Level>, l: nat, u: seq<Entry>, v: nat, end: nat, x: nat)
    requires At(cfg, l) && WF(cfg, l, u) && v <= end <= Coverage(cfg, l)
  {
    |Mapped(cfg, l, u, v, end)| > (if x < end then end - x else 0)
  }

  /** The release of [v, end) has come to x: all went well so far, or something will stay. */
  ghost predicate Swept(cfg: seq<Level>, l: nat, t: seq<Entry>, u: seq<Entry>, v: nat, end: nat, x: nat)
    requires At(cfg, l) && WF(cfg, l, t) && WF(cfg, l, u) && v <= end <= Coverage(cfg, l)
  {
    && Inside(cfg, l, u, v, end) && SameLeaves(cfg, l, t, u, v, end - v)
    && (|| (OnTrack(cfg, l, t, u, v, end, x) && (AllMet(cfg, l, t, v, v, end) <==> AllMet(cfg, l, t, v, x, end)))
        || (!AllMet(cfg, l, t, v, v, end) && (LeftBehind(cfg, l, u, v, end, x) || TooMany(cfg, l, u, v, end, x))))
  }

  /** [v, end) is the block of one entry. */
  predicate EntryBlock(cfg: seq<Level>, l: nat, v: nat, end: nat)
    requires At(cfg, l)
  {
    v < Coverage(cfg, l) && Base(cfg, l, v) == v && end == v + cfg[l].span <= Coverage(cfg, l)
  }

  /** No leaf crosses the borders of an entry. */
  lemma BlockIsInside(cfg: seq<Level>, l: nat, t: seq<Entry>, v: nat, end: nat)
    requires At(cfg, l) && WF(cfg, l, t) && EntryBlock(cfg, l, v, end)
    ensures Inside(cfg, l, t, v, end)
  {
    hide LeafAt, Lookup;
    forall a | v <= a < end && LeafAt(cfg, l, t, a).Some?
      ensures v <= LeafAt(cfg, l, t, a).value.start && !EndsBeyond(cfg, l, t, a, end)
    {
      SameEntry(cfg, l, a, v);
      SameEntry(cfg, l, v, a);
    }
  }

  lemma SweepBegins(cfg: seq<Level>, l: nat, t: seq<Entry>, v: nat, end: nat)
    requires At(cfg, l) && WF(cfg, l, t) && v <= end <= Coverage(cfg, l) && Inside(cfg, l, t, v, end)
    ensures Swept(cfg, l, t, t, v, end, v) && OnTrack(cfg, l, t, t, v, end, v)
  {
    hide LeafAt, Inside, AllMet;
  }

  lemma SweepEnds(cfg: seq<Level>, l: nat, t: seq<Entry>, u: seq<Entry>, v: nat, end: nat, x: nat)
    requires At(cfg, l) && WF(cfg, l, t) && WF(cfg, l, u) && v <= end <= Coverage(cfg, l) && x >= end
    requires Inside(cfg, l, t, v, end) && Swept(cfg, l, t, u, v, end, x)
    ensures SameLeaves(cfg, l, t, u, v, end - v)
    ensures AllMet(cfg, l, t, v, v, end) <==> Vacant(cfg, l, u, v, end - v)
  {
    hide LeafAt, Lookup, Base;
    if OnTrack(cfg, l, t, u, v, end, x) && AllMet(cfg, l, t, v, v, end) {
      forall a | v <= a < end ensures LeafAt(cfg, l, u, a).None? {
        assert !EndsBeyond(cfg, l, t, a, end);
      }
    } else if TooMany(cfg, l, u, v, end, x) {
      var a :| a in Mapped(cfg, l, u, v, end);
      assert LeafAt(cfg, l, u, a).Some?;
    }
  }

  /** Once [v, x) is released from a pruned tree, the hole at x is found at the level that the stride
      tells. */
  lemma {:induction false} StrideFound(cfg: seq<Level>, l: nat, t: seq<Entry>, u: seq<Entry>, v: nat, x: nat)
    requires At(cfg, l) && WF(cfg, l, t) && WF(cfg, l, u) && x < Coverage(cfg, l) && Pruned(u)
    requires LeafAt(cfg, l, t, x).None? && AgreesBut(cfg, l, t, u, v, x)
    ensures HoleSpan(cfg, l, u, x) == Stride(cfg, l, t, v, x)
    decreases |cfg| - l
  {
    hide LeafAt, Lookup, Coverage;
    var i := Idx(cfg, l, x);
    BlockInside(cfg, l, x);
    assert LeafAt(cfg, l, u, x).None?;
    assert WFEntry(cfg, l, t[i]) && WFEntry(cfg, l, u[i]) && PrunedEntry(u[i]);
    Unmapped(cfg, l, t, x);
    Unmapped(cfg, l, u, x);
    if u[i].Table? {
      TableNotVacant(cfg, l, t, u, v, x);
      var m := l + 1;
      SpanShrinks(cfg, l);
      LeafBelow(cfg, l, t, x, m, t[i].sub);
      AgreesBelow(cfg, l, t, u, v, x, m, t[i].sub, u[i].sub);
      StrideFound(cfg, m, t[i].sub, u[i].sub, Below(v, Base(cfg, l, x)), Rem(cfg, l, x));
    } else {
      InvalidVacant(cfg, l, t, u, v, x);
    }
  }

  /** In the block of x, u has the leaves of t but for [v, x), where it has none. */
  ghost predicate AgreesBut(cfg: seq<Level>, l: nat, t: seq<Entry>, u: seq<Entry>, v: nat, x: nat)
    requires At(cfg, l) && WF(cfg, l, t) && WF(cfg, l, u) && x < Coverage(cfg, l)
  {
    forall a | 0 <= a < Coverage(cfg, l) && Idx(cfg, l, a) == Idx(cfg, l, x) ::
      LeafAt(cfg, l, u, a) == if v <= a < x then None else LeafAt(cfg, l, t, a)
  }

  lemma Unmapped(cfg: seq<Level>, l: nat, t: seq<Entry>, x: nat)
    requires At(cfg, l) && WF(cfg, l, t) && x < Coverage(cfg, l) && LeafAt(cfg, l, t, x).None?
    ensures !t[Idx(cfg, l, x)].Leaf?
  {
  }

  lemma TableNotVacant(cfg: seq<Level>, l: nat, t: seq<Entry>, u: seq<Entry>, v: nat, x: nat)
    requires At(cfg, l) && WF(cfg, l, t) && WF(cfg, l, u) && x < Coverage(cfg, l) && Pruned(u)
    requires LeafAt(cfg, l, t, x).None? && AgreesBut(cfg, l, t, u, v, x) && u[Idx(cfg, l, x)].Table?
    ensures t[Idx(cfg, l, x)].Table? && !RestVacant(cfg, l, t, v, x)
  {
    hide LeafAt, Lookup, Coverage;
    TableMaps(cfg, l, u, x);
    var a :| Base(cfg, l, x) <= a < Base(cfg, l, x) + cfg[l].span && a < Coverage(cfg, l) && LeafAt(cfg, l, u, a).Some?;
    SameEntry(cfg, l, a, x);
    assert LeafAt(cfg, l, t, a).Some? && !(v <= a < x);
    Unmapped(cfg, l, t, x);
    if t[Idx(cfg, l, x)].Invalid? {
      NothingHere(cfg, l, t, a);
    }
  }

  lemma InvalidVacant(cfg: seq<Level>, l: nat, t: seq<Entry>, u: seq<Entry>, v: nat, x: nat)
    requires At(cfg, l) && WF(cfg, l, t) && WF(cfg, l, u) && x < Coverage(cfg, l)
    requires AgreesBut(cfg, l, t, u, v, x) && u[Idx(cfg, l, x)].Invalid?
    ensures RestVacant(cfg, l, t, v, x)
  {
    hide LeafAt, Lookup, Coverage;
    forall a | 0 <= a < Coverage(cfg, l) && Idx(cfg, l, a) == Idx(cfg, l, x) && !(v <= a < x)
      ensures LeafAt(cfg, l, t, a).None?
    {
      NothingHere(cfg, l, u, a);
    }
  }

  lemma AgreesBelow(cfg: seq<Level>, l: nat, t: seq<Entry>, u: seq<Entry>, v: nat, x: nat,
                    m: nat, sub: seq<Entry>, sub': seq<Entry>)
    requires At(cfg, l) && WF(cfg, l, t) && WF(cfg, l, u) && x < Coverage(cfg, l) && AgreesBut(cfg, l, t, u, v, x)
    requires m == l + 1 && At(cfg, m) && WF(cfg, m, sub) && WF(cfg, m, sub') && Rem(cfg, l, x) < Coverage(cfg, m)
    requires t[Idx(cfg, l, x)] == Table(sub) && u[Idx(cfg, l, x)] == Table(sub')
    ensures AgreesBut(cfg, m, sub, sub', Below(v, Base(cfg, l, x)), Rem(cfg, l, x))
  {
    hide LeafAt, Lookup, Idx, Rem;
    SpanShrinks(cfg, l);
    forall b | 0 <= b < Coverage(cfg, m)
      ensures LeafAt(cfg, m, sub', b) ==
              if Below(v, Base(cfg, l, x)) <= b < Rem(cfg, l, x) then None else LeafAt(cfg, m, sub, b)
    {
      var a := EntryStart(cfg, l, Idx(cfg, l, x), b);
      SameEntry(cfg, l, a, x);
      LeafBelow(cfg, l, t, a, m, sub);
      LeafBelow(cfg, l, u, a, m, sub');
    }
  }

  // ----- one round keeps the account -----

  /** On track, the leaf at x is the old one. */
  lemma TrackAt(cfg: seq<Level>, l: nat, t: seq<Entry>, u: seq<Entry>, v: nat, end: nat, x: nat)
    requires At(cfg, l) && WF(cfg, l, t) && WF(cfg, l, u) && v <= x < end <= Coverage(cfg, l)
    requires OnTrack(cfg, l, t, u, v, end, x)
    ensures LeafAt(cfg, l, u, x) == LeafAt(cfg, l, t, x)
  {
  }

  /** A leaf on the way from x that the next stride does not step over ends beyond it. */
  lemma NextTrack(cfg: seq<Level>, l: nat, t: seq<Entry>, v: nat, end: nat, x: nat, a: nat)
    requires At(cfg, l) && WF(cfg, l, t) && v <= x < end <= Coverage(cfg, l) && v <= a < end
    requires LeafAt(cfg, l, t, a) != LeafAt(cfg, l, t, x) && EndsBeyond(cfg, l, t, a, x)
    requires SkipsNone(cfg, l, t, v, x, end)
    ensures EndsBeyond(cfg, l, t, a, x + StepFrom(cfg, l, t, v, x))
  {
    hide Lookup, LeafAt, StepFrom;
    if a < x {
      LeafConstant(cfg, l, t, a, x);
    }
  }

  lemma TrackStep(cfg: seq<Level>, l: nat, t: seq<Entry>, u: seq<Entry>, u': seq<Entry>, v: nat, end: nat, x: nat)
    requires At(cfg, l) && WF(cfg, l, t) && WF(cfg, l, u) && WF(cfg, l, u') && v <= x < end <= Coverage(cfg, l)
    requires OnTrack(cfg, l, t, u, v, end, x)
    requires var y := LeafAt(cfg, l, t, x);
      if y.Some? then ClearsLeaves(cfg, l, u, u', y.value.start, y.value.size) else SameLeaves(cfg, l, u, u', 0, 0)
    ensures SkipsNone(cfg, l, t, v, x, end) ==> OnTrack(cfg, l, t, u', v, end, x + StepFrom(cfg, l, t, v, x))
    ensures !SkipsNone(cfg, l, t, v, x, end) ==> LeftBehind(cfg, l, u', v, end, x + StepFrom(cfg, l, t, v, x))
  {
    hide Lookup, LeafAt;
    var y, x' := LeafAt(cfg, l, t, x), x + StepFrom(cfg, l, t, v, x);
    forall a | v <= a < end
      ensures LeafAt(cfg, l, u', a) ==
              if EndsBeyond(cfg, l, t, a, x) && LeafAt(cfg, l, t, a) != y then LeafAt(cfg, l, t, a) else None
    {
      if y.Some? {
        InLeaf(cfg, l, t, x, a);
      }
    }
    if SkipsNone(cfg, l, t, v, x, end) {
      hide StepFrom, SkipsNone;
      forall a | v <= a < end
        ensures LeafAt(cfg, l, u', a) == if EndsBeyond(cfg, l, t, a, x') then LeafAt(cfg, l, t, a) else None
      {
        TrackLeaf(cfg, l, t, v, end, x, a);
      }
    } else {
      var a :| x <= a < end && a < x' && LeafAt(cfg, l, t, a) != y && LeafAt(cfg, l, t, a).Some?
        && !EndsBeyond(cfg, l, t, a, x');
      assert LeafAt(cfg, l, u', a) == LeafAt(cfg, l, t, a);
    }
  }

  /** a lies in the leaf at x exactly if both have the same leaf. */
  lemma InLeaf(cfg: seq<Level>, l: nat, t: seq<Entry>, x: nat, a: nat)
    requires At(cfg, l) && WF(cfg, l, t) && x < Coverage(cfg, l) && a < Coverage(cfg, l) && LeafAt(cfg, l, t, x).Some?
    ensures var y := LeafAt(cfg, l, t, x).value;
      y.start <= a < y.start + y.size <==> LeafAt(cfg, l, t, a) == LeafAt(cfg, l, t, x)
  {
    hide Lookup, LeafAt;
    var y := LeafAt(cfg, l, t, x).value;
    if y.start <= a < y.start + y.size {
      LeafConstant(cfg, l, t, x, a);
    }
  }

  lemma TrackLeaf(cfg: seq<Level>, l: nat, t: seq<Entry>, v: nat, end: nat, x: nat, a: nat)
    requires At(cfg, l) && WF(cfg, l, t) && v <= x < end <= Coverage(cfg, l) && v <= a < end
    requires SkipsNone(cfg, l, t, v, x, end)
    ensures EndsBeyond(cfg, l, t, a, x) && LeafAt(cfg, l, t, a) != LeafAt(cfg, l, t, x) <==>
            EndsBeyond(cfg, l, t, a, x + StepFrom(cfg, l, t, v, x))
  {
    hide Lookup, LeafAt, SkipsNone;
    if EndsBeyond(cfg, l, t, a, x) && LeafAt(cfg, l, t, a) != LeafAt(cfg, l, t, x) {
      NextTrack(cfg, l, t, v, end, x, a);
    }
  }

  lemma BehindStep(cfg: seq<Level>, l: nat, u: seq<Entry>, u': seq<Entry>, v: nat, end: nat, x: nat, ps: nat)
    requires At(cfg, l) && WF(cfg, l, u) && WF(cfg, l, u') && v <= x < end <= Coverage(cfg, l)
    requires LeftBehind(cfg, l, u, v, end, x) && StepLeaves(cfg, l, u, u', x, true, ps)
    ensures LeftBehind(cfg, l, u', v, end, x + ps)
  {
    hide Lookup, LeafAt, HoleSpan;
    var a :| v <= a < end && LeafAt(cfg, l, u, a).Some? && !EndsBeyond(cfg, l, u, a, x);
    if LeafAt(cfg, l, u, x).Some? {
      InLeaf(cfg, l, u, x, a);
    }
    assert LeafAt(cfg, l, u', a) == LeafAt(cfg, l, u, a);
  }

  ghost function PagesFrom(a: nat, b: nat): (t: set<nat>)
    requires a <= b
    ensures forall c: nat :: c in t <==> a <= c < b
    ensures |t| == b - a
    decreases b - a
  {
    if a == b then {} else PagesFrom(a, b - 1) + {b - 1}
  }

  /** Clearing mapped pages takes just them from the count. */
  lemma MappedStep(cfg: seq<Level>, l: nat, u: seq<Entry>, u': seq<Entry>, v: nat, end: nat, b: nat, z: nat)
    requires At(cfg, l) && WF(cfg, l, u) && WF(cfg, l, u') && v <= b && b + z <= end <= Coverage(cfg, l)
    requires Clears(cfg, l, u, u', b, z) && forall a | b <= a < b + z :: Lookup(cfg, l, u, a).Some?
    ensures |Mapped(cfg, l, u', v, end)| == |Mapped(cfg, l, u, v, end)| - z
  {
    hide Lookup, LeafAt;
    var cleared := PagesFrom(b, b + z);
    forall a | v <= a < end
      ensures LeafAt(cfg, l, u', a).Some? <==> LeafAt(cfg, l, u, a).Some? && !(b <= a < b + z)
    {
      ClearsAt(cfg, l, u, u', b, z, a);
    }
    forall a | b <= a < b + z ensures LeafAt(cfg, l, u, a).Some? {
      assert Lookup(cfg, l, u, a).Some?;
    }
    assert Mapped(cfg, l, u', v, end) == Mapped(cfg, l, u, v, end) - cleared;
    assert cleared <= Mapped(cfg, l, u, v, end);
  }

  lemma LeafMapped(cfg: seq<Level>, l: nat, u: seq<Entry>, v: nat, end: nat, x: nat)
    requires At(cfg, l) && WF(cfg, l, u) && v <= x < end <= Coverage(cfg, l) && Inside(cfg, l, u, v, end)
    requires LeafAt(cfg, l, u, x).Some?
    ensures |Mapped(cfg, l, u, v, end)| >= LeafAt(cfg, l, u, x).value.size
  {
    hide Lookup, LeafAt;
    var y := LeafAt(cfg, l, u, x).value;
    var pages := PagesFrom(y.start, y.start + y.size);
    forall a | a in pages ensures a in Mapped(cfg, l, u, v, end) {
      InLeaf(cfg, l, u, x, a);
    }
    Cardinality(pages, Mapped(cfg, l, u, v, end));
  }

  /** The block to clear lies in the leaf it is found in. */
  lemma {:induction false} ClearInLeaf(cfg: seq<Level>, l: nat, t: seq<Entry>, o: nat, s: nat)
    requires At(cfg, l) && WF(cfg, l, t) && o < Coverage(cfg, l) && s >= 1 && LeafAt(cfg, l, t, o).Some?
    ensures var b, y := ClearBlock(cfg, l, t, o, s), LeafAt(cfg, l, t, o).value;
      y.start <= b.start && b.start + b.size <= y.start + y.size
    decreases |cfg| - l
  {
    var e := t[Idx(cfg, l, o)];
    assert WFEntry(cfg, l, e);
    if e.Table? {
      SpanShrinks(cfg, l);
      ClearInLeaf(cfg, l + 1, e.sub, Rem(cfg, l, o), s);
    }
  }

  lemma TooManyStep(cfg: seq<Level>, l: nat, u: seq<Entry>, u': seq<Entry>, v: nat, end: nat, x: nat, ps: nat)
    requires At(cfg, l) && WF(cfg, l, u) && WF(cfg, l, u') && v <= x < end <= Coverage(cfg, l)
    requires Inside(cfg, l, u, v, end) && |Mapped(cfg, l, u, v, end)| > end - x
    requires StepLeaves(cfg, l, u, u', x, true, ps) && StepClears(cfg, l, u, u', x, end - x, true, ps)
    ensures TooMany(cfg, l, u', v, end, x + ps)
  {
    hide Lookup, LeafAt, HoleSpan, ClearBlock, Clears, Base;
    if LeafAt(cfg, l, u, x).None? {
      assert Mapped(cfg, l, u', v, end) == Mapped(cfg, l, u, v, end);
    } else {
      var b := ClearBlock(cfg, l, u, x, end - x);
      ClearInLeaf(cfg, l, u, x, end - x);
      ClearBlockMapped(cfg, l, u, x, end - x);
      MappedStep(cfg, l, u, u', v, end, b.start, b.size);
    }
  }

  /** A round stays inside, whatever it splits, and changes no leaf outside. */
  lemma InsideStep(cfg: seq<Level>, l: nat, t: seq<Entry>, u: seq<Entry>, u': seq<Entry>, v: nat, end: nat, x: nat,
                   ps: nat)
    requires At(cfg, l) && WF(cfg, l, t) && WF(cfg, l, u) && WF(cfg, l, u') && v <= x < end <= Coverage(cfg, l)
    requires Inside(cfg, l, u, v, end) && SameLeaves(cfg, l, t, u, v, end - v) && StepLeaves(cfg, l, u, u', x, true, ps)
    ensures Inside(cfg, l, u', v, end) && SameLeaves(cfg, l, t, u', v, end - v)
  {
    hide Lookup, LeafAt, HoleSpan;
    var y := LeafAt(cfg, l, u, x);
    forall a | v <= a < end && LeafAt(cfg, l, u', a).Some?
      ensures v <= LeafAt(cfg, l, u', a).value.start && !EndsBeyond(cfg, l, u', a, end)
    {
      if LeafAt(cfg, l, u', a) != LeafAt(cfg, l, u, a) {
        SplitInside(cfg, l, u, u', x, ps, a);
      }
    }
  }

  /** New leaves lie inside the leaf that was split. */
  lemma SplitInside(cfg: seq<Level>, l: nat, u: seq<Entry>, u': seq<Entry>, x: nat, ps: nat, a: nat)
    requires At(cfg, l) && WF(cfg, l, u) && WF(cfg, l, u') && x < Coverage(cfg, l) && a < Coverage(cfg, l)
    requires StepLeaves(cfg, l, u, u', x, true, ps)
    requires LeafAt(cfg, l, u', a).Some? && LeafAt(cfg, l, u', a) != LeafAt(cfg, l, u, a)
    ensures LeafAt(cfg, l, u, x).Some?
    ensures var y, w := LeafAt(cfg, l, u, x).value, LeafAt(cfg, l, u', a).value;
      y.start <= w.start && w.start + w.size <= y.start + y.size
  {
    hide Lookup, LeafAt, HoleSpan;
    assert LeafAt(cfg, l, u, x).Some?;
    var y, w := LeafAt(cfg, l, u, x).value, LeafAt(cfg, l, u', a).value;
    BlockInside(cfg, l, a);
    if w.start < y.start {
      SplitOutside(cfg, l, u, u', x, ps, a, w.start);
    }
    if w.start + w.size > y.start + y.size {
      SplitOutside(cfg, l, u, u', x, ps, a, w.start + w.size - 1);
    }
  }

  lemma SplitOutside(cfg: seq<Level>, l: nat, u: seq<Entry>, u': seq<Entry>, x: nat, ps: nat, a: nat, b: nat)
    requires At(cfg, l) && WF(cfg, l, u) && WF(cfg, l, u') && x < Coverage(cfg, l) && a < Coverage(cfg, l)
    requires b < Coverage(cfg, l)
    requires StepLeaves(cfg, l, u, u', x, true, ps) && LeafAt(cfg, l, u, x).Some? && LeafAt(cfg, l, u', a).Some?
    requires var w := LeafAt(cfg, l, u', a).value; w.start <= b < w.start + w.size
    requires var y := LeafAt(cfg, l, u, x).value; !(y.start <= b < y.start + y.size)
    ensures LeafAt(cfg, l, u', a) == LeafAt(cfg, l, u, a)
  {
    hide Lookup, LeafAt, HoleSpan;
    InLeaf(cfg, l, u', a, b);
    assert LeafAt(cfg, l, u, b) == LeafAt(cfg, l, u', b);
    InLeaf(cfg, l, u, b, a);
  }

  /** Every round keeps the account of the release. */
  lemma SweepStep(cfg: seq<Level>, l: nat, t: seq<Entry>, u: seq<Entry>, u': seq<Entry>, v: nat, end: nat, x: nat,
                  ps: nat)
    requires At(cfg, l) && WF(cfg, l, t) && WF(cfg, l, u) && WF(cfg, l, u') && Pruned(u)
    requires v <= x < end <= Coverage(cfg, l) && Inside(cfg, l, t, v, end) && Swept(cfg, l, t, u, v, end, x)
    requires StepLeaves(cfg, l, u, u', x, true, ps) && StepClears(cfg, l, u, u', x, end - x, true, ps)
    ensures Swept(cfg, l, t, u', v, end, x + ps)
    ensures OnTrack(cfg, l, t, u, v, end, x) && !CutAt(cfg, l, t, x, end) && SkipsNone(cfg, l, t, v, x, end) ==>
              ps == StepFrom(cfg, l, t, v, x) && OnTrack(cfg, l, t, u', v, end, x + ps)
  {
    hide Lookup, LeafAt, HoleSpan, ClearBlock, Clears, Base, OnTrack, LeftBehind, SkipsNone, Mapped, Inside, SameLeaves;
    InsideStep(cfg, l, t, u, u', v, end, x, ps);
    if OnTrack(cfg, l, t, u, v, end, x) {
      TrackAt(cfg, l, t, u, v, end, x);
      if CutAt(cfg, l, t, x, end) {
        LeafMapped(cfg, l, u, v, end, x);
        TooManyStep(cfg, l, u, u', v, end, x, ps);
      } else {
        UncutFits(cfg, l, t, v, end, x);
        if LeafAt(cfg, l, t, x).None? {
          TrackAgrees(cfg, l, t, u, v, end, x);
          StrideFound(cfg, l, t, u, v, x);
        }
        TrackStep(cfg, l, t, u, u', v, end, x);
      }
    }
    if LeftBehind(cfg, l, u, v, end, x) {
      BehindStep(cfg, l, u, u', v, end, x, ps);
    }
    if TooMany(cfg, l, u, v, end, x) {
      TooManyStep(cfg, l, u, u', v, end, x, ps);
    }
  }

  lemma UncutFits(cfg: seq<Level>, l: nat, t: seq<Entry>, v: nat, end: nat, x: nat)
    requires At(cfg, l) && WF(cfg, l, t) && v <= x < end <= Coverage(cfg, l) && Inside(cfg, l, t, v, end)
    ensures LeafAt(cfg, l, t, x).Some? ==> (CutAt(cfg, l, t, x, end) <==> LeafAt(cfg, l, t, x).value.size > end - x)
  {
  }

  lemma TrackAgrees(cfg: seq<Level>, l: nat, t: seq<Entry>, u: seq<Entry>, v: nat, end: nat, x: nat)
    requires At(cfg, l) && WF(cfg, l, t) && WF(cfg, l, u) && v <= x < end <= Coverage(cfg, l)
    requires OnTrack(cfg, l, t, u, v, end, x) && SameLeaves(cfg, l, t, u, v, end - v) && LeafAt(cfg, l, t, x).None?
    ensures AgreesBut(cfg, l, t, u, v, x)
  {
    hide Lookup, LeafAt;
    forall a | 0 <= a < Coverage(cfg, l) && Idx(cfg, l, a) == Idx(cfg, l, x)
      ensures LeafAt(cfg, l, u, a) == if v <= a < x then None else LeafAt(cfg, l, t, a)
    {
      if v <= a < end && LeafAt(cfg, l, t, a).Some? {
        InLeaf(cfg, l, t, a, x);
      }
    }
  }

  /** The release fails only over a page it met in the middle. */
  lemma SweepFails(cfg: seq<Level>, l: nat, t: seq<Entry>, u: seq<Entry>, u': seq<Entry>, v: nat, end: nat, x: nat,
                   ps: nat)
    requires At(cfg, l) && WF(cfg, l, t) && WF(cfg, l, u) && WF(cfg, l, u')
    requires v <= x < end <= Coverage(cfg, l) && Inside(cfg, l, t, v, end) && Swept(cfg, l, t, u, v, end, x)
    requires StepLeaves(cfg, l, u, u', x, false, ps) && StepClears(cfg, l, u, u', x, end - x, false, ps)
    ensures !AllMet(cfg, l, t, v, v, end)
  {
    hide Lookup, LeafAt, HoleSpan, ClearBlock, Clears, Base, OnTrack, LeftBehind, SkipsNone, Mapped, Inside, SameLeaves;
    if OnTrack(cfg, l, t, u, v, end, x) {
      TrackAt(cfg, l, t, u, v, end, x);
      UncutFits(cfg, l, t, v, end, x);
    }
  }

  // ----- when all pages are met -----

  /** A range mapped all over is met page by page. */
  lemma {:induction false} FullMet(cfg: seq<Level>, l: nat, t: seq<Entry>, v: nat, end: nat, x: nat)
    requires At(cfg, l) && WF(cfg, l, t) && v <= x <= end <= Coverage(cfg, l) && Inside(cfg, l, t, v, end)
    requires forall a | v <= a < end :: LeafAt(cfg, l, t, a).Some?
    requires x < end ==> LeafAt(cfg, l, t, x).value.start == x
    ensures AllMet(cfg, l, t, v, x, end)
    decreases end - x
  {
    hide Lookup, LeafAt, Base;
    if x < end {
      var x' := x + StepFrom(cfg, l, t, v, x);
      forall a | x <= a < x' ensures a < end && LeafAt(cfg, l, t, a) == LeafAt(cfg, l, t, x) {
        InLeaf(cfg, l, t, x, a);
      }
      if x' < end {
        InLeaf(cfg, l, t, x', x);
        InLeaf(cfg, l, t, x, x');
        InLeaf(cfg, l, t, x', x' - 1);
      }
      FullMet(cfg, l, t, v, end, x');
    }
  }

  /** So is a range where nothing is mapped. */
  lemma {:induction false} VacantMet(cfg: seq<Level>, l: nat, t: seq<Entry>, v: nat, x: nat, end: nat)
    requires At(cfg, l) && WF(cfg, l, t) && end <= Coverage(cfg, l)
    requires forall a | x <= a < end :: LeafAt(cfg, l, t, a).None?
    ensures AllMet(cfg, l, t, v, x, end)
    decreases end - x
  {
    hide Lookup, LeafAt;
    if x < end {
      VacantMet(cfg, l, t, v, x + StepFrom(cfg, l, t, v, x), end);
    }
  }

  // ----- without a page to spare -----

  /** On track, towards a page that will be cut. */
  ghost predicate Cutting(cfg: seq<Level>, l: nat, t: seq<Entry>, u: seq<Entry>, v: nat, end: nat, x: nat)
    requires At(cfg, l) && WF(cfg, l, t) && WF(cfg, l, u) && v <= end <= Coverage(cfg, l)
  {
    OnTrack(cfg, l, t, u, v, end, x) && Cuts(cfg, l, t, v, x, end)
  }

  /** A round that succeeds without splitting goes on towards it. */
  lemma CuttingStep(cfg: seq<Level>, l: nat, t: seq<Entry>, u: seq<Entry>, u': seq<Entry>, v: nat, end: nat, x: nat,
                    ps: nat)
    requires At(cfg, l) && WF(cfg, l, t) && WF(cfg, l, u) && WF(cfg, l, u') && Pruned(u)
    requires v <= x < end <= Coverage(cfg, l) && Inside(cfg, l, t, v, end) && Swept(cfg, l, t, u, v, end, x)
    requires Cutting(cfg, l, t, u, v, end, x)
    requires StepLeaves(cfg, l, u, u', x, true, ps) && StepClears(cfg, l, u, u', x, end - x, true, ps)
    requires LeafAt(cfg, l, u, x).Some? ==> LeafAt(cfg, l, u, x).value.size <= end - x
    ensures x + ps < end && Cutting(cfg, l, t, u', v, end, x + ps)
  {
    hide Lookup, LeafAt, HoleSpan, OnTrack, SkipsNone, Inside, SameLeaves, Swept, StepLeaves, StepClears;
    TrackAt(cfg, l, t, u, v, end, x);
    UncutFits(cfg, l, t, v, end, x);
    assert !CutAt(cfg, l, t, x, end);
    assert Cuts(cfg, l, t, v, x + StepFrom(cfg, l, t, v, x), end);
    SweepStep(cfg, l, t, u, u', v, end, x, ps);
  }

  // ----- a whole call of paging_destroy -----

  /** Every page of the range is mapped and the first block to clear begins where the range does. */
  ghost predicate Exact(cfg: seq<Level>, l: nat, t: seq<Entry>, v: nat, s: nat)
    requires At(cfg, l) && WF(cfg, l, t) && v + s <= Coverage(cfg, l)
  {
    Populated(cfg, l, t, v, s) && (s == 0 || ClearBlock(cfg, l, t, v, s).start == v)
  }

  /** Every page of the range is mapped and the first block to clear begins earlier. */
  ghost predicate Misaligned(cfg: seq<Level>, l: nat, t: seq<Entry>, v: nat, s: nat)
    requires At(cfg, l) && WF(cfg, l, t) && v + s <= Coverage(cfg, l)
  {
    Populated(cfg, l, t, v, s) && s > 0 && ClearBlock(cfg, l, t, v, s).start < v
  }

  /** The request has the size of the page it begins in. */
  ghost predicate Single(cfg: seq<Level>, l: nat, t: seq<Entry>, v: nat, s: nat)
    requires At(cfg, l) && WF(cfg, l, t) && v + s <= Coverage(cfg, l)
  {
    s >= 1 && LeafAt(cfg, l, t, v).Some? && LeafAt(cfg, l, t, v).value.size == s
  }

  /** The request cuts no page of a pruned tree. */
  ghost predicate Sweeps(cfg: seq<Level>, l: nat, t: seq<Entry>, v: nat, s: nat)
    requires At(cfg, l) && WF(cfg, l, t) && v + s <= Coverage(cfg, l)
  {
    Pruned(t) && Inside(cfg, l, t, v, v + s)
  }

  /** What a call has done when it has come to x. */
  ghost predicate Clearing(cfg: seq<Level>, l: nat, t: seq<Entry>, u: seq<Entry>, v: nat, s: nat, x: nat)
    requires At(cfg, l) && WF(cfg, l, t) && WF(cfg, l, u) && v + s <= Coverage(cfg, l) && v <= x
  {
    && Shrunk(cfg, l, t, u)
    && (Exact(cfg, l, t, v, s) ==> x <= v + s && Clears(cfg, l, t, u, v, x - v))
    && (Misaligned(cfg, l, t, v, s) && x > v ==> Lookup(cfg, l, u, v - 1).None?)
    && (Covered(cfg, l, t, v, s) ==> x <= v + s && ClearsLeaves(cfg, l, t, u, v, x - v))
    && (Single(cfg, l, t, v, s) && x > v ==>
          x == v + s && ClearsLeaves(cfg, l, t, u, LeafAt(cfg, l, t, v).value.start, s))
    && (Sweeps(cfg, l, t, v, s) ==> Swept(cfg, l, t, u, v, v + s, x))
  }

  lemma ClearingBegins(cfg: seq<Level>, l: nat, t: seq<Entry>, v: nat, s: nat)
    requires At(cfg, l) && WF(cfg, l, t) && v + s <= Coverage(cfg, l)
    ensures Clearing(cfg, l, t, t, v, s, v)
  {
    hide Lookup, LeafAt, Shrunk, Exact, Misaligned, Covered, Single, Swept, Clears, ClearsLeaves, Inside;
    Unchanged(cfg, l, t, v, 0, 0);
    if Sweeps(cfg, l, t, v, s) {
      SweepBegins(cfg, l, t, v, v + s);
    }
  }

  lemma ExactStep(cfg: seq<Level>, l: nat, t: seq<Entry>, u: seq<Entry>, u': seq<Entry>, v: nat, s: nat, x: nat,
                  ps: nat)
    requires At(cfg, l) && WF(cfg, l, t) && WF(cfg, l, u) && WF(cfg, l, u') && v <= x < v + s <= Coverage(cfg, l)
    requires Exact(cfg, l, t, v, s) && Clears(cfg, l, t, u, v, x - v) && (x == v ==> u == t)
    requires StepClears(cfg, l, u, u', x, v + s - x, true, ps)
    ensures x + ps <= v + s && Clears(cfg, l, t, u', v, x + ps - v)
  {
    hide Lookup, LeafAt, Clears, Populated, ClearBlock;
    PopulatedAt(cfg, l, t, v, s, x);
    if x > v {
      ClearsAt(cfg, l, t, u, v, x - v, x);
      ClearsAt(cfg, l, t, u, v, x - v, x - 1);
      NextStart(cfg, l, u, x, v + s - x);
    }
    JoinClears(cfg, l, t, u, u', v, x - v, ps);
  }

  lemma MisalignedStep(cfg: seq<Level>, l: nat, t: seq<Entry>, u: seq<Entry>, u': seq<Entry>, v: nat, s: nat, x: nat,
                       ps: nat)
    requires At(cfg, l) && WF(cfg, l, t) && WF(cfg, l, u) && WF(cfg, l, u') && v <= x < v + s <= Coverage(cfg, l)
    requires Misaligned(cfg, l, t, v, s) && (if x == v then u == t else Lookup(cfg, l, u, v - 1).None?)
    requires StepClears(cfg, l, u, u', x, v + s - x, true, ps)
    ensures Lookup(cfg, l, u', v - 1).None?
  {
    hide Lookup, LeafAt, Clears, Populated, ClearBlock, Shrunk;
    if x == v {
      PopulatedAt(cfg, l, t, v, s, v);
      ClearsAt(cfg, l, t, u', ClearBlock(cfg, l, t, v, s).start, ps, v - 1);
    } else {
      ShrunkAt(cfg, l, u, u', v - 1);
    }
  }

  lemma CoveredStep(cfg: seq<Level>, l: nat, t: seq<Entry>, u: seq<Entry>, u': seq<Entry>, v: nat, s: nat, x: nat,
                    ok: bool, ps: nat)
    requires At(cfg, l) && WF(cfg, l, t) && WF(cfg, l, u) && WF(cfg, l, u') && v <= x < v + s <= Coverage(cfg, l)
    requires Covered(cfg, l, t, v, s) && ClearsLeaves(cfg, l, t, u, v, x - v)
    requires StepClears(cfg, l, u, u', x, v + s - x, ok, ps)
    ensures ok && x + ps <= v + s && ClearsLeaves(cfg, l, t, u', v, x + ps - v)
  {
    hide Lookup, LeafAt, ClearsLeaves, Covered, ClearBlock, Clears, Shrunk;
    NextLeaf(cfg, l, t, u, v, s, x);
    JoinClearsLeaves(cfg, l, t, u, u', v, x - v, ps);
  }

  /** A round that succeeds takes the account on. */
  lemma ClearingStep(cfg: seq<Level>, l: nat, t: seq<Entry>, u: seq<Entry>, u': seq<Entry>, v: nat, s: nat, x: nat,
                     ps: nat)
    requires At(cfg, l) && WF(cfg, l, t) && WF(cfg, l, u) && WF(cfg, l, u') && v <= x < v + s <= Coverage(cfg, l)
    requires Clearing(cfg, l, t, u, v, s, x) && (x == v ==> u == t) && (Pruned(t) ==> Pruned(u)) && ps >= 1
    requires StepClears(cfg, l, u, u', x, v + s - x, true, ps) && StepLeaves(cfg, l, u, u', x, true, ps)
    ensures Clearing(cfg, l, t, u', v, s, x + ps)
  {
    hide Lookup, LeafAt, Shrunk, Exact, Misaligned, Covered, Swept;
    hide Clears, ClearsLeaves, ClearBlock, StepLeaves, Inside, Pruned;
    ShrunkTwice(cfg, l, t, u, u');
    if Exact(cfg, l, t, v, s) {
      ExactStep(cfg, l, t, u, u', v, s, x, ps);
    }
    if Misaligned(cfg, l, t, v, s) {
      MisalignedStep(cfg, l, t, u, u', v, s, x, ps);
    }
    if Covered(cfg, l, t, v, s) {
      CoveredStep(cfg, l, t, u, u', v, s, x, true, ps);
    }
    if Sweeps(cfg, l, t, v, s) {
      SweepStep(cfg, l, t, u, u', v, v + s, x, ps);
    }
  }

  /** A round that fails: nothing but the range changed, if the mode has no gaps; and the request was
      neither a covered one, nor a single page, nor a block whose pages are all met. */
  lemma ClearingFails(cfg: seq<Level>, l: nat, t: seq<Entry>, u: seq<Entry>, u': seq<Entry>, v: nat, s: nat, x: nat,
                      ps: nat)
    requires At(cfg, l) && WF(cfg, l, t) && WF(cfg, l, u) && WF(cfg, l, u') && v <= x < v + s <= Coverage(cfg, l)
    requires Clearing(cfg, l, t, u, v, s, x) && (x == v ==> u == t)
    requires StepClears(cfg, l, u, u', x, v + s - x, false, ps) && StepLeaves(cfg, l, u, u', x, false, ps)
    ensures Gapless(cfg) ==> Shrunk(cfg, l, t, u') && (Exact(cfg, l, t, v, s) ==> SameOutside(cfg, l, t, u', v, s))
    ensures !Covered(cfg, l, t, v, s) && !Single(cfg, l, t, v, s)
    ensures Sweeps(cfg, l, t, v, s) ==> !AllMet(cfg, l, t, v, v, v + s)
  {
    hide Lookup, LeafAt, Shrunk, Exact, Misaligned, Covered, Swept;
    hide Clears, ClearsLeaves, ClearBlock, StepLeaves, Inside;
    hide Pruned, SameAll, Gapless, SameOutside;
    if Gapless(cfg) {
      ShrunkTwice(cfg, l, t, u, u');
      if Exact(cfg, l, t, v, s) {
        ClearsSame(cfg, l, t, u, u', v, x - v, s);
      }
    }
    if Covered(cfg, l, t, v, s) {
      CoveredStep(cfg, l, t, u, u', v, s, x, false, ps);
    }
    if Sweeps(cfg, l, t, v, s) {
      SweepFails(cfg, l, t, u, u', v, v + s, x, ps);
    }
  }

  lemma ClearingEnds(cfg: seq<Level>, l: nat, t: seq<Entry>, u: seq<Entry>, v: nat, s: nat, x: nat)
    requires At(cfg, l) && WF(cfg, l, t) && WF(cfg, l, u) && v + s <= Coverage(cfg, l) && v + s <= x
    requires Clearing(cfg, l, t, u, v, s, x) && (x == v ==> u == t)
    ensures Shrunk(cfg, l, t, u) && (Exact(cfg, l, t, v, s) ==> Clears(cfg, l, t, u, v, s))
    ensures Misaligned(cfg, l, t, v, s) ==> Lookup(cfg, l, t, v - 1).Some? && Lookup(cfg, l, u, v - 1).None?
    ensures Covered(cfg, l, t, v, s) ==> ClearsLeaves(cfg, l, t, u, v, s)
    ensures Single(cfg, l, t, v, s) ==> ClearsLeaves(cfg, l, t, u, LeafAt(cfg, l, t, v).value.start, s)
    ensures Sweeps(cfg, l, t, v, s) ==> SameLeaves(cfg, l, t, u, v, s)
    ensures Sweeps(cfg, l, t, v, s) ==> (AllMet(cfg, l, t, v, v, v + s) <==> Vacant(cfg, l, u, v, s))
  {
    hide Lookup, LeafAt, Shrunk, Exact, Covered, Swept, Clears;
    hide ClearsLeaves, ClearBlock, Inside, Pruned, AllMet, Vacant;
    if Misaligned(cfg, l, t, v, s) {
      ClearBlockMapped(cfg, l, t, v, s);
    }
    if Sweeps(cfg, l, t, v, s) {
      SweepEnds(cfg, l, t, u, v, v + s, x);
    }
  }

  /** No page to spare, and a page ahead that will be cut. */
  ghost predicate Starving(cfg: seq<Level>, l: nat, t: seq<Entry>, u: seq<Entry>, free: nat, v: nat, s: nat, x: nat)
    requires At(cfg, l) && WF(cfg, l, t) && WF(cfg, l, u) && v + s <= Coverage(cfg, l)
  {
    Sweeps(cfg, l, t, v, s) && free + Tables(t) == 0 && Cuts(cfg, l, t, v, v, v + s) ==>
      x < v + s && Cutting(cfg, l, t, u, v, v + s, x)
  }

  lemma StarvingBegins(cfg: seq<Level>, l: nat, t: seq<Entry>, free: nat, v: nat, s: nat)
    requires At(cfg, l) && WF(cfg, l, t) && v + s <= Coverage(cfg, l)
    ensures Starving(cfg, l, t, t, free, v, s, v)
  {
    hide LeafAt, Inside, OnTrack, Swept;
    if Sweeps(cfg, l, t, v, s) {
      SweepBegins(cfg, l, t, v, v + s);
    }
  }

  lemma StarvingStep(cfg: seq<Level>, l: nat, t: seq<Entry>, u: seq<Entry>, u': seq<Entry>, free: nat, v: nat, s: nat,
                     x: nat, ps: nat)
    requires At(cfg, l) && WF(cfg, l, t) && WF(cfg, l, u) && WF(cfg, l, u') && v <= x < v + s <= Coverage(cfg, l)
    requires Clearing(cfg, l, t, u, v, s, x) && Starving(cfg, l, t, u, free, v, s, x) && (Pruned(t) ==> Pruned(u))
    requires StepClears(cfg, l, u, u', x, v + s - x, true, ps) && StepLeaves(cfg, l, u, u', x, true, ps)
    requires free + Tables(t) == 0 ==> SizeAt(cfg, l, u, x) <= v + s - x
    ensures Starving(cfg, l, t, u', free, v, s, x + ps)
  {
    hide Lookup, LeafAt, Shrunk, Exact, Misaligned, Covered, Single;
    hide Swept, Clears, ClearsLeaves, StepLeaves, StepClears;
    hide Pruned, Inside, Cutting, Cuts, Tables;
    if Sweeps(cfg, l, t, v, s) && free + Tables(t) == 0 && Cuts(cfg, l, t, v, v, v + s) {
      CuttingStep(cfg, l, t, u, u', v, v + s, x, ps);
    }
  }

  lemma StarvingEnds(cfg: seq<Level>, l: nat, t: seq<Entry>, u: seq<Entry>, free: nat, v: nat, s: nat, x: nat)
    requires At(cfg, l) && WF(cfg, l, t) && WF(cfg, l, u) && v + s <= Coverage(cfg, l) && x >= v + s
    requires Starving(cfg, l, t, u, free, v, s, x)
    ensures !(Sweeps(cfg, l, t, v, s) && free + Tables(t) == 0 && Cuts(cfg, l, t, v, v, v + s))
  {
  }
}
