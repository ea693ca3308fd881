/** Mapping over what is mapped already (hypervisor/paging.c, paging_create): what one round does, and
    whether the pages of the tables it overwrites all come back. */
module Overwrite {
  import opened Common
  import opened Arith
  import opened PageTree
  import opened PagingSpec
  import opened Release

  /** Everything in [v, v + s), as far as the table goes, is mapped. */
  ghost predicate Full(cfg: seq<Level>, l: nat, t: seq<Entry>, v: nat, s: nat)
    requires At(cfg, l) && WF(cfg, l, t)
  {
    forall a | v <= a < v + s && a < Coverage(cfg, l) :: LeafAt(cfg, l, t, a).Some?
  }

  /** What the page set by one round of paging_create overwrites is released completely. */
  ghost predicate CleanOver(cfg: seq<Level>, l: nat, t: seq<Entry>, o: nat, p: nat, s: nat)
    requires At(cfg, l) && WF(cfg, l, t) && o < Coverage(cfg, l)
    decreases |cfg| - l
  {
    var e := t[Idx(cfg, l, o)];
    if PageFits(cfg, l, o, p, s) then
      BlockInside(cfg, l, o);
      AllMet(cfg, l, t, o, o, o + cfg[l].span)
    else if e.Table? then
      assert WFEntry(cfg, l, e);
      SpanShrinks(cfg, l);
      CleanOver(cfg, l + 1, e.sub, Rem(cfg, l, o), p, s)
    else true
  }

  /** Ranges that are mapped all over, or not at all, are overwritten cleanly. */
  lemma {:induction false} UniformClean(cfg: seq<Level>, l: nat, t: seq<Entry>, o: nat, p: nat, s: nat)
    requires At(cfg, l) && WF(cfg, l, t) && o < Coverage(cfg, l) && (Full(cfg, l, t, o, s) || Vacant(cfg, l, t, o, s))
    ensures CleanOver(cfg, l, t, o, p, s)
    decreases |cfg| - l
  {
    hide LeafAt, Lookup;
    var e := t[Idx(cfg, l, o)];
    assert WFEntry(cfg, l, e);
    BlockInside(cfg, l, o);
    if PageFits(cfg, l, o, p, s) {
      if Full(cfg, l, t, o, s) {
        BlockIsInside(cfg, l, t, o, o + cfg[l].span);
        FullMet(cfg, l, t, o, o + cfg[l].span, o);
      } else {
        VacantMet(cfg, l, t, o, o, o + cfg[l].span);
      }
    } else if e.Table? {
      var m, r := l + 1, Rem(cfg, l, o);
      SpanShrinks(cfg, l);
      if Full(cfg, l, t, o, s) {
        FullBelow(cfg, l, t, o, s, m, e.sub);
      } else {
        VacantBelow(cfg, l, t, o, s, m, e.sub);
      }
      UniformClean(cfg, m, e.sub, r, p, s);
    }
  }

  lemma FullBelow(cfg: seq<Level>, l: nat, t: seq<Entry>, o: nat, s: nat, m: nat, sub: seq<Entry>)
    requires At(cfg, l) && WF(cfg, l, t) && o < Coverage(cfg, l) && m == l + 1 && At(cfg, m) && WF(cfg, m, sub)
    requires t[Idx(cfg, l, o)] == Table(sub) && Full(cfg, l, t, o, s)
    ensures Full(cfg, m, sub, Rem(cfg, l, o), s)
  {
    hide LeafAt, Lookup;
    SpanShrinks(cfg, l);
    BlockInside(cfg, l, o);
    forall b | Rem(cfg, l, o) <= b < Rem(cfg, l, o) + s && b < Coverage(cfg, m) ensures LeafAt(cfg, m, sub, b).Some? {
      var a := Base(cfg, l, o) + b;
      SameEntry(cfg, l, a, o);
      LeafBelow(cfg, l, t, a, m, sub);
      assert LeafAt(cfg, l, t, a).Some?;
    }
  }

  // ----- the round only looks ahead -----

  /** The size of the page that one round sets. */
  function PageSize(cfg: seq<Level>, l: nat, o: nat, p: nat, s: nat): (r: nat)
    requires At(cfg, l) && s >= 1
    ensures 1 <= r <= s
    decreases |cfg| - l
  {
    NotLast(cfg, l);
    if PageFits(cfg, l, o, p, s) || l + 1 == |cfg| then cfg[l].span
    else PageSize(cfg, l + 1, Rem(cfg, l, o), p, s)
  }

  /** From x on, u has the leaves of t, but for the rest of a page that began before: that may be split. */
  ghost predicate Ahead(cfg: seq<Level>, l: nat, t: seq<Entry>, u: seq<Entry>, x: nat)
    requires At(cfg, l) && WF(cfg, l, t) && WF(cfg, l, u)
  {
    forall a | x <= a < Coverage(cfg, l) :: AheadAt(cfg, l, t, u, x, a)
  }

  ghost predicate AheadAt(cfg: seq<Level>, l: nat, t: seq<Entry>, u: seq<Entry>, x: nat, a: nat)
    requires At(cfg, l) && WF(cfg, l, t) && WF(cfg, l, u) && a < Coverage(cfg, l)
  {
    var y, z := LeafAt(cfg, l, t, a), LeafAt(cfg, l, u, a);
    if y.Some? && y.value.start < x then z.Some? else z == y
  }

  /** What a round that sets ps pages at o does to the leaves behind them. */
  ghost predicate StepAhead(cfg: seq<Level>, l: nat, t: seq<Entry>, u: seq<Entry>, o: nat, ps: nat)
    requires At(cfg, l) && WF(cfg, l, t) && WF(cfg, l, u)
  {
    forall a | o + ps <= a < Coverage(cfg, l) :: StepAheadAt(cfg, l, t, u, o, a)
  }

  ghost predicate StepAheadAt(cfg: seq<Level>, l: nat, t: seq<Entry>, u: seq<Entry>, o: nat, a: nat)
    requires At(cfg, l) && WF(cfg, l, t) && WF(cfg, l, u) && a < Coverage(cfg, l)
  {
    var y, z := LeafAt(cfg, l, t, a), LeafAt(cfg, l, u, a);
    z == y || (y.Some? && y.value.start <= o && z.Some?)
  }

  lemma AheadNext(cfg: seq<Level>, l: nat, t: seq<Entry>, u: seq<Entry>, u': seq<Entry>, x: nat, ps: nat)
    requires At(cfg, l) && WF(cfg, l, t) && WF(cfg, l, u) && WF(cfg, l, u') && ps >= 1
    requires Ahead(cfg, l, t, u, x) && StepAhead(cfg, l, u, u', x, ps)
    ensures Ahead(cfg, l, t, u', x + ps)
  {
    hide LeafAt, Lookup, Coverage;
    var x' := x + ps;
    forall a | x' <= a < Coverage(cfg, l) ensures AheadAt(cfg, l, t, u', x', a) {
      assert AheadAt(cfg, l, t, u, x, a) && StepAheadAt(cfg, l, u, u', x, a);
    }
  }

  lemma AheadBegins(cfg: seq<Level>, l: nat, t: seq<Entry>, x: nat)
    requires At(cfg, l) && WF(cfg, l, t)
    ensures Ahead(cfg, l, t, t, x)
  {
    hide LeafAt;
  }

  lemma PageAhead(cfg: seq<Level>, l: nat, t: seq<Entry>, u: seq<Entry>, o: nat)
    requires At(cfg, l) && WF(cfg, l, t) && WF(cfg, l, u) && o < Coverage(cfg, l) && o % cfg[l].span == 0
    requires SameEntries(t, u, Idx(cfg, l, o))
    ensures StepAhead(cfg, l, t, u, o, cfg[l].span)
  {
    hide LeafAt, Lookup, Coverage;
    SameElsewhere(cfg, l, t, u, o);
  }

  // ----- the strides depend on the leaves only -----

  /** In the block of x, both trees have the same leaves. */
  ghost predicate AgreesAround(cfg: seq<Level>, l: nat, t: seq<Entry>, u: seq<Entry>, x: nat)
    requires At(cfg, l) && WF(cfg, l, t) && WF(cfg, l, u) && x < Coverage(cfg, l)
  {
    forall a | 0 <= a < Coverage(cfg, l) && Idx(cfg, l, a) == Idx(cfg, l, x) ::
      LeafAt(cfg, l, u, a) == LeafAt(cfg, l, t, a)
  }

  lemma {:induction false} StrideSame(cfg: seq<Level>, l: nat, t: seq<Entry>, u: seq<Entry>, v: nat, x: nat)
    requires At(cfg, l) && WF(cfg, l, t) && WF(cfg, l, u) && x < Coverage(cfg, l)
    requires AgreesAround(cfg, l, t, u, x) && LeafAt(cfg, l, t, x).None?
    ensures Stride(cfg, l, u, v, x) == Stride(cfg, l, t, v, x)
    decreases |cfg| - l
  {
    hide LeafAt, Lookup, Coverage;
    assert LeafAt(cfg, l, u, x).None?;
    if !RestVacant(cfg, l, t, v, x) {
      RestIsTable(cfg, l, t, v, x);
      assert !RestVacant(cfg, l, u, v, x);
      RestIsTable(cfg, l, u, v, x);
      var sub, sub' := t[Idx(cfg, l, x)].sub, u[Idx(cfg, l, x)].sub;
      AroundBelow(cfg, l, t, u, x, l + 1, sub, sub');
      LeafBelow(cfg, l, t, x, l + 1, sub);
      StrideSame(cfg, l + 1, sub, sub', Below(v, Base(cfg, l, x)), Rem(cfg, l, x));
    } else {
      assert RestVacant(cfg, l, u, v, x);
    }
  }

  lemma RestIsTable(cfg: seq<Level>, l: nat, t: seq<Entry>, v: nat, x: nat)
    requires At(cfg, l) && WF(cfg, l, t) && x < Coverage(cfg, l)
    requires !RestVacant(cfg, l, t, v, x) && LeafAt(cfg, l, t, x).None?
    ensures t[Idx(cfg, l, x)].Table? && l + 1 < |cfg| && WF(cfg, l + 1, t[Idx(cfg, l, x)].sub)
    ensures Rem(cfg, l, x) < Coverage(cfg, l + 1)
  {
    hide LeafAt, Lookup;
    Unmapped(cfg, l, t, x);
    var a :| 0 <= a < Coverage(cfg, l) && Idx(cfg, l, a) == Idx(cfg, l, x) && LeafAt(cfg, l, t, a).Some?;
    if t[Idx(cfg, l, x)].Invalid? {
      NothingHere(cfg, l, t, a);
    }
    assert WFEntry(cfg, l, t[Idx(cfg, l, x)]);
    SpanShrinks(cfg, l);
  }

  lemma AroundBelow(cfg: seq<Level>, l: nat, t: seq<Entry>, u: seq<Entry>, x: nat,
                    m: nat, sub: seq<Entry>, sub': seq<Entry>)
    requires At(cfg, l) && WF(cfg, l, t) && WF(cfg, l, u) && x < Coverage(cfg, l) && AgreesAround(cfg, l, t, u, x)
    requires m == l + 1 && At(cfg, m) && WF(cfg, m, sub) && WF(cfg, m, sub') && Rem(cfg, l, x) < Coverage(cfg, m)
    requires t[Idx(cfg, l, x)] == Table(sub) && u[Idx(cfg, l, x)] == Table(sub')
    ensures AgreesAround(cfg, m, sub, sub', Rem(cfg, l, x))
  {
    hide LeafAt, Lookup, Idx, Rem;
    SpanShrinks(cfg, l);
    forall b | 0 <= b < Coverage(cfg, m) ensures LeafAt(cfg, m, sub', b) == LeafAt(cfg, m, sub, b) {
      var a := EntryStart(cfg, l, Idx(cfg, l, x), b);
      LeafBelow(cfg, l, t, a, m, sub);
      LeafBelow(cfg, l, u, a, m, sub');
      assert LeafAt(cfg, l, u, a) == LeafAt(cfg, l, t, a);
    }
  }

  lemma {:induction false} AllMetSame(cfg: seq<Level>, l: nat, t: seq<Entry>, u: seq<Entry>, v: nat, x: nat, end: nat)
    requires At(cfg, l) && WF(cfg, l, t) && WF(cfg, l, u) && EntryBlock(cfg, l, v, end) && v <= x
    requires forall a | v <= a < end :: LeafAt(cfg, l, u, a) == LeafAt(cfg, l, t, a)
    ensures AllMet(cfg, l, u, v, x, end) <==> AllMet(cfg, l, t, v, x, end)
    decreases end - x
  {
    hide LeafAt, Lookup, StepFrom, CutAt, SkipsNone;
    if x < end {
      StepSame(cfg, l, t, u, v, x, end);
      SkipsSame(cfg, l, t, u, v, x, end);
      AllMetSame(cfg, l, t, u, v, x + StepFrom(cfg, l, t, v, x), end);
    }
  }

  lemma StepSame(cfg: seq<Level>, l: nat, t: seq<Entry>, u: seq<Entry>, v: nat, x: nat, end: nat)
    requires At(cfg, l) && WF(cfg, l, t) && WF(cfg, l, u) && EntryBlock(cfg, l, v, end) && v <= x < end
    requires forall a | v <= a < end :: LeafAt(cfg, l, u, a) == LeafAt(cfg, l, t, a)
    ensures StepFrom(cfg, l, u, v, x) == StepFrom(cfg, l, t, v, x)
  {
    hide LeafAt, Lookup, Stride;
    if LeafAt(cfg, l, t, x).None? {
      forall a | 0 <= a < Coverage(cfg, l) && Idx(cfg, l, a) == Idx(cfg, l, x) ensures v <= a < end {
        SameEntry(cfg, l, x, v);
        SameEntry(cfg, l, a, v);
      }
      StrideSame(cfg, l, t, u, v, x);
    }
  }

  lemma SkipsSame(cfg: seq<Level>, l: nat, t: seq<Entry>, u: seq<Entry>, v: nat, x: nat, end: nat)
    requires At(cfg, l) && WF(cfg, l, t) && WF(cfg, l, u) && v <= x < end <= Coverage(cfg, l)
    requires forall a | v <= a < end :: LeafAt(cfg, l, u, a) == LeafAt(cfg, l, t, a)
    requires StepFrom(cfg, l, u, v, x) == StepFrom(cfg, l, t, v, x)
    ensures CutAt(cfg, l, u, x, end) == CutAt(cfg, l, t, x, end)
    ensures SkipsNone(cfg, l, u, v, x, end) == SkipsNone(cfg, l, t, v, x, end)
  {
    hide LeafAt, Lookup, StepFrom;
  }

  // ----- clean rounds, told from the tree before the call -----

  /** In the block of o, from o on, all is mapped or nothing is. */
  ghost predicate UniformFrom(cfg: seq<Level>, l: nat, t: seq<Entry>, o: nat)
    requires At(cfg, l) && WF(cfg, l, t) && o < Coverage(cfg, l)
  {
    forall a | o <= a < Coverage(cfg, l) && Idx(cfg, l, a) == Idx(cfg, l, o) ::
      LeafAt(cfg, l, t, a).Some? == LeafAt(cfg, l, t, o).Some?
  }

  lemma UniformEntry(cfg: seq<Level>, l: nat, t: seq<Entry>, o: nat, p: nat, s: nat)
    requires At(cfg, l) && WF(cfg, l, t) && o < Coverage(cfg, l) && !PageFits(cfg, l, o, p, s)
    requires UniformFrom(cfg, l, t, o)
    ensures CleanOver(cfg, l, t, o, p, s)
  {
    hide LeafAt, Lookup, Coverage;
    var e := t[Idx(cfg, l, o)];
    if e.Table? {
      assert WFEntry(cfg, l, e);
      var m, r := l + 1, Rem(cfg, l, o);
      SpanShrinks(cfg, l);
      forall b | r <= b < Coverage(cfg, m) ensures LeafAt(cfg, m, e.sub, b).Some? == LeafAt(cfg, l, t, o).Some? {
        var a := EntryStart(cfg, l, Idx(cfg, l, o), b);
        SameEntry(cfg, l, a, o);
        LeafBelow(cfg, l, t, a, m, e.sub);
      }
      assert Full(cfg, m, e.sub, r, s) || Vacant(cfg, m, e.sub, r, s);
      UniformClean(cfg, m, e.sub, r, p, s);
    }
  }

  lemma NoTableUniform(cfg: seq<Level>, l: nat, t: seq<Entry>, o: nat)
    requires At(cfg, l) && WF(cfg, l, t) && o < Coverage(cfg, l) && !t[Idx(cfg, l, o)].Table?
    ensures UniformFrom(cfg, l, t, o)
  {
  }

  lemma UniformAhead(cfg: seq<Level>, l: nat, t: seq<Entry>, u: seq<Entry>, o: nat)
    requires At(cfg, l) && WF(cfg, l, t) && WF(cfg, l, u) && o < Coverage(cfg, l) && Ahead(cfg, l, t, u, o)
    ensures UniformFrom(cfg, l, t, o) <==> UniformFrom(cfg, l, u, o)
  {
    hide LeafAt, Lookup, Idx;
    forall a | o <= a < Coverage(cfg, l) ensures LeafAt(cfg, l, t, a).Some? == LeafAt(cfg, l, u, a).Some? {
      assert AheadAt(cfg, l, t, u, o, a);
    }
  }

  lemma AheadBelow(cfg: seq<Level>, l: nat, t: seq<Entry>, u: seq<Entry>, o: nat,
                   m: nat, sub: seq<Entry>, sub': seq<Entry>)
    requires At(cfg, l) && WF(cfg, l, t) && WF(cfg, l, u) && o < Coverage(cfg, l) && Ahead(cfg, l, t, u, o)
    requires m == l + 1 && At(cfg, m) && WF(cfg, m, sub) && WF(cfg, m, sub') && Rem(cfg, l, o) < Coverage(cfg, m)
    requires t[Idx(cfg, l, o)] == Table(sub) && u[Idx(cfg, l, o)] == Table(sub')
    ensures Ahead(cfg, m, sub, sub', Rem(cfg, l, o))
  {
    hide LeafAt, Lookup, Idx, Rem, Coverage, WFEntry;
    SpanShrinks(cfg, l);
    var r := Rem(cfg, l, o);
    forall b | r <= b < Coverage(cfg, m) ensures AheadAt(cfg, m, sub, sub', r, b) {
      var a := EntryStart(cfg, l, Idx(cfg, l, o), b);
      SameEntry(cfg, l, a, o);
      LeafBelow(cfg, l, t, a, m, sub);
      LeafBelow(cfg, l, u, a, m, sub');
      assert AheadAt(cfg, l, t, u, o, a);
    }
  }

  /** Whether the next round is clean can be told from the tree before the call. */
  lemma {:induction false} CleanAhead(cfg: seq<Level>, l: nat, t: seq<Entry>, u: seq<Entry>, o: nat, p: nat, s: nat)
    requires At(cfg, l) && WF(cfg, l, t) && WF(cfg, l, u) && o < Coverage(cfg, l) && Ahead(cfg, l, t, u, o)
    ensures CleanOver(cfg, l, u, o, p, s) <==> CleanOver(cfg, l, t, o, p, s)
    decreases |cfg| - l
  {
    hide LeafAt, Lookup, Coverage, AllMet;
    var e, e' := t[Idx(cfg, l, o)], u[Idx(cfg, l, o)];
    if PageFits(cfg, l, o, p, s) {
      BlockInside(cfg, l, o);
      var end := o + cfg[l].span;
      BlockIsInside(cfg, l, t, o, end);
      forall a | o <= a < end ensures LeafAt(cfg, l, u, a) == LeafAt(cfg, l, t, a) {
        assert AheadAt(cfg, l, t, u, o, a);
      }
      AllMetSame(cfg, l, t, u, o, o, end);
    } else if e.Table? && e'.Table? {
      assert WFEntry(cfg, l, e) && WFEntry(cfg, l, e');
      SpanShrinks(cfg, l);
      AheadBelow(cfg, l, t, u, o, l + 1, e.sub, e'.sub);
      CleanAhead(cfg, l + 1, e.sub, e'.sub, Rem(cfg, l, o), p, s);
    } else {
      if e.Table? {
        NoTableUniform(cfg, l, u, o);
      } else {
        NoTableUniform(cfg, l, t, o);
      }
      UniformAhead(cfg, l, t, u, o);
      UniformEntry(cfg, l, t, o, p, s);
      UniformEntry(cfg, l, u, o, p, s);
    }
  }

  /** All rounds of a call for n pages from x on overwrite cleanly. */
  ghost predicate CleanRange(cfg: seq<Level>, l: nat, t: seq<Entry>, x: nat, p: nat, n: nat)
    requires At(cfg, l) && WF(cfg, l, t) && x + n <= Coverage(cfg, l)
    decreases n
  {
    n == 0 ||
    (var ps := PageSize(cfg, l, x, p, n);
     CleanOver(cfg, l, t, x, p, n) && CleanRange(cfg, l, t, x + ps, p + ps, n - ps))
  }

  // ----- one round -----

  /** The table below the entry of o that a walk goes on in: the one that is there, a new one, or
      one that a split put in place of a page. */
  ghost predicate Descends(cfg: seq<Level>, l: nat, t: seq<Entry>, free: nat, o: nat, m: nat, sub: seq<Entry>,
                           free': nat)
    requires At(cfg, l) && WF(cfg, l, t) && o < Coverage(cfg, l) && m == l + 1
  {
    var e := t[Idx(cfg, l, o)];
    && At(cfg, m) && WF(cfg, m, sub) && Stands(cfg, l, t, o, m, sub)
    && free' + Weight(Table(sub)) == free + Weight(e)
    && (e.Table? ==> e.sub == sub)
    && (e.Invalid? ==> free > 0 && sub == Blank(cfg, m))
    && (e.Leaf? ==> Pruned(sub) && !IsBlank(sub) && Even(cfg, m, sub, 0, Coverage(cfg, m)))
    && (e.Leaf? && free == 1 ==> cfg[m].terminal)
  }

  /** What one round of paging_create at o with s pages left does. */
  ghost predicate StepCreated(cfg: seq<Level>, l: nat, t: seq<Entry>, free: nat, u: seq<Entry>, free': nat,
                              o: nat, p: nat, s: nat, f: nat, ok: bool, ps: nat)
    requires At(cfg, l) && WF(cfg, l, t) && WF(cfg, l, u) && o < Coverage(cfg, l)
  {
    && free' + Tables(u) <= free + Tables(t)
    && (ok ==> StepMaps(cfg, l, t, u, o, s, ps, p, f))
    && (ok && s >= 1 ==> ps == PageSize(cfg, l, o, p, s) && StepAhead(cfg, l, t, u, o, ps))
    && (!ok ==> free' + Tables(u) == free + Tables(t) && (Gapless(cfg) ==> SameAll(cfg, l, t, u)))
    && (ok && Pruned(t) ==> Pruned(u) && (free' + Tables(u) == free + Tables(t) <==> CleanOver(cfg, l, t, o, p, s)))
    && (ok && Pruned(t) && Vacant(cfg, l, t, o, s) ==> StepFresh(cfg, l, t, u, o, ps, p, f))
    && (PageFits(cfg, l, o, p, s) ==> ok && (Pruned(t) && t[Idx(cfg, l, o)].Invalid? ==> free' == free))
    && (ok && PageFits(cfg, FirstTerminal(cfg, l), o, p, s) ==> ps == cfg[FirstTerminal(cfg, l)].span)
    && (!cfg[l].terminal && free == 0 && t[Idx(cfg, l, o)].Invalid? ==> !ok && u == t)
    && (free == 1 && GapAt(cfg, l, t, o, s) ==> !ok && PageLost(cfg, l, t, u, o))
  }

  /** The page fits here. */
  lemma CreatedPage(cfg: seq<Level>, l: nat, t: seq<Entry>, free: nat, u: seq<Entry>, free': nat, o: nat, p: nat,
                    s: nat, f: nat)
    requires At(cfg, l) && WF(cfg, l, t) && WF(cfg, l, u) && o < Coverage(cfg, l) && PageFits(cfg, l, o, p, s)
    requires SameEntries(t, u, Idx(cfg, l, o)) && u[Idx(cfg, l, o)] == Leaf(p, f) && o + cfg[l].span <= Coverage(cfg, l)
    requires free' + Tables(u) <= free + Tables(t)
    requires Pruned(t) ==>
               Pruned(u) && (free' + Tables(u) == free + Tables(t) <==> AllMet(cfg, l, t, o, o, o + cfg[l].span))
    ensures StepCreated(cfg, l, t, free, u, free', o, p, s, f, true, cfg[l].span)
  {
    hide LeafAt, Lookup, Maps, SameOutside, SameLeaves, SameAll, NewLeaf, Vacant;
    hide StepMaps, StepFresh, Tables, AllMet, GapAt, Pruned, Idx;
    SetTerminal(cfg, l, t, u, o, s, p, f);
    PageAhead(cfg, l, t, u, o);
    if GapAt(cfg, l, t, o, s) {
      GapBelow(cfg, l, t, o, s);
    }
    var i := Idx(cfg, l, o);
    if Pruned(t) && t[i].Invalid? {
      InvalidEntryVacant(cfg, l, t, o);
      VacantMet(cfg, l, t, o, o, o + cfg[l].span);
      TablesUpdate(t, i, Leaf(p, f));
      assert t[i := Leaf(p, f)] == u;
    }
  }

  /** An entry that is no table is met whatever it holds. */
  lemma FlatMet(cfg: seq<Level>, l: nat, t: seq<Entry>, o: nat)
    requires At(cfg, l) && WF(cfg, l, t) && o < Coverage(cfg, l) && o % cfg[l].span == 0 && !t[Idx(cfg, l, o)].Table?
    requires o + cfg[l].span <= Coverage(cfg, l)
    ensures AllMet(cfg, l, t, o, o, o + cfg[l].span)
  {
    hide LeafAt, Lookup;
    var end := o + cfg[l].span;
    if t[Idx(cfg, l, o)].Invalid? {
      InvalidEntryVacant(cfg, l, t, o);
      VacantMet(cfg, l, t, o, o, end);
    } else {
      forall a | o <= a < end ensures LeafAt(cfg, l, t, a).Some? && LeafAt(cfg, l, t, a).value.start == o {
        SameEntry(cfg, l, a, o);
        LeafHere(cfg, l, t, a, 1);
      }
      BlockIsInside(cfg, l, t, o, end);
      FullMet(cfg, l, t, o, end, o);
    }
  }

  lemma EntryNotInvalid(cfg: seq<Level>, l: nat, t: seq<Entry>, o: nat)
    requires At(cfg, l) && WF(cfg, l, t) && o < Coverage(cfg, l) && o % cfg[l].span == 0
    requires o + cfg[l].span <= Coverage(cfg, l) && !Vacant(cfg, l, t, o, cfg[l].span)
    ensures !t[Idx(cfg, l, o)].Invalid?
  {
    hide LeafAt, Lookup;
    if t[Idx(cfg, l, o)].Invalid? {
      InvalidEntryVacant(cfg, l, t, o);
    }
  }

  lemma FullRest(cfg: seq<Level>, l: nat, t: seq<Entry>, t1: seq<Entry>, v: nat, done: nat, n: nat)
    requires At(cfg, l) && WF(cfg, l, t) && WF(cfg, l, t1)
    requires Full(cfg, l, t, v, done + n) && SameOutside(cfg, l, t, t1, v, done)
    ensures Full(cfg, l, t1, v + done, n)
  {
    hide LeafAt, Lookup;
    forall a | v + done <= a < v + done + n && a < Coverage(cfg, l) ensures LeafAt(cfg, l, t1, a).Some? {
      assert LeafAt(cfg, l, t, a).Some?;
      assert Lookup(cfg, l, t1, a) == Lookup(cfg, l, t, a);
    }
  }

  lemma InvalidEntryVacant(cfg: seq<Level>, l: nat, t: seq<Entry>, o: nat)
    requires At(cfg, l) && WF(cfg, l, t) && o < Coverage(cfg, l) && t[Idx(cfg, l, o)].Invalid? && o % cfg[l].span == 0
    requires o + cfg[l].span <= Coverage(cfg, l)
    ensures forall a | o <= a < o + cfg[l].span :: LeafAt(cfg, l, t, a).None?
  {
    hide LeafAt, Lookup;
    forall a | o <= a < o + cfg[l].span ensures LeafAt(cfg, l, t, a).None? {
      SameEntry(cfg, l, a, o);
      NothingHere(cfg, l, t, a);
    }
  }

  /** No table to go on in. */
  lemma CreatedFails(cfg: seq<Level>, l: nat, t: seq<Entry>, free: nat, e: Entry, free': nat, o: nat, p: nat, s: nat,
                     f: nat)
    requires At(cfg, l) && WF(cfg, l, t) && o < Coverage(cfg, l) && WFEntry(cfg, l, e) && !PageFits(cfg, l, o, p, s)
    requires free' + Weight(e) == free + Weight(t[Idx(cfg, l, o)]) && !t[Idx(cfg, l, o)].Table?
    requires Gapless(cfg) || t[Idx(cfg, l, o)].Invalid? ==> e == t[Idx(cfg, l, o)]
    requires t[Idx(cfg, l, o)].Leaf? && free == 1 && l + 1 < |cfg| && !cfg[l + 1].terminal ==>
               e == Table(Blank(cfg, l + 1))
    ensures StepCreated(cfg, l, t, free, t[Idx(cfg, l, o) := e], free', o, p, s, f, false, 0)
  {
    hide LeafAt, Lookup, Maps, SameOutside, SameLeaves, SameAll, NewLeaf, Vacant;
    hide StepMaps, StepFresh, Tables, Pruned, Gapless, Idx;
    var i := Idx(cfg, l, o);
    TablesUpdate(t, i, e);
    Unchanged(cfg, l, t, 0, 0, 0);
    if e == t[i] {
      assert t[i := e] == t;
    }
    if free == 1 && GapAt(cfg, l, t, o, s) {
      GapBelow(cfg, l, t, o, s);
      LeafLost(cfg, l, t, t[i := e], o, l + 1, e.sub);
    }
  }

  lemma LiftAccount(t: seq<Entry>, i: nat, sub: seq<Entry>, sub': seq<Entry>, free: nat, free1: nat, free': nat)
    requires i < |t| && free1 + Weight(Table(sub)) == free + Weight(t[i])
    ensures free' + Tables(t[i := Table(sub')]) <= free + Tables(t) <==> free' + Tables(sub') <= free1 + Tables(sub)
    ensures free' + Tables(t[i := Table(sub')]) == free + Tables(t) <==> free' + Tables(sub') == free1 + Tables(sub)
  {
    TablesUpdate(t, i, Table(sub'));
  }

  /** A clean overwrite below is a clean overwrite here. */
  lemma LiftClean(cfg: seq<Level>, l: nat, t: seq<Entry>, free: nat, o: nat, p: nat, s: nat, m: nat, sub: seq<Entry>,
                  free1: nat)
    requires At(cfg, l) && WF(cfg, l, t) && o < Coverage(cfg, l) && m == l + 1 && !PageFits(cfg, l, o, p, s)
    requires Descends(cfg, l, t, free, o, m, sub, free1) && Rem(cfg, l, o) < Coverage(cfg, m)
    ensures CleanOver(cfg, l, t, o, p, s) <==> CleanOver(cfg, m, sub, Rem(cfg, l, o), p, s)
  {
    hide LeafAt, Lookup, Stands, Weight;
    var e := t[Idx(cfg, l, o)];
    if !e.Table? {
      if e.Leaf? {
        EvenFull(cfg, m, sub, Rem(cfg, l, o), s);
      } else {
        BlankVacantFrom(cfg, m, Rem(cfg, l, o), s);
      }
      UniformClean(cfg, m, sub, Rem(cfg, l, o), p, s);
    }
  }

  lemma EvenFull(cfg: seq<Level>, l: nat, t: seq<Entry>, o: nat, s: nat)
    requires At(cfg, l) && WF(cfg, l, t) && Even(cfg, l, t, 0, Coverage(cfg, l))
    ensures Full(cfg, l, t, o, s)
  {
    hide LeafAt, Lookup;
    forall a | o <= a < o + s && a < Coverage(cfg, l) ensures LeafAt(cfg, l, t, a).Some? {
      assert SizeAt(cfg, l, t, a) == cfg[FirstTerminal(cfg, l)].span;
    }
  }

  lemma LiftAhead(cfg: seq<Level>, l: nat, t: seq<Entry>, free: nat, o: nat, ps: nat, s: nat, p: nat, f: nat,
                  m: nat, sub: seq<Entry>, free1: nat, sub': seq<Entry>, u: seq<Entry>)
    requires At(cfg, l) && WF(cfg, l, t) && WF(cfg, l, u) && o < Coverage(cfg, l) && m == l + 1
    requires Descends(cfg, l, t, free, o, m, sub, free1) && WF(cfg, m, sub')
    requires SameEntries(t, u, Idx(cfg, l, o)) && u[Idx(cfg, l, o)] == Table(sub')
    requires StepMaps(cfg, l, t, u, o, s, ps, p, f) && StepAhead(cfg, m, sub, sub', Rem(cfg, l, o), ps)
    ensures StepAhead(cfg, l, t, u, o, ps)
  {
    hide LeafAt, Lookup, Coverage, Idx, Rem, Stands, Even, Maps, Weight, Pruned;
    var e := t[Idx(cfg, l, o)];
    forall a | o + ps <= a < Coverage(cfg, l) ensures StepAheadAt(cfg, l, t, u, o, a) {
      if Idx(cfg, l, a) != Idx(cfg, l, o) {
        LeafSame(cfg, l, t, u, a);
      } else {
        SameEntry(cfg, l, a, o);
        LeafBelow(cfg, l, u, a, m, sub');
        if e.Leaf? {
          LeafHere(cfg, l, t, a, 1);
          assert Lookup(cfg, l, u, a) == Lookup(cfg, l, t, a);
        } else {
          LeafBelow(cfg, l, t, a, m, sub);
          assert StepAheadAt(cfg, m, sub, sub', Rem(cfg, l, o), Rem(cfg, l, a));
        }
      }
    }
  }

  /** The round goes on in the table below. */
  lemma LiftCreated(cfg: seq<Level>, l: nat, t: seq<Entry>, free: nat, free': nat, o: nat, p: nat, s: nat, f: nat,
                    ok: bool, ps: nat,
                    m: nat, sub: seq<Entry>, free1: nat, sub': seq<Entry>)
    requires At(cfg, l) && WF(cfg, l, t) && o < Coverage(cfg, l) && s >= 1 && m == l + 1 && !PageFits(cfg, l, o, p, s)
    requires Descends(cfg, l, t, free, o, m, sub, free1) && WF(cfg, m, sub') && Rem(cfg, l, o) < Coverage(cfg, m)
    requires StepCreated(cfg, m, sub, free1, sub', free', Rem(cfg, l, o), p, s, f, ok, ps)
    ensures WF(cfg, l, t[Idx(cfg, l, o) := Table(sub')])
    ensures StepCreated(cfg, l, t, free, t[Idx(cfg, l, o) := Table(sub')], free', o, p, s, f, ok, ps)
  {
    hide LeafAt, Lookup, Maps, SameOutside, SameLeaves, SameAll, NewLeaf, Vacant;
    hide StepMaps, StepFresh, Tables, Pruned, Gapless, Idx;
    hide StepAhead, Stands, Even, CleanOver, GapAt, PageLost, FirstTerminal, IsBlank;
    var i, r := Idx(cfg, l, o), Rem(cfg, l, o);
    var u := t[i := Table(sub')];
    assert WFEntry(cfg, l, Table(sub'));
    LiftAccount(t, i, sub, sub', free, free1, free');
    EntryStands(cfg, l, u, o, m, sub');
    LiftFirst(cfg, l, o, p, s, m);
    if ok {
      LiftStepMaps(cfg, l, t, u, o, s, ps, p, f, m, sub, sub');
      LiftAhead(cfg, l, t, free, o, ps, s, p, f, m, sub, free1, sub', u);
      if Pruned(t) {
        PrunedSub(cfg, l, t, free, o, m, sub, free1);
        LiftClean(cfg, l, t, free, o, p, s, m, sub, free1);
        PrunedUpdate(t, i, Table(sub'));
        if Vacant(cfg, l, t, o, s) {
          VacantSub(cfg, l, t, free, o, s, m, sub, free1);
          LiftStepFresh(cfg, l, t, u, o, ps, p, f, m, sub, sub');
        }
      }
    } else if Gapless(cfg) {
      LiftSame(cfg, l, t, u, o, m, sub, sub');
    }
    if free == 1 && GapAt(cfg, l, t, o, s) {
      LiftGap(cfg, l, t, free, o, s, m, sub, free1);
      LiftPageLost(cfg, l, t, u, o, m, sub, sub');
    }
  }

  lemma LiftFirst(cfg: seq<Level>, l: nat, o: nat, p: nat, s: nat, m: nat)
    requires At(cfg, l) && m == l + 1 && At(cfg, m) && !PageFits(cfg, l, o, p, s)
    ensures PageFits(cfg, FirstTerminal(cfg, l), o, p, s) ==>
              && FirstTerminal(cfg, m) == FirstTerminal(cfg, l)
              && PageFits(cfg, FirstTerminal(cfg, m), Rem(cfg, l, o), p, s)
  {
    if PageFits(cfg, FirstTerminal(cfg, l), o, p, s) {
      RemAligned(cfg, l, FirstTerminal(cfg, l), o);
    }
  }

  lemma PrunedSub(cfg: seq<Level>, l: nat, t: seq<Entry>, free: nat, o: nat, m: nat, sub: seq<Entry>, free1: nat)
    requires At(cfg, l) && WF(cfg, l, t) && o < Coverage(cfg, l) && m == l + 1 && Pruned(t)
    requires Descends(cfg, l, t, free, o, m, sub, free1)
    ensures Pruned(sub)
  {
    assert PrunedEntry(t[Idx(cfg, l, o)]);
  }

  lemma VacantSub(cfg: seq<Level>, l: nat, t: seq<Entry>, free: nat, o: nat, s: nat, m: nat, sub: seq<Entry>,
                  free1: nat)
    requires At(cfg, l) && WF(cfg, l, t) && o < Coverage(cfg, l) && m == l + 1 && s >= 1
    requires Descends(cfg, l, t, free, o, m, sub, free1) && Vacant(cfg, l, t, o, s)
    ensures Vacant(cfg, m, sub, Rem(cfg, l, o), s) && !t[Idx(cfg, l, o)].Leaf?
    ensures t[Idx(cfg, l, o)] == Table(sub) || (t[Idx(cfg, l, o)].Invalid? && IsBlank(sub))
  {
    hide LeafAt, Lookup, Stands, Vacant;
    var e := t[Idx(cfg, l, o)];
    if e.Leaf? {
      NoLeafInVacant(cfg, l, t, o, s);
    } else if e.Table? {
      VacantBelow(cfg, l, t, o, s, m, sub);
    } else {
      BlankVacantFrom(cfg, m, Rem(cfg, l, o), s);
    }
  }

  lemma LiftGap(cfg: seq<Level>, l: nat, t: seq<Entry>, free: nat, o: nat, s: nat, m: nat, sub: seq<Entry>, free1: nat)
    requires At(cfg, l) && WF(cfg, l, t) && o < Coverage(cfg, l) && m == l + 1 && free == 1 && GapAt(cfg, l, t, o, s)
    requires Descends(cfg, l, t, free, o, m, sub, free1) && Rem(cfg, l, o) < Coverage(cfg, m)
    ensures t[Idx(cfg, l, o)] == Table(sub) && free1 == 1 && GapAt(cfg, m, sub, Rem(cfg, l, o), s)
  {
    hide LeafAt, Lookup, Stands;
    GapBelow(cfg, l, t, o, s);
  }

  // ----- when a round succeeds -----

  /** How many levels below l the page that fits is set. */
  function FitDepth(cfg: seq<Level>, l: nat, o: nat, p: nat, s: nat): (d: nat)
    requires At(cfg, l)
    ensures d <= |cfg| - 1 - l
    decreases |cfg| - l
  {
    if PageFits(cfg, l, o, p, s) || l + 1 == |cfg| then 0 else 1 + FitDepth(cfg, l + 1, Rem(cfg, l, o), p, s)
  }

  /** The pages one round takes from the pool in a mode without gaps: one for each level below the last
      table that is already there. */
  function Need(cfg: seq<Level>, l: nat, t: seq<Entry>, o: nat, p: nat, s: nat): (d: nat)
    requires At(cfg, l) && WF(cfg, l, t) && o < Coverage(cfg, l)
    ensures d <= |cfg| - 1 - l
    decreases |cfg| - l
  {
    var e := t[Idx(cfg, l, o)];
    if PageFits(cfg, l, o, p, s) then 0
    else if e.Table? then
      assert WFEntry(cfg, l, e);
      SpanShrinks(cfg, l);
      Need(cfg, l + 1, e.sub, Rem(cfg, l, o), p, s)
    else FitDepth(cfg, l, o, p, s)
  }

  /** A round fails only with an empty pool; without gaps, exactly if it needs more than there is, and
      then it still needs a page. */
  ghost predicate StepPages(cfg: seq<Level>, l: nat, t: seq<Entry>, free: nat, u: seq<Entry>, free': nat,
                            o: nat, p: nat, s: nat, ok: bool, ps: nat)
    requires At(cfg, l) && WF(cfg, l, t) && WF(cfg, l, u) && o < Coverage(cfg, l)
  {
    && (!ok ==> free' == 0)
    && (Gapless(cfg) && !ok ==> Need(cfg, l, u, o, p, s) > 0)
    && (Gapless(cfg) ==> (ok <==> free >= Need(cfg, l, t, o, p, s)))
    && (Gapless(cfg) && ok ==> free' + (1 + ps) * (|cfg| - 1 - l) >= free)
  }

  lemma NeedNoTable(cfg: seq<Level>, l: nat, t: seq<Entry>, o: nat, p: nat, s: nat)
    requires At(cfg, l) && WF(cfg, l, t) && o < Coverage(cfg, l) && !t[Idx(cfg, l, o)].Table? && s >= 1
    ensures Need(cfg, l, t, o, p, s) == FitDepth(cfg, l, o, p, s)
  {
  }

  /** In a mode without gaps, a table that a split filled has no tables. */
  lemma EvenNoTable(cfg: seq<Level>, l: nat, t: seq<Entry>, o: nat)
    requires At(cfg, l) && WF(cfg, l, t) && o < Coverage(cfg, l) && cfg[l].terminal
    requires Even(cfg, l, t, 0, Coverage(cfg, l))
    ensures !t[Idx(cfg, l, o)].Table?
  {
    assert SizeAt(cfg, l, t, o) == cfg[FirstTerminal(cfg, l)].span;
    assert WFEntry(cfg, l, t[Idx(cfg, l, o)]);
    if t[Idx(cfg, l, o)].Table? {
      SpanShrinks(cfg, l);
      SizeOfEntry(cfg, l, t, o);
    }
  }

  lemma EntryPages(cfg: seq<Level>, l: nat, t: seq<Entry>, free: nat, o: nat, m: nat, sub: seq<Entry>, free1: nat)
    requires At(cfg, l) && WF(cfg, l, t) && o < Coverage(cfg, l) && m == l + 1
    requires Descends(cfg, l, t, free, o, m, sub, free1)
    ensures t[Idx(cfg, l, o)].Table? ==> free1 == free
    ensures t[Idx(cfg, l, o)].Invalid? ==> free1 + 1 == free
  {
    hide LeafAt, Lookup, Stands, Even, Idx;
    if t[Idx(cfg, l, o)].Invalid? {
      BlankWeight(cfg, m);
    }
  }

  lemma LiftPages(cfg: seq<Level>, l: nat, t: seq<Entry>, free: nat, free': nat, o: nat, p: nat, s: nat, ok: bool,
                  ps: nat, m: nat, sub: seq<Entry>, free1: nat, sub': seq<Entry>, u: seq<Entry>)
    requires At(cfg, l) && WF(cfg, l, t) && o < Coverage(cfg, l) && s >= 1 && m == l + 1 && !PageFits(cfg, l, o, p, s)
    requires Descends(cfg, l, t, free, o, m, sub, free1) && Rem(cfg, l, o) < Coverage(cfg, m)
    requires Gapless(cfg) ==> free1 + 1 >= free && (t[Idx(cfg, l, o)].Leaf? ==> free1 + 1 == free)
    requires WF(cfg, l, u) && WF(cfg, m, sub') && u[Idx(cfg, l, o)] == Table(sub')
    requires StepPages(cfg, m, sub, free1, sub', free', Rem(cfg, l, o), p, s, ok, ps)
    ensures StepPages(cfg, l, t, free, u, free', o, p, s, ok, ps)
  {
    hide LeafAt, Lookup, Stands, Even, Coverage, Idx, Rem;
    var e := t[Idx(cfg, l, o)];
    if Gapless(cfg) {
      if e.Leaf? {
        assert WFEntry(cfg, l, e) && cfg[m].terminal;
        EvenNoTable(cfg, m, sub, Rem(cfg, l, o));
      } else if e.Invalid? {
        BlankWeight(cfg, m);
      }
      if !e.Table? {
        NeedNoTable(cfg, m, sub, Rem(cfg, l, o), p, s);
      }
      Distribute(|cfg| - 1 - m, 1, 1 + ps);
    }
  }

  lemma BlankWeight(cfg: seq<Level>, l: nat)
    requires At(cfg, l)
    ensures Weight(Table(Blank(cfg, l))) == 1
  {
    TablesBlank(Blank(cfg, l));
  }
}
