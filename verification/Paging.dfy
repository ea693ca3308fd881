/** paging_create, paging_destroy and split_hugepage (hypervisor/paging.c) on
    page-table trees.  A walk down the tables is a recursion over levels that
    returns the updated table; `free` is the number of pages that page_alloc can
    still hand out one by one.  Error returns of the C code are `ok == false`. */
module Paging {
  import opened Arith
  import opened PageTree
  import opened PagingSpec
  import opened Release
  import opened Overwrite

  /** split_hugepage on a terminal entry: the new entry points to a table that
      maps the same block one level down. */
  method Split(cfg: seq<Level>, l: nat, p: nat, f: nat, free: nat)
    returns (ok: bool, e: Entry, free': nat)
    requires At(cfg, l) && l + 1 < |cfg| && cfg[l].terminal && p % cfg[l].span == 0
    ensures WFEntry(cfg, l, e) && free' + Weight(e) == free
    ensures ok ==> e.Table? && Maps(cfg, l + 1, e.sub, 0, Coverage(cfg, l + 1), p, f)
    ensures ok ==> Pruned(e.sub) && !IsBlank(e.sub)
    ensures ok ==> Even(cfg, l + 1, e.sub, 0, Coverage(cfg, l + 1))
    ensures Gapless(cfg) ==> (ok <==> free > 0) && (if ok then free' == free - 1 else e == Leaf(p, f))
    ensures !e.Invalid? && (free == 0 ==> !ok) && (!ok ==> free' == 0)
    ensures free == 1 && !cfg[l + 1].terminal ==> !ok && e == Table(Blank(cfg, l + 1))
    decreases |cfg| - l, 0
  {
    hide Lookup, LeafAt, Maps, SameOutside, SameLeaves, Vacant;
    hide Covered, Full, Idx, Coverage, Tables, Even;
    if free == 0 {
      return false, Leaf(p, f), free;
    }
    SpanShrinks(cfg, l);
    AlignedDown(cfg, l, FirstTerminal(cfg, l + 1), p);
    BlankVacant(cfg, l + 1);
    assert Gapless(cfg) ==> cfg[l + 1].terminal;
    var sub;
    ghost var done;
    ok, sub, free', done := Create(cfg, l + 1, Blank(cfg, l + 1), free - 1, 0, p, Coverage(cfg, l + 1), f);
    e := Table(sub);
    if ok {
      MapsNotBlank(cfg, l + 1, sub, 0, Coverage(cfg, l + 1), p, f);
    }
  }

  /** The entry to store so that a walk at o can go on one level down: split a
      page, allocate a missing table, or take the table that is there. */
  method NextTable(cfg: seq<Level>, l: nat, t: seq<Entry>, free: nat, o: nat)
    returns (ok: bool, e: Entry, free': nat)
    requires At(cfg, l) && l + 1 < |cfg| && WF(cfg, l, t) && o < Coverage(cfg, l)
    ensures WFEntry(cfg, l, e) && free' + Weight(e) == free + Weight(t[Idx(cfg, l, o)])
    ensures ok ==> e.Table? && Descends(cfg, l, t, free, o, l + 1, e.sub, free')
    ensures !ok ==> !t[Idx(cfg, l, o)].Table? && (Gapless(cfg) || t[Idx(cfg, l, o)].Invalid? ==> e == t[Idx(cfg, l, o)])
    ensures !ok && t[Idx(cfg, l, o)].Leaf? ==> !e.Invalid?
    ensures (!ok ==> free' == 0) && (Gapless(cfg) ==> (ok <==> t[Idx(cfg, l, o)].Table? || free > 0))
    ensures t[Idx(cfg, l, o)].Leaf? ==> (free == 0 ==> !ok) && (Gapless(cfg) && free > 0 ==> ok && free' == free - 1)
    ensures t[Idx(cfg, l, o)].Invalid? ==> (ok <==> free > 0)
    ensures t[Idx(cfg, l, o)].Leaf? && free == 1 && !cfg[l + 1].terminal ==> !ok && e == Table(Blank(cfg, l + 1))
    decreases |cfg| - l, 1
  {
    hide Lookup, LeafAt, Maps, Stands, Even, Idx, Coverage, Tables;
    var i := Idx(cfg, l, o);
    assert WFEntry(cfg, l, t[i]);
    match t[i] {
      case Leaf(q, g) =>
        ok, e, free' := Split(cfg, l, q, g, free);
        if ok {
          SplitStands(cfg, l, t, o, l + 1, e.sub);
        }
      case Invalid =>
        BlankVacant(cfg, l + 1);
        if free == 0 {
          return false, Invalid, free;
        }
        ok, e, free' := true, Table(Blank(cfg, l + 1)), free - 1;
        EntryStands(cfg, l, t, o, l + 1, e.sub);
      case Table(x) =>
        ok, e, free' := true, t[i], free;
        EntryStands(cfg, l, t, o, l + 1, x);
    }
  }

  /** One round of paging_create: walk down from level l, splitting and allocating
      on the way, to the first level whose page fits, and set one terminal entry
      of ps pages there. */
  method CreateStep(cfg: seq<Level>, l: nat, t: seq<Entry>, free: nat, o: nat, p: nat, s: nat, f: nat)
    returns (ok: bool, t': seq<Entry>, free': nat, ps: nat)
    requires At(cfg, l) && WF(cfg, l, t) && o < Coverage(cfg, l) && s >= 1
    ensures WF(cfg, l, t') && StepCreated(cfg, l, t, free, t', free', o, p, s, f, ok, ps)
    ensures StepPages(cfg, l, t, free, t', free', o, p, s, ok, ps)
    decreases |cfg| - l, 5
  {
    hide Lookup, LeafAt, Idx, Coverage, Tables, StepCreated, Descends, AllMet, Pruned, Gapless;
    var i := Idx(cfg, l, o);
    NotLast(cfg, l);
    if PageFits(cfg, l, o, p, s) {
      t', free' := SetPage(cfg, l, t, free, o, p, f);
      CreatedPage(cfg, l, t, free, t', free', o, p, s, f);
      MulMono(cfg[l].span, 1 + cfg[l].span, |cfg| - 1 - l);
      return true, t', free', cfg[l].span;
    }
    var e;
    ok, e, free' := NextTable(cfg, l, t, free, o);
    if !ok {
      CreatedFails(cfg, l, t, free, e, free', o, p, s, f);
      return false, t[i := e], free', 0;
    }
    SpanShrinks(cfg, l);
    ghost var free1 := free';
    var sub';
    ok, sub', free', ps := CreateStep(cfg, l + 1, e.sub, free', Rem(cfg, l, o), p, s, f);
    LiftCreated(cfg, l, t, free, free', o, p, s, f, ok, ps, l + 1, e.sub, free1, sub');
    EntryPages(cfg, l, t, free, o, l + 1, e.sub, free1);
    LiftPages(cfg, l, t, free, free', o, p, s, ok, ps, l + 1, e.sub, free1, sub', t[i := Table(sub')]);
    t' := t[i := Table(sub')];
  }

  /** Release what a hugepage at o overwrites, ignoring errors, and set it.  From a pruned tree no
      page is lost exactly if the strides of the release meet every page that was mapped there. */
  method SetPage(cfg: seq<Level>, l: nat, t: seq<Entry>, free: nat, o: nat, p: nat, f: nat)
    returns (t': seq<Entry>, free': nat)
    requires At(cfg, l) && WF(cfg, l, t) && o < Coverage(cfg, l)
    requires cfg[l].terminal && o % cfg[l].span == 0 && p % cfg[l].span == 0
    ensures WF(cfg, l, t') && SameEntries(t, t', Idx(cfg, l, o)) && t'[Idx(cfg, l, o)] == Leaf(p, f)
    ensures o + cfg[l].span <= Coverage(cfg, l) && free' + Tables(t') <= free + Tables(t)
    ensures Gapless(cfg) ==> free' + cfg[l].span * (|cfg| - 1 - l) >= free
    ensures Pruned(t) ==> Pruned(t')
    ensures Pruned(t) ==> (free' + Tables(t') == free + Tables(t) <==> AllMet(cfg, l, t, o, o, o + cfg[l].span))
    decreases |cfg| - l, 4
  {
    hide Lookup, LeafAt, Idx, Coverage, Tables, AllMet, Vacant, Covered, Shrunk;
    var i := Idx(cfg, l, o);
    t', free' := t, free;
    BlockInside(cfg, l, o);
    assert WFEntry(cfg, l, t[i]);
    NotLast(cfg, l);
    BlockIsInside(cfg, l, t, o, o + cfg[l].span);
    if cfg[l].span > 1 {
      var ok;
      ok, t', free' := Destroy(cfg, l, t, free, o, cfg[l].span);
      if Pruned(t) && ok && Vacant(cfg, l, t', o, cfg[l].span) {
        VacantEntry(cfg, l, t', o, cfg[l].span);
      } else if Pruned(t) && ok {
        EntryNotInvalid(cfg, l, t', o);
      }
    }
    if !t[i].Table? {
      FlatMet(cfg, l, t, o);
    }
    TablesUpdate(t', i, Leaf(p, f));
    t' := t'[i := Leaf(p, f)];
  }

  /** paging_create from a table of level l on.  `done` pages got mapped. */
  method Create(cfg: seq<Level>, l: nat, t: seq<Entry>, free: nat, v: nat, p: nat, s: nat, f: nat)
    returns (ok: bool, t': seq<Entry>, free': nat, ghost done: nat)
    requires At(cfg, l) && WF(cfg, l, t) && v + s <= Coverage(cfg, l)
    ensures WF(cfg, l, t') && done <= s && (ok <==> done == s)
    ensures free' + Tables(t') <= free + Tables(t)
    ensures ok || Gapless(cfg) ==> Maps(cfg, l, t', v, done, p, f) && SameOutside(cfg, l, t, t', v, done)
    ensures Pruned(t) && (Vacant(cfg, l, t, v, s) || Full(cfg, l, t, v, s)) ==> free' + Tables(t') == free + Tables(t)
    ensures Pruned(t) && ok ==> Pruned(t')
    ensures Pruned(t) && ok ==> (free' + Tables(t') == free + Tables(t) <==> CleanRange(cfg, l, t, v, p, s))
    ensures Pruned(t) && Vacant(cfg, l, t, v, s) && ok ==> SameLeaves(cfg, l, t, t', v, s) && Covered(cfg, l, t', v, s)
    ensures Fills(cfg, l, t, v, p, s) ==>
              (ok ==> Even(cfg, l, t', v, s)) && (cfg[l].terminal ==> ok && free' == free)
    ensures !cfg[l].terminal && free == 0 && IsBlank(t) && s > 0 ==> !ok && t' == t
    ensures s > 0 && free == 1 && GapAt(cfg, l, t, v, s) ==> !ok && PageLost(cfg, l, t, t', v)
    ensures !ok ==> free' == 0 && (Gapless(cfg) ==> Need(cfg, l, t', v + done, p + done, s - done) > 0)
    ensures Gapless(cfg) && free >= 2 * s * (|cfg| - 1 - l) ==> ok
    ensures Gapless(cfg) && s > 0 && free < Need(cfg, l, t, v, p, s) ==> !ok && done == 0
    decreases |cfg| - l, 6
  {
    hide Lookup, LeafAt, Maps, SameOutside, SameLeaves, SameAll, NewLeaf, Vacant, Covered, StepMaps, StepFresh;
    hide Idx, Coverage, Tables, Even, FirstTerminal, GapAt, PageLost, Pruned, Full, CleanOver;
    hide Ahead, StepAhead, PageSize, Need;
    ghost var below := |cfg| - 1 - l;
    t', free', done := t, free, 0;
    var x, q, n := v, p, s;
    ghost var vacant := Pruned(t) && Vacant(cfg, l, t, v, s);
    ghost var full := Pruned(t) && Full(cfg, l, t, v, s);
    ghost var fill := Fills(cfg, l, t, v, p, s);
    Unchanged(cfg, l, t, v, p, f);
    AheadBegins(cfg, l, t, v);
    if fill {
      FillStart(cfg, l, t);
    }
    while n > 0
      invariant done + n == s && x == v + done && q == p + done
      invariant WF(cfg, l, t') && free' + Tables(t') <= free + Tables(t)
      invariant Maps(cfg, l, t', v, done, p, f) && SameOutside(cfg, l, t, t', v, done)
      invariant vacant || full ==> free' + Tables(t') == free + Tables(t)
      invariant Pruned(t) ==> Pruned(t')
      invariant Ahead(cfg, l, t, t', x)
      invariant Pruned(t) ==> (CleanRange(cfg, l, t, v, p, s) <==>
                                 free' + Tables(t') == free + Tables(t) && CleanRange(cfg, l, t, x, q, n))
      invariant vacant ==> SameLeaves(cfg, l, t, t', v, done) && Covered(cfg, l, t', v, done)
      invariant fill ==> x % cfg[FirstTerminal(cfg, l)].span == 0 && Even(cfg, l, t', v, done)
      invariant fill && cfg[l].terminal ==> free' == free
      invariant n == s ==> t' == t && free' == free
      invariant !cfg[l].terminal && free == 0 && IsBlank(t) ==> n == s
      invariant s > 0 && free == 1 && GapAt(cfg, l, t, v, s) ==> n == s
      invariant Gapless(cfg) ==> free' + 2 * done * below >= free
      invariant Gapless(cfg) && s > 0 && free < Need(cfg, l, t, v, p, s) ==> n == s
    {
      Budget(done, n, below);
      ghost var before := t';
      var ps;
      if vacant {
        VacantRest(cfg, l, t, t', v, done, n);
        UniformClean(cfg, l, t', x, q, n);
      }
      if full {
        FullRest(cfg, l, t, t', v, done, n);
        UniformClean(cfg, l, t', x, q, n);
      }
      if fill {
        FillNext(cfg, l, x, p, n);
        if cfg[l].terminal {
          TerminalFirst(cfg, l);
          VacantEntry(cfg, l, t', x, n);
        }
      }
      CleanAhead(cfg, l, t, t', x, q, n);
      ok, t', free', ps := CreateStep(cfg, l, t', free', x, q, n, f);
      if !ok {
        if Gapless(cfg) {
          JoinSame(cfg, l, t, before, t', v, done, p, f);
        }
        return;
      }
      JoinMaps(cfg, l, t, before, t', v, done, ps, n, p, f);
      AheadNext(cfg, l, t, before, t', x, ps);
      Spent(done, ps, below);
      if vacant {
        JoinLeaves(cfg, l, t, before, t', v, done, ps, q, f);
      }
      if fill {
        JoinEven(cfg, l, before, t', done, ps, q, f);
      }
      x, q, n, done := x + ps, q + ps, n - ps, done + ps;
    }
    ok := true;
  }

  /** One round of paging_destroy: walk down at o, splitting pages larger than the
      s pages left, clear the entry found and release the tables this empties. */
  method DestroyStep(cfg: seq<Level>, l: nat, t: seq<Entry>, free: nat, o: nat, s: nat)
    returns (ok: bool, t': seq<Entry>, free': nat, ps: nat)
    requires At(cfg, l) && WF(cfg, l, t) && o < Coverage(cfg, l) && s >= 1
    ensures WF(cfg, l, t') && SameEntries(t, t', Idx(cfg, l, o))
    ensures free' + Tables(t') == free + Tables(t)
    ensures ok ==> ps >= 1
    ensures ok && Pruned(t) ==> Pruned(t')
    ensures !t[Idx(cfg, l, o)].Leaf? ==> !t'[Idx(cfg, l, o)].Leaf?
    ensures !ok ==> !t'[Idx(cfg, l, o)].Invalid?
    ensures StepClears(cfg, l, t, t', o, s, ok, ps) && StepLeaves(cfg, l, t, t', o, ok, ps)
    ensures Gapless(cfg) ==> free' + (|cfg| - 1 - l) >= free && (free >= |cfg| - 1 - l ==> ok)
    ensures !ok ==> free' == 0 && (Gapless(cfg) ==> SizeAt(cfg, l, t', o) > s)
    ensures free == 0 && SizeAt(cfg, l, t, o) > s ==> !ok
    decreases |cfg| - l, 2
  {
    hide Lookup, LeafAt, Idx, Coverage, Tables, StepClears, StepLeaves, Stands, Even, SizeAt, Gapless;
    var i := Idx(cfg, l, o);
    SizeOfEntry(cfg, l, t, o);
    NotLast(cfg, l);
    if t[i].Invalid? {
      ps := if cfg[l].terminal then cfg[l].span else 1;
      StepClearsNothing(cfg, l, t, t, o, s, true, ps);
      StepLeavesHere(cfg, l, t, t, o);
      return true, t, free, ps;
    }
    assert WFEntry(cfg, l, t[i]);
    if t[i].Leaf? && cfg[l].span <= s {
      t' := t[i := Invalid];
      TablesUpdate(t, i, Invalid);
      StepClearsLeaf(cfg, l, t, t', o, s);
      StepLeavesHere(cfg, l, t, t', o);
      return true, t', free, cfg[l].span;
    }
    var e;
    ok, e, free' := NextTable(cfg, l, t, free, o);
    t' := t[i := e];
    TablesUpdate(t, i, e);
    if !ok {
      ps := 0;
      assert Gapless(cfg) ==> t' == t;
      StepClearsNothing(cfg, l, t, t', o, s, false, ps);
      StepLeavesFails(cfg, l, t, t', o, ps);
      SizeOfEntry(cfg, l, t', o);
      return;
    }
    SpanShrinks(cfg, l);
    if Pruned(t) {
      PrunedSub(cfg, l, t, free, o, l + 1, e.sub, free');
    }
    var sub;
    ok, sub, free', ps := DestroyStep(cfg, l + 1, e.sub, free', Rem(cfg, l, o), s);
    ghost var above := e.sub;
    e := Table(sub);
    if ok && IsBlank(sub) {
      TablesBlank(sub);
      e, free' := Invalid, free' + 1;
    }
    t' := t[i := e];
    TablesUpdate(t, i, e);
    LiftStepClears(cfg, l, t, t', o, s, ok, ps, l + 1, above, sub);
    LiftStepLeaves(cfg, l, t, t', o, ok, ps, l + 1, above, sub);
    SizeOfEntry(cfg, l, t', o);
    if ok && Pruned(t) {
      PrunedUpdate(t, i, e);
    }
  }

  /** paging_destroy from a table of level l on. */
  method Destroy(cfg: seq<Level>, l: nat, t: seq<Entry>, free: nat, v: nat, s: nat)
    returns (ok: bool, t': seq<Entry>, free': nat)
    requires At(cfg, l) && WF(cfg, l, t) && v + s <= Coverage(cfg, l)
    ensures WF(cfg, l, t') && free' + Tables(t') == free + Tables(t)
    ensures ok && Pruned(t) ==> Pruned(t')
    ensures s >= 1 && Rem(cfg, l, v) + s <= cfg[l].span ==>
              && SameEntries(t, t', Idx(cfg, l, v))
              && (!t[Idx(cfg, l, v)].Leaf? ==> !t'[Idx(cfg, l, v)].Leaf?)
              && (!ok ==> !t'[Idx(cfg, l, v)].Invalid?)
    ensures ok || Gapless(cfg) ==> Shrunk(cfg, l, t, t')
    ensures Exact(cfg, l, t, v, s) ==>
              (ok ==> Clears(cfg, l, t, t', v, s)) && (!ok && Gapless(cfg) ==> SameOutside(cfg, l, t, t', v, s))
    ensures Misaligned(cfg, l, t, v, s) && ok ==> Lookup(cfg, l, t, v - 1).Some? && Lookup(cfg, l, t', v - 1).None?
    ensures Covered(cfg, l, t, v, s) ==> ok && ClearsLeaves(cfg, l, t, t', v, s)
    ensures Single(cfg, l, t, v, s) ==> ok && ClearsLeaves(cfg, l, t, t', LeafAt(cfg, l, t, v).value.start, s)
    ensures Sweeps(cfg, l, t, v, s) ==> (ok ==> SameLeaves(cfg, l, t, t', v, s))
    ensures Sweeps(cfg, l, t, v, s) ==> (AllMet(cfg, l, t, v, v, v + s) <==> ok && Vacant(cfg, l, t', v, s))
    ensures Sweeps(cfg, l, t, v, s) && free + Tables(t) == 0 && Cuts(cfg, l, t, v, v, v + s) ==> !ok
    ensures !ok ==> free' == 0 && (Gapless(cfg) ==> CutLeft(cfg, l, t', v, v + s))
    ensures Gapless(cfg) ==> free' + s * (|cfg| - 1 - l) >= free && (free >= s * (|cfg| - 1 - l) ==> ok)
    decreases |cfg| - l, 3
  {
    hide Lookup, LeafAt, Idx, Coverage, Tables, StepClears, StepLeaves, Clearing, Pruned;
    hide Shrunk, Exact, Misaligned, Covered, Single, Sweeps, Clears;
    hide ClearsLeaves, SameOutside, SameLeaves, AllMet, Vacant;
    hide Cuts, Starving, SizeAt, Gapless;
    t', free' := t, free;
    ghost var below := |cfg| - 1 - l;
    var x, n := v, s;
    ClearingBegins(cfg, l, t, v, s);
    StarvingBegins(cfg, l, t, free, v, s);
    ghost var reached := v;
    while n > 0
      invariant x + n == v + s && x >= v && n >= 0 && reached == x && (x == v ==> t' == t)
      invariant WF(cfg, l, t') && free' + Tables(t') == free + Tables(t)
      invariant Pruned(t) ==> Pruned(t')
      invariant s >= 1 && Rem(cfg, l, v) + s <= cfg[l].span ==>
                  SameEntries(t, t', Idx(cfg, l, v)) && (!t[Idx(cfg, l, v)].Leaf? ==> !t'[Idx(cfg, l, v)].Leaf?)
      invariant Clearing(cfg, l, t, t', v, s, x) && Starving(cfg, l, t, t', free, v, s, x)
      invariant Gapless(cfg) ==> free' + (x - v) * below >= free
    {
      MulMono(1, n, below);
      Distribute(x - v, n, below);
      SameEntry(cfg, l, x, v);
      ghost var before := t';
      var ps;
      ok, t', free', ps := DestroyStep(cfg, l, t', free', x, n);
      if !ok {
        ClearingFails(cfg, l, t, before, t', v, s, x, ps);
        return;
      }
      ClearingStep(cfg, l, t, before, t', v, s, x, ps);
      StarvingStep(cfg, l, t, before, t', free, v, s, x, ps);
      MulMono(1, ps, below);
      Distribute(x - v, ps, below);
      reached := x + ps;
      if ps > n { break; }
      x, n := x + ps, n - ps;
    }
    ok := true;
    ClearingEnds(cfg, l, t, t', v, s, reached);
    StarvingEnds(cfg, l, t, t', free, v, s, reached);
  }
}
