/** Multi-level page tables as trees: geometry, well-formedness, translation
    and the two measures (table pages, leaves) the paging proofs rest on.

    All numbers are page numbers: one unit is PAGE_SIZE bytes.  Level sizes are
    powers of two in every supported mode, so the masks of the C code are the
    remainders and quotients written here. */
module PageTree {
  import opened Common
  import opened Arith

  /** One element of a `struct paging` array: `span` is what one entry covers,
      `terminal` says that the level has a nonzero page_size (then equal to span). */
  datatype Level = Level(entries: nat, span: nat, terminal: bool)

  datatype Entry = Invalid | Leaf(phys: nat, flags: nat) | Table(sub: seq<Entry>)

  /** A terminal entry seen from the table it is looked up in. */
  datatype LeafInfo = LeafInfo(start: nat, size: nat, phys: nat, flags: nat)

  predicate ValidConfig(cfg: seq<Level>) {
    && |cfg| > 0
    && (forall i | 0 <= i < |cfg| :: cfg[i].entries >= 2 && cfg[i].span >= 1)
    && cfg[|cfg| - 1].span == 1
    && cfg[|cfg| - 1].terminal
    && (forall i | 0 <= i < |cfg| - 1 :: Nested(cfg, i))
  }

  /** An entry of level i covers exactly one table of level i + 1. */
  predicate Nested(cfg: seq<Level>, i: nat)
    requires i < |cfg| - 1
  {
    cfg[i].span == Coverage(cfg, i + 1)
  }

  /** Below a level with pages of its own, every level has pages. */
  predicate Gapless(cfg: seq<Level>) {
    forall i | 0 <= i < |cfg| - 1 :: cfg[i].terminal ==> cfg[i + 1].terminal
  }

  function Coverage(cfg: seq<Level>, l: nat): nat
    requires l < |cfg|
  {
    cfg[l].entries * cfg[l].span
  }

  /** A level of a valid configuration. */
  predicate At(cfg: seq<Level>, l: nat) {
    ValidConfig(cfg) && l < |cfg|
  }

  // ----- geometry -----

  function Idx(cfg: seq<Level>, l: nat, a: nat): (i: nat)
    requires At(cfg, l) && a < Coverage(cfg, l)
    ensures i < cfg[l].entries
  {
    DivBound(a, cfg[l].entries, cfg[l].span);
    a / cfg[l].span
  }

  function Rem(cfg: seq<Level>, l: nat, a: nat): (r: nat)
    requires At(cfg, l)
    ensures r < cfg[l].span && r <= a
  {
    a % cfg[l].span
  }

  function Base(cfg: seq<Level>, l: nat, a: nat): (b: nat)
    requires At(cfg, l)
  {
    a - Rem(cfg, l, a)
  }

  /** The addresses that share b's entry are those of one span-sized block. */
  lemma SameEntry(cfg: seq<Level>, l: nat, a: nat, b: nat)
    requires At(cfg, l) && a < Coverage(cfg, l) && b < Coverage(cfg, l)
    ensures Idx(cfg, l, a) == Idx(cfg, l, b) <==> Base(cfg, l, b) <= a < Base(cfg, l, b) + cfg[l].span
    ensures Idx(cfg, l, a) == Idx(cfg, l, b) ==> Rem(cfg, l, a) == a - Base(cfg, l, b)
  {
    DivRange(a, b, cfg[l].span);
  }

  /** Entry blocks lie inside the table's coverage. */
  lemma BlockInside(cfg: seq<Level>, l: nat, b: nat)
    requires At(cfg, l) && b < Coverage(cfg, l)
    ensures Base(cfg, l, b) + cfg[l].span <= Coverage(cfg, l)
  {
    var q, d, n := Idx(cfg, l, b), cfg[l].span, cfg[l].entries;
    assert b == q * d + b % d;
    MulMono(q + 1, n, d);
  }

  lemma EntryStart(cfg: seq<Level>, l: nat, i: nat, r: nat) returns (a: nat)
    requires At(cfg, l) && i < cfg[l].entries && r < cfg[l].span
    ensures a == i * cfg[l].span + r && a < Coverage(cfg, l)
    ensures Idx(cfg, l, a) == i && Rem(cfg, l, a) == r
  {
    var d := cfg[l].span;
    a := i * d + r;
    MulMono(i + 1, cfg[l].entries, d);
    DivUnique(a, i, r, d);
  }

  /** A multiple of one level's span is a multiple of the next one's. */
  lemma AlignedBelow(cfg: seq<Level>, l: nat, p: nat)
    requires At(cfg, l + 1) && p % cfg[l].span == 0
    ensures p % cfg[l + 1].span == 0
  {
    SpanShrinks(cfg, l);
    MultipleOfProduct(p, cfg[l + 1].entries, cfg[l + 1].span);
  }

  lemma {:induction false} AlignedDown(cfg: seq<Level>, l: nat, j: nat, v: nat)
    requires At(cfg, l) && l <= j < |cfg| && v % cfg[l].span == 0
    ensures v % cfg[j].span == 0
    decreases j - l
  {
    if l < j {
      AlignedBelow(cfg, l, v);
      AlignedDown(cfg, l + 1, j, v);
    }
  }

  /** Spans at least halve from level to level. */
  lemma SpanShrinks(cfg: seq<Level>, l: nat)
    requires At(cfg, l + 1)
    ensures cfg[l].span == Coverage(cfg, l + 1) >= 2 * cfg[l + 1].span
    ensures cfg[l].span > 1
  {
    assert Nested(cfg, l);
    MulMono(2, cfg[l + 1].entries, cfg[l + 1].span);
  }

  lemma NotLast(cfg: seq<Level>, l: nat)
    requires At(cfg, l)
    ensures cfg[l].span > 1 <==> l + 1 < |cfg|
  {
    if l + 1 < |cfg| {
      SpanShrinks(cfg, l);
    }
  }

  /** The first level from l on that has pages. */
  function FirstTerminal(cfg: seq<Level>, l: nat): (m: nat)
    requires At(cfg, l)
    ensures l <= m < |cfg| && cfg[m].terminal
    decreases |cfg| - l
  {
    if cfg[l].terminal then l else FirstTerminal(cfg, l + 1)
  }

  /** What is aligned to a lower level's span is so within its entry. */
  lemma RemAligned(cfg: seq<Level>, l: nat, j: nat, o: nat)
    requires At(cfg, l) && l <= j < |cfg| && o % cfg[j].span == 0
    ensures Rem(cfg, l, o) % cfg[j].span == 0
  {
    var q, r := QuotientAndRest(o, cfg[l].span);
    DivUnique(q * cfg[l].span, q, 0, cfg[l].span);
    AlignedDown(cfg, l, j, q * cfg[l].span);
    var k, z := QuotientAndRest(q * cfg[l].span, cfg[j].span);
    ModShift(k, r, cfg[j].span);
  }

  /** A table's coverage is a multiple of every span below. */
  lemma CoverageAligned(cfg: seq<Level>, l: nat, j: nat)
    requires At(cfg, l) && l <= j < |cfg|
    ensures Coverage(cfg, l) % cfg[j].span == 0
  {
    DivUnique(Coverage(cfg, l), cfg[l].entries, 0, cfg[l].span);
    AlignedDown(cfg, l, j, Coverage(cfg, l));
  }

  // ----- trees -----

  predicate WF(cfg: seq<Level>, l: nat, t: seq<Entry>)
    requires At(cfg, l)
    decreases |cfg| - l, 1
  {
    |t| == cfg[l].entries && forall i | 0 <= i < |t| :: WFEntry(cfg, l, t[i])
  }

  predicate WFEntry(cfg: seq<Level>, l: nat, e: Entry)
    requires At(cfg, l)
    decreases |cfg| - l, 0
  {
    match e
    case Invalid => true
    case Leaf(p, _) => cfg[l].terminal && p % cfg[l].span == 0
    case Table(sub) => l + 1 < |cfg| && WF(cfg, l + 1, sub)
  }

  function Blank(cfg: seq<Level>, l: nat): (t: seq<Entry>)
    requires At(cfg, l)
    ensures WF(cfg, l, t) && IsBlank(t)
  {
    seq(cfg[l].entries, _ => Invalid)
  }

  /** page_table_empty */
  predicate IsBlank(t: seq<Entry>) {
    forall i | 0 <= i < |t| :: t[i].Invalid?
  }

  /** No table below the root is empty. */
  predicate Pruned(t: seq<Entry>)
    decreases t
  {
    forall i | 0 <= i < |t| :: PrunedEntry(t[i])
  }

  predicate PrunedEntry(e: Entry)
    decreases e
  {
    e.Table? ==> !IsBlank(e.sub) && Pruned(e.sub)
  }

  /** Number of table pages below the root. */
  function Tables(t: seq<Entry>): nat
    decreases t
  {
    if t == [] then 0 else Weight(t[0]) + Tables(t[1..])
  }

  function Weight(e: Entry): nat
    decreases e
  {
    if e.Table? then 1 + Tables(e.sub) else 0
  }

  lemma TablesUpdate(t: seq<Entry>, i: nat, e: Entry)
    requires i < |t|
    ensures Tables(t[i := e]) + Weight(t[i]) == Tables(t) + Weight(e)
    decreases i
  {
    if i == 0 {
      assert t[i := e][1..] == t[1..];
    } else {
      TablesUpdate(t[1..], i - 1, e);
      assert t[i := e][1..] == t[1..][i - 1 := e];
    }
  }

  lemma TablesBlank(t: seq<Entry>)
    requires IsBlank(t)
    ensures Tables(t) == 0
  {
    if t != [] {
      TablesBlank(t[1..]);
    }
  }

  /** What paging_virt2phys finds for address a below a table of level l. */
  function Lookup(cfg: seq<Level>, l: nat, t: seq<Entry>, a: nat): Option<Mapping>
    requires At(cfg, l) && WF(cfg, l, t) && a < Coverage(cfg, l)
    decreases |cfg| - l
  {
    match t[Idx(cfg, l, a)]
    case Invalid => None
    case Leaf(p, f) => Some(Mapping(p + Rem(cfg, l, a), f))
    case Table(sub) =>
      assert WFEntry(cfg, l, t[Idx(cfg, l, a)]);
      SpanShrinks(cfg, l);
      Lookup(cfg, l + 1, sub, Rem(cfg, l, a))
  }

  /** The terminal entry an address lies in. */
  function LeafAt(cfg: seq<Level>, l: nat, t: seq<Entry>, a: nat): (r: Option<LeafInfo>)
    requires At(cfg, l) && WF(cfg, l, t) && a < Coverage(cfg, l)
    ensures r.Some? ==> r.value.start <= a < r.value.start + r.value.size
    ensures r.Some? ==> 1 <= r.value.size <= cfg[l].span
    ensures r.Some? ==> Base(cfg, l, a) <= r.value.start
    ensures r.Some? ==> r.value.start + r.value.size <= Base(cfg, l, a) + cfg[l].span
    ensures r.None? <==> Lookup(cfg, l, t, a).None?
    ensures r.Some? ==> Lookup(cfg, l, t, a) == Some(Mapping(r.value.phys + (a - r.value.start), r.value.flags))
    decreases |cfg| - l
  {
    var e := t[Idx(cfg, l, a)];
    match e
    case Invalid => None
    case Leaf(p, f) => Some(LeafInfo(Base(cfg, l, a), cfg[l].span, p, f))
    case Table(sub) =>
      assert WFEntry(cfg, l, e);
      SpanShrinks(cfg, l);
      BlockInside(cfg, l + 1, Rem(cfg, l, a));
      match LeafAt(cfg, l + 1, sub, Rem(cfg, l, a))
      case None => None
      case Some(x) => Some(x.(start := x.start + Base(cfg, l, a)))
  }

  function Shift(x: Option<LeafInfo>, d: nat): Option<LeafInfo> {
    if x.None? then None else Some(x.value.(start := x.value.start + d))
  }

  lemma LeafBelow(cfg: seq<Level>, l: nat, t: seq<Entry>, a: nat, m: nat, sub: seq<Entry>)
    requires At(cfg, l) && WF(cfg, l, t) && a < Coverage(cfg, l) && m == l + 1 && At(cfg, m) && WF(cfg, m, sub)
    requires t[Idx(cfg, l, a)] == Table(sub) || (t[Idx(cfg, l, a)].Invalid? && IsBlank(sub))
    ensures Rem(cfg, l, a) < Coverage(cfg, m)
    ensures LeafAt(cfg, l, t, a) == Shift(LeafAt(cfg, m, sub, Rem(cfg, l, a)), Base(cfg, l, a))
  {
    SpanShrinks(cfg, l);
  }

  /** The same for page r of entry i. */
  lemma LeafOfEntry(cfg: seq<Level>, l: nat, t: seq<Entry>, i: nat, r: nat, m: nat, sub: seq<Entry>)
    requires At(cfg, l) && WF(cfg, l, t) && m == l + 1 && At(cfg, m) && WF(cfg, m, sub)
    requires i < |t| && t[i] == Table(sub) && r < Coverage(cfg, m)
    ensures i * cfg[l].span + r < Coverage(cfg, l)
    ensures LeafAt(cfg, l, t, i * cfg[l].span + r) == Shift(LeafAt(cfg, m, sub, r), i * cfg[l].span)
  {
    hide LeafAt, Lookup, WFEntry;
    SpanShrinks(cfg, l);
    var a := EntryStart(cfg, l, i, r);
    LeafBelow(cfg, l, t, a, m, sub);
  }

  lemma LeafSame(cfg: seq<Level>, l: nat, t: seq<Entry>, u: seq<Entry>, a: nat)
    requires At(cfg, l) && WF(cfg, l, t) && WF(cfg, l, u) && a < Coverage(cfg, l)
    requires t[Idx(cfg, l, a)] == u[Idx(cfg, l, a)]
    ensures LeafAt(cfg, l, t, a) == LeafAt(cfg, l, u, a)
  {
  }

  /** A pruned table with a valid entry maps something. */
  lemma {:induction false} LeafExists(cfg: seq<Level>, l: nat, t: seq<Entry>) returns (a: nat)
    requires At(cfg, l) && WF(cfg, l, t) && Pruned(t) && !IsBlank(t)
    ensures a < Coverage(cfg, l) && LeafAt(cfg, l, t, a).Some?
    decreases |cfg| - l
  {
    var i :| 0 <= i < |t| && !t[i].Invalid?;
    assert WFEntry(cfg, l, t[i]) && PrunedEntry(t[i]);
    if t[i].Table? {
      SpanShrinks(cfg, l);
      var r := LeafExists(cfg, l + 1, t[i].sub);
      a := EntryStart(cfg, l, i, r);
    } else {
      a := EntryStart(cfg, l, i, 0);
    }
  }

  /** A pruned tree is determined by its leaves. */
  lemma {:induction false} LeavesDetermineTree(cfg: seq<Level>, l: nat, t: seq<Entry>, u: seq<Entry>)
    requires At(cfg, l) && WF(cfg, l, t) && WF(cfg, l, u) && Pruned(t) && Pruned(u)
    requires forall a | 0 <= a < Coverage(cfg, l) :: LeafAt(cfg, l, t, a) == LeafAt(cfg, l, u, a)
    ensures t == u
    decreases |cfg| - l
  {
    forall i | 0 <= i < |t| ensures t[i] == u[i] {
      LeavesDetermineEntry(cfg, l, t, u, i);
    }
  }

  lemma {:induction false} LeavesDetermineEntry(cfg: seq<Level>, l: nat, t: seq<Entry>, u: seq<Entry>, i: nat)
    requires At(cfg, l) && WF(cfg, l, t) && WF(cfg, l, u) && Pruned(t) && Pruned(u) && i < |t|
    requires forall a | 0 <= a < Coverage(cfg, l) :: LeafAt(cfg, l, t, a) == LeafAt(cfg, l, u, a)
    ensures t[i] == u[i]
    decreases |cfg| - l, 0
  {
    hide Lookup, LeafAt, Coverage;
    assert WFEntry(cfg, l, t[i]) && PrunedEntry(t[i]);
    assert WFEntry(cfg, l, u[i]) && PrunedEntry(u[i]);
    if t[i].Table? && u[i].Table? {
      SpanShrinks(cfg, l);
      var m, x, y := l + 1, t[i].sub, u[i].sub;
      forall r | 0 <= r < Coverage(cfg, m) ensures LeafAt(cfg, m, x, r) == LeafAt(cfg, m, y, r) {
        var a := EntryStart(cfg, l, i, r);
        LeafBelow(cfg, l, t, a, m, x);
        LeafBelow(cfg, l, u, a, m, y);
      }
      LeavesDetermineTree(cfg, m, x, y);
    } else if t[i].Table? {
      TableDiffers(cfg, l, t, u, i);
    } else if u[i].Table? {
      TableDiffers(cfg, l, u, t, i);
    } else {
      TerminalsDiffer(cfg, l, t, u, i);
    }
  }

  lemma TerminalsDiffer(cfg: seq<Level>, l: nat, t: seq<Entry>, u: seq<Entry>, i: nat)
    requires At(cfg, l) && WF(cfg, l, t) && WF(cfg, l, u) && i < |t|
    requires !t[i].Table? && !u[i].Table?
    ensures t[i] == u[i] || exists a | 0 <= a < Coverage(cfg, l) :: LeafAt(cfg, l, t, a) != LeafAt(cfg, l, u, a)
  {
    hide Lookup;
    var c := EntryStart(cfg, l, i, 0);
    assert t[i] == u[i] || LeafAt(cfg, l, t, c) != LeafAt(cfg, l, u, c);
  }

  lemma TableDiffers(cfg: seq<Level>, l: nat, t: seq<Entry>, u: seq<Entry>, i: nat)
    requires At(cfg, l) && WF(cfg, l, t) && WF(cfg, l, u) && Pruned(t) && i < |t|
    requires t[i].Table? && !u[i].Table?
    ensures exists a | 0 <= a < Coverage(cfg, l) :: LeafAt(cfg, l, t, a) != LeafAt(cfg, l, u, a)
  {
    assert WFEntry(cfg, l, t[i]) && PrunedEntry(t[i]);
    SpanShrinks(cfg, l);
    var r := LeafExists(cfg, l + 1, t[i].sub);
    var a := EntryStart(cfg, l, i, r);
    assert LeafAt(cfg, l, t, a).Some? && LeafAt(cfg, l, t, a).value.size <= cfg[l + 1].span;
  }

  // ----- which block paging_destroy clears first -----

  datatype Block = Block(start: nat, size: nat)

  /** The block of the first level from l on whose pages exist and fit into s. */
  function FitBlock(cfg: seq<Level>, l: nat, o: nat, s: nat): (b: Block)
    requires At(cfg, l) && o < Coverage(cfg, l) && s >= 1
    ensures b.start <= o < b.start + b.size && 1 <= b.size <= s
    ensures Base(cfg, l, o) <= b.start && b.start + b.size <= Base(cfg, l, o) + cfg[l].span
    decreases |cfg| - l
  {
    if cfg[l].terminal && cfg[l].span <= s then Block(Base(cfg, l, o), cfg[l].span)
    else
      NotLast(cfg, l);
      SpanShrinks(cfg, l);
      BlockInside(cfg, l + 1, Rem(cfg, l, o));
      var b := FitBlock(cfg, l + 1, Rem(cfg, l, o), s);
      b.(start := b.start + Base(cfg, l, o))
  }

  /** The block around o that one round of paging_destroy with s pages left clears:
      the page o lies in, or the part of it that splitting leaves. */
  function ClearBlock(cfg: seq<Level>, l: nat, t: seq<Entry>, o: nat, s: nat): (b: Block)
    requires At(cfg, l) && WF(cfg, l, t) && o < Coverage(cfg, l) && s >= 1
    requires Lookup(cfg, l, t, o).Some?
    ensures b.start <= o < b.start + b.size && 1 <= b.size <= s
    ensures Base(cfg, l, o) <= b.start && b.start + b.size <= Base(cfg, l, o) + cfg[l].span
    decreases |cfg| - l
  {
    var e := t[Idx(cfg, l, o)];
    if e.Leaf? then FitBlock(cfg, l, o, s)
    else
      assert WFEntry(cfg, l, e);
      SpanShrinks(cfg, l);
      BlockInside(cfg, l + 1, Rem(cfg, l, o));
      var b := ClearBlock(cfg, l + 1, e.sub, Rem(cfg, l, o), s);
      b.(start := b.start + Base(cfg, l, o))
  }
}
