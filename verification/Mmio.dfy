/** The per-cell MMIO region index (hypervisor/mmio.c): a sorted array that is searched
    without a lock and therefore updated store by store in an order that never shows a
    half-written region. */
module Mmio {

  const WORD: nat := 0x1_0000_0000_0000_0000   // unsigned long

  datatype Location = Location(start: nat, size: nat)
  datatype Handler = Handler(func: nat, arg: nat)

  /** What one index of mmio_locations and mmio_handlers holds together. */
  datatype Region = Region(loc: Location, hnd: Handler) {
    function End(): nat {
      loc.start + loc.size
    }

    /** The whole access [address, address + size) lies in the region. */
    predicate Contains(address: nat, size: nat) {
      loc.start <= address && address + size <= End()
    }

    /** What find_region tests: the end of the access wraps around at 2^64. */
    predicate Hit(address: nat, size: nat) {
      loc.start <= address && (address + size) % WORD <= End()
    }
  }

  /** What a concurrent reader can see between two stores. */
  datatype View = View(num: nat, slots: seq<Region>)

  // ----- sorted tables -----

  ghost predicate Sorted(rs: seq<Region>) {
    forall i, j | 0 <= i < j < |rs| :: rs[i].End() <= rs[j].loc.start
  }

  /** Non-empty and not reaching the end of the address space. */
  ghost predicate Regular(r: Region) {
    r.loc.size > 0 && r.End() < WORD
  }

  ghost predicate Table(rs: seq<Region>) {
    Sorted(rs) && forall i | 0 <= i < |rs| :: Regular(rs[i])
  }

  predicate Apart(r: Region, q: Region) {
    r.End() <= q.loc.start || q.End() <= r.loc.start
  }

  function Insert(rs: seq<Region>, k: nat, r: Region): seq<Region>
    requires k <= |rs|
  {
    rs[..k] + [r] + rs[k..]
  }

  function Remove(rs: seq<Region>, k: nat): seq<Region>
    requires k < |rs|
  {
    rs[..k] + rs[k + 1..]
  }

  /** k is where mmio_region_register looks: before the first region that starts later. */
  predicate InsertionPoint(rs: seq<Region>, start: nat, k: nat) {
    && k <= |rs| && (forall i | 0 <= i < k :: rs[i].loc.start <= start)
    && (k < |rs| ==> rs[k].loc.start > start)
  }

  lemma InsertSorted(rs: seq<Region>, k: nat, r: Region)
    requires Table(rs) && Regular(r) && InsertionPoint(rs, r.loc.start, k)
    requires forall i | 0 <= i < |rs| :: Apart(r, rs[i])
    ensures Table(Insert(rs, k, r))
  {
    var t := Insert(rs, k, r);
    forall i | 0 <= i < |rs| ensures if i < k then rs[i].End() <= r.loc.start else r.End() <= rs[i].loc.start {
      assert Apart(r, rs[i]);
      if i > k {
        assert rs[k].End() <= rs[i].loc.start;
      }
    }
    forall i, j | 0 <= i < j < |t| ensures t[i].End() <= t[j].loc.start {
    }
  }

  /** A registered region keeps the table sorted and disjoint exactly if it is regular and apart. */
  lemma InsertSortedIff(rs: seq<Region>, k: nat, r: Region)
    requires Table(rs) && InsertionPoint(rs, r.loc.start, k)
    ensures Table(Insert(rs, k, r)) <==> Regular(r) && forall q <- rs :: Apart(r, q)
  {
    var t := Insert(rs, k, r);
    assert t[k] == r && forall i | 0 <= i < |rs| :: rs[i] == t[if i < k then i else i + 1];
    if Regular(r) && forall q <- rs :: Apart(r, q) {
      InsertSorted(rs, k, r);
    }
  }

  /** The test is containment unless the access wraps around; then it can hit regions that do not
      contain it. */
  lemma HitIsContains(r: Region, address: nat, size: nat)
    requires Regular(r) && address < WORD && size < WORD
    ensures address + size < WORD ==> (r.Hit(address, size) <==> r.Contains(address, size))
    ensures address + size >= WORD ==>
              && !r.Contains(address, size)
              && (r.Hit(address, size) <==> r.loc.start <= address && address + size - WORD <= r.End())
  {
  }

  lemma RemoveSorted(rs: seq<Region>, k: nat)
    requires Table(rs) && k < |rs|
    ensures Table(Remove(rs, k))
  {
  }

  /** At most one region of a table contains a given non-empty access. */
  lemma ContainsUnique(rs: seq<Region>, i: nat, j: nat, address: nat, size: nat)
    requires Table(rs) && i < |rs| && j < |rs| && size > 0
    requires rs[i].Contains(address, size) && rs[j].Contains(address, size)
    ensures i == j
  {
  }

  // ----- the search, on any table a reader may see -----

  datatype Side = Lower | Higher | Here

  /** Where the search goes on from a region: to lower or to higher ones, or nowhere. */
  function Compare(loc: Location, address: nat, size: nat): Side {
    if address < loc.start then Lower
    else if (loc.start + loc.size) % WORD < (address + size) % WORD then Higher
    else Here
  }

  /** find_region on n slots from lo on. */
  function Search(rs: seq<Region>, lo: nat, n: nat, address: nat, size: nat): (r: int)
    requires lo + n <= |rs|
    ensures r == -1 || lo <= r < lo + n
    decreases n
  {
    if n == 0 then -1
    else
      var i := lo + n / 2;
      match Compare(rs[i].loc, address, size)
      case Lower => Search(rs, lo, i - lo, address, size)
      case Higher => Search(rs, i + 1, n - (i + 1 - lo), address, size)
      case Here => i
  }

  lemma SearchStep(rs: seq<Region>, lo: nat, n: nat, address: nat, size: nat)
    requires lo + n <= |rs|
    ensures n == 0 ==> Search(rs, lo, n, address, size) == -1
    ensures n > 0 ==>
              var i := lo + n / 2;
              Search(rs, lo, n, address, size) ==
                match Compare(rs[i].loc, address, size)
                case Lower => Search(rs, lo, i - lo, address, size)
                case Higher => Search(rs, i + 1, n - (i + 1 - lo), address, size)
                case Here => i
  {
    hide Compare;
  }

  /** Sorted, with empty slots allowed. */
  ghost predicate Searchable(rs: seq<Region>) {
    Sorted(rs) && forall i | 0 <= i < |rs| :: rs[i].End() < WORD
  }

  lemma LeftOut(rs: seq<Region>, i: nat, address: nat, size: nat)
    requires Searchable(rs) && i < |rs| && address < rs[i].loc.start
    ensures forall j | i <= j < |rs| :: !rs[j].Hit(address, size)
  {
  }

  lemma RightOut(rs: seq<Region>, i: nat, address: nat, size: nat)
    requires Searchable(rs) && i < |rs| && rs[i].End() < (address + size) % WORD
    ensures forall j | 0 <= j <= i :: !rs[j].Hit(address, size)
  {
    forall j | 0 <= j < i ensures rs[j].End() <= rs[i].loc.start {
    }
  }

  /** The search ends at a slot that is hit, if there is one. */
  lemma {:induction false} SearchHits(rs: seq<Region>, lo: nat, n: nat, address: nat, size: nat)
    requires Searchable(rs) && lo + n <= |rs|
    ensures var r := Search(rs, lo, n, address, size);
      if r >= 0 then rs[r].Hit(address, size) else forall i | lo <= i < lo + n :: !rs[i].Hit(address, size)
    decreases n
  {
    hide Searchable, Search, Compare;
    SearchStep(rs, lo, n, address, size);
    if n > 0 {
      var i := lo + n / 2;
      CompareMeans(rs, i, address, size);
      match Compare(rs[i].loc, address, size) {
        case Lower =>
          SearchHits(rs, lo, i - lo, address, size);
        case Higher =>
          SearchHits(rs, i + 1, n - (i + 1 - lo), address, size);
        case Here =>
      }
    }
  }

  lemma CompareMeans(rs: seq<Region>, i: nat, address: nat, size: nat)
    requires Searchable(rs) && i < |rs|
    ensures match Compare(rs[i].loc, address, size)
            case Lower => forall j | i <= j < |rs| :: !rs[j].Hit(address, size)
            case Higher => forall j | 0 <= j <= i :: !rs[j].Hit(address, size)
            case Here => rs[i].Hit(address, size)
  {
    EndSmall(rs, i);
    match Compare(rs[i].loc, address, size) {
      case Lower =>
        LeftOut(rs, i, address, size);
      case Higher =>
        RightOut(rs, i, address, size);
      case Here =>
    }
  }

  lemma EndSmall(rs: seq<Region>, i: nat)
    requires Searchable(rs) && i < |rs|
    ensures rs[i].End() % WORD == rs[i].End()
  {
  }

  /** For a non-empty access that does not wrap around, that is the one slot that contains it. */
  lemma SearchFinds(rs: seq<Region>, address: nat, size: nat)
    requires Searchable(rs) && size > 0 && address + size < WORD
    ensures forall i | 0 <= i < |rs| :: Search(rs, 0, |rs|, address, size) == i <==> rs[i].Contains(address, size)
  {
    hide Search;
    SearchHits(rs, 0, |rs|, address, size);
    var r := Search(rs, 0, |rs|, address, size);
    forall i | 0 <= i < |rs| ensures r == i <==> rs[i].Contains(address, size) {
      assert rs[i].Hit(address, size) <==> rs[i].Contains(address, size);
      if r >= 0 && r < i {
        assert rs[r].End() <= rs[i].loc.start;
      } else if i < r {
        assert rs[i].End() <= rs[r].loc.start;
      }
    }
  }

  /** A reader of the view finds what it would find among the regions. */
  ghost predicate SearchesLike(v: View, olds: seq<Region>) {
    && v.num <= |v.slots|
    && forall address: nat, size: nat | size > 0 && address + size < WORD ::
         Search(v.slots[..v.num], 0, v.num, address, size) == Search(olds, 0, |olds|, address, size)
  }

  /** An empty slot at the last address behind the regions does not disturb the search. */
  lemma DummySearchesLike(v: View, olds: seq<Region>)
    requires Table(olds) && v.num == |olds| + 1 <= |v.slots| && v.slots[..|olds|] == olds
    requires v.slots[|olds|].loc == Location(WORD - 1, 0)
    ensures SearchesLike(v, olds)
  {
    hide Search;
    var rs := v.slots[..v.num];
    assert rs == olds + [v.slots[|olds|]];
    forall address: nat, size: nat | size > 0 && address + size < WORD
      ensures Search(rs, 0, v.num, address, size) == Search(olds, 0, |olds|, address, size)
    {
      DummyFinds(olds, v.slots[|olds|], address, size);
    }
  }

  lemma DummyFinds(olds: seq<Region>, dummy: Region, address: nat, size: nat)
    requires Table(olds) && dummy.loc == Location(WORD - 1, 0) && size > 0 && address + size < WORD
    ensures Search(olds + [dummy], 0, |olds| + 1, address, size) == Search(olds, 0, |olds|, address, size)
  {
    hide Search;
    var rs := olds + [dummy];
    assert Searchable(olds) && Searchable(rs);
    SearchFinds(rs, address, size);
    SearchFinds(olds, address, size);
    var r, q := Search(rs, 0, |rs|, address, size), Search(olds, 0, |olds|, address, size);
    assert r >= 0 ==> rs[r].Contains(address, size);
    assert q >= 0 ==> rs[q].Contains(address, size);
  }

  lemma PlainSearchesLike(v: View, olds: seq<Region>)
    requires v.num == |olds| <= |v.slots| && v.slots[..v.num] == olds
    ensures SearchesLike(v, olds)
  {
  }

  /** index is a region that is hit, or -1 if none is; for a non-empty access that does not wrap around,
      it is i exactly when region i contains the whole access. */
  ghost predicate Found(rs: seq<Region>, index: int, address: nat, size: nat) {
    && -1 <= index < |rs|
    && (index >= 0 ==> rs[index].Hit(address, size))
    && (index < 0 ==> forall i | 0 <= i < |rs| :: !rs[i].Hit(address, size))
    && (size > 0 && address + size < WORD ==>
          forall i | 0 <= i < |rs| :: index == i <==> rs[i].Contains(address, size))
  }

  // ----- what readers see while a region is registered -----

  /** Every visible slot of nonzero size is a complete region, and no earlier region is lost. */
  ghost predicate Consistent(v: View, olds: seq<Region>, new_: Region) {
    && v.num <= |v.slots|
    && (forall i | 0 <= i < v.num && v.slots[i].loc.size != 0 :: v.slots[i] in olds || v.slots[i] == new_)
    && (forall r <- olds :: exists i | 0 <= i < v.num :: v.slots[i] == r)
  }

  /** All slots but k hold the old regions in order; k is in transit. */
  ghost predicate Around(v: View, olds: seq<Region>, k: nat) {
    && v.num == |olds| + 1 <= |v.slots| && k <= |olds|
    && (forall j | 0 <= j < k :: v.slots[j] == olds[j])
    && (forall j | k < j <= |olds| :: v.slots[j] == olds[j - 1])
  }

  lemma AroundConsistent(v: View, olds: seq<Region>, new_: Region, k: nat)
    requires Around(v, olds, k) && (v.slots[k].loc.size == 0 || v.slots[k] in olds || v.slots[k] == new_)
    ensures Consistent(v, olds, new_)
  {
    forall r | r in olds ensures exists i | 0 <= i < v.num :: v.slots[i] == r {
      var j :| 0 <= j < |olds| && olds[j] == r;
      assert v.slots[if j < k then j else j + 1] == r;
    }
  }

  // ----- what readers see while a region is unregistered -----

  /** Every visible slot of nonzero size is one of the regions, and none but the k-th is lost. */
  ghost predicate Kept(v: View, olds: seq<Region>, k: nat) {
    && v.num <= |v.slots|
    && (forall i | 0 <= i < v.num && v.slots[i].loc.size != 0 :: v.slots[i] in olds)
    && (forall j | 0 <= j < |olds| && j != k :: SeenIn(v, olds[j]))
  }

  ghost predicate SeenIn(v: View, r: Region) {
    v.num <= |v.slots| && exists i | 0 <= i < v.num :: v.slots[i] == r
  }

  /** The regions behind k have moved down as far as slot `index`, which is in transit. */
  ghost predicate Closing(v: View, olds: seq<Region>, k: nat, index: nat) {
    && v.num == |olds| <= |v.slots| && k <= index < |olds|
    && (forall j | 0 <= j < k :: v.slots[j] == olds[j])
    && (forall j | k <= j < index :: v.slots[j] == olds[j + 1])
    && (forall j | index < j < |olds| :: v.slots[j] == olds[j])
  }

  lemma ClosingKept(v: View, olds: seq<Region>, k: nat, index: nat)
    requires Closing(v, olds, k, index)
    ensures Kept(v, olds, k) <==> v.slots[index].loc.size == 0 || v.slots[index] in olds
  {
    forall j | 0 <= j < |olds| && j != k ensures SeenIn(v, olds[j]) {
      assert v.slots[if k < j <= index then j - 1 else j] == olds[j];
    }
  }

  /** Between the stores of one copy to slot `index`. */
  lemma KeptDuring(vs: seq<View>, num: nat, slots: seq<Region>, k: nat, index: nat, x: Region, olds: seq<Region>)
    requires Closing(View(num, slots), olds, k, index) && vs != [] && vs[|vs| - 1] == View(num, slots[index := x])
    requires forall i | 0 <= i < |vs| :: InTransit(vs[i], num, slots, index, x)
    ensures (forall i | 0 <= i < |vs| :: Kept(vs[i], olds, k)) <==> x.loc.size == 0 || x in olds
  {
    forall i | 0 <= i < |vs|
      ensures Kept(vs[i], olds, k) <==> vs[i].slots[index].loc.size == 0 || vs[i].slots[index] in olds
    {
      ClosingKept(vs[i], olds, k, index);
    }
    assert vs[|vs| - 1].slots[index] == x;
  }

  lemma RemovedKept(v: View, olds: seq<Region>, k: nat)
    requires k < |olds| && v.num + 1 == |olds| <= |v.slots| && v.slots[..v.num] == Remove(olds, k)
    ensures Kept(v, olds, k)
  {
    forall i | 0 <= i < v.num ensures v.slots[i] in olds {
      assert v.slots[i] == v.slots[..v.num][i] == olds[if i < k then i else i + 1];
    }
    forall j | 0 <= j < |olds| && j != k ensures SeenIn(v, olds[j]) {
      var i := if j < k then j else j - 1;
      assert v.slots[i] == v.slots[..v.num][i] == olds[j];
    }
  }

  datatype Result = Unhandled | Dispatch(func: nat, arg: nat, offset: nat)

  class MmioCell {
    const max: nat
    const locations: array<Location>   // one more slot: the memory behind the arrays
    const handlers: array<Handler>
    var num: nat
    ghost var trace: seq<View>         // what was visible after each store so far

    ghost predicate Shape() {
      locations.Length == handlers.Length == max + 1
    }

    ghost function Slots(): (s: seq<Region>)
      requires Shape()
      reads locations, handlers
      ensures |s| == max + 1
    {
      seq(max + 1, i requires 0 <= i <= max && Shape() reads locations, handlers => Region(locations[i], handlers[i]))
    }

    ghost predicate Valid()
      reads this, locations, handlers
    {
      Shape() && num <= max && Table(Slots()[..num])
    }

    /** The registered regions in address order. */
    ghost function Regions(): seq<Region>
      requires Shape() && num <= max
      reads this, locations, handlers
    {
      Slots()[..num]
    }

    /** Nothing with a size lies behind the registered regions. */
    ghost predicate Clean()
      reads this, locations, handlers
    {
      Shape() && num <= max && forall i | num <= i <= max :: Slots()[i].loc.size == 0
    }

    /** mmio_cell_init on zeroed pages; `behind` is what a read behind the arrays finds. */
    constructor (max: nat, behind: Region)
      ensures Valid() && num == 0 && this.max == max && fresh(locations) && fresh(handlers)
      ensures Slots()[max] == behind && (behind.loc.size == 0 ==> Clean())
    {
      this.max := max;
      locations := new Location[max + 1](i => if i < max then Location(0, 0) else behind.loc);
      handlers := new Handler[max + 1](i => if i < max then Handler(0, 0) else behind.hnd);
      num, trace := 0, [];
    }

    // The single stores; each one leaves a view behind.

    method SetSize(i: nat, size: nat)
      requires Shape() && i <= max
      modifies locations, this`trace
      ensures Slots() == old(Slots())[i := old(Slots()[i]).(loc := Location(old(locations[i].start), size))]
      ensures trace == old(trace) + [View(num, Slots())]
    {
      ghost var was := Slots();
      locations[i] := locations[i].(size := size);
      assert Slots() == was[i := was[i].(loc := Location(was[i].loc.start, size))];
      trace := trace + [View(num, Slots())];
    }

    method SetStart(i: nat, start: nat)
      requires Shape() && i <= max
      modifies locations, this`trace
      ensures Slots() == old(Slots())[i := old(Slots()[i]).(loc := Location(start, old(locations[i].size)))]
      ensures trace == old(trace) + [View(num, Slots())]
    {
      ghost var was := Slots();
      locations[i] := locations[i].(start := start);
      assert Slots() == was[i := was[i].(loc := Location(start, was[i].loc.size))];
      trace := trace + [View(num, Slots())];
    }

    method SetHandler(i: nat, func: nat, arg: nat)
      requires Shape() && i <= max
      modifies handlers, this`trace
      ensures Slots() == old(Slots())[i := old(Slots()[i]).(hnd := Handler(func, arg))]
      ensures |trace| == |old(trace)| + 2 && trace[..|old(trace)|] == old(trace)
      ensures trace[|old(trace)|] ==
              View(num, old(Slots())[i := old(Slots()[i]).(hnd := Handler(func, old(handlers[i].arg)))])
      ensures trace[|old(trace)| + 1] == View(num, Slots())
    {
      ghost var was := Slots();
      handlers[i] := handlers[i].(func := func);
      assert Slots() == was[i := was[i].(hnd := Handler(func, was[i].hnd.arg))];
      trace := trace + [View(num, Slots())];
      handlers[i] := handlers[i].(arg := arg);
      assert Slots() == was[i := was[i].(hnd := Handler(func, arg))];
      trace := trace + [View(num, Slots())];
    }

    /** Fill slot dst in the order that hides it until it is complete. */
    method WriteRegion(dst: nat, r: Region)
      requires Shape() && dst <= max
      modifies locations, handlers, this`trace
      ensures Slots() == old(Slots())[dst := r]
      ensures |trace| > |old(trace)| && trace[..|old(trace)|] == old(trace) && trace[|trace| - 1] == View(num, Slots())
      ensures forall k | |old(trace)| <= k < |trace| :: InTransit(trace[k], num, old(Slots()), dst, r)
    {
      SetSize(dst, 0);
      SetStart(dst, r.loc.start);
      SetHandler(dst, r.hnd.func, r.hnd.arg);
      SetSize(dst, r.loc.size);
    }

    /** copy_region */
    method CopyRegion(src: nat, dst: nat)
      requires Shape() && src <= max && dst <= max && src != dst
      modifies locations, handlers, this`trace
      ensures Slots() == old(Slots())[dst := old(Slots()[src])]
      ensures |trace| > |old(trace)| && trace[..|old(trace)|] == old(trace) && trace[|trace| - 1] == View(num, Slots())
      ensures forall k | |old(trace)| <= k < |trace| ::
                InTransit(trace[k], num, old(Slots()), dst, old(Slots()[src]))
    {
      WriteRegion(dst, Region(locations[src], handlers[src]));
    }

    /** mmio_region_register, of any region: it goes to its place by address; a valid table stays
        valid exactly if the region is non-empty, does not reach 2^64 and overlaps no other. */
    method Register(r: Region)
      requires Shape() && num <= max
      modifies this`num, this`trace, locations, handlers
      ensures num <= max && (forall i | num <= i <= max :: Slots()[i] == old(Slots()[i])) && (old(Clean()) ==> Clean())
      ensures old(num) >= max ==> num == old(num) && Slots() == old(Slots()) && trace == old(trace)
      ensures old(num) < max ==> num == old(num) + 1
      ensures old(num) < max ==>
                exists k | 0 <= k <= old(num) ::
                  InsertionPoint(old(Regions()), r.loc.start, k) && Regions() == Insert(old(Regions()), k, r)
      ensures old(Valid()) && old(num) < max ==> (Valid() <==> Regular(r) && forall q <- old(Regions()) :: Apart(r, q))
      ensures |trace| >= |old(trace)| && trace[..|old(trace)|] == old(trace)
      ensures forall k | |old(trace)| <= k < |trace| :: Consistent(trace[k], old(Regions()), r)
      ensures old(num) < max && old(Valid()) ==>
                |trace| >= |old(trace)| + 3
                && forall k | |old(trace)| <= k < |old(trace)| + 3 :: SearchesLike(trace[k], old(Regions()))
    {
      hide Consistent, Around, InTransit, Sorted, Slots, Regular, SearchesLike;
      if num >= max {
        return;
      }
      ghost var olds := Regions();
      var index := FindInsertion(r.loc.start);
      Grow(r);
      ShiftUp(index, olds, r);
      ghost var t, slots := |trace|, Slots();
      WriteRegion(index, r);
      TransitConsistent(trace[t..], num, slots, index, r, olds, r);
      Inserted(slots, Slots(), num, olds, index, r);
      if Table(olds) {
        InsertSortedIff(olds, index, r);
      }
    }

    /** The search for the first region that starts later. */
    method FindInsertion(start: nat) returns (index: nat)
      requires Shape() && num <= max
      ensures InsertionPoint(Regions(), start, index)
    {
      index := 0;
      while index < num && locations[index].start <= start
        invariant index <= num && forall i | 0 <= i < index :: Regions()[i].loc.start <= start
      {
        index := index + 1;
      }
    }

    /** Put an empty dummy behind the last region and make it visible; searches do not notice. */
    method Grow(ghost r: Region)
      requires Shape() && num < max
      modifies this`num, this`trace, locations
      ensures num == old(num) + 1 && Around(View(num, Slots()), old(Regions()), old(num))
      ensures forall i | num <= i <= max :: Slots()[i] == old(Slots()[i])
      ensures |trace| == |old(trace)| + 3 && trace[..|old(trace)|] == old(trace)
      ensures forall k | |old(trace)| <= k < |trace| :: Consistent(trace[k], old(Regions()), r)
      ensures old(Table(Regions())) ==>
                forall k | |old(trace)| <= k < |trace| :: SearchesLike(trace[k], old(Regions()))
    {
      hide Consistent, SearchesLike, Table;
      ghost var olds := Regions();
      SetStart(num, WORD - 1);
      PlainConsistent(View(num, Slots()), olds, r);
      PlainSearchesLike(View(num, Slots()), olds);
      SetSize(num, 0);
      PlainConsistent(View(num, Slots()), olds, r);
      PlainSearchesLike(View(num, Slots()), olds);
      num := num + 1;
      trace := trace + [View(num, Slots())];
      AroundConsistent(View(num, Slots()), olds, r, |olds|);
      if Table(olds) {
        DummySearchesLike(View(num, Slots()), olds);
      }
    }

    /** Move the regions from index on up by one, last first. */
    method ShiftUp(index: nat, ghost olds: seq<Region>, ghost r: Region)
      requires Shape() && num <= max && index <= |olds| && Around(View(num, Slots()), olds, |olds|)
      modifies this`trace, locations, handlers
      ensures Around(View(num, Slots()), olds, index) && forall i | num <= i <= max :: Slots()[i] == old(Slots()[i])
      ensures |trace| >= |old(trace)| && trace[..|old(trace)|] == old(trace)
      ensures forall k | |old(trace)| <= k < |trace| :: Consistent(trace[k], olds, r)
    {
      hide Consistent, InTransit, Slots;
      var n := num - 1;
      while n > index
        invariant index <= n <= |olds|
        invariant Around(View(num, Slots()), olds, n) && forall i | num <= i <= max :: Slots()[i] == old(Slots()[i])
        invariant |trace| >= |old(trace)| && trace[..|old(trace)|] == old(trace)
        invariant forall k | |old(trace)| <= k < |trace| :: Consistent(trace[k], olds, r)
      {
        ghost var t, slots := |trace|, Slots();
        CopyRegion(n - 1, n);
        TransitConsistent(trace[t..], num, slots, n, olds[n - 1], olds, r);
        n := n - 1;
      }
    }

    /** The loop of find_region. */
    method FindSlot(address: nat, size: nat) returns (index: int)
      requires Shape() && num <= max
      ensures index == Search(Regions(), 0, num, address, size)
    {
      hide Compare, Search;
      var rangeStart: nat, rangeSize: nat := 0, num;
      ghost var rs := Regions();
      while rangeSize > 0
        invariant rangeStart + rangeSize <= num
        invariant Search(rs, rangeStart, rangeSize, address, size) == Search(rs, 0, num, address, size)
      {
        var i := rangeStart + rangeSize / 2;
        var region := locations[i];
        assert region == rs[i].loc;
        SearchStep(rs, rangeStart, rangeSize, address, size);
        match Compare(region, address, size) {
          case Lower =>
            rangeSize := i - rangeStart;
          case Higher =>
            rangeSize := rangeSize - (i + 1 - rangeStart);
            rangeStart := i + 1;
          case Here =>
            return i;
        }
      }
      SearchStep(rs, rangeStart, rangeSize, address, size);
      return -1;
    }

    /** find_region, on any access: a region that is hit, if there is one; for a non-empty access
        that does not wrap around, the one region that contains it. */
    method FindRegion(address: nat, size: nat) returns (index: int)
      requires Valid() && address < WORD && size < WORD
      ensures -1 <= index < num && Found(Regions(), index, address, size)
    {
      hide Slots, Search, Found, Table;
      index := FindSlot(address, size);
      SearchAnswers(Regions(), address, size);
    }

    /** mmio_region_unregister: drops a region that is hit by a one-byte access at `start`, if any;
        below the last address that is the region that contains it.  Readers see complete regions all
        the while, and none but that one lost, exactly if the slot behind the last region is empty or
        holds one of them. */
    method Unregister(start: nat)
      requires Valid() && start < WORD
      modifies this`num, this`trace, locations, handlers
      ensures Valid() && Slots()[max] == old(Slots()[max]) && (old(Clean()) ==> Clean())
      ensures (forall q <- old(Regions()) :: !q.Hit(start, 1)) ==> Regions() == old(Regions()) && trace == old(trace)
      ensures (exists q <- old(Regions()) :: q.Hit(start, 1)) ==>
                exists k | 0 <= k < old(num) ::
                  && old(Regions())[k].Hit(start, 1) && Regions() == Remove(old(Regions()), k)
                  && (AllKept(trace, |old(trace)|, old(Regions()), k) <==> Harmless(old(Slots()), old(num)))
      ensures |trace| >= |old(trace)| && forall i | |old(trace)| <= i < |trace| :: trace[i].num <= |trace[i].slots|
      ensures start + 1 < WORD ==> forall k | 0 <= k < old(num) && old(Regions())[k].Contains(start, 1) ::
                Regions() == Remove(old(Regions()), k)
    {
      hide Slots, Sorted, AllKept, Harmless, Kept;
      ghost var olds, t := Regions(), |trace|;
      var index := FindRegion(start, 1);
      if index < 0 {
        return;
      }
      ShiftDown(index);
      ghost var moved := trace;
      num := num - 1;
      trace := trace + [View(num, Slots())];
      RemovedKept(View(num, Slots()), olds, index);
      OneMoreKept(moved, trace, t, olds, index);
      RemoveSorted(olds, index);
      assert olds[index].Hit(start, 1) && Regions() == Remove(olds, index);
    }

    /** Move the regions behind index down by one, first first, and last the slot behind them. */
    method ShiftDown(k: nat)
      requires Shape() && k < num <= max
      modifies this`trace, locations, handlers
      ensures Slots()[..num - 1] == Remove(old(Regions()), k)
      ensures Slots()[num - 1] == old(Slots()[num]) && forall i | num <= i <= max :: Slots()[i] == old(Slots()[i])
      ensures |trace| >= |old(trace)| && forall i | |old(trace)| <= i < |trace| :: trace[i].num <= |trace[i].slots|
      ensures AllKept(trace, |old(trace)|, old(Regions()), k) <==> Harmless(old(Slots()), num)
    {
      hide InTransit, Slots, Kept, Closing;
      ghost var olds, slots0, t0 := Regions(), Slots(), |trace|;
      var index := k;
      ClosingBegins(slots0, num, k);
      while index < num
        invariant k <= index <= num && |trace| >= t0 && forall i | t0 <= i < |trace| :: trace[i].num <= |trace[i].slots|
        invariant index < num ==> Closing(View(num, Slots()), olds, k, index) && AllKept(trace, t0, olds, k)
        invariant index < num ==> forall i | index <= i <= max :: Slots()[i] == slots0[i]
        invariant index == num ==> (AllKept(trace, t0, olds, k) <==> Harmless(slots0, num))
        invariant index == num ==> Slots()[..num - 1] == Remove(olds, k) && Slots()[num - 1] == slots0[num]
        invariant forall i | num <= i <= max :: Slots()[i] == slots0[i]
      {
        ghost var before, slots := trace, Slots();
        CopyRegion(index + 1, index);
        TransitSized(before, trace, num, slots, index, slots0[index + 1]);
        KeptDuring(trace[|before|..], num, slots, k, index, slots0[index + 1], olds);
        KeptJoin(before, trace, t0, olds, k);
        if index + 1 < num {
          ClosingNext(slots, Slots(), num, olds, k, index);
        } else {
          ClosingEnds(slots, Slots(), num, olds, k);
        }
        index := index + 1;
      }
    }

    /** mmio_handle_access: which handler gets the access, and at which offset. */
    method HandleAccess(address: nat, size: nat) returns (res: Result)
      requires Valid() && address < WORD && size < WORD
      ensures res.Unhandled? <==> forall q <- Regions() :: !q.Hit(address, size)
      ensures res.Dispatch? ==> exists q <- Regions() ::
                q.Hit(address, size) && res == Dispatch(q.hnd.func, q.hnd.arg, address - q.loc.start)
      ensures size > 0 && address + size < WORD ==> forall q <- Regions() :: q.Contains(address, size) ==>
                res == Dispatch(q.hnd.func, q.hnd.arg, address - q.loc.start)
    {
      hide Sorted;
      var index := FindRegion(address, size);
      if index < 0 {
        return Unhandled;
      }
      assert Regions()[index].Hit(address, size);
      return Dispatch(handlers[index].func, handlers[index].arg, address - locations[index].start);
    }
  }

  lemma TransitSized(before: seq<View>, after: seq<View>, num: nat, slots: seq<Region>, index: nat, x: Region)
    requires |before| <= |after| && after[..|before|] == before && num <= |slots|
    requires forall i | |before| <= i < |after| :: InTransit(after[i], num, slots, index, x)
    ensures forall i | 0 <= i < |after| ::
              if i < |before| then after[i] == before[i] else after[i].num <= |after[i].slots|
  {
    forall i | 0 <= i < |before| ensures after[i] == before[i] {
      assert after[..|before|][i] == after[i];
    }
  }

  /** All views from the t-th on keep what is registered but for the k-th region. */
  ghost predicate AllKept(trace: seq<View>, t: nat, olds: seq<Region>, k: nat) {
    forall i | t <= i < |trace| :: Kept(trace[i], olds, k)
  }

  /** What lies behind the last region has no size, or is one of the regions. */
  ghost predicate Harmless(slots: seq<Region>, num: nat)
    requires num < |slots|
  {
    slots[num].loc.size == 0 || slots[num] in slots[..num]
  }

  lemma KeptJoin(before: seq<View>, after: seq<View>, t: nat, olds: seq<Region>, k: nat)
    requires t <= |before| <= |after| && after[..|before|] == before
    ensures AllKept(after, t, olds, k) <==>
            AllKept(before, t, olds, k) && forall i | 0 <= i < |after| - |before| :: Kept(after[|before|..][i], olds, k)
  {
    hide Kept;
    forall i | 0 <= i < |before| ensures after[i] == before[i] {
      assert after[..|before|][i] == after[i];
    }
    if AllKept(before, t, olds, k) && forall i | 0 <= i < |after| - |before| :: Kept(after[|before|..][i], olds, k) {
      forall i | t <= i < |after| ensures Kept(after[i], olds, k) {
        if i >= |before| {
          assert after[i] == after[|before|..][i - |before|];
        }
      }
    }
  }

  lemma OneMoreKept(before: seq<View>, after: seq<View>, t: nat, olds: seq<Region>, k: nat)
    requires t <= |before| && |after| == |before| + 1 && after[..|before|] == before && Kept(after[|before|], olds, k)
    ensures AllKept(after, t, olds, k) <==> AllKept(before, t, olds, k)
  {
    hide Kept;
    KeptJoin(before, after, t, olds, k);
    assert after[|before|..] == [after[|before|]];
  }

  lemma ClosingBegins(slots: seq<Region>, num: nat, k: nat)
    requires k < num <= |slots|
    ensures Closing(View(num, slots), slots[..num], k, k)
  {
  }

  lemma ClosingNext(slots: seq<Region>, slots': seq<Region>, num: nat, olds: seq<Region>, k: nat, index: nat)
    requires Closing(View(num, slots), olds, k, index) && index + 1 < num && slots' == slots[index := slots[index + 1]]
    ensures Closing(View(num, slots'), olds, k, index + 1)
  {
  }

  lemma ClosingEnds(slots: seq<Region>, slots': seq<Region>, num: nat, olds: seq<Region>, k: nat)
    requires num > 0 && Closing(View(num, slots), olds, k, num - 1) && num < |slots|
    requires slots' == slots[num - 1 := slots[num]]
    ensures slots'[..num - 1] == Remove(olds, k)
  {
  }

  /** A visible slot of nonzero size that is not r. */
  ghost predicate ShowsStranger(v: View, r: Region) {
    v.num <= |v.slots| && exists i | 0 <= i < v.num :: v.slots[i].loc.size != 0 && v.slots[i] != r
  }

  /** A full table with something behind it that looks like a region: while the one region is
      unregistered, readers see another one that was never registered. */
  method FullTableExposes(r: Region, behind: Region) returns (cell: MmioCell, ghost t: nat)
    requires Regular(r) && behind.loc.size != 0 && behind != r
    ensures cell.num == 0 && exists i | t <= i < |cell.trace| :: ShowsStranger(cell.trace[i], r)
  {
    hide Kept, Sorted;
    cell := new MmioCell(1, behind);
    cell.Register(r);
    t := |cell.trace|;
    ghost var olds := cell.Regions();
    assert olds == [r];
    assert olds[0].Hit(r.loc.start, 1);
    cell.Unregister(r.loc.start);
    StrangerSeen(cell.trace, t, r);
  }

  lemma StrangerSeen(trace: seq<View>, t: nat, r: Region)
    requires !AllKept(trace, t, [r], 0) && forall i | t <= i < |trace| :: trace[i].num <= |trace[i].slots|
    ensures exists i | t <= i < |trace| :: ShowsStranger(trace[i], r)
  {
    var i :| t <= i < |trace| && !Kept(trace[i], [r], 0);
    assert ShowsStranger(trace[i], r);
  }

  lemma SearchAnswers(rs: seq<Region>, address: nat, size: nat)
    requires Table(rs) && address < WORD && size < WORD
    ensures Found(rs, Search(rs, 0, |rs|, address, size), address, size)
  {
    hide Search;
    assert Searchable(rs);
    SearchHits(rs, 0, |rs|, address, size);
    if size > 0 && address + size < WORD {
      SearchFinds(rs, address, size);
    }
  }

  lemma Inserted(slots: seq<Region>, slots': seq<Region>, num: nat, olds: seq<Region>, k: nat, r: Region)
    requires Around(View(num, slots), olds, k) && slots' == slots[k := r]
    ensures slots'[..num] == Insert(olds, k, r)
  {
  }

  lemma PlainConsistent(v: View, olds: seq<Region>, new_: Region)
    requires v.num == |olds| <= |v.slots| && v.slots[..v.num] == olds
    ensures Consistent(v, olds, new_)
  {
    forall r | r in olds ensures exists i | 0 <= i < v.num :: v.slots[i] == r {
      var j :| 0 <= j < |olds| && olds[j] == r;
      assert v.slots[j] == r;
    }
  }

  /** Between the stores that fill slot dst with r, dst is hidden or complete and the rest stays. */
  ghost predicate InTransit(v: View, num: nat, slots: seq<Region>, dst: nat, r: Region) {
    && v.num == num && |v.slots| == |slots| && dst < |slots|
    && (forall j | 0 <= j < |slots| && j != dst :: v.slots[j] == slots[j])
    && (v.slots[dst].loc.size == 0 || v.slots[dst] == r)
  }

  lemma TransitConsistent(vs: seq<View>, num: nat, slots: seq<Region>, k: nat, x: Region,
                          olds: seq<Region>, new_: Region)
    requires Around(View(num, slots), olds, k) && (x in olds || x == new_)
    requires forall i | 0 <= i < |vs| :: InTransit(vs[i], num, slots, k, x)
    ensures forall i | 0 <= i < |vs| :: Consistent(vs[i], olds, new_)
  {
    forall i | 0 <= i < |vs| ensures Consistent(vs[i], olds, new_) {
      AroundConsistent(vs[i], olds, new_, k);
    }
  }
}
