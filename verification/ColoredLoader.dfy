/** Loading an image into coloured memory (driver/cell.c, load_image_colored): the guest sees
    a contiguous region whose fragments are scattered over the set colours, stripe by stripe. */
module ColoredLoader {
  import opened Common
  import opened Arith
  import opened Coloring

  const PAGE_SIZE: nat := 4096
  const EBUSY := 16
  const EFAULT := 14

  /** fragment_unit_size, fragment_unit_offset and the region's phys_start. */
  datatype Layout = Layout(unit: nat, stripe: nat, phys: nat)

  ghost predicate Valid(g: Layout) {
    && g.unit > 0 && g.stripe >= g.unit
    && g.unit % PAGE_SIZE == 0 && g.stripe % PAGE_SIZE == 0 && g.phys % PAGE_SIZE == 0
  }

  function MaxColors(g: Layout): nat
    requires g.unit > 0
  {
    g.stripe / g.unit
  }

  /** Colours that exist. */
  ghost predicate Colors(g: Layout, cs: seq<nat>)
    requires g.unit > 0
  {
    forall i | 0 <= i < |cs| :: cs[i] < MaxColors(g)
  }

  /** Byte o of the q-th set colour in stripe r. */
  function Spot(g: Layout, cs: seq<nat>, r: nat, q: nat, o: nat): nat
    requires q < |cs|
  {
    g.phys + r * g.stripe + cs[q] * g.unit + o
  }

  /** Where byte v of the guest's region lies: unit v / unit goes to the colour whose turn it is,
      in the stripe that has been reached. */
  function Place(g: Layout, cs: seq<nat>, v: nat): nat
    requires g.unit > 0 && |cs| > 0
  {
    Spot(g, cs, v / g.unit / |cs|, v / g.unit % |cs|, v % g.unit)
  }

  /** A byte given by stripe, colour index and offset. */
  lemma PlaceIs(g: Layout, cs: seq<nat>, r: nat, q: nat, o: nat)
    requires g.unit > 0 && q < |cs| && o < g.unit
    ensures Place(g, cs, (r * |cs| + q) * g.unit + o) == Spot(g, cs, r, q, o)
  {
    DivUnique((r * |cs| + q) * g.unit + o, r * |cs| + q, o, g.unit);
    DivUnique(r * |cs| + q, r, q, |cs|);
  }

  /** Inside a fragment of consecutive colours, bytes are consecutive. */
  lemma PlaceInFragment(g: Layout, cs: seq<nat>, r: nat, before: nat, first: nat, len: nat, t: nat)
    requires g.unit > 0 && before + len <= |cs| && t < len * g.unit
    requires cs[before..before + len] == Interval(first, first + len)
    ensures |cs| > 0
    ensures Place(g, cs, (r * |cs| + before) * g.unit + t) == g.phys + first * g.unit + r * g.stripe + t
  {
    var q, o := QuotientAndRest(t, g.unit);
    assert q < len by {
      DivUnique(t, q, o, g.unit);
      DivBound(t, len, g.unit);
    }
    assert cs[before + q] == cs[before..before + len][q] == first + q;
    PlaceIs(g, cs, r, before + q, o);
    Distribute(r * |cs| + before, q, g.unit);
    Distribute(first, q, g.unit);
  }

  // ----- no byte is shared -----

  lemma ColorFits(g: Layout, c: nat, o: nat)
    requires g.unit > 0 && c < MaxColors(g) && o < g.unit
    ensures c * g.unit + o < g.stripe
  {
    var q, r := QuotientAndRest(g.stripe, g.unit);
    DivUnique(g.stripe, q, r, g.unit);
    MulMono(c + 1, q, g.unit);
    Distribute(c, 1, g.unit);
  }

  lemma Decompose(a: nat, x: nat, b: nat, y: nat, s: nat)
    requires s > 0 && x < s && y < s
    ensures a * s + x == b * s + y ==> a == b && x == y
  {
    DivUnique(a * s + x, a, x, s);
    DivUnique(b * s + y, b, y, s);
  }

  /** Stripe, colour and offset of a byte can be read off its address. */
  lemma SpotUnique(g: Layout, cs: seq<nat>, r: nat, q: nat, o: nat, ds: seq<nat>, r': nat, q': nat, o': nat)
    requires g.unit > 0 && q < |cs| && q' < |ds| && o < g.unit && o' < g.unit && Colors(g, cs) && Colors(g, ds)
    ensures Spot(g, cs, r, q, o) == Spot(g, ds, r', q', o') ==> r == r' && cs[q] == ds[q'] && o == o'
  {
    ColorFits(g, cs[q], o);
    ColorFits(g, ds[q'], o');
    Decompose(r, cs[q] * g.unit + o, r', ds[q'] * g.unit + o', g.stripe);
    Decompose(cs[q], o, ds[q'], o', g.unit);
  }

  /** Two regions over the same memory with disjoint colour masks never share a byte. */
  lemma DisjointMasksDisjointBytes(g: Layout, m1: seq<bool>, m2: seq<bool>, v: nat, w: nat)
    requires g.unit > 0 && |m1| == |m2| == MaxColors(g)
    requires forall c | 0 <= c < |m1| :: !(m1[c] && m2[c])
    requires SetColors(m1, 0) != [] && SetColors(m2, 0) != []
    ensures Place(g, SetColors(m1, 0), v) != Place(g, SetColors(m2, 0), w)
  {
    hide Spot, SetColors, Place;
    var cs, ds := SetColors(m1, 0), SetColors(m2, 0);
    SetColorsAre(m1, 0);
    SetColorsAre(m2, 0);
    var r, q, o := Coordinates(g, cs, v);
    var r', q', o' := Coordinates(g, ds, w);
    assert cs[q] in cs && ds[q'] in ds;
    SpotUnique(g, cs, r, q, o, ds, r', q', o');
  }

  lemma Coordinates(g: Layout, cs: seq<nat>, v: nat) returns (r: nat, q: nat, o: nat)
    requires g.unit > 0 && |cs| > 0
    ensures q < |cs| && o < g.unit && v == (r * |cs| + q) * g.unit + o && Place(g, cs, v) == Spot(g, cs, r, q, o)
  {
    var x;
    x, o := QuotientAndRest(v, g.unit);
    r, q := QuotientAndRest(x, |cs|);
    PlaceIs(g, cs, r, q, o);
  }

  /** Within one region, different bytes lie at different addresses. */
  lemma PlaceInjective(g: Layout, m: seq<bool>, v: nat, w: nat)
    requires g.unit > 0 && |m| == MaxColors(g) && SetColors(m, 0) != []
    ensures Place(g, SetColors(m, 0), v) == Place(g, SetColors(m, 0), w) ==> v == w
  {
    hide Spot, SetColors, Place;
    var cs := SetColors(m, 0);
    SetColorsAre(m, 0);
    var r, q, o := Coordinates(g, cs, v);
    var r', q', o' := Coordinates(g, cs, w);
    SpotUnique(g, cs, r, q, o, cs, r', q', o');
    Increasing(cs, q, q');
  }

  /** The colour of a physical address, counted from the start of the memory. */
  function ColorOf(g: Layout, a: nat): nat
    requires g.unit > 0 && g.stripe > 0 && a >= g.phys
  {
    ((a - g.phys) % g.stripe) / g.unit
  }

  /** A byte of the region has one of the set colours, whatever byte it is. */
  lemma PlaceHasColor(g: Layout, cs: seq<nat>, v: nat)
    requires g.unit > 0 && g.stripe > 0 && |cs| > 0 && Colors(g, cs)
    ensures Place(g, cs, v) >= g.phys && ColorOf(g, Place(g, cs, v)) in cs
  {
    hide Place, Spot, MaxColors;
    var r, q, o := Coordinates(g, cs, v);
    ColorFits(g, cs[q], o);
    SpotColor(g, cs, r, q, o);
  }

  lemma SpotColor(g: Layout, cs: seq<nat>, r: nat, q: nat, o: nat)
    requires g.unit > 0 && g.stripe > 0 && q < |cs| && o < g.unit && cs[q] * g.unit + o < g.stripe
    ensures Spot(g, cs, r, q, o) >= g.phys && ColorOf(g, Spot(g, cs, r, q, o)) == cs[q]
  {
    DivUnique(r * g.stripe + (cs[q] * g.unit + o), r, cs[q] * g.unit + o, g.stripe);
    DivUnique(cs[q] * g.unit + o, cs[q], o, g.unit);
  }

  lemma Increasing(cs: seq<nat>, i: nat, j: nat)
    requires i < |cs| && j < |cs| && forall a, b | 0 <= a < b < |cs| :: cs[a] < cs[b]
    ensures cs[i] == cs[j] ==> i == j
  {
  }

  // ----- the loader -----

  /** One copy_from_user: `len` image bytes from `src` on go to physical address `phys`; `ok` says
      that none of them faulted. */
  datatype Copy = Copy(phys: nat, src: nat, len: nat, ok: bool)

  /** The error reported for the copies so far. */
  ghost predicate Reports(err: int, copies: seq<Copy>) {
    err == if forall i | 0 <= i < |copies| :: copies[i].ok then 0 else -EFAULT
  }

  lemma ReportsOne(err: int, copies: seq<Copy>, c: Copy)
    requires Reports(err, copies)
    ensures Reports(if c.ok then err else -EFAULT, copies + [c])
  {
    var t := copies + [c];
    assert t[|copies|] == c && forall i | 0 <= i < |copies| :: t[i] == copies[i];
  }

  /** The addresses the image bytes were written to, in the order of the copies. */
  function Written(copies: seq<Copy>): seq<nat> {
    if copies == [] then []
    else
      var c := copies[|copies| - 1];
      Written(copies[..|copies| - 1]) + seq(c.len, t requires 0 <= t => c.phys + t)
  }

  /** Copies continue where the one before ended, so no image byte is written twice. */
  ghost predicate InOrder(copies: seq<Copy>) {
    forall i | 0 <= i < |copies| :: copies[i].src == |Written(copies[..i])| && copies[i].len > 0
  }

  /** Image byte b went to the place of guest byte start + b, for the first `len` bytes. */
  ghost predicate Placed(g: Layout, cs: seq<nat>, start: nat, copies: seq<Copy>, len: nat)
    requires g.unit > 0
  {
    && InOrder(copies) && |Written(copies)| == len && (len > 0 ==> |cs| > 0)
    && forall b | 0 <= b < len :: Written(copies)[b] == Place(g, cs, start + b)
  }

  lemma WrittenOne(copies: seq<Copy>, c: Copy)
    ensures Written(copies + [c]) == Written(copies) + seq(c.len, t requires 0 <= t => c.phys + t)
  {
    assert (copies + [c])[..|copies|] == copies;
  }

  /** Guest bytes [virt, virt + len) lie at physical addresses phys onwards. */
  ghost predicate Contiguous(g: Layout, cs: seq<nat>, virt: nat, phys: nat, len: nat)
    requires g.unit > 0
  {
    (len > 0 ==> |cs| > 0) && forall x | virt <= x < virt + len :: Place(g, cs, x) == phys + (x - virt)
  }

  lemma FragmentContiguous(g: Layout, cs: seq<nat>, r: nat, before: nat, first: nat, len: nat)
    requires g.unit > 0 && before + len <= |cs| && cs[before..before + len] == Interval(first, first + len)
    ensures Contiguous(g, cs, (r * |cs| + before) * g.unit, g.phys + first * g.unit + r * g.stripe, len * g.unit)
  {
    hide Place, Interval;
    var virt := (r * |cs| + before) * g.unit;
    forall x | virt <= x < virt + len * g.unit
      ensures |cs| > 0 && Place(g, cs, x) == g.phys + first * g.unit + r * g.stripe + (x - virt)
    {
      PlaceInFragment(g, cs, r, before, first, len, x - virt);
    }
    if len == 0 {
      assert len * g.unit == 0;
    }
  }

  /** One more copy, inside a fragment, keeps the placement. */
  lemma PlacedOne(g: Layout, cs: seq<nat>, start: nat, copies: seq<Copy>, done: nat, c: Copy,
                  virt: nat, phys: nat, len: nat)
    requires g.unit > 0 && Contiguous(g, cs, virt, phys, len)
    requires Placed(g, cs, start, copies, done) && c.src == done && c.len > 0
    requires virt <= start + done && start + done + c.len <= virt + len && c.phys == phys + (start + done - virt)
    ensures Placed(g, cs, start, copies + [c], done + c.len)
  {
    hide Place;
    WrittenOne(copies, c);
    var all := Written(copies + [c]);
    forall b | 0 <= b < done + c.len ensures all[b] == Place(g, cs, start + b) {
      if b >= done {
        assert all[b] == c.phys + (b - done);
      }
    }
    InOrderOne(copies, c);
  }

  lemma InOrderOne(copies: seq<Copy>, c: Copy)
    requires InOrder(copies) && c.src == |Written(copies)| && c.len > 0
    ensures InOrder(copies + [c])
  {
    var t := copies + [c];
    forall i | 0 <= i < |t| ensures t[i].src == |Written(t[..i])| && t[i].len > 0 {
      if i < |copies| {
        assert t[..i] == copies[..i];
      } else {
        assert t[..i] == copies;
      }
    }
  }

  /** The address the code writes to: the page of the target is mapped and the offset in the page of
      the image offset added. */
  function WriteAddress(fragment: nat, offset: nat): nat {
    fragment + offset - (fragment + offset) % PAGE_SIZE + offset % PAGE_SIZE
  }

  /** It is the target itself if the fragment starts at a page boundary. */
  lemma PageSplit(fragment: nat, offset: nat)
    requires fragment % PAGE_SIZE == 0
    ensures WriteAddress(fragment, offset) == fragment + offset
  {
  }

  lemma FragmentAligned(g: Layout, first: nat, r: nat)
    requires Valid(g)
    ensures (g.phys + first * g.unit + r * g.stripe) % PAGE_SIZE == 0
  {
    MultipleOf(first, g.unit);
    MultipleOf(r, g.stripe);
    SumOfMultiples(g.phys, first * g.unit, PAGE_SIZE);
    SumOfMultiples(g.phys + first * g.unit, r * g.stripe, PAGE_SIZE);
  }

  lemma MultipleOf(k: nat, x: nat)
    requires x % PAGE_SIZE == 0
    ensures (k * x) % PAGE_SIZE == 0
  {
    var q := x / PAGE_SIZE;
    Regroup(k, q, PAGE_SIZE, 0, 0);
    DivUnique(k * x, k * q, 0, PAGE_SIZE);
  }

  /** The loader's variables: how far the guest's addresses have been laid out, how much of the
      image is copied, and whether the fragment of the target address was found. */
  datatype Progress = Progress(virt: nat, mapOffset: nat, found: bool, err: int, copies: seq<Copy>)

  datatype Outcome = GoOn | Finished | Unmappable

  /** Whether the memory for image offset o can be mapped, and its bytes read from user space. */
  datatype Hooks = Hooks(maps: nat -> bool, gets: nat -> bool)

  /** Each copy was mapped, and tells whether it faulted. */
  ghost predicate Honest(hooks: Hooks, copies: seq<Copy>) {
    forall i | 0 <= i < |copies| :: hooks.maps(copies[i].src) && copies[i].ok == hooks.gets(copies[i].src)
  }

  ghost predicate Loading(g: Layout, cs: seq<nat>, start: nat, size: nat, p: Progress)
    requires g.unit > 0
  {
    && Placed(g, cs, start, p.copies, p.mapOffset) && p.mapOffset <= size
    && (if p.found then p.virt == start + p.mapOffset else p.mapOffset == 0 && p.virt <= start)
    && Reports(p.err, p.copies)
  }

  /** The body of the two loops for a fragment of fragSize bytes at fragPhys. */
  method LoadFragment(g: Layout, ghost cs: seq<nat>, fragPhys: nat, fragSize: nat, start: nat, size: nat, p: Progress,
                      hooks: Hooks)
    returns (p': Progress, out: Outcome)
    requires Honest(hooks, p.copies)
    ensures Honest(hooks, p'.copies)
    requires g.unit > 0 && fragPhys % PAGE_SIZE == 0 && Contiguous(g, cs, p.virt, fragPhys, fragSize)
    requires Loading(g, cs, start, size, p) && p.mapOffset < size && fragSize > 0
    ensures Placed(g, cs, start, p'.copies, p'.mapOffset) && p'.mapOffset <= size
    ensures p'.virt == p.virt + fragSize
    ensures out.GoOn? ==> Loading(g, cs, start, size, p') && p'.mapOffset < size
    ensures out.Unmappable? ==> start + p'.mapOffset < p'.virt && p'.mapOffset < size && !hooks.maps(p'.mapOffset)
    ensures out.Finished? ==> p'.mapOffset == size && start + size <= p'.virt && Reports(p'.err, p'.copies)
  {
    hide Placed, Place, WriteAddress, Contiguous, Reports;
    var fragVirt := p.virt;
    p' := p.(virt := p.virt + fragSize);
    var imageOffset := 0;
    if !p.found {
      if !(fragVirt <= start < fragVirt + fragSize) {
        return p', GoOn;
      }
      p' := p'.(found := true);
      imageOffset := start - fragVirt;
    }
    var mapSize := if fragSize - imageOffset < size - p.mapOffset then fragSize - imageOffset else size - p.mapOffset;
    if !hooks.maps(p.mapOffset) {
      return p', Unmappable;
    }
    var copied := hooks.gets(p.mapOffset);
    var c := Copy(WriteAddress(fragPhys, imageOffset), p.mapOffset, mapSize, copied);
    ReportsOne(p.err, p.copies, c);
    PageSplit(fragPhys, imageOffset);
    PlacedOne(g, cs, start, p.copies, p.mapOffset, c, fragVirt, fragPhys, fragSize);
    p' := p'.(copies := p.copies + [c], mapOffset := p.mapOffset + mapSize, err := if copied then p.err else -EFAULT);
    out := if p'.mapOffset >= size then Finished else GoOn;
  }

  /** How much of an image of `size` bytes fits from guest byte `start` on. */
  function Fitting(start: nat, size: nat, capacity: nat): nat {
    if start >= capacity then 0 else if size < capacity - start then size else capacity - start
  }

  function Capacity(g: Layout, n: nat, stripes: nat): nat {
    stripes * n * g.unit
  }

  /** The guest address at which run a of stripe r begins. */
  ghost function Reached(g: Layout, runs: seq<Run>, a: nat, r: nat): nat
    requires WellFormed(runs) && a <= |runs|
  {
    (r * |Expand(runs)| + |Expand(runs[..a])|) * g.unit
  }

  /** The address and size the code computes for the fragment from colour i to colour j. */
  function FragmentPhys(g: Layout, i: nat, r: nat): nat {
    g.phys + i * g.unit + r * g.stripe
  }

  function FragmentSize(g: Layout, i: nat, j: nat): nat
    requires i <= j
  {
    (j - i + 1) * g.unit
  }

  lemma StripeBegins(g: Layout, runs: seq<Run>, r: nat)
    requires WellFormed(runs)
    ensures Reached(g, runs, 0, r) == r * |Expand(runs)| * g.unit
    ensures Reached(g, runs, |runs|, r) == (r + 1) * |Expand(runs)| * g.unit
  {
    assert runs[..|runs|] == runs && runs[..0] == [];
    Distribute(r, 1, |Expand(runs)|);
  }

  /** One run is one contiguous fragment, and the next run follows it. */
  lemma RunStep(g: Layout, runs: seq<Run>, a: nat, r: nat)
    requires Valid(g) && WellFormed(runs) && a < |runs|
    ensures var run, cs := runs[a], Expand(runs);
            && Contiguous(g, cs, Reached(g, runs, a, r), FragmentPhys(g, run.first, r),
                          FragmentSize(g, run.first, run.last))
            && FragmentPhys(g, run.first, r) % PAGE_SIZE == 0 && FragmentSize(g, run.first, run.last) > 0
            && Reached(g, runs, a + 1, r) == Reached(g, runs, a, r) + FragmentSize(g, run.first, run.last)
            && Reached(g, runs, a + 1, r) <= (r + 1) * |cs| * g.unit
  {
    hide Expand, Interval, Contiguous;
    var run, cs := runs[a], Expand(runs);
    var len := run.last - run.first + 1;
    ExpandPrefix(runs, a);
    var before := |Expand(runs[..a])|;
    FragmentContiguous(g, cs, r, before, run.first, len);
    FragmentAligned(g, run.first, r);
    MulMono(1, len, g.unit);
    Distribute(r * |cs| + before, len, g.unit);
    StripeEnd(g, r, |cs|, before + len);
  }

  lemma RangeAt(ranges: seq<int>, runs: seq<Run>, k: nat)
    requires Encodes(ranges, runs) && k < |ranges| && k % 2 == 0
    ensures ranges[k] != -1 <==> k / 2 < |runs|
    ensures k / 2 < |runs| ==> k + 1 < |ranges| && ranges[k] == runs[k / 2].first && ranges[k + 1] == runs[k / 2].last
  {
    assert k == 2 * (k / 2);
  }

  /** One stripe: the runs in order, skipping the -1 padding. */
  method LoadStripe(g: Layout, ghost cs: seq<nat>, ranges: seq<int>, ghost runs: seq<Run>, r: nat,
                    start: nat, size: nat, p: Progress, hooks: Hooks)
    returns (p': Progress, out: Outcome)
    requires Honest(hooks, p.copies)
    ensures Honest(hooks, p'.copies)
    requires Valid(g) && WellFormed(runs) && Encodes(ranges, runs) && cs == Expand(runs) && |ranges| % 2 == 0
    requires Loading(g, cs, start, size, p) && p.mapOffset < size && p.virt == r * |cs| * g.unit
    ensures Placed(g, cs, start, p'.copies, p'.mapOffset) && p'.mapOffset <= size
    ensures out.GoOn? ==>
              Loading(g, cs, start, size, p') && p'.mapOffset < size && p'.virt == (r + 1) * |cs| * g.unit
    ensures out.Finished? ==> p'.mapOffset == size && start + size <= (r + 1) * |cs| * g.unit
    ensures out.Unmappable? ==>
              start + p'.mapOffset < (r + 1) * |cs| * g.unit && p'.mapOffset < size && !hooks.maps(p'.mapOffset)
    ensures out.Finished? ==> Reports(p'.err, p'.copies)
  {
    hide Placed, Place, Expand, Loading, Contiguous, Encodes, Reached, FragmentPhys, FragmentSize, Honest;
    p', out := p, GoOn;
    var k := 0;
    StripeBegins(g, runs, r);
    LoadingPlaced(g, cs, start, size, p);
    while k < |ranges|
      invariant 0 <= k <= |ranges| && k % 2 == 0
      invariant Loading(g, cs, start, size, p') && p'.mapOffset < size && Placed(g, cs, start, p'.copies, p'.mapOffset)
      invariant p'.virt == Reached(g, runs, Min(k / 2, |runs|), r) && Honest(hooks, p'.copies)
    {
      RangeAt(ranges, runs, k);
      if ranges[k] != -1 {
        RunStep(g, runs, k / 2, r);
        var i, j := ranges[k], ranges[k + 1];
        p', out := LoadFragment(g, cs, FragmentPhys(g, i, r), FragmentSize(g, i, j), start, size, p', hooks);
        if out.Finished? {
          return;
        } else if out.Unmappable? {
          return;
        }
        LoadingPlaced(g, cs, start, size, p');
      }
      k := k + 2;
    }
    out := GoOn;
    RunsCovered(ranges, runs);
  }

  lemma RunsCovered(ranges: seq<int>, runs: seq<Run>)
    requires Encodes(ranges, runs)
    ensures |runs| <= |ranges| / 2
  {
  }

  lemma LoadingPlaced(g: Layout, cs: seq<nat>, start: nat, size: nat, p: Progress)
    requires g.unit > 0 && Loading(g, cs, start, size, p)
    ensures Placed(g, cs, start, p.copies, p.mapOffset)
  {
  }

  lemma StripeEnd(g: Layout, r: nat, n: nat, before: nat)
    requires before <= n
    ensures (r * n + before) * g.unit <= (r + 1) * n * g.unit
  {
    Distribute(r, 1, n);
    MulMono(r * n + before, (r + 1) * n, g.unit);
  }

  /** Runs lie one after the other in the list of colours. */
  lemma {:induction false} ExpandPrefix(runs: seq<Run>, a: nat)
    requires WellFormed(runs) && a <= |runs|
    ensures WellFormed(runs[..a]) && Expand(runs[..a]) <= Expand(runs)
    ensures a == 0 ==> Expand(runs[..a]) == []
    ensures a < |runs| ==>
              var before, len := |Expand(runs[..a])|, runs[a].last - runs[a].first + 1;
              && WellFormed(runs[..a + 1]) && |Expand(runs[..a + 1])| == before + len <= |Expand(runs)|
              && Expand(runs)[before..before + len] == Interval(runs[a].first, runs[a].last + 1)
    decreases |runs| - a
  {
    if a < |runs| {
      ExpandPrefix(runs, a + 1);
      assert runs[..a + 1][..a] == runs[..a];
    } else {
      assert runs[..a] == runs;
    }
  }

  /** The stripe loop. */
  method LoadStripes(g: Layout, ghost cs: seq<nat>, ranges: seq<int>, ghost runs: seq<Run>, stripes: nat,
                     start: nat, size: nat, hooks: Hooks)
    returns (err: int, copies: seq<Copy>, done: nat)
    ensures Honest(hooks, copies)
    requires Valid(g) && WellFormed(runs) && Encodes(ranges, runs) && cs == Expand(runs) && |ranges| % 2 == 0
    requires size > 0
    ensures err == -EBUSY || Reports(err, copies)
    ensures Placed(g, cs, start, copies, done) && done <= size
    ensures err != -EBUSY ==> done == Fitting(start, size, Capacity(g, |cs|, stripes))
    ensures err == -EBUSY ==> done < Fitting(start, size, Capacity(g, |cs|, stripes)) && !hooks.maps(done)
  {
    hide Placed, Place, Expand;
    var p := Progress(0, 0, false, 0, []);
    NothingPlaced(g, cs, start);
    var r := 0;
    while r < stripes
      invariant 0 <= r <= stripes && Loading(g, cs, start, size, p) && p.mapOffset < size
      invariant p.virt == r * |cs| * g.unit && Honest(hooks, p.copies)
    {
      var out;
      p, out := LoadStripe(g, cs, ranges, runs, r, start, size, p, hooks);
      if out.Unmappable? {
        StripesGrow(g, |cs|, r + 1, stripes);
        return -EBUSY, p.copies, p.mapOffset;
      }
      if out.Finished? {
        StripesGrow(g, |cs|, r + 1, stripes);
        return p.err, p.copies, p.mapOffset;
      }
      r := r + 1;
    }
    return p.err, p.copies, p.mapOffset;
  }

  lemma NothingPlaced(g: Layout, cs: seq<nat>, start: nat)
    requires g.unit > 0
    ensures Placed(g, cs, start, [], 0)
  {
  }

  lemma StripesGrow(g: Layout, n: nat, a: nat, b: nat)
    requires a <= b
    ensures a * n * g.unit <= b * n * g.unit
  {
    MulMono(a, b, n);
    MulMono(a * n, b * n, g.unit);
  }

  // ----- choosing the region -----

  /** A struct jailhouse_memory_colored; `writable` says it is writable and loadable. */
  datatype ColoredRegion = ColoredRegion(phys: nat, virt: nat, size: nat, colors: nat, writable: bool)

  function MaskOf(colors: nat, max: nat): (m: seq<bool>)
    ensures |m| == max
  {
    seq(max, c requires 0 <= c < max => Bit(colors, max - 1 - c))
  }

  function ColorsOf(unit: nat, stripe: nat, region: ColoredRegion): seq<nat>
    requires unit > 0
  {
    SetColors(MaskOf(region.colors, stripe / unit), 0)
  }

  const INT_MAX := 0x7fff_ffff

  /** The value of x stored in an int. */
  function Int32(x: int): int {
    var w := x % 0x1_0000_0000;
    if w <= INT_MAX then w else w - 0x1_0000_0000
  }

  /** An int compared with a 64-bit size. */
  function AsUnsigned(x: int): nat
    requires -0x8000_0000 <= x
  {
    if x < 0 then x + 0x1_0000_0000_0000_0000 else x
  }

  /** How many stripes the loader counts in a region. */
  function StripeCount(stripe: nat, region: ColoredRegion): nat
    requires stripe > 0
  {
    var k := Int32(region.size / stripe);
    if k < 0 then 0 else k
  }

  /** The room in the stripes that the loader counts. */
  function RoomCounted(unit: nat, stripe: nat, region: ColoredRegion): nat
    requires unit > 0 && stripe > 0
  {
    Capacity(Layout(unit, stripe, region.phys), |ColorsOf(unit, stripe, region)|, StripeCount(stripe, region))
  }

  /** The room for an image in all stripes of the region. */
  function Room(unit: nat, stripe: nat, region: ColoredRegion): nat
    requires unit > 0 && stripe > 0
  {
    unit * |ColorsOf(unit, stripe, region)| * (region.size / stripe)
  }

  /** The comparison of the image size with memory_total_size, an int. */
  predicate HasRoom(unit: nat, n: nat, stripes: int, size: nat) {
    size <= AsUnsigned(Int32(unit * n * stripes))
  }

  /** The checks on a region: flags, target address, and room for the image in all its stripes. */
  predicate Suitable(unit: nat, stripe: nat, region: ColoredRegion, target: nat, size: nat)
    requires unit > 0 && stripe > 0
  {
    && region.writable && region.virt <= target <= region.virt + region.size
    && HasRoom(unit, |ColorsOf(unit, stripe, region)|, Int32(region.size / stripe), size)
  }

  /** The room as it is compared. */
  function ComparedRoom(unit: nat, stripe: nat, region: ColoredRegion): nat
    requires unit > 0 && stripe > 0
  {
    AsUnsigned(Int32(Room(unit, stripe, region)))
  }

  lemma HasRoomMeans(unit: nat, stripe: nat, region: ColoredRegion, size: nat)
    requires unit > 0 && stripe > 0
    ensures HasRoom(unit, |ColorsOf(unit, stripe, region)|, Int32(region.size / stripe), size) <==>
            size <= ComparedRoom(unit, stripe, region)
  {
    hide SetColors;
    Congruent(unit * |ColorsOf(unit, stripe, region)|, region.size / stripe);
  }

  /** The comparison is the intended one for all images, exactly if the room fits into an int.  Beyond
      that it refuses an image that fits, or lets one through that does not. */
  lemma RoomIsExact(unit: nat, stripe: nat, region: ColoredRegion)
    requires unit > 0 && stripe > 0 && Room(unit, stripe, region) < 0x1_0000_0000_0000_0000 - 0x8000_0000
    ensures var n, k, room := |ColorsOf(unit, stripe, region)|, Int32(region.size / stripe), Room(unit, stripe, region);
            room <= INT_MAX <==> forall size: nat :: HasRoom(unit, n, k, size) <==> size <= room
  {
    hide SetColors, HasRoom, ColorsOf, Room;
    var room, compared := Room(unit, stripe, region), ComparedRoom(unit, stripe, region);
    forall size: nat
      ensures HasRoom(unit, |ColorsOf(unit, stripe, region)|, Int32(region.size / stripe), size) <==> size <= compared
    {
      HasRoomMeans(unit, stripe, region, size);
    }
    if room > INT_MAX {
      var size := if compared < room then room else room + 1;
      HasRoomMeans(unit, stripe, region, size);
    }
  }

  lemma Congruent(c: nat, x: nat)
    ensures Int32(c * Int32(x)) == Int32(c * x)
  {
    var m := 0x1_0000_0000;
    var q := if x % m <= INT_MAX then x / m else x / m + 1;
    assert x == q * m + Int32(x);
    assert c * x == (c * q) * m + c * Int32(x) by {
      Product(c, q, m, Int32(x));
    }
    ModAdds(c * q, c * Int32(x));
  }

  lemma Product(c: int, q: int, m: int, r: int)
    ensures c * (q * m + r) == (c * q) * m + c * r
  {
  }

  lemma ModAdds(k: int, y: int)
    ensures (k * 0x1_0000_0000 + y) % 0x1_0000_0000 == y % 0x1_0000_0000
  {
  }

  /** regions_per_offset: the number of set colours, added up run by run. */
  method CountColors(ranges: seq<int>, ghost runs: seq<Run>) returns (n: nat)
    requires WellFormed(runs) && Encodes(ranges, runs) && |ranges| % 2 == 0
    ensures n == |Expand(runs)|
  {
    hide Expand, Interval;
    n := 0;
    var c := 0;
    ExpandPrefix(runs, 0);
    while c < |ranges|
      invariant 0 <= c <= |ranges| && c % 2 == 0 && n == |Expand(runs[..Min(c / 2, |runs|)])|
    {
      assert c == 2 * (c / 2) && (ranges[c] != -1 <==> c / 2 < |runs|);
      if ranges[c] != -1 {
        ExpandPrefix(runs, c / 2);
        n := n + (ranges[c + 1] - ranges[c] + 1);
      }
      c := c + 2;
    }
    assert runs[..|runs|] == runs;
  }

  lemma WrittenColors(g: Layout, mask: seq<bool>, start: nat, copies: seq<Copy>, done: nat)
    requires g.unit > 0 && g.stripe > 0 && |mask| == MaxColors(g) && Placed(g, SetColors(mask, 0), start, copies, done)
    ensures forall a <- Written(copies) :: a >= g.phys && ColorOf(g, a) in SetColors(mask, 0)
  {
    hide SetColors, Place, ColorOf;
    SetColorsAre(mask, 0);
    forall a | a in Written(copies) ensures a >= g.phys && ColorOf(g, a) in SetColors(mask, 0) {
      var b :| 0 <= b < |Written(copies)| && Written(copies)[b] == a;
      PlaceHasColor(g, SetColors(mask, 0), start + b);
    }
  }

  lemma NothingCopied(copies: seq<Copy>)
    requires InOrder(copies)
    ensures copies == [] || |Written(copies)| > 0
  {
    if copies != [] {
      var last := copies[|copies| - 1];
      assert Written(copies) == Written(copies[..|copies| - 1]) + seq(last.len, t requires 0 <= t => last.phys + t);
    }
  }

  lemma PlacedNothing(g: Layout, cs: seq<nat>, start: nat, copies: seq<Copy>, done: nat)
    requires g.unit > 0 && Placed(g, cs, start, copies, done)
    ensures done == 0 ==> copies == []
  {
    NothingCopied(copies);
  }

  /** load_image_colored.  The result 1 sends the caller to the uncoloured regions. */
  method LoadImage(unit: nat, stripe: nat, regions: seq<ColoredRegion>, target: nat, size: nat, hooks: Hooks)
    returns (res: int, copies: seq<Copy>, done: nat, k: nat)
    requires unit > 0 && stripe >= unit && unit % PAGE_SIZE == 0 && stripe % PAGE_SIZE == 0
    requires forall i | 0 <= i < |regions| :: regions[i].phys % PAGE_SIZE == 0
    ensures res == 1 <==>
              size == 0 || forall i | 0 <= i < |regions| :: !Suitable(unit, stripe, regions[i], target, size)
    ensures res == 1 || res == -EBUSY || Reports(res, copies)
    ensures res == 1 ==> copies == []
    ensures res != 1 ==>
              && k < |regions| && Suitable(unit, stripe, regions[k], target, size)
              && (forall i | 0 <= i < k :: !Suitable(unit, stripe, regions[i], target, size))
              && Placed(Layout(unit, stripe, regions[k].phys), ColorsOf(unit, stripe, regions[k]),
                        target - regions[k].virt, copies, done)
    ensures res != 1 ==>
              var fits := Fitting(target - regions[k].virt, size, RoomCounted(unit, stripe, regions[k]));
              && Honest(hooks, copies) && done <= fits
              && (res == -EBUSY <==> done < fits) && (res == -EBUSY ==> !hooks.maps(done))
              && (fits == size <==> target - regions[k].virt + size <= RoomCounted(unit, stripe, regions[k]))
    ensures res != 1 ==> forall a <- Written(copies) ::
              && a >= regions[k].phys
              && ColorOf(Layout(unit, stripe, regions[k].phys), a) in ColorsOf(unit, stripe, regions[k])
  {
    hide Placed, SetColors, Expand, ColorOf, Written, HasRoom;
    copies, done, k := [], 0, 0;
    if size == 0 {
      return 1, copies, done, k;
    }
    var max := stripe / unit;
    while k < |regions|
      invariant k <= |regions| && forall i | 0 <= i < k :: !Suitable(unit, stripe, regions[i], target, size)
    {
      var region := regions[k];
      if region.writable {
        var mask := BuildMask(region.colors, max);
        var values := new int[2 * max];
        var beyond: bool := *;
        ghost var runs := RangesInMask(mask, values, beyond);
        assert mask[..] == MaskOf(region.colors, max);
        var ranges := values[..];
        var n := CountColors(ranges, runs);
        var stripes := Int32(region.size / stripe);
        if region.virt <= target <= region.virt + region.size && HasRoom(unit, n, stripes, size) {
          var g := Layout(unit, stripe, region.phys);
          var count := StripeCount(stripe, region);
          res, copies, done := LoadStripes(g, Expand(runs), ranges, runs, count, target - region.virt, size, hooks);
          WrittenColors(g, MaskOf(region.colors, max), target - region.virt, copies, done);
          PlacedNothing(g, Expand(runs), target - region.virt, copies, done);
          return;
        }
      }
      k := k + 1;
    }
    return 1, copies, done, k;
  }

  /** An image of one byte for the address right behind a region is reported as loaded, and nothing
      is copied. */
  method ImageBehindRegion(hooks: Hooks) returns (res: int, copies: seq<Copy>, done: nat, k: nat)
    ensures res == 0 && done == 0 && copies == []
  {
    hide SetColors, Placed, Written;
    var region := ColoredRegion(0, 0, 2 * PAGE_SIZE, 3, true);
    assert Bit(3, 0) && Bit(3, 1) by {
      assert Bit(1, 0);
    }
    var mask := MaskOf(3, 2);
    TwoColors(mask);
    assert HasRoom(PAGE_SIZE, 2, 1, 1);
    var regions := [region];
    assert Suitable(PAGE_SIZE, 2 * PAGE_SIZE, regions[0], 2 * PAGE_SIZE, 1);
    res, copies, done, k := LoadImage(PAGE_SIZE, 2 * PAGE_SIZE, regions, 2 * PAGE_SIZE, 1, hooks);
    var g, cs := Layout(PAGE_SIZE, 2 * PAGE_SIZE, 0), ColorsOf(PAGE_SIZE, 2 * PAGE_SIZE, region);
    PlacedNothing(g, cs, 2 * PAGE_SIZE, copies, done);
  }

  lemma TwoColors(mask: seq<bool>)
    requires mask == [true, true]
    ensures SetColors(mask, 0) == [0, 1]
  {
    assert SetColors(mask, 2) == [];
    assert SetColors(mask, 1) == [1];
  }
}
