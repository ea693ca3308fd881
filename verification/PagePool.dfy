/** The bitmap page allocator (hypervisor/paging.c): find_next_free_page,
    page_alloc_internal and page_free. */
module PagePool {
  import opened Common
  import opened Arith

  const BITS_PER_LONG: nat := 64

  /** Pages [start, start + num) handed out together. */
  datatype Block = Block(start: nat, num: nat)

  /** The pages that whole bitmap words describe; only those are ever handed out. */
  function Whole(pages: nat): nat {
    pages / BITS_PER_LONG * BITS_PER_LONG
  }

  // ----- masks -----

  /** x & m */
  function And(x: nat, m: nat): nat
    decreases m
  {
    if m == 0 then 0 else (if x % 2 == 1 && m % 2 == 1 then 1 else 0) + 2 * And(x / 2, m / 2)
  }

  predicate PowerOfTwo(a: nat)
    decreases a
  {
    a == 1 || (a > 1 && a % 2 == 0 && PowerOfTwo(a / 2))
  }

  /** Masking with a - 1 takes the remainder by a, for a power of two. */
  lemma {:induction false} MaskIsRemainder(x: nat, a: nat)
    requires PowerOfTwo(a)
    ensures And(x, a - 1) == x % a
    decreases a
  {
    if a > 1 {
      var h := a / 2;
      MaskIsRemainder(x / 2, h);
      assert (a - 1) / 2 == h - 1 && (a - 1) % 2 == 1;
      var q, r := QuotientAndRest(x / 2, h);
      assert x == q * a + (2 * r + x % 2) by {
        Regroup(q, h, 2, 0, 0);
      }
      DivUnique(x, q, 2 * r + x % 2, a);
    }
  }

  // ----- what the allocator looks for -----

  /** num free pages start at c. */
  ghost predicate Fits(bits: seq<bool>, num: nat, c: nat) {
    c + num <= Whole(|bits|) && forall j | c <= j < c + num :: !bits[j]
  }

  /** c is congruent to `first` modulo the alignment `a`. */
  predicate Aligned(c: nat, first: nat, a: nat)
    requires a > 0
  {
    c >= first && (c - first) % a == 0
  }

  ghost predicate NoFitBelow(bits: seq<bool>, num: nat, first: nat, a: nat, limit: nat)
    requires a > 0
  {
    forall c | 0 <= c < limit && Aligned(c, first, a) :: !Fits(bits, num, c)
  }

  ghost predicate NoFit(bits: seq<bool>, num: nat, first: nat, a: nat)
    requires a > 0
  {
    forall c: nat | Aligned(c, first, a) :: !Fits(bits, num, c)
  }

  /** r is the first page from start on that is free. */
  ghost predicate FirstFree(bits: seq<bool>, start: nat, r: Option<nat>) {
    match r
    case None => forall j | start <= j < Whole(|bits|) :: bits[j]
    case Some(p) => start <= p < Whole(|bits|) && !bits[p] && forall j | start <= j < p :: bits[j]
  }

  // ----- why a restart loses nothing -----

  lemma SkipToAligned(bits: seq<bool>, num: nat, first: nat, a: nat, next: nat)
    requires a > 0 && next >= first && NoFitBelow(bits, num, first, a, next)
    ensures var rest := (next - first) % a;
            var next' := if rest == 0 then next else next + a - rest;
            Aligned(next', first, a) && NoFitBelow(bits, num, first, a, next')
  {
    var d := next - first;
    var rest := d % a;
    if rest != 0 {
      var q, r := QuotientAndRest(d, a);
      Regroup(q, 1, a, 1, 0);
      DivUnique(d + a - rest, q + 1, 0, a);
      forall c | next <= c < next + a - rest ensures !Aligned(c, first, a) {
        DivUnique(c - first, q, c - first - q * a, a);
      }
    }
  }

  lemma NothingLeft(bits: seq<bool>, num: nat, first: nat, a: nat, next: nat)
    requires a > 0 && num > 0 && NoFitBelow(bits, num, first, a, next) && FirstFree(bits, next, None)
    ensures NoFit(bits, num, first, a)
  {
    forall c: nat | Aligned(c, first, a) ensures !Fits(bits, num, c) {
      assert c >= next && c + num <= Whole(|bits|) ==> bits[c];
    }
  }

  lemma SkipUsed(bits: seq<bool>, num: nat, first: nat, a: nat, next: nat, start: nat)
    requires a > 0 && num > 0 && NoFitBelow(bits, num, first, a, next) && FirstFree(bits, next, Some(start))
    ensures NoFitBelow(bits, num, first, a, start)
  {
    forall c | 0 <= c < start && Aligned(c, first, a) ensures !Fits(bits, num, c) {
      assert c >= next ==> bits[c];
    }
  }

  /** A used page at last + 1 inside the block rules out all starts up to it. */
  lemma SkipBroken(bits: seq<bool>, num: nat, first: nat, a: nat, start: nat, last: nat, next: Option<nat>)
    requires a > 0 && NoFitBelow(bits, num, first, a, start) && start <= last < start + num - 1
    requires FirstFree(bits, last + 1, next) && next != Some(last + 1)
    ensures next.Some? ==> NoFitBelow(bits, num, first, a, next.value)
    ensures next.None? ==> NoFit(bits, num, first, a)
  {
    var limit := if next.Some? then next.value else Whole(|bits|);
    forall c: nat | Aligned(c, first, a) && (next.Some? ==> c < limit) ensures !Fits(bits, num, c) {
      if c >= start && c + num <= Whole(|bits|) {
        var broken := if c <= last + 1 then last + 1 else c;
        assert c <= broken < c + num && last + 1 <= broken;
        assert bits[broken];
      }
    }
  }

  // ----- counting -----

  function Count(bits: seq<bool>): nat {
    if bits == [] then 0 else (if bits[0] then 1 else 0) + Count(bits[1..])
  }

  lemma CountUpdate(bits: seq<bool>, i: nat, b: bool)
    requires i < |bits|
    ensures Count(bits[i := b]) == Count(bits) + (if b then 1 else 0) - (if bits[i] then 1 else 0)
    decreases i
  {
    if i == 0 {
      assert bits[i := b][1..] == bits[1..];
    } else {
      CountUpdate(bits[1..], i - 1, b);
      assert bits[i := b][1..] == bits[1..][i - 1 := b];
    }
  }

  /** bits with [lo, hi) set to b. */
  function Paint(bits: seq<bool>, lo: nat, hi: nat, b: bool): (r: seq<bool>)
    requires lo <= hi <= |bits|
    ensures |r| == |bits|
  {
    seq(|bits|, i requires 0 <= i < |bits| => if lo <= i < hi then b else bits[i])
  }

  /** Page numbers are aligned in absolute terms just if twice the pool's base is. */
  lemma AbsoluteAlignment(base: nat, a: nat, start: nat)
    requires a > 0 && Aligned(start, base % a, a)
    ensures (base + start) % a == 0 <==> (2 * base) % a == 0
  {
    var q, r := QuotientAndRest(base, a);
    var k, z := QuotientAndRest(start - r, a);
    Distribute(q, k, a);
    Distribute(q, q, a);
    ModShift(q + k, 2 * r, a);
    ModShift(q + q, 2 * r, a);
  }

  // ----- the pool -----

  class Pool {
    const base: nat            // page number of base_address
    const pages: nat
    const scrub: bool          // PAGE_SCRUB_ON_FREE
    const usedBitmap: array<bool>
    const zero: array<bool>    // whether a page is all zero
    var usedPages: nat
    ghost var live: set<Block> // blocks handed out and not yet released

    ghost predicate Valid()
      reads this, usedBitmap, zero
    {
      && usedBitmap != zero && usedBitmap.Length == zero.Length == pages
      && usedPages == Count(usedBitmap[..])
      && (forall b <- live :: b.num > 0 && b.start + b.num <= pages)
      && (forall b, i | b in live && b.start <= i < b.start + b.num :: usedBitmap[i])
      && (forall b, c | b in live && c in live && b != c :: Disjoint(b, c))
      && (scrub ==> forall i | 0 <= i < pages :: !usedBitmap[i] ==> zero[i])
    }

    /** paging_init-style setup on zeroed memory: the first `reserved` pages are taken. */
    constructor (base: nat, pages: nat, scrub: bool, reserved: nat)
      requires reserved <= pages
      ensures Valid() && live == {} && usedPages == reserved
      ensures this.base == base && this.pages == pages && this.scrub == scrub
      ensures fresh(usedBitmap) && fresh(zero)
      ensures forall i | 0 <= i < pages :: usedBitmap[i] <==> i < reserved
    {
      this.base, this.pages, this.scrub := base, pages, scrub;
      var bits := new bool[pages](i => i < reserved);
      usedBitmap := bits;
      zero := new bool[pages](i => true);
      usedPages := reserved;
      live := {};
      new;
      assert usedBitmap[..] == seq(pages, i => i < reserved);
      CountReserved(pages, reserved);
    }

    /** find_next_free_page: word by word, with the pages before `start` masked in the first. */
    method FindNextFree(start: nat) returns (r: Option<nat>)
      requires usedBitmap.Length == pages
      ensures FirstFree(usedBitmap[..], start, r)
    {
      if start >= pages {
        return None;
      }
      var mask: nat, pos: nat := start % BITS_PER_LONG, start / BITS_PER_LONG;
      while pos < pages / BITS_PER_LONG
        invariant pos * BITS_PER_LONG + mask >= start && mask < BITS_PER_LONG
        invariant forall j | start <= j < pos * BITS_PER_LONG + mask && j < pages :: usedBitmap[j]
      {
        var word := usedBitmap[pos * BITS_PER_LONG..(pos + 1) * BITS_PER_LONG];
        var z := FirstZero(word, mask);
        if z < BITS_PER_LONG {
          assert forall j | pos * BITS_PER_LONG + mask <= j < pos * BITS_PER_LONG + z ::
              usedBitmap[j] == word[j - pos * BITS_PER_LONG];
          return Some(pos * BITS_PER_LONG + z);
        }
        forall j | pos * BITS_PER_LONG + mask <= j < (pos + 1) * BITS_PER_LONG ensures usedBitmap[j] {
          assert word[j - pos * BITS_PER_LONG] == usedBitmap[j];
        }
        mask, pos := 0, pos + 1;
      }
      assert pos * BITS_PER_LONG >= Whole(pages);
      return None;
    }

    /** page_alloc_internal: `mask` is 0, or num - 1 for a power of two num as documented. */
    method AllocInternal(num: nat, mask: nat) returns (r: Option<nat>)
      requires Valid() && (mask == 0 || (num == mask + 1 && PowerOfTwo(num)))
      modifies this`usedPages, this`live, usedBitmap
      ensures Valid()
      ensures num == 0 ==> r.None?
      ensures num > 0 ==> (r.None? <==> NoFit(old(usedBitmap[..]), num, base % (mask + 1), mask + 1))
      ensures r.None? ==> usedBitmap[..] == old(usedBitmap[..]) && usedPages == old(usedPages) && live == old(live)
      ensures r.Some? ==>
                && Aligned(r.value, base % (mask + 1), mask + 1) && Fits(old(usedBitmap[..]), num, r.value)
                && NoFitBelow(old(usedBitmap[..]), num, base % (mask + 1), mask + 1, r.value)
                && usedBitmap[..] == Paint(old(usedBitmap[..]), r.value, r.value + num, true)
                && usedPages == old(usedPages) + num && live == old(live) + {Block(r.value, num)}
                && (forall b <- old(live) :: Disjoint(b, Block(r.value, num)))
                && (scrub ==> forall i | r.value <= i < r.value + num :: zero[i])
    {
      var start := SearchFit(num, mask);
      if start.None? {
        return None;
      }
      forall b | b in live ensures Disjoint(b, Block(start.value, num)) {
        FreeIsDisjoint(usedBitmap[..], b, Block(start.value, num));
      }
      SetBits(start.value, num);
      usedPages := usedPages + num;
      live := live + {Block(start.value, num)};
      r := start;
    }

    /** The search of page_alloc_internal, up to the point where the bits get set. */
    method SearchFit(num: nat, mask: nat) returns (r: Option<nat>)
      requires usedBitmap.Length == pages && (mask == 0 || (num == mask + 1 && PowerOfTwo(num)))
      ensures num == 0 ==> r.None?
      ensures num > 0 && r.None? ==> NoFit(usedBitmap[..], num, base % (mask + 1), mask + 1)
      ensures r.Some? ==>
                && Aligned(r.value, base % (mask + 1), mask + 1) && Fits(usedBitmap[..], num, r.value)
                && NoFitBelow(usedBitmap[..], num, base % (mask + 1), mask + 1, r.value)
    {
      if num == 0 {
        return None;
      }
      assert PowerOfTwo(1);
      hide And, PowerOfTwo;
      ghost var bits := usedBitmap[..];
      ghost var a := mask + 1;
      MaskIsRemainder(base, a);
      var first := And(base, mask);
      var next: nat := first;
      while true
        invariant next >= first && NoFitBelow(bits, num, first, a, next)
        decreases Whole(pages) - next
      {
        SkipToAligned(bits, num, first, a, next);
        MaskIsRemainder(next - first, a);
        if And(next - first, mask) != 0 {
          next := next + num - And(next - first, mask);
        }
        var start := FindNextFree(next);
        if start.None? {
          NothingLeft(bits, num, first, a, next);
          return None;
        }
        SkipUsed(bits, num, first, a, next, start.value);
        next := start.value;
        MaskIsRemainder(next - first, a);
        if And(next - first, mask) != 0 {
          continue;
        }
        var last, n := ExtendBlock(next, num);
        if last + 1 == next + num {
          return start;
        }
        SkipBroken(bits, num, first, a, next, last, n);
        if n.None? {
          return None;
        }
        next := n.value;
      }
    }

    /** The inner loop of the search: how far free pages follow each other from `start` on. */
    method ExtendBlock(start: nat, num: nat) returns (last: nat, next: Option<nat>)
      requires usedBitmap.Length == pages && num > 0 && start < Whole(pages) && !usedBitmap[start]
      ensures start <= last < start + num && last < Whole(pages) && forall j | start <= j <= last :: !usedBitmap[j]
      ensures last + 1 < start + num ==> FirstFree(usedBitmap[..], last + 1, next) && next != Some(last + 1)
    {
      last, next := start, None;
      var taken := 1;
      while taken < num
        invariant 1 <= taken <= num && last == start + taken - 1 && last < Whole(pages)
        invariant forall j | start <= j <= last :: !usedBitmap[j]
      {
        next := FindNextFree(last + 1);
        if next != Some(last + 1) {
          return;
        }
        last, taken := last + 1, taken + 1;
      }
    }

    /** The set_bit loop. */
    method SetBits(start: nat, num: nat)
      requires usedBitmap.Length == pages && start + num <= pages
      requires forall j | start <= j < start + num :: !usedBitmap[j]
      modifies usedBitmap
      ensures usedBitmap[..] == Paint(old(usedBitmap[..]), start, start + num, true)
      ensures Count(usedBitmap[..]) == Count(old(usedBitmap[..])) + num
    {
      var taken := 0;
      while taken < num
        invariant taken <= num
        invariant usedBitmap[..] == Paint(old(usedBitmap[..]), start, start + taken, true)
        invariant Count(usedBitmap[..]) == Count(old(usedBitmap[..])) + taken
      {
        CountUpdate(usedBitmap[..], start + taken, true);
        ghost var was := usedBitmap[..];
        usedBitmap[start + taken] := true;
        assert usedBitmap[..] == was[start + taken := true];
        taken := taken + 1;
      }
    }

    /** page_alloc */
    method Alloc(num: nat) returns (r: Option<nat>)
      requires Valid()
      modifies this`usedPages, this`live, usedBitmap
      ensures Valid()
      ensures num == 0 ==> r.None?
      ensures num > 0 ==> (r.None? <==> NoFit(old(usedBitmap[..]), num, 0, 1))
      ensures r.None? ==> usedBitmap[..] == old(usedBitmap[..]) && usedPages == old(usedPages) && live == old(live)
      ensures r.Some? ==>
                && Fits(old(usedBitmap[..]), num, r.value) && NoFitBelow(old(usedBitmap[..]), num, 0, 1, r.value)
                && usedBitmap[..] == Paint(old(usedBitmap[..]), r.value, r.value + num, true)
                && live == old(live) + {Block(r.value, num)} && usedPages == old(usedPages) + num
                && (scrub ==> forall i | r.value <= i < r.value + num :: zero[i])
    {
      hide NoFit, NoFitBelow, Fits, Count;
      r := AllocInternal(num, 0);
    }

    /** page_alloc_aligned */
    method AllocAligned(num: nat) returns (r: Option<nat>)
      requires Valid() && PowerOfTwo(num)
      modifies this`usedPages, this`live, usedBitmap
      ensures Valid()
      ensures r.None? <==> NoFit(old(usedBitmap[..]), num, base % num, num)
      ensures r.None? ==> usedBitmap[..] == old(usedBitmap[..]) && usedPages == old(usedPages) && live == old(live)
      ensures r.Some? ==> Fits(old(usedBitmap[..]), num, r.value) && Aligned(r.value, base % num, num)
      ensures r.Some? ==> NoFitBelow(old(usedBitmap[..]), num, base % num, num, r.value)
      ensures r.Some? ==> usedBitmap[..] == Paint(old(usedBitmap[..]), r.value, r.value + num, true)
      ensures r.Some? ==> ((base + r.value) % num == 0 <==> (2 * base) % num == 0)
      ensures r.Some? ==> live == old(live) + {Block(r.value, num)} && usedPages == old(usedPages) + num
    {
      hide NoFit, NoFitBelow, Fits, Count;
      r := AllocInternal(num, num - 1);
      if r.Some? {
        AbsoluteAlignment(base, num, r.value);
      }
    }

    /** page_free of a block that is live; freeing NULL does nothing. */
    method Free(page: Option<nat>, num: nat)
      requires Valid() && (page.Some? ==> Block(page.value, num) in live)
      modifies this`usedPages, this`live, usedBitmap, zero
      ensures Valid()
      ensures page.None? ==>
                && usedPages == old(usedPages) && live == old(live)
                && usedBitmap[..] == old(usedBitmap[..]) && zero[..] == old(zero[..])
      ensures page.Some? ==>
                && usedBitmap[..] == Paint(old(usedBitmap[..]), page.value, page.value + num, false)
                && usedPages == old(usedPages) - num && live == old(live) - {Block(page.value, num)}
                && (scrub ==> zero[..] == Paint(old(zero[..]), page.value, page.value + num, true))
                && (!scrub ==> zero[..] == old(zero[..]))
    {
      if page.None? {
        return;
      }
      ClearBits(page.value, num);
      live := live - {Block(page.value, num)};
    }

    /** The loop of page_free: scrub, clear the bit, count down. */
    method ClearBits(start: nat, num: nat)
      requires usedBitmap != zero && usedBitmap.Length == zero.Length == pages && start + num <= pages
      requires usedPages == Count(usedBitmap[..]) && forall j | start <= j < start + num :: usedBitmap[j]
      modifies this`usedPages, usedBitmap, zero
      ensures usedBitmap[..] == Paint(old(usedBitmap[..]), start, start + num, false)
      ensures zero[..] == if scrub then Paint(old(zero[..]), start, start + num, true) else old(zero[..])
      ensures usedPages == Count(usedBitmap[..]) == old(usedPages) - num
    {
      var left, page := num, start;
      while left > 0
        invariant 0 <= left <= num && page == start + num - left
        invariant usedBitmap[..] == Paint(old(usedBitmap[..]), start, page, false)
        invariant zero[..] == if scrub then Paint(old(zero[..]), start, page, true) else old(zero[..])
        invariant usedPages == Count(usedBitmap[..]) == old(usedPages) - (num - left)
      {
        if scrub {
          zero[page] := true;
        }
        CountUpdate(usedBitmap[..], page, false);
        ghost var was := usedBitmap[..];
        assert usedBitmap[page];
        usedBitmap[page] := false;
        assert usedBitmap[..] == was[page := false];
        usedPages := usedPages - 1;
        left, page := left - 1, page + 1;
      }
    }

    /** The owner of a block writes to its pages. */
    method Use(b: Block, i: nat)
      requires Valid() && b in live && b.start <= i < b.start + b.num
      modifies zero
      ensures Valid() && !zero[i]
    {
      zero[i] := false;
    }
  }

  predicate Disjoint(b: Block, c: Block) {
    b.start + b.num <= c.start || c.start + c.num <= b.start
  }

  /** A block of used pages and a block of free pages do not meet. */
  lemma FreeIsDisjoint(bits: seq<bool>, b: Block, c: Block)
    requires b.num > 0 && c.num > 0 && b.start + b.num <= |bits| && c.start + c.num <= |bits|
    requires (forall i | b.start <= i < b.start + b.num :: bits[i])
    requires (forall i | c.start <= i < c.start + c.num :: !bits[i])
    ensures Disjoint(b, c)
  {
    var m := if b.start < c.start then c.start else b.start;
    var both := bits[m];
    assert Disjoint(b, c);
  }

  lemma {:induction false} CountReserved(pages: nat, reserved: nat)
    requires reserved <= pages
    ensures Count(seq(pages, i => i < reserved)) == reserved
    decreases pages
  {
    var s := seq(pages, i => i < reserved);
    if pages > 0 {
      var r := if reserved > 0 then reserved - 1 else 0;
      CountReserved(pages - 1, r);
      assert s[1..] == seq(pages - 1, i => i < r);
    }
  }

  /** ffzl of a word whose first `mask` bits count as set; the word size if all are set. */
  method FirstZero(word: seq<bool>, mask: nat) returns (z: nat)
    requires mask <= |word|
    ensures mask <= z <= |word| && (z < |word| ==> !word[z]) && forall j | mask <= j < z :: word[j]
  {
    z := mask;
    while z < |word| && word[z]
      invariant mask <= z <= |word| && forall j | mask <= j < z :: word[j]
    {
      z := z + 1;
    }
  }

  /** A pool that begins at page 1 hands out four "aligned" pages at page 2. */
  method AlignedAtPageTwo() returns (p: Pool, r: Option<nat>)
    ensures p.base == 1 && r == Some(1) && (p.base + r.value) % 4 != 0
  {
    p := new Pool(1, 64, false, 0);
    assert PowerOfTwo(1) && PowerOfTwo(2) && PowerOfTwo(4);
    ghost var bits := p.usedBitmap[..];
    assert Aligned(1, 1, 4) && Fits(bits, 4, 1);
    r := p.AllocAligned(4);
    assert r.value == 1;
  }
}
