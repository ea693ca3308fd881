/** Shared-memory links between two cells (hypervisor/ivshmem.c): ivshmem_init, ivshmem_exit
    and ivshmem_remote_interrupt.  Pointers to endpoints are (page, index) pairs. */
module Ivshmem {
  import opened Common

  const ENOMEM := 12
  const EBUSY := 16
  const EINVAL := 22

  /** The virtual PCI device's configuration: its shared region, if the index is valid. */
  datatype Info = Info(bdf: nat, region: Option<Memory>, protocol: nat)

  datatype Memory = Memory(phys: nat, size: nat)

  /** Address of eps[index] in the struct ivshmem_data on `page`. */
  datatype Ref = Ref(page: nat, index: nat)

  datatype Endpoint = Endpoint(device: Option<nat>, remote: Option<Ref>, ivpos: nat)

  datatype Link = Link(page: nat, bdf: nat, ep0: Endpoint, ep1: Endpoint) {
    function Ep(i: nat): Endpoint {
      if i == 0 then ep0 else ep1
    }

    function With(i: nat, e: Endpoint): Link {
      if i == 0 then this.(ep0 := e) else this.(ep1 := e)
    }
  }

  /** A page fresh from the scrubbing pool: no device, no remote. */
  const BLANK := Endpoint(None, None, 0)

  /** Both devices offer the same memory and protocol. */
  predicate Matching(a: Info, b: Info) {
    a.region.Some? && a.region == b.region && a.protocol == b.protocol
  }

  // ----- what holds of a link -----

  /** Endpoint i of a link, seen with its sibling: a live endpoint knows its place, and its remote
      is the sibling exactly when the sibling is live. */
  ghost predicate EndpointOk(l: Link, i: nat, info: map<nat, Info>)
    requires i < 2
  {
    var e, s := l.Ep(i), l.Ep(1 - i);
    e.device.Some? ==>
      && e.device.value in info && info[e.device.value].bdf == l.bdf && info[e.device.value].region.Some?
      && e.ivpos == i
      && e.remote == if s.device.Some? then Some(Ref(l.page, 1 - i)) else None
  }

  ghost predicate LinkOk(l: Link, info: map<nat, Info>) {
    && (l.ep0.device.Some? || l.ep1.device.Some?)
    && EndpointOk(l, 0, info) && EndpointOk(l, 1, info)
    && (l.ep0.device.Some? && l.ep1.device.Some? ==>
          l.ep0.device != l.ep1.device && Matching(info[l.ep0.device.value], info[l.ep1.device.value]))
  }

  /** Device d sits at endpoint i of the link. */
  predicate Seat(l: Link, i: nat, d: nat) {
    i < 2 && l.Ep(i).device == Some(d)
  }

  ghost predicate ListOk(list: seq<Link>, info: map<nat, Info>) {
    && (forall k | 0 <= k < |list| :: LinkOk(list[k], info))
    && (forall j, k | 0 <= j < k < |list| :: list[j].bdf != list[k].bdf && list[j].page != list[k].page)
  }

  /** device->ivshmem_endpoint of the live devices and the seats in the list agree. */
  ghost predicate Seated(list: seq<Link>, endpoint: map<nat, Ref>, live: set<nat>) {
    && (forall d <- live :: d in endpoint && SeatedAt(list, endpoint[d], d))
    && (forall k, i, d | 0 <= k < |list| && Seat(list[k], i, d) ::
          d in live && d in endpoint && endpoint[d] == Ref(list[k].page, i))
  }

  ghost predicate SeatedAt(list: seq<Link>, r: Ref, d: nat) {
    exists k | 0 <= k < |list| :: list[k].page == r.page && Seat(list[k], r.index, d)
  }

  /** Every page of the pool is free or carries exactly one link. */
  ghost predicate PagesOk(list: seq<Link>, free: set<nat>, pages: set<nat>) {
    && free <= pages
    && (forall p <- pages :: p in free <==> !Carries(list, p))
    && (forall k | 0 <= k < |list| :: list[k].page in pages)
  }

  ghost predicate Carries(list: seq<Link>, page: nat) {
    exists k | 0 <= k < |list| :: list[k].page == page
  }

  /** Position of the link on this page, or the length of the list. */
  function IndexOf(list: seq<Link>, page: nat): (k: nat)
    ensures k <= |list| && (k < |list| ==> list[k].page == page)
    ensures forall j | 0 <= j < k :: list[j].page != page
  {
    if list == [] || list[0].page == page then 0 else 1 + IndexOf(list[1..], page)
  }

  // ----- how the list changes -----

  /** The link with device d at endpoint i, beside a live sibling. */
  function Joined(l: Link, i: nat, d: nat): Link
    requires i < 2
  {
    l.With(i, Endpoint(Some(d), Some(Ref(l.page, 1 - i)), i)).With(1 - i, l.Ep(1 - i).(remote := Some(Ref(l.page, i))))
  }

  /** The link with device d at endpoint i, whoever is its sibling. */
  function Attached(l: Link, i: nat, d: nat): Link
    requires i < 2
  {
    if l.Ep(1 - i).device.Some? then Joined(l, i, d) else l.With(i, Endpoint(Some(d), l.Ep(i).remote, i))
  }

  /** The link after endpoint i left and its sibling stays. */
  function Left(l: Link, i: nat): Link
    requires i < 2
  {
    l.With(i, l.Ep(i).(device := None)).With(1 - i, l.Ep(1 - i).(remote := None))
  }

  /** A link opened by device d. */
  function Opened(page: nat, bdf: nat, d: nat): Link {
    Link(page, bdf, Endpoint(Some(d), None, 0), BLANK)
  }

  function Removed(list: seq<Link>, k: nat): seq<Link>
    requires k < |list|
  {
    list[..k] + list[k + 1..]
  }

  lemma {:induction false} JoinKeeps(list: seq<Link>, info: map<nat, Info>, endpoint: map<nat, Ref>, live: set<nat>,
                                     free: set<nat>, pages: set<nat>, k: nat, i: nat, d: nat)
    requires ListOk(list, info) && Seated(list, endpoint, live) && PagesOk(list, free, pages) && d !in live && d in info
    requires k < |list| && i < 2 && list[k].bdf == info[d].bdf && list[k].Ep(i).device.None?
    requires Matching(info[list[k].Ep(1 - i).device.value], info[d])
    ensures ListOk(list[k := Joined(list[k], i, d)], info)
    ensures Seated(list[k := Joined(list[k], i, d)], endpoint[d := Ref(list[k].page, i)], live + {d})
    ensures PagesOk(list[k := Joined(list[k], i, d)], free, pages)
  {
    SamePages(list, list[k := Joined(list[k], i, d)], free, pages);
    var list' := list[k := Joined(list[k], i, d)];
    var endpoint' := endpoint[d := Ref(list[k].page, i)];
    assert Seat(list[k], 1 - i, list[k].Ep(1 - i).device.value);
    forall e <- live + {d} ensures SeatedAt(list', endpoint'[e], e) {
      var j := if e == d then k else SeatOf(list, endpoint, live, e);
      assert list'[j].page == endpoint'[e].page && Seat(list'[j], endpoint'[e].index, e);
    }
    forall j, s, e | 0 <= j < |list'| && Seat(list'[j], s, e)
      ensures e in live + {d} && endpoint'[e] == Ref(list'[j].page, s)
    {
      assert (j == k && s == i && e == d) || Seat(list[j], s, e);
    }
  }

  ghost function SeatOf(list: seq<Link>, endpoint: map<nat, Ref>, live: set<nat>, d: nat): (k: nat)
    requires Seated(list, endpoint, live) && d in live
    ensures k < |list| && list[k].page == endpoint[d].page && Seat(list[k], endpoint[d].index, d)
  {
    assert SeatedAt(list, endpoint[d], d);
    var k: nat :| k < |list| && list[k].page == endpoint[d].page && Seat(list[k], endpoint[d].index, d);
    k
  }

  lemma {:induction false} OpenKeeps(list: seq<Link>, info: map<nat, Info>, endpoint: map<nat, Ref>, live: set<nat>,
                                     free: set<nat>, pages: set<nat>, page: nat, d: nat)
    requires ListOk(list, info) && Seated(list, endpoint, live) && PagesOk(list, free, pages)
    requires d !in live && d in info && info[d].region.Some?
    requires page in free && forall k | 0 <= k < |list| :: list[k].bdf != info[d].bdf
    ensures ListOk([Opened(page, info[d].bdf, d)] + list, info)
    ensures Seated([Opened(page, info[d].bdf, d)] + list, endpoint[d := Ref(page, 0)], live + {d})
    ensures PagesOk([Opened(page, info[d].bdf, d)] + list, free - {page}, pages)
  {
    var list' := [Opened(page, info[d].bdf, d)] + list;
    var endpoint' := endpoint[d := Ref(page, 0)];
    assert list'[0].page == page && Seat(list'[0], 0, d);
    forall k | 0 <= k < |list| ensures list[k].page != page && list'[k + 1] == list[k] {
      assert Carries(list, list[k].page);
    }
    forall e <- live + {d} ensures SeatedAt(list', endpoint'[e], e) {
      if e != d {
        var j := SeatOf(list, endpoint, live, e);
        assert list'[j + 1].page == endpoint'[e].page && Seat(list'[j + 1], endpoint'[e].index, e);
      }
    }
    forall j, s, e | 0 <= j < |list'| && Seat(list'[j], s, e)
      ensures e in live + {d} && endpoint'[e] == Ref(list'[j].page, s)
    {
      assert j > 0 ==> list'[j] == list[j - 1];
    }
    forall p <- pages ensures p in free - {page} <==> !Carries(list', p) {
      if Carries(list, p) {
        var k :| 0 <= k < |list| && list[k].page == p;
        assert list'[k + 1].page == p;
      }
    }
  }

  lemma SamePages(list: seq<Link>, list': seq<Link>, free: set<nat>, pages: set<nat>)
    requires PagesOk(list, free, pages) && |list'| == |list|
    requires forall k | 0 <= k < |list| :: list'[k].page == list[k].page
    ensures PagesOk(list', free, pages)
  {
    assert forall p :: Carries(list, p) == Carries(list', p);
  }

  lemma {:induction false} LeaveKeeps(list: seq<Link>, info: map<nat, Info>, endpoint: map<nat, Ref>, live: set<nat>,
                                      free: set<nat>, pages: set<nat>, k: nat, i: nat, d: nat)
    requires ListOk(list, info) && Seated(list, endpoint, live) && PagesOk(list, free, pages)
    requires k < |list| && Seat(list[k], i, d) && list[k].Ep(1 - i).device.Some?
    ensures ListOk(list[k := Left(list[k], i)], info)
    ensures Seated(list[k := Left(list[k], i)], endpoint, live - {d})
    ensures PagesOk(list[k := Left(list[k], i)], free, pages)
  {
    SamePages(list, list[k := Left(list[k], i)], free, pages);
    var list' := list[k := Left(list[k], i)];
    forall e <- live - {d} ensures SeatedAt(list', endpoint[e], e) {
      var j := SeatOf(list, endpoint, live, e);
      assert list'[j].page == endpoint[e].page && Seat(list'[j], endpoint[e].index, e);
    }
    forall j, s, e | 0 <= j < |list'| && Seat(list'[j], s, e)
      ensures e in live - {d} && endpoint[e] == Ref(list'[j].page, s)
    {
      assert Seat(list[j], s, e) && Seat(list[k], i, d);
    }
  }

  lemma {:induction false} CloseKeeps(list: seq<Link>, info: map<nat, Info>, endpoint: map<nat, Ref>, live: set<nat>,
                                      free: set<nat>, pages: set<nat>, k: nat, i: nat, d: nat)
    requires ListOk(list, info) && Seated(list, endpoint, live) && PagesOk(list, free, pages)
    requires k < |list| && Seat(list[k], i, d) && list[k].Ep(1 - i).device.None?
    ensures ListOk(Removed(list, k), info)
    ensures Seated(Removed(list, k), endpoint, live - {d})
    ensures PagesOk(Removed(list, k), free + {list[k].page}, pages)
  {
    var list' := Removed(list, k);
    assert forall j | 0 <= j < |list'| :: list'[j] == list[if j < k then j else j + 1];
    forall e <- live - {d} ensures SeatedAt(list', endpoint[e], e) {
      var j := SeatOf(list, endpoint, live, e);
      var j' := if j < k then j else j - 1;
      assert list'[j'].page == endpoint[e].page && Seat(list'[j'], endpoint[e].index, e);
    }
    forall j, s, e | 0 <= j < |list'| && Seat(list'[j], s, e)
      ensures e in live - {d} && endpoint[e] == Ref(list'[j].page, s)
    {
      assert Seat(list[if j < k then j else j + 1], s, e) && Seat(list[k], i, d);
    }
    RemovedPages(list, free, pages, k);
  }

  lemma {:induction false} RemovedPages(list: seq<Link>, free: set<nat>, pages: set<nat>, k: nat)
    requires PagesOk(list, free, pages) && k < |list|
    requires forall i, j | 0 <= i < j < |list| :: list[i].page != list[j].page
    ensures PagesOk(Removed(list, k), free + {list[k].page}, pages)
  {
    var list' := Removed(list, k);
    assert forall j | 0 <= j < |list'| :: list'[j] == list[if j < k then j else j + 1];
    forall p <- pages ensures p in free + {list[k].page} <==> !Carries(list', p) {
      if Carries(list, p) && p != list[k].page {
        var j :| 0 <= j < |list| && list[j].page == p;
        assert list'[if j < k then j else j - 1].page == p;
      }
      if Carries(list', p) {
        var j :| 0 <= j < |list'| && list'[j].page == p;
        assert list[if j < k then j else j + 1].page == p;
      }
    }
  }

  /** Once every device has left, no link remains and the pool has all its pages back. */
  lemma NobodyLeft(list: seq<Link>, info: map<nat, Info>, endpoint: map<nat, Ref>, free: set<nat>, pages: set<nat>)
    requires ListOk(list, info) && Seated(list, endpoint, {}) && PagesOk(list, free, pages)
    ensures list == [] && free == pages
  {
    if list != [] {
      var i := if list[0].ep0.device.Some? then 0 else 1;
      assert LinkOk(list[0], info) && Seat(list[0], i, list[0].Ep(i).device.value);
      assert false;
    }
  }

  /** Two devices share a link exactly when each is the other's remote, and they then agree on
      bdf, region and protocol; the remote of a live device is live. */
  lemma RemoteIsMutual(list: seq<Link>, info: map<nat, Info>, endpoint: map<nat, Ref>, live: set<nat>, d: nat, e: nat)
    requires ListOk(list, info) && Seated(list, endpoint, live) && d in live && e in live && d != e
    ensures RemoteOf(list, endpoint[d]) == Some(endpoint[e]) <==> RemoteOf(list, endpoint[e]) == Some(endpoint[d])
    ensures RemoteOf(list, endpoint[d]) == Some(endpoint[e]) <==> info[d].bdf == info[e].bdf
    ensures info[d].bdf == info[e].bdf ==> Matching(info[d], info[e])
  {
    var j, k := SeatOf(list, endpoint, live, d), SeatOf(list, endpoint, live, e);
    assert LinkOk(list[j], info) && LinkOk(list[k], info);
    assert IndexOf(list, endpoint[d].page) == j && IndexOf(list, endpoint[e].page) == k;
  }

  /** Another device in use with the same bdf. */
  ghost predicate Peers(live: set<nat>, info: map<nat, Info>, d: nat, e: nat)
    requires d in info
  {
    e in live && e != d && e in info && info[e].bdf == info[d].bdf
  }

  /** The remote pointer of a device in use leads to its peer, and is null without one. */
  lemma PeerIsRemote(list: seq<Link>, info: map<nat, Info>, endpoint: map<nat, Ref>, live: set<nat>, d: nat)
    requires ListOk(list, info) && Seated(list, endpoint, live) && d in live && d in info
    ensures d in endpoint
    ensures forall e | Peers(live, info, d, e) :: e in endpoint && RemoteOf(list, endpoint[d]) == Some(endpoint[e])
    ensures (forall e :: !Peers(live, info, d, e)) <==> RemoteOf(list, endpoint[d]).None?
  {
    forall e | Peers(live, info, d, e) ensures e in endpoint && RemoteOf(list, endpoint[d]) == Some(endpoint[e]) {
      RemoteIsMutual(list, info, endpoint, live, d, e);
    }
    Deref(list, info, endpoint, live, d);
    var k := IndexOf(list, endpoint[d].page);
    var l, i := list[k], endpoint[d].index;
    assert LinkOk(l, info);
    if l.Ep(1 - i).device.Some? {
      var e := l.Ep(1 - i).device.value;
      assert Seat(l, 1 - i, e);
      assert Peers(live, info, d, e);
    }
  }

  /** ive->remote, through the pointer to the endpoint. */
  function RemoteOf(list: seq<Link>, r: Ref): Option<Ref> {
    var k := IndexOf(list, r.page);
    if k < |list| then list[k].Ep(r.index).remote else None
  }

  // ----- what ivshmem_init answers -----

  /** A link with a free seat takes the device if both sides agree. */
  ghost function LinkAnswer(l: Link, info: map<nat, Info>, d: nat): int
    requires d in info
  {
    if l.ep0.device.Some? && l.ep1.device.Some? then -EBUSY
    else if exists e :: (Seat(l, 0, e) || Seat(l, 1, e)) && e in info && Matching(info[e], info[d]) then 0
    else -EINVAL
  }

  ghost predicate Answered(list: seq<Link>, free: set<nat>, info: map<nat, Info>, d: nat, err: int)
    requires d in info
  {
    if info[d].region.None? then err == -EINVAL
    else if forall k | 0 <= k < |list| :: list[k].bdf != info[d].bdf then err == if free == {} then -ENOMEM else 0
    else forall k | 0 <= k < |list| && list[k].bdf == info[d].bdf :: err == LinkAnswer(list[k], info, d)
  }

  /** The link of d's bdf decides, and has a live peer for the free seat. */
  lemma AnsweredByLink(list: seq<Link>, free: set<nat>, info: map<nat, Info>, k: nat, d: nat)
    requires ListOk(list, info) && k < |list| && d in info && list[k].bdf == info[d].bdf && info[d].region.Some?
    ensures var l, id := list[k], if list[k].ep0.device.Some? then 1 else 0;
      if l.Ep(id).device.Some? then Answered(list, free, info, d, -EBUSY)
      else (l.Ep(1 - id).device.Some? && l.Ep(1 - id).device.value in info
        && Answered(list, free, info, d, if Matching(info[l.Ep(1 - id).device.value], info[d]) then 0 else -EINVAL))
  {
    var l, id := list[k], if list[k].ep0.device.Some? then 1 else 0;
    assert LinkOk(l, info);
    assert forall j | 0 <= j < |list| && j != k :: list[j].bdf != list[k].bdf;
    if l.Ep(id).device.None? {
      assert Seat(l, 1 - id, l.Ep(1 - id).device.value);
    }
  }

  predicate HasRoom(l: Link) {
    l.ep0.device.None? || l.ep1.device.None?
  }

  /** A successful init: d takes the free seat of the link of its bdf, and no page moves; or, if
      there is none, it opens one on a page of the pool. */
  ghost predicate Seats(before: seq<Link>, after: seq<Link>, free: set<nat>, free': set<nat>, info: map<nat, Info>,
                        d: nat)
    requires d in info
  {
    if forall k | 0 <= k < |before| :: before[k].bdf != info[d].bdf
    then exists p <- free :: after == [Opened(p, info[d].bdf, d)] + before && free' == free - {p}
    else free' == free && exists k: nat | k < |before| && before[k].bdf == info[d].bdf && HasRoom(before[k]) ::
        after == before[k := Joined(before[k], if before[k].ep0.device.Some? then 1 else 0, d)]
  }

  /** What one exit does to the list, the pool and the interrupts: a live sibling loses its remote
      and is notified; without one the link goes and its page is freed. */
  ghost predicate Leaves(before: seq<Link>, after: seq<Link>, free: set<nat>, free': set<nat>, sent: seq<Ref>, d: nat) {
    exists k: nat, i: nat | k < |before| && Seat(before[k], i, d) ::
      if before[k].Ep(1 - i).device.Some?
      then after == before[k := Left(before[k], i)] && free' == free && sent == [Ref(before[k].page, 1 - i)]
      else after == Removed(before, k) && free' == free + {before[k].page} && sent == []
  }

  class Links {
    const info: map<nat, Info>
    ghost const pages: set<nat>    // the pool's pages not used elsewhere
    var list: seq<Link>            // ivshmem_list, newest first
    var endpoint: map<nat, Ref>    // device->ivshmem_endpoint; not cleared when a device leaves
    var freePages: set<nat>
    var interrupts: seq<Ref>       // triggered so far
    ghost var live: set<nat>

    ghost predicate Valid()
      reads this
    {
      ListOk(list, info) && Seated(list, endpoint, live) && PagesOk(list, freePages, pages)
    }

    constructor (info: map<nat, Info>, pages: set<nat>)
      ensures Valid() && live == {} && this.info == info && list == [] && freePages == pages == this.pages
    {
      this.info, this.pages := info, pages;
      list, endpoint, freePages, interrupts, live := [], map[], pages, [], {};
    }

    /** Index of the link with this bdf, or the length of the list. */
    method FindBdf(bdf: nat) returns (k: nat)
      ensures k <= |list| && (k < |list| ==> list[k].bdf == bdf)
      ensures forall j | 0 <= j < k :: list[j].bdf != bdf
    {
      k := 0;
      while k < |list| && list[k].bdf != bdf
        invariant k <= |list| && forall j | 0 <= j < k :: list[j].bdf != bdf
      {
        k := k + 1;
      }
    }

    /** Device d takes endpoint id of link k; a live sibling and d become each other's remote. */
    method Attach(k: nat, id: nat, d: nat)
      requires k < |list| && id < 2
      modifies this`list, this`endpoint
      ensures list == old(list)[k := Attached(old(list)[k], id, d)]
      ensures endpoint == old(endpoint)[d := Ref(old(list)[k].page, id)]
    {
      var page := list[k].page;
      list := list[k := list[k].With(id, Endpoint(Some(d), list[k].Ep(id).remote, id))];
      endpoint := endpoint[d := Ref(page, id)];
      if list[k].Ep(1 - id).device.Some? {
        list := list[k := list[k].With(id, list[k].Ep(id).(remote := Some(Ref(page, 1 - id))))];
        list := list[k := list[k].With(1 - id, list[k].Ep(1 - id).(remote := Some(Ref(page, id))))];
      }
    }

    /** ivshmem_init of a device that is not in use. */
    method Init(d: nat) returns (err: int)
      requires Valid() && d in info && d !in live
      modifies this
      ensures Valid() && interrupts == old(interrupts)
      ensures Answered(old(list), old(freePages), info, d, err)
      ensures err != 0 ==>
                list == old(list) && endpoint == old(endpoint) && freePages == old(freePages) && live == old(live)
      ensures err == 0 ==> live == old(live) + {d} && endpoint.Keys == old(endpoint).Keys + {d}
      ensures err == 0 ==> forall e | e in old(endpoint) && e != d :: endpoint[e] == old(endpoint)[e]
      ensures err == 0 ==> Seats(old(list), list, old(freePages), freePages, info, d)
    {
      hide ListOk, Seated, PagesOk, LinkAnswer, LinkOk;
      if info[d].region.None? {
        return -EINVAL;
      }
      var k := FindBdf(info[d].bdf);
      var id := 0;
      if k < |list| {
        AnsweredByLink(list, freePages, info, k, d);
        id := if list[k].ep0.device.Some? then 1 else 0;
        if list[k].Ep(id).device.Some? {
          return -EBUSY;
        }
        var peer := list[k].Ep(1 - id).device.value;
        if info[peer].region != info[d].region || info[peer].protocol != info[d].protocol {
          return -EINVAL;
        }
        JoinKeeps(list, info, endpoint, live, freePages, pages, k, id, d);
      } else {
        if freePages == {} {
          return -ENOMEM;
        }
        var page :| page in freePages;
        OpenKeeps(list, info, endpoint, live, freePages, pages, page, d);
        freePages := freePages - {page};
        list := [Link(page, info[d].bdf, BLANK, BLANK)] + list;
        k := 0;
      }
      Attach(k, id, d);
      assert list == if |list| == |old(list)| then old(list)[k := Joined(old(list)[k], id, d)]
                     else [Opened(list[0].page, info[d].bdf, d)] + old(list);
      live := live + {d};
      return 0;
    }

    /** A device in use writes its doorbell or its state register: the one other device in use with
        its bdf gets the interrupt, and nobody if there is none. */
    method Doorbell(d: nat)
      requires Valid() && d in live && d in info
      modifies this`interrupts
      ensures Valid()
      ensures forall e | Peers(live, info, d, e) :: interrupts == old(interrupts) + [endpoint[e]]
      ensures (forall e :: !Peers(live, info, d, e)) ==> interrupts == old(interrupts)
    {
      hide ListOk, Seated, PagesOk, RemoteOf;
      PeerIsRemote(list, info, endpoint, live, d);
      RemoteInterrupt(endpoint[d]);
    }

    /** ivshmem_remote_interrupt: to where the endpoint's remote pointer leads. */
    method RemoteInterrupt(r: Ref)
      modifies this`interrupts
      ensures interrupts == old(interrupts) + if RemoteOf(list, r).Some? then [RemoteOf(list, r).value] else []
    {
      var remote := RemoteOf(list, r);
      if remote.Some? {
        interrupts := interrupts + [remote.value];
      }
    }

    /** Index of the link whose endpoint `ivpos` is at r, or the length of the list. */
    method FindEndpoint(r: Ref, ivpos: nat) returns (k: nat)
      ensures k <= |list| && (k < |list| ==> Ref(list[k].page, ivpos) == r)
      ensures forall j | 0 <= j < k :: Ref(list[j].page, ivpos) != r
    {
      k := 0;
      while k < |list| && Ref(list[k].page, ivpos) != r
        invariant k <= |list| && forall j | 0 <= j < k :: Ref(list[j].page, ivpos) != r
      {
        k := k + 1;
      }
    }

    /** ivshmem_exit of a device in use. */
    method Exit(d: nat)
      requires Valid() && d in live
      modifies this
      ensures Valid() && live == old(live) - {d} && endpoint == old(endpoint)
      ensures old(interrupts) <= interrupts
      ensures Leaves(old(list), list, old(freePages), freePages, interrupts[|old(interrupts)|..], d)
    {
      hide ListOk, Seated, PagesOk, LinkOk, EndpointOk;
      Deref(list, info, endpoint, live, d);
      var ive := endpoint[d];
      var at := IndexOf(list, ive.page);
      var i := ive.index;
      if list[at].Ep(i).remote.Some? {
        LeaveKeeps(list, info, endpoint, live, freePages, pages, at, i, d);
        list := list[at := list[at].With(1 - i, list[at].Ep(1 - i).(remote := None))];
        SameIndex(old(list), list, ive.page);
        RemoteInterrupt(ive);
        list := list[at := list[at].With(i, list[at].Ep(i).(device := None))];
        assert list == old(list)[at := Left(old(list)[at], i)];
      } else {
        CloseKeeps(list, info, endpoint, live, freePages, pages, at, i, d);
        var k := FindEndpoint(ive, list[at].Ep(i).ivpos);
        if k < |list| {
          var page := list[k].page;
          list := list[..k] + list[k + 1..];
          assert list == Removed(old(list), at);
          freePages := freePages + {page};
        }
      }
      live := live - {d};
    }

    /** A device that joins and leaves again, or fails to join, leaves the pool and what every
        other device sees as they were. */
    method InitThenExit(d: nat) returns (err: int)
      requires Valid() && d in info && d !in live
      modifies this
      ensures Valid() && freePages == old(freePages) && live == old(live) && Alike(list, old(list))
    {
      hide ListOk, Seated, PagesOk, Leaves, Seats, Answered;
      ghost var list0, free0 := list, freePages;
      err := Init(d);
      if err == 0 {
        ghost var list1, free1, sent := list, freePages, |interrupts|;
        Exit(d);
        NoTrace(list0, list1, list, free0, free1, freePages, interrupts[sent..], info, d, old(endpoint), old(live));
      }
    }
  }

  /** Both links look the same to every live device. */
  ghost predicate AlikeLink(l: Link, m: Link) {
    && l.page == m.page && l.bdf == m.bdf
    && forall i: nat | i < 2 :: (if m.Ep(i).device.Some? then l.Ep(i) == m.Ep(i) else l.Ep(i).device.None?)
  }

  ghost predicate Alike(s: seq<Link>, t: seq<Link>) {
    |s| == |t| && forall k | 0 <= k < |s| :: AlikeLink(s[k], t[k])
  }

  /** The endpoint pointer of a live device leads to it; the remote is set iff the sibling is live. */
  lemma Deref(list: seq<Link>, info: map<nat, Info>, endpoint: map<nat, Ref>, live: set<nat>, d: nat)
    requires ListOk(list, info) && Seated(list, endpoint, live) && d in live
    ensures d in endpoint && IndexOf(list, endpoint[d].page) < |list|
    ensures var l, i := list[IndexOf(list, endpoint[d].page)], endpoint[d].index;
      && Seat(l, i, d) && l.Ep(i).ivpos == i
      && l.Ep(i).remote == if l.Ep(1 - i).device.Some? then Some(Ref(l.page, 1 - i)) else None
  {
    var k := SeatOf(list, endpoint, live, d);
    assert LinkOk(list[k], info);
    assert IndexOf(list, endpoint[d].page) == k;
  }

  lemma NoTrace(before: seq<Link>, mid: seq<Link>, after: seq<Link>, free: set<nat>, free1: set<nat>, free2: set<nat>,
                sent: seq<Ref>, info: map<nat, Info>, d: nat, endpoint: map<nat, Ref>, live: set<nat>)
    requires ListOk(before, info) && Seated(before, endpoint, live) && d !in live && d in info
    requires Seats(before, mid, free, free1, info, d) && Leaves(mid, after, free1, free2, sent, d)
    ensures free2 == free && Alike(after, before)
  {
    hide Seated;
    Unseated(before, endpoint, live, d);
    if forall k | 0 <= k < |before| :: before[k].bdf != info[d].bdf {
      OpenedNoTrace(before, mid, after, free, free1, free2, sent, info, d);
    } else {
      var k: nat :| k < |before| && before[k].bdf == info[d].bdf && HasRoom(before[k]) &&
        mid == before[k := Joined(before[k], if before[k].ep0.device.Some? then 1 else 0, d)];
      assert LinkOk(before[k], info);
      JoinedNoTrace(before, mid, after, free, free2, sent, k, if before[k].ep0.device.Some? then 1 else 0, d, info);
    }
  }

  lemma OpenedNoTrace(before: seq<Link>, mid: seq<Link>, after: seq<Link>, free: set<nat>, free1: set<nat>,
                      free2: set<nat>, sent: seq<Ref>, info: map<nat, Info>, d: nat)
    requires d in info && forall k, i | 0 <= k < |before| :: !Seat(before[k], i, d)
    requires forall k | 0 <= k < |before| :: before[k].bdf != info[d].bdf
    requires Seats(before, mid, free, free1, info, d) && Leaves(mid, after, free1, free2, sent, d)
    ensures free2 == free && Alike(after, before)
  {
    var p :| p in free && mid == [Opened(p, info[d].bdf, d)] + before && free1 == free - {p};
    forall j, s | 0 <= j < |mid| ensures Seat(mid[j], s, d) ==> j == 0 && s == 0 {
      assert j > 0 ==> mid[j] == before[j - 1];
    }
    assert after == Removed(mid, 0) && free2 == free1 + {p};
    assert after == before;
  }

  lemma JoinedNoTrace(before: seq<Link>, mid: seq<Link>, after: seq<Link>, free: set<nat>, free2: set<nat>,
                      sent: seq<Ref>, k: nat, i: nat, d: nat, info: map<nat, Info>)
    requires k < |before| && i < 2 && LinkOk(before[k], info) && before[k].Ep(i).device.None?
    requires forall j, s | 0 <= j < |before| :: !Seat(before[j], s, d)
    requires mid == before[k := Joined(before[k], i, d)] && Leaves(mid, after, free, free2, sent, d)
    ensures free2 == free && Alike(after, before)
  {
    forall j, s | 0 <= j < |mid| && Seat(mid[j], s, d) ensures j == k && s == i {
      assert !Seat(before[j], s, d);
    }
    assert AlikeLink(Left(Joined(before[k], i, d), i), before[k]);
    assert after == mid[k := Left(mid[k], i)];
  }

  lemma SameIndex(list: seq<Link>, list': seq<Link>, page: nat)
    requires |list'| == |list| && forall k | 0 <= k < |list| :: list'[k].page == list[k].page
    ensures IndexOf(list', page) == IndexOf(list, page)
  {
    var k, k' := IndexOf(list, page), IndexOf(list', page);
    assert k < |list| ==> list'[k].page == page;
    assert k' < |list| ==> list[k'].page == page;
  }

  lemma Unseated(list: seq<Link>, endpoint: map<nat, Ref>, live: set<nat>, d: nat)
    requires Seated(list, endpoint, live) && d !in live
    ensures forall k, i | 0 <= k < |list| :: !Seat(list[k], i, d)
  {
  }
}
