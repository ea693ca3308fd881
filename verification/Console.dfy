/** The virtual console: console_write (hypervisor/printk.c) puts characters into a ring
    in shared memory while copy_console_page (driver/main.c) copies that page without a
    lock.  Memory accesses of writer and reader interleave one by one; the barriers of
    both sides keep them in program order. */
module Console {
  import opened Arith

  const WORD: nat := 0x1_0000_0000   // tail is an unsigned int

  /** sizeof(console.content); the current implementation uses 2048. */
  predicate RingSize(n: nat) {
    n > 0 && WORD % n == 0
  }

  datatype Page = Page(busy: bool, tail: nat, content: seq<char>)

  /** Where the writer is in console_write. */
  datatype Writer = Quiet | Ready | Stored(ch: char)

  /** Where the reader is in copy_console_page: waiting for !busy, about to read the tail,
      copying, about to re-read busy, done. */
  datatype Reader =
    | Spin
    | ReadTail
    | Copying(t: nat, dst: seq<char>, dstTail: nat, copied: set<nat>)
    | CheckBusy(dst: seq<char>, dstTail: nat)
    | Accepted(dst: seq<char>, dstTail: nat)

  /** History: `log` holds all characters ever completed; `len0` is its length when the
      current attempt read the tail, `seen` the pages in memory since then. */
  datatype System = System(page: Page, writer: Writer, reader: Reader, log: seq<char>, len0: nat, seen: seq<Page>)

  datatype Action = SetBusy | Store(ch: char) | IncTail | ClearBusy | Read(i: nat)

  predicate WellTyped(n: nat, s: System) {
    n > 0 && |s.page.content| == n && (s.reader.Copying? ==> |s.reader.dst| == n)
  }

  /** One memory access.  Read(i) with i < n copies byte i, with i == n the tail, and any
      other Read while copying ends the copy once everything is copied. */
  function Step(n: nat, s: System, a: Action): (s': System)
    requires WellTyped(n, s)
    ensures WellTyped(n, s')
  {
    match a
    case SetBusy => if s.writer.Quiet? then Written(s, s.page.(busy := true), Ready, s.log) else s
    case Store(ch) =>
      if s.writer.Ready?
      then Written(s, s.page.(content := s.page.content[s.page.tail % n := ch]), Stored(ch), s.log)
      else s
    case IncTail =>
      if s.writer.Stored?
      then Written(s, s.page.(tail := (s.page.tail + 1) % WORD), Ready, s.log + [s.writer.ch])
      else s
    case ClearBusy => if s.writer.Ready? then Written(s, s.page.(busy := false), Quiet, s.log) else s
    case Read(i) =>
      match s.reader
      case Spin => if s.page.busy then s else s.(reader := ReadTail)
      case ReadTail =>
        s.(reader := Copying(s.page.tail, seq(n, _ => '\0'), 0, {}), len0 := |s.log|, seen := [s.page])
      case Copying(t, dst, dstTail, copied) =>
        if i < n then s.(reader := Copying(t, dst[i := s.page.content[i]], dstTail, copied + {i}))
        else if i == n then s.(reader := Copying(t, dst, s.page.tail, copied + {i}))
        else if exists j | 0 <= j <= n :: j !in copied then s
        else if s.page.tail != t then s.(reader := Spin)
        else s.(reader := CheckBusy(dst, dstTail))
      case CheckBusy(dst, dstTail) => if s.page.busy then s.(reader := Spin) else s.(reader := Accepted(dst, dstTail))
      case Accepted(_, _) => s.(reader := Spin)
  }

  function Written(s: System, page: Page, writer: Writer, log: seq<char>): System {
    s.(page := page, writer := writer, log := log, seen := if s.reader.Copying? then s.seen + [page] else s.seen)
  }

  ghost predicate Init(n: nat, s: System) {
    && s.page.busy == false && s.page.tail == 0 && |s.page.content| == n
    && s.writer == Quiet && s.reader == Spin && s.log == [] && s.len0 == 0 && s.seen == []
  }

  // ----- the ring against the log -----

  /** The ring holds the last n characters of log[..len], except perhaps the oldest one. */
  ghost predicate AlmostRing(n: nat, content: seq<char>, log: seq<char>, len: nat)
    requires n > 0 && |content| == n && len <= |log|
  {
    forall i | 0 <= i < len && len - n < i :: content[i % n] == log[i]
  }

  /** The slot the next character goes to still holds the oldest one. */
  ghost predicate OldestIntact(n: nat, content: seq<char>, log: seq<char>, len: nat)
    requires n > 0 && |content| == n && len <= |log|
  {
    len >= n ==> content[len % n] == log[len - n]
  }

  ghost predicate WriterInv(n: nat, s: System) {
    && RingSize(n) && |s.page.content| == n
    && s.page.tail == |s.log| % WORD
    && (s.page.busy <==> !s.writer.Quiet?)
    && AlmostRing(n, s.page.content, s.log, |s.log|)
    && (s.writer.Stored? ==> s.page.content[|s.log| % n] == s.writer.ch)
    && (!s.writer.Stored? ==> OldestIntact(n, s.page.content, s.log, |s.log|))
  }

  /** While nothing was completed since the attempt began, all pages seen agree but for the
      slot of the next character. */
  ghost predicate SeenAgree(n: nat, s: System)
    requires n > 0
  {
    && s.len0 <= |s.log|
    && s.seen != []
    && (forall p <- s.seen :: |p.content| == n)
    && (forall p <- s.seen :: p.tail == s.len0 % WORD && AlmostRing(n, p.content, s.log, s.len0))
    && (forall p, q | p in s.seen && q in s.seen :: SameButSlot(p.content, q.content, s.len0 % n))
    && s.page in s.seen
  }

  ghost predicate SameButSlot(c: seq<char>, d: seq<char>, slot: nat) {
    |c| == |d| && forall i | 0 <= i < |c| && i != slot :: c[i] == d[i]
  }

  ghost predicate CopyInv(n: nat, s: System)
    requires n > 0 && s.reader.Copying?
  {
    var r := s.reader;
    && |r.dst| == n && r.t == s.len0 % WORD && s.len0 <= |s.log|
    && (forall i <- r.copied :: 0 <= i <= n)
    && (|s.log| == s.len0 ==>
          && SeenAgree(n, s)
          && (n in r.copied ==> r.dstTail == r.t)
          && (forall i <- r.copied :: i < n && i != s.len0 % n ==> r.dst[i] == s.page.content[i])
          && (s.len0 % n in r.copied ==>
                exists p <- s.seen :: |p.content| == n && p.content[s.len0 % n] == r.dst[s.len0 % n]))
  }

  /** What an accepted copy is: a page that was in memory during the attempt. */
  ghost predicate Snapshot(n: nat, s: System, dst: seq<char>, dstTail: nat)
    requires n > 0
  {
    && s.len0 <= |s.log| && |dst| == n && dstTail == s.len0 % WORD
    && AlmostRing(n, dst, s.log, s.len0)
    && exists p <- s.seen :: p.content == dst && p.tail == dstTail
  }

  ghost predicate Inv(n: nat, s: System) {
    && WriterInv(n, s)
    && (s.reader.Copying? ==> CopyInv(n, s))
    && (s.reader.CheckBusy? || s.reader.Accepted? ==> Snapshot(n, s, s.reader.dst, s.reader.dstTail))
  }

  /** Fewer than 2^32 characters complete while one attempt copies. */
  ghost predicate Paced(s: System) {
    s.reader.Copying? ==> |s.log| - s.len0 < WORD
  }

  lemma ModNested(n: nat, len: nat)
    requires RingSize(n)
    ensures (len % WORD) % n == len % n
  {
    var q, k := len / WORD, WORD / n;
    assert WORD == k * n;
    Regroup(q, k, n, 0, len % WORD);
    ModShift(q * k, len % WORD, n);
  }

  lemma SlotOf(n: nat, len: nat)
    requires n > 0
    ensures len >= n ==> (len - n) % n == len % n
  {
    if len >= n {
      ModShift(1, len - n, n);
    }
  }

  /** Only the oldest character shares its slot with the next one. */
  lemma SlotFree(n: nat, i: nat, len: nat)
    requires n > 0 && len - n < i < len
    ensures i % n != len % n
  {
    if i % n == len % n {
      assert i == (i / n) * n + i % n && len == (len / n) * n + len % n;
      MulMono(len / n, i / n, n);
      MulMono(i / n + 1, len / n, n);
      assert false;
    }
  }

  // ----- every step keeps the invariant -----

  lemma StoreKeeps(n: nat, content: seq<char>, log: seq<char>, len: nat, ch: char)
    requires n > 0 && |content| == n && len <= |log| && AlmostRing(n, content, log, len)
    ensures AlmostRing(n, content[len % n := ch], log, len)
    ensures SameButSlot(content, content[len % n := ch], len % n)
  {
    forall i | 0 <= i < len && len - n < i ensures content[len % n := ch][i % n] == log[i] {
      SlotFree(n, i, len);
    }
  }

  lemma IncKeeps(n: nat, content: seq<char>, log: seq<char>, ch: char)
    requires n > 0 && |content| == n && AlmostRing(n, content, log, |log|) && content[|log| % n] == ch
    ensures AlmostRing(n, content, log + [ch], |log| + 1) && OldestIntact(n, content, log + [ch], |log| + 1)
  {
    SlotOf(n, |log| + 1);
  }

  lemma TailSucc(len: nat)
    ensures ((len % WORD) + 1) % WORD == (len + 1) % WORD
  {
  }

  lemma WriterNext(n: nat, s: System, a: Action)
    requires WriterInv(n, s) && WellTyped(n, s)
    ensures WriterInv(n, Step(n, s, a))
  {
    hide AlmostRing, OldestIntact;
    ModNested(n, |s.log|);
    TailSucc(|s.log|);
    if a.Store? && s.writer.Ready? {
      StoreKeeps(n, s.page.content, s.log, |s.log|, a.ch);
    }
    if a.IncTail? && s.writer.Stored? {
      IncKeeps(n, s.page.content, s.log, s.writer.ch);
    }
  }

  lemma LogGrows(n: nat, content: seq<char>, log: seq<char>, log': seq<char>, len: nat)
    requires n > 0 && |content| == n && len <= |log| && log <= log' && AlmostRing(n, content, log, len)
    ensures AlmostRing(n, content, log', len)
  {
  }

  /** The writer's accesses disturb neither a running nor a finished copy. */
  lemma ReaderUndisturbed(n: nat, s: System, a: Action)
    requires Inv(n, s) && !a.Read?
    ensures Inv(n, Step(n, s, a))
  {
    var s' := Step(n, s, a);
    WriterNext(n, s, a);
    ModNested(n, |s.log|);
    if s.reader.CheckBusy? || s.reader.Accepted? {
      LogGrows(n, s.reader.dst, s.log, s'.log, s.len0);
    }
    if s.reader.Copying? && |s'.log| == s.len0 {
      if s' != s {
        PageAdded(n, s, s', a);
      }
    }
  }

  lemma PageAdded(n: nat, s: System, s': System, a: Action)
    requires Inv(n, s) && s.reader.Copying? && !a.Read? && s' == Step(n, s, a) && s' != s && |s'.log| == s.len0
    ensures CopyInv(n, s')
  {
    ModNested(n, |s.log|);
    if a.Store? {
      StoreKeeps(n, s.page.content, s.log, |s.log|, a.ch);
    }
    assert s'.seen == s.seen + [s'.page];
    assert SameButSlot(s.page.content, s'.page.content, s.len0 % n);
    forall p | p in s'.seen ensures p in s.seen || p == s'.page {
    }
    forall p, q | p in s'.seen && q in s'.seen ensures SameButSlot(p.content, q.content, s.len0 % n) {
      assert SameButSlot(s.page.content, s.page.content, s.len0 % n);
    }
  }

  /** Tails equal modulo 2^32 and fewer characters in between: nothing was completed. */
  lemma NothingCompleted(a: nat, b: nat)
    requires a <= b < a + WORD && a % WORD == b % WORD
    ensures a == b
  {
  }

  lemma CopyEnds(n: nat, s: System)
    requires Inv(n, s) && s.reader.Copying? && |s.log| == s.len0
    requires forall j | 0 <= j <= n :: j in s.reader.copied
    ensures Snapshot(n, s, s.reader.dst, s.reader.dstTail)
  {
    var r, slot := s.reader, s.len0 % n;
    assert slot in r.copied;
    var p :| p in s.seen && |p.content| == n && p.content[slot] == r.dst[slot];
    assert SameButSlot(p.content, s.page.content, slot);
    assert p.content == r.dst;
  }

  lemma ReaderNext(n: nat, s: System, i: nat)
    requires Inv(n, s) && Paced(s)
    ensures Inv(n, Step(n, s, Read(i)))
  {
    var s' := Step(n, s, Read(i));
    match s.reader {
      case ReadTail =>
        assert s'.seen == [s.page];
      case Copying(t, dst, dstTail, copied) =>
        if i > n && (forall j | 0 <= j <= n :: j in copied) && s.page.tail == t {
          NothingCompleted(s.len0, |s.log|);
          CopyEnds(n, s);
        } else if i < n {
          ByteCopied(n, s, i);
        }
      case _ =>
    }
  }

  lemma ByteCopied(n: nat, s: System, i: nat)
    requires Inv(n, s) && s.reader.Copying? && i < n
    ensures CopyInv(n, Step(n, s, Read(i)))
  {
    var s' := Step(n, s, Read(i));
    var slot := s.len0 % n;
    if |s.log| == s.len0 && slot in s'.reader.copied {
      if i == slot {
        assert s.page in s'.seen && s.page.content[slot] == s'.reader.dst[slot];
      } else {
        assert slot in s.reader.copied;
        var p :| p in s.seen && |p.content| == n && p.content[slot] == s.reader.dst[slot];
        assert p in s'.seen && p.content[slot] == s'.reader.dst[slot];
      }
    }
  }

  // ----- runs -----

  ghost predicate Run(n: nat, run: seq<System>) {
    && RingSize(n) && run != [] && Init(n, run[0])
    && (forall i | 0 <= i < |run| :: Paced(run[i]))
    && (forall i | 0 <= i < |run| - 1 :: Moves(n, run[i], run[i + 1]))
  }

  ghost predicate Moves(n: nat, s: System, s': System) {
    WellTyped(n, s) && exists a :: s' == Step(n, s, a)
  }

  lemma {:induction false} RunInv(n: nat, run: seq<System>, i: nat)
    requires Run(n, run) && i < |run|
    ensures Inv(n, run[i])
  {
    if i > 0 {
      RunInv(n, run, i - 1);
      var s, s' := run[i - 1], run[i - 1 + 1];
      assert Moves(n, s, s');
      var a :| s' == Step(n, s, a);
      if a.Read? {
        ReaderNext(n, s, a.i);
      } else {
        ReaderUndisturbed(n, s, a);
      }
    }
  }

  /** The reader is past reading the tail of the current attempt. */
  predicate InAttempt(r: Reader) {
    r.Copying? || r.CheckBusy? || r.Accepted?
  }

  /** Every page an attempt has seen was in memory at an instant of that attempt's copy. */
  lemma {:induction false} SeenWereThere(n: nat, run: seq<System>, i: nat, p: Page) returns (j: nat)
    requires Run(n, run) && i < |run| && InAttempt(run[i].reader) && p in run[i].seen
    ensures j <= i && run[j].page == p && run[j].reader.Copying?
    ensures run[j].len0 == run[i].len0 && run[j].log <= run[i].log
    ensures forall m | j < m <= i :: InAttempt(run[m].reader)
  {
    var s, s' := run[i - 1], run[i - 1 + 1];
    assert Moves(n, s, s');
    if InAttempt(s.reader) && p in s.seen {
      j := SeenWereThere(n, run, i - 1, p);
    } else {
      j := i;
    }
  }

  /** The copy accepted at i is the page that was in memory at j, while the reader copied and the
      log had the length that the tail tells. */
  ghost predicate Instant(run: seq<System>, i: nat, j: nat)
    requires i < |run| && run[i].reader.Accepted?
  {
    && j <= i && (forall m | j < m <= i :: InAttempt(run[m].reader))
    && run[j].reader.Copying? && run[j].len0 == |run[j].log| == run[i].len0 && run[j].log <= run[i].log
    && run[j].page.content == run[i].reader.dst && run[j].page.tail == run[i].reader.dstTail
  }

  /** Every accepted copy has the tail and the content that the page had at one single
      instant of the attempt, and that page is the ring over a prefix of the log but for
      at most the slot of the next character. */
  lemma AcceptedIsInstant(n: nat, run: seq<System>, i: nat) returns (j: nat)
    requires Run(n, run) && i < |run| && run[i].reader.Accepted?
    ensures Instant(run, i, j)
    ensures run[i].len0 <= |run[i].log| && run[i].reader.dstTail == run[i].len0 % WORD
    ensures |run[i].reader.dst| == n && AlmostRing(n, run[i].reader.dst, run[i].log, run[i].len0)
  {
    RunInv(n, run, i);
    var s := run[i];
    var p :| p in s.seen && p.content == s.reader.dst && p.tail == s.reader.dstTail;
    j := SeenWereThere(n, run, i, p);
    RunInv(n, run, j);
    NothingCompleted(run[j].len0, |run[j].log|);
  }

  /** The oldest character of an accepted copy is wrong exactly if at that instant the writer had
      stored another one in its place and not yet moved the tail. */
  lemma WrongOldestIff(n: nat, run: seq<System>, i: nat, j: nat)
    requires Run(n, run) && i < |run| && run[i].reader.Accepted? && Instant(run, i, j) && run[i].len0 >= n
    ensures |run[i].reader.dst| == n && run[i].len0 <= |run[i].log|
    ensures run[i].reader.dst[run[i].len0 % n] != run[i].log[run[i].len0 - n] <==>
            run[j].writer.Stored? && run[j].writer.ch != run[i].log[run[i].len0 - n]
  {
    RunInv(n, run, i);
    RunInv(n, run, j);
  }

  lemma StepGrows(n: nat, s: System, a: Action)
    requires WellTyped(n, s) && s.len0 <= |s.log|
    ensures s.len0 <= Step(n, s, a).len0 <= |Step(n, s, a).log| && s.log <= Step(n, s, a).log
  {
  }

  /** The log only grows, and later copies are taken at later lengths. */
  lemma {:induction false} RunGrows(n: nat, run: seq<System>, i: nat, j: nat)
    requires Run(n, run) && i <= j < |run|
    ensures run[i].len0 <= run[j].len0 <= |run[j].log| && run[i].log <= run[j].log
    decreases j
  {
    hide Inv, Step, WellTyped;
    if j > 0 {
      RunGrows(n, run, if i < j then i else i - 1, j - 1);
      var s, s' := run[j - 1], run[j - 1 + 1];
      assert Moves(n, s, s');
      var a :| s' == Step(n, s, a);
      StepGrows(n, s, a);
    }
  }

  // ----- the oldest character may be torn -----

  ghost function Steps(n: nat, s: System, acts: seq<Action>): (s': System)
    requires WellTyped(n, s)
    ensures WellTyped(n, s')
    decreases |acts|
  {
    if acts == [] then s else Steps(n, Step(n, s, acts[0]), acts[1..])
  }

  lemma {:induction false} StepsJoin(n: nat, s: System, a: seq<Action>, b: seq<Action>)
    requires WellTyped(n, s)
    ensures Steps(n, s, a + b) == Steps(n, Steps(n, s, a), b)
    decreases |a|
  {
    if a == [] {
      assert a + b == b;
    } else {
      StepsJoin(n, Step(n, s, a[0]), a[1..], b);
      assert (a + b)[1..] == a[1..] + b;
    }
  }

  /** How many characters the actions complete, at most. */
  ghost function Completions(acts: seq<Action>): nat
    decreases |acts|
  {
    if acts == [] then 0 else (if acts[0].IncTail? then 1 else 0) + Completions(acts[1..])
  }

  lemma {:induction false} CompletionsJoin(a: seq<Action>, b: seq<Action>)
    ensures Completions(a + b) == Completions(a) + Completions(b)
    decreases |a|
  {
    if a == [] {
      assert a + b == b;
    } else {
      CompletionsJoin(a[1..], b);
      assert (a + b)[1..] == a[1..] + b;
    }
  }

  /** A run goes on with actions that complete fewer than 2^32 characters, and no copy is under way. */
  lemma {:induction false} RunGoesOn(n: nat, run: seq<System>, acts: seq<Action>) returns (run': seq<System>)
    requires Run(n, run) && Room(run[|run| - 1], acts)
    ensures Run(n, run') && run <= run' && WellTyped(n, run[|run| - 1])
    ensures run'[|run'| - 1] == Steps(n, run[|run| - 1], acts)
    decreases |acts|
  {
    hide Inv, Step;
    var s := run[|run| - 1];
    RunTyped(n, run);
    run' := run;
    if acts != [] {
      var s' := Step(n, s, acts[0]);
      RoomStep(n, s, acts);
      var longer := run + [s'];
      forall i | 0 <= i < |longer| - 1 ensures Moves(n, longer[i], longer[i + 1]) {
        if i == |run| - 1 {
          assert longer[i + 1] == Step(n, s, acts[0]);
        } else {
          assert Moves(n, run[i], run[i + 1]);
        }
      }
      run' := RunGoesOn(n, longer, acts[1..]);
    }
  }

  /** The actions leave the current copy, if any, short of 2^32 characters. */
  ghost predicate Room(s: System, acts: seq<Action>) {
    Completions(acts) < WORD && (s.reader.Copying? ==> |s.log| - s.len0 + Completions(acts) < WORD)
  }

  lemma RoomStep(n: nat, s: System, acts: seq<Action>)
    requires WellTyped(n, s) && acts != [] && Room(s, acts)
    ensures Room(Step(n, s, acts[0]), acts[1..]) && Paced(Step(n, s, acts[0]))
  {
  }

  lemma RunTyped(n: nat, run: seq<System>)
    requires Run(n, run)
    ensures WellTyped(n, run[|run| - 1])
  {
    RunInv(n, run, |run| - 1);
  }

  ghost function Reads(n: nat, k: nat): seq<Action>
    requires k <= n
    decreases n - k
  {
    if k == n then [] else [Read(k)] + Reads(n, k + 1)
  }

  lemma {:induction false} ReadAll(n: nat, s: System, k: nat)
    requires WellTyped(n, s) && k <= n && s.reader.Copying?
    requires forall i | 0 <= i < k :: s.reader.dst[i] == s.page.content[i] && i in s.reader.copied
    ensures Steps(n, s, Reads(n, k)) == s.(reader := Steps(n, s, Reads(n, k)).reader)
    ensures var r := Steps(n, s, Reads(n, k)).reader;
            r.Copying? && r.t == s.reader.t && r.dst == s.page.content && forall i | 0 <= i < n :: i in r.copied
    decreases n - k
  {
    if k < n {
      ReadAll(n, Step(n, s, Read(k)), k + 1);
    }
  }

  /** From any quiet moment on, the reader may accept a copy whose tail is the old one
      while the slot of the oldest character already holds the next character: the tail is
      compared before, and busy is read after, the writer finished. */
  lemma TornCopy(n: nat, s: System, ch: char) returns (acts: seq<Action>)
    requires Inv(n, s) && s.writer == Quiet && s.reader == Spin
    ensures WellTyped(n, s)
    ensures Steps(n, s, acts).reader == Accepted(s.page.content[|s.log| % n := ch], s.page.tail)
    ensures Steps(n, s, acts).len0 == |s.log| && Steps(n, s, acts).log == s.log + [ch]
    ensures Completions(acts) == 1
  {
    ModNested(n, |s.log|);
    var s4 := Step(n, Step(n, Step(n, Step(n, s, Read(0)), SetBusy), Store(ch)), Read(0));
    var a1, a2 := [Read(0), SetBusy, Store(ch), Read(0)], [Read(n), Read(n + 1), IncTail, ClearBusy, Read(0)];
    acts := a1 + Reads(n, 0) + a2;
    OneCompletion(n, a1, a2);
    StepsJoin(n, s, a1 + Reads(n, 0), a2);
    StepsJoin(n, s, a1, Reads(n, 0));
    FourSteps(n, s, a1);
    ReadAll(n, s4, 0);
    var s5 := Steps(n, s4, Reads(n, 0));
    FiveSteps(n, s5, a2);
  }

  /** From any quiet moment on, a reader that is left alone accepts at its first attempt, and what
      it has then is the last n characters of the log, the oldest one included. */
  lemma QuietCopy(n: nat, s: System) returns (acts: seq<Action>)
    requires Inv(n, s) && s.writer == Quiet && s.reader == Spin
    ensures WellTyped(n, s) && forall a <- acts :: a.Read?
    ensures var s' := Steps(n, s, acts);
      && s'.reader.Accepted? && s'.log == s.log && s'.len0 == |s.log|
      && s'.reader.dstTail == |s.log| % WORD && |s'.reader.dst| == n
      && forall i | 0 <= i < |s.log| && |s.log| - n <= i :: s'.reader.dst[i % n] == s.log[i]
  {
    var a1, a2 := [Read(0), Read(0), Read(n), Read(n)], [Read(n), Read(n), Read(n), Read(n + 1), Read(0)];
    acts := a1 + Reads(n, 0) + a2;
    ReadsOnly(n, 0);
    StepsJoin(n, s, a1 + Reads(n, 0), a2);
    StepsJoin(n, s, a1, Reads(n, 0));
    FourSteps(n, s, a1);
    var s4 := Steps(n, s, a1);
    ReadAll(n, s4, 0);
    FiveSteps(n, Steps(n, s4, Reads(n, 0)), a2);
    forall i | 0 <= i < |s.log| && |s.log| - n <= i ensures s.page.content[i % n] == s.log[i] {
      if i == |s.log| - n {
        SlotOf(n, |s.log|);
      }
    }
  }

  lemma {:induction false} ReadsOnly(n: nat, k: nat)
    requires k <= n
    ensures forall a <- Reads(n, k) :: a.Read?
    decreases n - k
  {
    if k < n {
      ReadsOnly(n, k + 1);
    }
  }

  lemma OneCompletion(n: nat, a: seq<Action>, b: seq<Action>)
    requires |a| == 4 && |b| == 5 && b[2].IncTail? && (forall i | 0 <= i < 4 :: !a[i].IncTail?)
    requires forall i | 0 <= i < 5 && i != 2 :: !b[i].IncTail?
    ensures Completions(a + Reads(n, 0) + b) == 1
  {
    CompletionsJoin(a + Reads(n, 0), b);
    CompletionsJoin(a, Reads(n, 0));
    ReadsComplete(n, 0);
    NoCompletion(a);
    assert b == b[..2] + [b[2]] + b[3..];
    CompletionsJoin(b[..2] + [b[2]], b[3..]);
    CompletionsJoin(b[..2], [b[2]]);
    NoCompletion(b[..2]);
    NoCompletion(b[3..]);
  }

  lemma {:induction false} NoCompletion(a: seq<Action>)
    requires forall i | 0 <= i < |a| :: !a[i].IncTail?
    ensures Completions(a) == 0
    decreases |a|
  {
    if a != [] {
      NoCompletion(a[1..]);
    }
  }

  lemma {:induction false} ReadsComplete(n: nat, k: nat)
    requires k <= n
    ensures Completions(Reads(n, k)) == 0
    decreases n - k
  {
    if k < n {
      ReadsComplete(n, k + 1);
    }
  }

  lemma FourSteps(n: nat, s: System, a: seq<Action>)
    requires WellTyped(n, s) && |a| == 4
    ensures Steps(n, s, a) == Step(n, Step(n, Step(n, Step(n, s, a[0]), a[1]), a[2]), a[3])
  {
    hide Step;
    var s1 := Step(n, s, a[0]);
    assert Steps(n, s, a) == Steps(n, s1, a[1..]);
    var s2 := Step(n, s1, a[1]);
    assert Steps(n, s1, a[1..]) == Steps(n, s2, a[2..]);
    var s3 := Step(n, s2, a[2]);
    assert Steps(n, s2, a[2..]) == Steps(n, s3, a[3..]);
    assert Steps(n, s3, a[3..]) == Steps(n, Step(n, s3, a[3]), a[4..]);
  }

  lemma FiveSteps(n: nat, s: System, a: seq<Action>)
    requires WellTyped(n, s) && |a| == 5
    ensures Steps(n, s, a) == Step(n, Step(n, Step(n, Step(n, Step(n, s, a[0]), a[1]), a[2]), a[3]), a[4])
  {
    hide Step;
    StepsJoin(n, s, a[..4], a[4..]);
    assert a[..4] + a[4..] == a;
    FourSteps(n, s, a[..4]);
    assert a[4..] == [a[4]];
  }
}
