/** Delivering console text to user space (driver/main.c, __jailhouse_console_dump_delta
    and jailhouse_console_read) from accepted copies of the console page, with the 32-bit
    positions of the code related to positions in the unbounded log. */
module ConsoleRead {
  import opened Common
  import opened Arith
  import opened Console

  /** What one read hands to user space: text, or the notice that so many bytes are lost. */
  datatype Event = Nothing | Data(bytes: seq<char>) | Missed(count: nat)

  /** How far an event moves the user's position. */
  function Advance(e: Event): nat {
    match e
    case Nothing => 0
    case Data(bytes) => |bytes|
    case Missed(count) => count
  }

  lemma SlotPlus(n: nat, from: nat, k: nat)
    requires n > 0 && k < n
    ensures (from + k) % n == if from % n + k < n then from % n + k else from % n + k - n
  {
    var q, r := QuotientAndRest(from, n);
    SlotSum(n, q, r, k);
  }

  lemma SlotSum(n: nat, q: nat, r: nat, k: nat)
    requires n > 0 && r < n && k < n
    ensures (q * n + r + k) % n == if r + k < n then r + k else r + k - n
  {
    if r + k < n {
      DivUnique(q * n + r + k, q, r + k, n);
    } else {
      Regroup(q, 1, n, 1, r + k - n);
      DivUnique(q * n + r + k, q + 1, r + k - n, n);
    }
  }

  lemma Wrap(a: nat, b: nat)
    requires b <= a < b + WORD
    ensures (a % WORD + WORD - b % WORD) % WORD == a - b
  {
  }

  /** The slot of the first byte to dump, from 32-bit positions. */
  lemma StartSlot(n: nat, len: nat, from: nat)
    requires RingSize(n) && from <= len < from + WORD
    ensures (from % WORD) % n == from % n
    ensures (len % WORD + WORD - (len - from)) % WORD == from % WORD
  {
    ModNested(n, from);
    var d, q := len - from, len / WORD;
    ModShift(q, len % WORD + WORD - d, WORD);
    ModShift(1, len - d, WORD);
  }

  /** out holds the ring's bytes from position `from` on. */
  ghost predicate FromRing(n: nat, content: seq<char>, from: nat, out: seq<char>)
    requires n > 0 && |content| == n
  {
    forall k | 0 <= k < |out| :: out[k] == content[(from + k) % n]
  }

  lemma RingBytes(n: nat, content: seq<char>, from: nat, delta: nat, out: seq<char>)
    requires n > 0 && |content| == n && delta <= n
    requires out == if from % n + delta > n then content[from % n..] + content[..from % n + delta - n]
                    else content[from % n..from % n + delta]
    ensures |out| == delta && FromRing(n, content, from, out)
  {
    forall k | 0 <= k < |out| ensures out[k] == content[(from + k) % n] {
      SlotPlus(n, from, k);
    }
  }

  /** __jailhouse_console_dump_delta.  The copy was taken at log length `len`, the user is
      at log position `pos`; the code only knows both modulo 2^32. */
  method DumpDelta(n: nat, content: seq<char>, tail: nat, head: nat, ghost len: nat, ghost pos: nat)
    returns (out: seq<char>, missed: nat)
    requires RingSize(n) && |content| == n
    requires tail == len % WORD && head == pos % WORD && pos <= len < pos + WORD
    ensures missed == if len - pos > n then len - pos - n else 0
    ensures |out| == Min(len - pos, n)
    ensures FromRing(n, content, len - |out|, out)
  {
    hide FromRing;
    Wrap(len, pos);
    var delta := (tail + WORD - head) % WORD;
    var start := head;
    missed := 0;
    if delta > n {
      missed := delta - n;
      start := (tail + WORD - n) % WORD;
      delta := n;
    }
    StartSlot(n, len, len - delta);
    var headMod := start % n;
    if headMod + delta > n {
      var ret := n - headMod;
      out := content[headMod..] + content[..delta - ret];
    } else {
      out := content[headMod..headMod + delta];
    }
    RingBytes(n, content, len - delta, delta, out);
  }

  /** The bytes of an almost-ring are those of the log; only a full ring can be wrong, and
      only in its first byte. */
  lemma BytesAreLog(n: nat, content: seq<char>, log: seq<char>, len: nat, out: seq<char>)
    requires n > 0 && |content| == n && len <= |log| && AlmostRing(n, content, log, len)
    requires |out| <= n && |out| <= len
    requires FromRing(n, content, len - |out|, out)
    ensures |out| < n ==> out == log[len - |out|..len]
    ensures |out| == n ==> out[1..] == log[len - n + 1..len] && out[0] == content[len % n]
  {
    forall k | 0 <= k < |out| && len - n < len - |out| + k ensures out[k] == log[len - |out| + k] {
      assert content[(len - |out| + k) % n] == log[len - |out| + k];
    }
    SlotOf(n, len);
  }

  /** The oldest byte of the copy was overwritten by a different one. */
  predicate Torn(n: nat, content: seq<char>, log: seq<char>, len: nat)
    requires n > 0 && |content| == n && n <= len <= |log|
  {
    content[len % n] != log[len - n]
  }

  /** What a user at `pos` with a buffer of `size` bytes is due from a copy of the ring taken when the log
      had length `len`: nothing if there is nothing new; a notice of all that lies before the ring, if
      some does; otherwise the log from there on, as much as fits the buffer. */
  predicate Truthful(e: Event, log: seq<char>, pos: nat, n: nat, len: nat, size: nat) {
    && pos <= len <= |log|
    && match e
       case Nothing => pos == len
       case Missed(count) => len - pos > n && pos + count == len - n
       case Data(bytes) => 0 < len - pos <= n && bytes == log[pos..pos + Min(len - pos, size)]
  }

  /** A read: the accepted copy, the log length it was taken at, and the buffer size. */
  datatype Request = Request(content: seq<char>, len: nat, size: nat)

  /** What Read answers at log position pos. */
  function Answer(n: nat, q: Request, pos: nat): Event
    requires n > 0 && |q.content| == n && pos <= q.len
  {
    if q.len == pos then Nothing
    else if q.len - pos > n then Missed(q.len - pos - n)
    else Data(seq(Min(q.len - pos, q.size), k requires 0 <= k => q.content[(pos + k) % n]))
  }

  lemma HeadMoves(pos: nat, d: nat)
    ensures (pos % WORD + d) % WORD == (pos + d) % WORD
  {
  }

  class ConsoleUser {
    var head: nat          // unsigned int
    ghost var pos: nat     // where that is in the log

    ghost predicate Valid()
      reads this
    {
      head == pos % WORD
    }

    constructor ()
      ensures Valid() && pos == 0
    {
      head, pos := 0, 0;
    }

    /** One pass of jailhouse_console_read over an accepted copy taken at log length `len`.
        A position that lags by more than the ring gets a notice; otherwise text. */
    method Read(n: nat, content: seq<char>, tail: nat, size: nat, ghost len: nat) returns (e: Event)
      requires Valid() && RingSize(n) && |content| == n
      requires pos <= len < pos + WORD && tail == len % WORD
      modifies this
      ensures Valid() && e == Answer(n, Request(content, len, size), old(pos)) && pos == old(pos) + Advance(e)
    {
      Wrap(len, pos);
      if tail == head {
        return Nothing;
      }
      var out, missed := DumpDelta(n, content, tail, head, len, pos);
      if missed != 0 {
        e := Missed(missed);
        HeadMoves(pos, missed);
        head := (head + missed) % WORD;
      } else {
        var ret := if size < |out| then size else |out|;
        e := Data(out[..ret]);
        assert e == Answer(n, Request(content, len, size), pos);
        HeadMoves(pos, ret);
        head := (head + ret) % WORD;
      }
      pos := pos + Advance(e);
    }

    /** One read after the other, with 32-bit positions all along. */
    method ReadSeries(n: nat, run: seq<System>, rs: seq<ReadCall>) returns (es: seq<Event>)
      requires Valid() && Run(n, run) && Scheduled(run, rs) && Behind(run, rs, pos) && Timely(n, run, rs, pos)
      requires pos <= |run[|run| - 1].log|
      modifies this
      ensures Valid() && es == Answers(n, run, rs, old(pos)) && pos == old(pos) + TotalAdvance(es)
      ensures AccountsFor(n, run, rs, es, old(pos), pos) <==> !SomeCaught(n, run, rs, old(pos))
      decreases |rs|
    {
      hide Run, Answer, Truthful, Caught, RingSize, AccountsFor;
      ReadsAccountForLog(n, run, rs, pos);
      if rs == [] {
        return [];
      }
      ghost var pos0 := pos;
      ReadStays(n, run, rs, pos);
      ReadEnds(n, run, rs[0], pos);
      RunRing(n, run, rs[0].at);
      var copy := run[rs[0].at].reader;
      var e := Read(n, copy.dst, copy.dstTail, rs[0].size, run[rs[0].at].len0);
      var rest := ReadSeries(n, run, rs[1..]);
      es := [e] + rest;
      assert es[1..] == rest;
    }
  }

  lemma RunRing(n: nat, run: seq<System>, i: nat)
    requires Run(n, run) && i < |run| && run[i].reader.Accepted?
    ensures RingSize(n) && run[i].reader.dstTail == run[i].len0 % WORD
  {
    hide Step, Inv;
    var j := AcceptedIsInstant(n, run, i);
  }

  lemma Prefix(n: nat, content: seq<char>, log: seq<char>, len: nat, pos: nat, out: seq<char>, ret: nat)
    requires n > 0 && |content| == n && pos < len <= |log| && |out| == len - pos <= n && ret <= |out|
    requires |out| < n ==> out == log[len - |out|..len]
    requires |out| == n ==> out[1..] == log[len - n + 1..len] && out[0] == content[len % n]
    ensures out[..ret] == log[pos..pos + ret] <==> !(len - pos == n && ret > 0 && Torn(n, content, log, len))
  {
    if |out| == n && ret > 0 {
      assert out[..ret] == [out[0]] + out[1..][..ret - 1];
      assert log[pos..pos + ret] == [log[pos]] + log[len - n + 1..len][..ret - 1];
    }
  }


  /** A read tells the truth unless the user lags by exactly the ring and the copy's oldest
      byte is torn. */
  lemma AnswerTruthfulIff(n: nat, log: seq<char>, q: Request, pos: nat)
    requires n > 0 && |q.content| == n && pos <= q.len <= |log| && AlmostRing(n, q.content, log, q.len)
    ensures pos + Advance(Answer(n, q, pos)) <= q.len
    ensures Truthful(Answer(n, q, pos), log, pos, n, q.len, q.size) <==>
            !(q.len - pos == n && q.size > 0 && Torn(n, q.content, log, q.len))
  {
    var e := Answer(n, q, pos);
    if e.Data? {
      var out := seq(q.len - pos, k requires 0 <= k => q.content[(pos + k) % n]);
      BytesAreLog(n, q.content, log, q.len, out);
      assert e.bytes == out[..|e.bytes|];
      Prefix(n, q.content, log, q.len, pos, out, |e.bytes|);
    }
  }

  // ----- any sequence of reads -----

  /** A read of `size` bytes served from the copy accepted in state `at` of a run. */
  datatype ReadCall = ReadCall(at: nat, size: nat)

  /** The reads of one user, in the order of the run. */
  predicate Scheduled(run: seq<System>, rs: seq<ReadCall>) {
    && (forall k | 0 <= k < |rs| :: rs[k].at < |run| && run[rs[k].at].reader.Accepted?)
    && (forall j, k | 0 <= j < k < |rs| :: rs[j].at <= rs[k].at)
  }

  function RequestOf(run: seq<System>, r: ReadCall): Request
    requires r.at < |run| && run[r.at].reader.Accepted?
  {
    Request(run[r.at].reader.dst, run[r.at].len0, r.size)
  }

  /** The user's position is not ahead of what the first copy shows. */
  predicate Behind(run: seq<System>, rs: seq<ReadCall>, pos: nat)
    requires Scheduled(run, rs)
  {
    rs == [] || pos <= run[rs[0].at].len0
  }

  /** In a run, copies have the size of the ring and a read never gets ahead of the next copy. */
  lemma ReadStays(n: nat, run: seq<System>, rs: seq<ReadCall>, pos: nat)
    requires Run(n, run) && Scheduled(run, rs) && Behind(run, rs, pos) && rs != []
    ensures n > 0 && |run[rs[0].at].reader.dst| == n && Scheduled(run, rs[1..])
    ensures Behind(run, rs[1..], pos + Advance(Answer(n, RequestOf(run, rs[0]), pos)))
  {
    hide Step, Inv;
    var j := AcceptedIsInstant(n, run, rs[0].at);
    AnswerTruthfulIff(n, run[rs[0].at].log, RequestOf(run, rs[0]), pos);
    if |rs| > 1 {
      assert rs[1..][0] == rs[1];
      RunGrows(n, run, rs[0].at, rs[1].at);
    }
  }

  /** What the reads answer, one after the other. */
  ghost function Answers(n: nat, run: seq<System>, rs: seq<ReadCall>, pos: nat): seq<Event>
    requires Run(n, run) && Scheduled(run, rs) && Behind(run, rs, pos)
    decreases |rs|
  {
    if rs == [] then []
    else
      ReadStays(n, run, rs, pos);
      var e := Answer(n, RequestOf(run, rs[0]), pos);
      [e] + Answers(n, run, rs[1..], pos + Advance(e))
  }

  /** At every read, fewer than 2^32 characters lie between the user's position and the copy. */
  ghost predicate Timely(n: nat, run: seq<System>, rs: seq<ReadCall>, pos: nat)
    requires Run(n, run) && Scheduled(run, rs) && Behind(run, rs, pos)
    decreases |rs|
  {
    rs == [] ||
    (ReadStays(n, run, rs, pos);
     && run[rs[0].at].len0 < pos + WORD
     && Timely(n, run, rs[1..], pos + Advance(Answer(n, RequestOf(run, rs[0]), pos))))
  }

  /** The user lags by exactly the ring, and the copy was taken between the writer's store of a new
      character in the oldest one's place and its increment of the tail. */
  ghost predicate Caught(n: nat, run: seq<System>, r: ReadCall, pos: nat)
    requires r.at < |run| && run[r.at].reader.Accepted?
  {
    var len := run[r.at].len0;
    && n > 0 && len <= |run[r.at].log| && len == pos + n && r.size > 0
    && exists j: nat :: Instant(run, r.at, j) && run[j].writer.Stored? && run[j].writer.ch != run[r.at].log[pos]
  }

  ghost predicate SomeCaught(n: nat, run: seq<System>, rs: seq<ReadCall>, pos: nat)
    requires Run(n, run) && Scheduled(run, rs) && Behind(run, rs, pos)
    decreases |rs|
  {
    rs != [] &&
    (ReadStays(n, run, rs, pos);
     Caught(n, run, rs[0], pos) || SomeCaught(n, run, rs[1..], pos + Advance(Answer(n, RequestOf(run, rs[0]), pos))))
  }

  /** A full-lag read is caught exactly if its copy is torn. */
  lemma CaughtIff(n: nat, run: seq<System>, r: ReadCall, pos: nat, log: seq<char>)
    requires Run(n, run) && r.at < |run| && run[r.at].reader.Accepted? && run[r.at].len0 == pos + n && r.size > 0
    requires run[r.at].log <= log
    ensures |run[r.at].reader.dst| == n && n > 0 && run[r.at].len0 <= |run[r.at].log|
    ensures Caught(n, run, r, pos) <==> Torn(n, run[r.at].reader.dst, log, run[r.at].len0)
  {
    hide Step, Inv, AlmostRing, Run, Instant;
    var i, s := r.at, run[r.at];
    RunRing(n, run, i);
    var j := AcceptedIsInstant(n, run, i);
    assert Instant(run, i, j);
    forall k: nat | Instant(run, i, k)
      ensures k < |run|
      ensures (run[k].writer.Stored? && run[k].writer.ch != s.log[pos]) <==> Torn(n, s.reader.dst, log, s.len0)
    {
      InstantBefore(run, i, k);
      WrongOldestIff(n, run, i, k);
    }
  }

  lemma InstantBefore(run: seq<System>, i: nat, j: nat)
    requires i < |run| && run[i].reader.Accepted? && Instant(run, i, j)
    ensures j <= i
  {
  }

  /** A read in a run tells the truth about the log exactly if it is not caught. */
  lemma ReadTruthfulIff(n: nat, run: seq<System>, r: ReadCall, pos: nat)
    requires Run(n, run) && r.at < |run| && run[r.at].reader.Accepted? && pos <= run[r.at].len0
    ensures n > 0 && |run[r.at].reader.dst| == n
    ensures Truthful(Answer(n, RequestOf(run, r), pos), run[|run| - 1].log, pos, n, run[r.at].len0, r.size) <==>
            !Caught(n, run, r, pos)
  {
    hide Step, Inv, Truthful, Answer, AlmostRing, Instant;
    var s, log := run[r.at], run[|run| - 1].log;
    var j := AcceptedIsInstant(n, run, r.at);
    RunGrows(n, run, r.at, |run| - 1);
    LogGrows(n, s.reader.dst, s.log, log, s.len0);
    AnswerTruthfulIff(n, log, RequestOf(run, r), pos);
    if s.len0 == pos + n && r.size > 0 {
      CaughtIff(n, run, r, pos, log);
    }
  }

  /** The events account for the log from `from` to `to` byte by byte: each delivered once and in order,
      or reported as missed by a read whose copy no longer had it. */
  ghost predicate AccountsFor(n: nat, run: seq<System>, rs: seq<ReadCall>, es: seq<Event>, from: nat, to: nat)
    requires run != [] && Scheduled(run, rs)
    decreases |rs|
  {
    var log := run[|run| - 1].log;
    if rs == [] || es == [] then rs == [] && es == [] && from == to <= |log|
    else
      && Truthful(es[0], log, from, n, run[rs[0].at].len0, rs[0].size)
      && AccountsFor(n, run, rs[1..], es[1..], from + Advance(es[0]), to)
  }

  ghost function TotalAdvance(es: seq<Event>): nat
    decreases |es|
  {
    if es == [] then 0 else Advance(es[0]) + TotalAdvance(es[1..])
  }

  /** Over any run and any sequence of reads: the user gets or misses each byte once and in order,
      exactly if no read is caught. */
  lemma {:induction false} ReadsAccountForLog(n: nat, run: seq<System>, rs: seq<ReadCall>, pos: nat)
    requires Run(n, run) && Scheduled(run, rs) && Behind(run, rs, pos) && pos <= |run[|run| - 1].log|
    ensures var es := Answers(n, run, rs, pos);
      AccountsFor(n, run, rs, es, pos, pos + TotalAdvance(es)) <==> !SomeCaught(n, run, rs, pos)
    decreases |rs|
  {
    hide Run, Answer, Truthful, Caught;
    if rs != [] {
      ReadStays(n, run, rs, pos);
      ReadTruthfulIff(n, run, rs[0], pos);
      var e := Answer(n, RequestOf(run, rs[0]), pos);
      var rest := Answers(n, run, rs[1..], pos + Advance(e));
      assert ([e] + rest)[1..] == rest;
      ReadEnds(n, run, rs[0], pos);
      ReadsAccountForLog(n, run, rs[1..], pos + Advance(e));
    }
  }

  lemma ReadEnds(n: nat, run: seq<System>, r: ReadCall, pos: nat)
    requires Run(n, run) && r.at < |run| && run[r.at].reader.Accepted? && pos <= run[r.at].len0
    requires |run[r.at].reader.dst| == n
    ensures pos + Advance(Answer(n, RequestOf(run, r), pos)) <= |run[|run| - 1].log|
  {
    hide Step, Inv, Answer;
    var j := AcceptedIsInstant(n, run, r.at);
    RunGrows(n, run, r.at, |run| - 1);
    AnswerTruthfulIff(n, run[r.at].log, RequestOf(run, r), pos);
  }

  /** The exception does occur: any run that has come to a quiet moment with a full ring can go on so
      that a user who lags by exactly the ring is handed the next character in place of the oldest. */
  lemma TornReadHappens(n: nat, run: seq<System>, ch: char, size: nat) returns (run': seq<System>)
    requires Run(n, run) && run[|run| - 1].writer == Quiet && run[|run| - 1].reader == Spin && size > 0
    requires |run[|run| - 1].log| >= n && ch != run[|run| - 1].log[|run[|run| - 1].log| - n]
    ensures Run(n, run') && run <= run' && run'[|run'| - 1].reader.Accepted?
    ensures Caught(n, run', ReadCall(|run'| - 1, size), |run[|run| - 1].log| - n)
  {
    hide Step, AlmostRing, Instant, Caught;
    var s := run[|run| - 1];
    RunInv(n, run, |run| - 1);
    var acts := TornCopy(n, s, ch);
    run' := RunGoesOn(n, run, acts);
    var i, pos := |run'| - 1, |s.log| - n;
    RunRing(n, run', i);
    SlotOf(n, |s.log|);
    CaughtIff(n, run', ReadCall(i, size), pos, run'[i].log);
  }
}
