/** The shutdown handshake (hypervisor/control.c, hypervisor_disable): in every round
    each root-cell CPU calls once, in any interleaving; between rounds, cells may be
    created or destroyed. */
module Shutdown {
  import opened Sets

  const SHUTDOWN_NONE := 0
  const SHUTDOWN_STARTED := 1
  const EBUSY := 16

  // Program counter of a CPU in hypervisor_disable().
  const IDLE := 0       // has not called in this round
  const LOCK1 := 1
  const MARK := 2       // the first CPU decides for all
  const TAKE := 3       // join the barrier, or take the refusal
  const UNLOCK1 := 4
  const CHECK := 5      // if (ret < 0) return
  const BARRIER := 6    // waiting_cpus < online_cpus
  const LOCK2 := 7
  const COMMON := 8     // the first one here runs shutdown()
  const UNLOCK2 := 9
  const RETURNED := 10

  datatype Cpu = Cpu(pc: nat, state: int, ret: int)

  datatype Owner = Nobody | By(id: nat)

  /** `verdict` (the decision of this round, SHUTDOWN_NONE while open) and `shutdowns`
      (how often shutdown() ran) record history. */
  datatype State = State(
    online: set<nat>, root: set<nat>, numCells: nat,
    lock: Owner, waiting: nat, doCommon: bool,
    cpus: map<nat, Cpu>, verdict: int, shutdowns: nat)

  function Decision(s: State): int {
    if s.numCells == 1 then SHUTDOWN_STARTED else -EBUSY
  }

  /** One step of root CPU c. */
  function Next(s: State, c: nat): State
    requires c in s.cpus
  {
    var cpu := s.cpus[c];
    if cpu.pc == IDLE then Go(s, c, LOCK1)
    else if cpu.pc == LOCK1 || cpu.pc == LOCK2 then
      if s.lock == Nobody then Go(s.(lock := By(c)), c, cpu.pc + 1) else s
    else if cpu.pc == MARK then
      if cpu.state == SHUTDOWN_NONE then
        Go(s.(cpus := MarkAll(s.cpus, s.root, Decision(s)), verdict := Decision(s)), c, TAKE)
      else Go(s, c, TAKE)
    else if cpu.pc == TAKE then
      if cpu.state == SHUTDOWN_STARTED then
        s.(doCommon := true, waiting := s.waiting + 1, cpus := s.cpus[c := Cpu(UNLOCK1, cpu.state, 0)])
      else
        s.(cpus := s.cpus[c := Cpu(UNLOCK1, SHUTDOWN_NONE, cpu.state)])
    else if cpu.pc == UNLOCK1 || cpu.pc == UNLOCK2 then Go(s.(lock := Nobody), c, cpu.pc + 1)
    else if cpu.pc == CHECK then Go(s, c, if cpu.ret < 0 then RETURNED else BARRIER)
    else if cpu.pc == BARRIER then if s.waiting < |s.online| then s else Go(s, c, LOCK2)
    else if cpu.pc == COMMON then
      Go(if s.doCommon then s.(doCommon := false, shutdowns := s.shutdowns + 1) else s, c, UNLOCK2)
    else s
  }

  function Go(s: State, c: nat, pc: nat): State
    requires c in s.cpus
  {
    s.(cpus := s.cpus[c := s.cpus[c].(pc := pc)])
  }

  function MarkAll(cpus: map<nat, Cpu>, root: set<nat>, st: int): map<nat, Cpu> {
    map c | c in cpus :: if c in root then cpus[c].(state := st) else cpus[c]
  }

  /** The next round after a refusal: cells may have come and gone in between.  A system
      with a single cell has all CPUs in it. */
  ghost predicate NewRound(s: State, s': State) {
    && (forall c <- s.root :: c in s.cpus && s.cpus[c].pc == RETURNED && s.cpus[c].ret == -EBUSY)
    && s.root != {}
    && s' == s.(root := s'.root, numCells := s'.numCells, verdict := SHUTDOWN_NONE, cpus := s'.cpus)
    && s'.cpus.Keys == s.cpus.Keys
    && (forall c <- s.cpus :: s'.cpus[c] == Cpu(IDLE, s.cpus[c].state, 0))
    && Cells(s')
  }

  ghost predicate Cells(s: State) {
    s.root != {} && s.root <= s.online && (s.numCells == 1 ==> s.root == s.online)
  }

  ghost predicate Init(s: State) {
    && Cells(s) && s.cpus.Keys == s.online
    && (forall c <- s.cpus :: s.cpus[c] == Cpu(IDLE, SHUTDOWN_NONE, 0))
    && s == State(s.online, s.root, s.numCells, Nobody, 0, false, s.cpus, SHUTDOWN_NONE, 0)
  }

  ghost predicate Moves(s: State, s': State) {
    (exists c :: c in s.root && c in s.cpus && s' == Next(s, c)) || NewRound(s, s')
  }

  ghost predicate Run(run: seq<State>) {
    && run != [] && Init(run[0])
    && forall i | 0 <= i < |run| - 1 :: Moves(run[i], run[i + 1])
  }

  // ----- the invariant -----

  predicate Holding(pc: nat) {
    MARK <= pc <= UNLOCK1 || COMMON <= pc <= UNLOCK2
  }

  /** CPUs that joined the barrier. */
  function Joined(s: State): set<nat> {
    set c | c in s.cpus && s.cpus[c].pc > TAKE
  }

  ghost predicate Ok(s: State, c: nat, cpu: Cpu) {
    && cpu.pc <= RETURNED
    && (Holding(cpu.pc) <==> s.lock == By(c))
    && (c !in s.root ==> cpu.pc == IDLE && cpu.state == SHUTDOWN_NONE)
    && (s.verdict == SHUTDOWN_NONE ==> cpu.pc <= MARK && cpu.state == SHUTDOWN_NONE)
    && (s.verdict == -EBUSY && c in s.root ==> cpu.state == if cpu.pc <= TAKE then -EBUSY else SHUTDOWN_NONE)
    && (s.verdict == -EBUSY && cpu.pc > TAKE ==> cpu.ret == -EBUSY && (cpu.pc <= CHECK || cpu.pc == RETURNED))
    && (s.verdict == SHUTDOWN_STARTED ==> cpu.state == SHUTDOWN_STARTED)
    && (s.verdict == SHUTDOWN_STARTED && cpu.pc > TAKE ==> cpu.ret == 0)
    && (cpu.pc >= LOCK2 && s.verdict == SHUTDOWN_STARTED ==> s.waiting == |s.online|)
    && (cpu.pc > COMMON && s.verdict == SHUTDOWN_STARTED ==> s.shutdowns == 1)
  }

  ghost predicate Global(s: State) {
    && Cells(s) && s.cpus.Keys == s.online
    && s.verdict in {SHUTDOWN_NONE, SHUTDOWN_STARTED, -EBUSY}
    && (s.verdict != SHUTDOWN_NONE ==> (s.verdict == SHUTDOWN_STARTED <==> s.numCells == 1))
    && (s.lock.By? ==> s.lock.id in s.cpus)
    && (s.verdict != SHUTDOWN_STARTED ==> s.waiting == 0 && s.shutdowns == 0)
    && (s.verdict == SHUTDOWN_STARTED ==> s.root == s.online && s.waiting == |Joined(s)|)
    && s.shutdowns <= 1 && (s.shutdowns == 1 ==> s.waiting == |s.online|)
    && (s.doCommon <==> s.waiting > 0 && s.shutdowns == 0)
  }

  ghost predicate Inv(s: State) {
    Global(s) && forall c <- s.cpus :: Ok(s, c, s.cpus[c])
  }

  lemma InitInv(s: State)
    requires Init(s)
    ensures Inv(s)
  {
  }

  /** The barrier opens just when everybody joined. */
  lemma BarrierCount(s: State, c: nat)
    requires c in s.cpus && s.cpus.Keys == s.online
    ensures |Joined(s)| <= |s.online|
    ensures |Joined(s)| == |s.online| ==> s.cpus[c].pc > TAKE
    ensures (forall d <- s.cpus :: s.cpus[d].pc > TAKE) ==> |Joined(s)| == |s.online|
  {
    Cardinality(Joined(s), s.online);
    assert c in Joined(s) <==> s.cpus[c].pc > TAKE;
    if forall d <- s.cpus :: s.cpus[d].pc > TAKE {
      assert Joined(s) == s.online;
    }
  }

  lemma JoinedMoves(s: State, s': State, c: nat)
    requires c in s.cpus && s'.cpus.Keys == s.cpus.Keys
    requires forall d <- s.cpus :: d != c ==> s'.cpus[d].pc == s.cpus[d].pc
    requires s.cpus[c].pc > TAKE ==> s'.cpus[c].pc > TAKE
    ensures |Joined(s')| == |Joined(s)| + if s.cpus[c].pc <= TAKE < s'.cpus[c].pc then 1 else 0
  {
    assert c in Joined(s) <==> s.cpus[c].pc > TAKE;
    if s'.cpus[c].pc > TAKE {
      assert Joined(s') == Joined(s) + {c};
      AddOne(Joined(s), c);
    } else {
      assert Joined(s') == Joined(s);
    }
  }

  lemma NextKeeps(s: State, c: nat)
    requires c in s.cpus
    ensures Next(s, c).cpus.Keys == s.cpus.Keys && Next(s, c).online == s.online
    ensures Next(s, c).root == s.root && Next(s, c).numCells == s.numCells
    ensures forall d <- s.cpus :: d != c ==>
              Next(s, c).cpus[d].pc == s.cpus[d].pc && Next(s, c).cpus[d].ret == s.cpus[d].ret
    ensures s.cpus[c].pc <= RETURNED ==> s.cpus[c].pc <= Next(s, c).cpus[c].pc <= RETURNED
    ensures s.cpus[c].pc <= TAKE < Next(s, c).cpus[c].pc <==> s.cpus[c].pc == TAKE
  {
  }

  lemma GlobalNext(s: State, c: nat)
    requires c in s.cpus && c in s.root && Inv(s)
    ensures Global(Next(s, c))
  {
    hide Joined;
    assert Ok(s, c, s.cpus[c]);
    NextKeeps(s, c);
    JoinedMoves(s, Next(s, c), c);
    BarrierCount(s, c);
    NobodyJoined(s);
  }

  lemma NobodyJoined(s: State)
    requires Inv(s)
    ensures s.verdict == SHUTDOWN_NONE ==> |Joined(s)| == 0
  {
    forall c | c in s.cpus && s.verdict == SHUTDOWN_NONE ensures s.cpus[c].pc <= MARK {
      assert Ok(s, c, s.cpus[c]);
    }
    assert s.verdict == SHUTDOWN_NONE ==> Joined(s) == {};
  }

  lemma OkNext(s: State, c: nat, d: nat)
    requires c in s.cpus && c in s.root && d in s.cpus && Inv(s)
    ensures d in Next(s, c).cpus && Ok(Next(s, c), d, Next(s, c).cpus[d])
  {
    hide Joined;
    assert Ok(s, c, s.cpus[c]) && Ok(s, d, s.cpus[d]);
    BarrierCount(s, d);
    if d == c {
      OkSelf(s, c);
    } else {
      NextKeeps(s, c);
      BarrierCount(s, c);
    }
  }

  lemma OkSelf(s: State, c: nat)
    requires c in s.cpus && c in s.root && Global(s) && Ok(s, c, s.cpus[c]) && |Joined(s)| <= |s.online|
    ensures c in Next(s, c).cpus && Ok(Next(s, c), c, Next(s, c).cpus[c])
  {
    hide Joined;
  }

  lemma NextInv(s: State, c: nat)
    requires c in s.cpus && c in s.root && Inv(s)
    ensures Inv(Next(s, c))
  {
    hide Ok, Global;
    GlobalNext(s, c);
    NextKeeps(s, c);
    forall d | d in Next(s, c).cpus ensures Ok(Next(s, c), d, Next(s, c).cpus[d]) {
      OkNext(s, c, d);
    }
  }

  lemma RoundInv(s: State, s': State)
    requires Inv(s) && NewRound(s, s')
    ensures Inv(s')
  {
    forall c | c in s.cpus ensures Ok(s, c, s.cpus[c]) {
    }
  }

  // ----- what every run guarantees -----

  ghost predicate Safe(s: State) {
    // one verdict per round, and it is that of the number of cells
    && (forall c, d | c in s.cpus && d in s.cpus && s.cpus[c].pc == RETURNED && s.cpus[d].pc == RETURNED ::
          s.cpus[c].ret == s.cpus[d].ret)
    && (forall c <- s.cpus :: s.cpus[c].pc == RETURNED ==> s.cpus[c].ret == if s.numCells == 1 then 0 else -EBUSY)
    && (s.numCells == 1 && (forall c <- s.root :: c in s.cpus && s.cpus[c].pc == RETURNED) ==> s.shutdowns == 1)
    // a refusal leaves no trace once everybody has it
    && ((forall c <- s.root :: c in s.cpus && s.cpus[c].pc == RETURNED && s.cpus[c].ret == -EBUSY) ==>
          forall c <- s.cpus :: s.cpus[c].state == SHUTDOWN_NONE)
    // shutdown() runs at most once, after all online CPUs reached the barrier, before any returns 0
    && s.shutdowns <= 1
    && (s.shutdowns == 1 ==> forall c <- s.online :: c in s.cpus && s.cpus[c].pc >= UNLOCK1 && s.cpus[c].ret == 0)
    && (forall c <- s.cpus :: s.cpus[c].pc == RETURNED && s.cpus[c].ret == 0 ==> s.shutdowns == 1)
  }

  lemma InvSafe(s: State)
    requires Inv(s)
    ensures Safe(s)
  {
    forall c | c in s.cpus ensures Ok(s, c, s.cpus[c]) {
    }
    if s.shutdowns == 1 {
      forall c | c in s.online ensures c in s.cpus && s.cpus[c].pc >= UNLOCK1 && s.cpus[c].ret == 0 {
        BarrierCount(s, c);
      }
    }
  }

  lemma {:induction false} RunSafe(run: seq<State>, i: nat)
    requires Run(run) && i < |run|
    ensures Inv(run[i]) && Safe(run[i])
  {
    hide Inv, Safe, NewRound;
    if i == 0 {
      InitInv(run[0]);
    } else {
      RunSafe(run, i - 1);
      var s, s' := run[i - 1], run[i - 1 + 1];
      assert Moves(s, s');
      if NewRound(s, s') {
        RoundInv(s, s');
      } else {
        var c :| c in s.root && c in s.cpus && s' == Next(s, c);
        NextInv(s, c);
      }
    }
    InvSafe(run[i]);
  }

  /** A success is final: no later round undoes it. */
  lemma {:induction false} ShutdownStays(run: seq<State>, i: nat, j: nat)
    requires Run(run) && i <= j < |run| && run[i].shutdowns == 1
    ensures run[j].shutdowns == 1
    decreases j
  {
    hide Inv, NewRound, Moves;
    if i < j {
      ShutdownStays(run, i, j - 1);
      RunSafe(run, j);
      assert Moves(run[j - 1], run[j - 1 + 1]);
      MovesCount(run[j - 1], run[j]);
    }
  }

  lemma MovesCount(s: State, s': State)
    requires Moves(s, s')
    ensures s'.shutdowns >= s.shutdowns
  {
  }

  /** Once all root CPUs call, each of them returns: some CPU can always go on. */
  lemma NoDeadlock(s: State, w: nat) returns (c: nat)
    requires Inv(s) && w in s.root && w in s.cpus && s.cpus[w].pc < RETURNED
    ensures c in s.root && c in s.cpus && Next(s, c).cpus[c].pc > s.cpus[c].pc
  {
    forall d | d in s.cpus ensures Ok(s, d, s.cpus[d]) {
    }
    BarrierCount(s, w);
    if s.lock.By? {
      c := s.lock.id;
    } else if d :| d in s.root && d in s.cpus && s.cpus[d].pc <= LOCK1 {
      c := d;
    } else {
      c := w;
    }
  }
}
