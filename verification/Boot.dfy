/** The hypervisor's boot protocol (hypervisor/setup.c, entry): any number of CPUs
    run through the same code, interleaved at every access to shared state. */
module Boot {
  import opened Sets

  // Program counter of a CPU in entry(), in the order of the code.
  const BEGIN := 0          // first acquisition of init_lock
  const COUNT_IN := 1       // entered_cpus++
  const LEAVE1 := 2
  const WAIT_ENTERED := 3   // first barrier
  const LOCK2 := 4          // second acquisition of init_lock
  const ELECT := 5          // master_cpu_id == -1 ?
  const EARLY := 6          // master: init_early, stage by stage
  const CHECK_INIT := 7     // if (!error)
  const CPU_INIT := 8
  const LEAVE2 := 9
  const WAIT_ERR := 10      // second barrier: reads error ...
  const WAIT_INIT := 11     // ... then initialized_cpus
  const DECIDE := 12        // if (!error && master)
  const LATE := 13          // master: init_late, stage by stage
  const PUBLISH := 14       // if (!error) activate = true
  const LOOP_ERR := 15      // others: reads error ...
  const LOOP_ACT := 16      // ... then activate
  const FINAL := 17         // if (error)
  const RESTORE := 18       // return error
  const RETURNED := 19
  const ACTIVE := 20        // arch_cpu_activate_vmm

  datatype Cpu = Cpu(pc: nat, master: bool, inited: bool, code: int)

  datatype Owner = Nobody | By(id: nat)

  /** The shared variables.  errorWrites, earlyDone and lateDone only record history:
      how often error was set to a nonzero value, and the end of init_early and the
      successful end of init_late. */
  datatype State = State(
    lock: Owner, masterId: Owner, entered: nat, initialized: nat, error: int, activate: bool,
    cpus: map<nat, Cpu>, errorWrites: nat, earlyDone: bool, lateDone: bool)

  /** What the hardware-dependent part of a step yields: an error code and whether it
      was the last stage of an initialization sequence. */
  datatype Outcome = Outcome(code: int, last: bool)

  /** Where CPU c goes with its next step; a CPU that has to wait stays. */
  function NextPc(s: State, c: nat, k: Outcome): nat
    requires c in s.cpus
  {
    var pc := s.cpus[c].pc;
    if pc == BEGIN then (if s.lock == Nobody then COUNT_IN else BEGIN)
    else if pc == WAIT_ENTERED then (if s.entered < |s.cpus| then WAIT_ENTERED else LOCK2)
    else if pc == LOCK2 then (if s.lock == Nobody then ELECT else LOCK2)
    else if pc == ELECT then (if s.masterId == Nobody then EARLY else CHECK_INIT)
    else if pc == EARLY then (if k.code != 0 || k.last then CHECK_INIT else EARLY)
    else if pc == CHECK_INIT then (if s.error == 0 then CPU_INIT else LEAVE2)
    else if pc == WAIT_ERR then (if s.error != 0 then DECIDE else WAIT_INIT)
    else if pc == WAIT_INIT then (if s.initialized < |s.cpus| then WAIT_ERR else DECIDE)
    else if pc == DECIDE then (if s.error == 0 && s.cpus[c].master then LATE else LOOP_ERR)
    else if pc == LATE then (if k.code != 0 || k.last then PUBLISH else LATE)
    else if pc == PUBLISH then FINAL
    else if pc == LOOP_ERR then (if s.error != 0 then FINAL else LOOP_ACT)
    else if pc == LOOP_ACT then (if s.activate then FINAL else LOOP_ERR)
    else if pc == FINAL then (if s.error != 0 then RESTORE else ACTIVE)
    else if pc == RETURNED || pc >= ACTIVE then pc
    else pc + 1   // COUNT_IN, LEAVE1, CPU_INIT, LEAVE2 and RESTORE just go on
  }

  function NextCpu(s: State, c: nat, k: Outcome): Cpu
    requires c in s.cpus
  {
    var cpu := s.cpus[c];
    Cpu(NextPc(s, c, k),
        cpu.master || (cpu.pc == ELECT && s.masterId == Nobody),
        cpu.inited || (cpu.pc == CPU_INIT && k.code == 0),
        if cpu.pc == RESTORE then s.error else cpu.code)
  }

  function SetError(s: State, code: int): State {
    s.(error := code, errorWrites := if code != 0 then s.errorWrites + 1 else s.errorWrites)
  }

  /** What that step does to the shared variables. */
  function NextShared(s: State, c: nat, k: Outcome): State
    requires c in s.cpus
  {
    var pc := s.cpus[c].pc;
    if (pc == BEGIN || pc == LOCK2) && s.lock == Nobody then s.(lock := By(c))
    else if pc == COUNT_IN then s.(entered := s.entered + 1)
    else if pc == LEAVE1 || pc == LEAVE2 then s.(lock := Nobody)
    else if pc == ELECT && s.masterId == Nobody then s.(masterId := By(c))
    else if pc == EARLY then SetError(s, k.code).(earlyDone := k.code != 0 || k.last)
    else if pc == CPU_INIT && k.code == 0 then s.(initialized := s.initialized + 1)
    else if pc == CPU_INIT then SetError(s, k.code)
    else if pc == LATE then SetError(s, k.code).(lateDone := k.code == 0 && k.last)
    else if pc == PUBLISH && s.error == 0 then s.(activate := true)
    else s
  }

  /** One step of CPU c. */
  function Next(s: State, c: nat, k: Outcome): State
    requires c in s.cpus
  {
    NextShared(s, c, k).(cpus := s.cpus[c := NextCpu(s, c, k)])
  }

  ghost predicate Init(s: State) {
    && s.cpus != map[]
    && (forall c <- s.cpus :: s.cpus[c] == Cpu(BEGIN, false, false, 0))
    && s == State(Nobody, Nobody, 0, 0, 0, false, s.cpus, 0, false, false)
  }

  ghost predicate Moves(s: State, s': State) {
    exists c, k :: c in s.cpus && s' == Next(s, c, k)
  }

  /** A run: any CPU moves at any time. */
  ghost predicate Run(run: seq<State>) {
    && run != [] && Init(run[0])
    && forall i | 0 <= i < |run| - 1 :: Moves(run[i], run[i + 1])
  }

  // ----- the invariant -----

  predicate Holding(pc: nat) {
    pc == COUNT_IN || pc == LEAVE1 || ELECT <= pc <= LEAVE2
  }

  function CountedIn(s: State): set<nat> {
    set c | c in s.cpus && s.cpus[c].pc >= LEAVE1
  }

  function Inited(s: State): set<nat> {
    set c | c in s.cpus && s.cpus[c].inited
  }

  /** What holds of one CPU at its place in the code. */
  ghost predicate Ok(s: State, c: nat, cpu: Cpu) {
    && cpu.pc <= ACTIVE
    && (Holding(cpu.pc) <==> s.lock == By(c))
    && (cpu.pc >= LOCK2 ==> s.entered == |s.cpus|)
    && (cpu.inited ==> cpu.pc >= LEAVE2)
    && (cpu.pc >= LEAVE2 && s.error == 0 ==> cpu.inited)
    && (cpu.master <==> s.masterId == By(c))
    && (cpu.master ==> cpu.pc >= EARLY)
    && (cpu.pc >= EARLY ==> s.masterId.By?)
    && (cpu.pc == EARLY || cpu.pc == LATE || cpu.pc == PUBLISH ==> cpu.master)
    && (cpu.pc == EARLY ==> !s.earlyDone)
    && (cpu.pc >= CHECK_INIT ==> s.earlyDone)
    && (cpu.pc == EARLY || cpu.pc == CPU_INIT || cpu.pc == LATE ==> s.error == 0)
    && (cpu.pc >= DECIDE ==> s.error != 0 || s.initialized == |s.cpus|)
    && (cpu.pc == LATE ==> !s.lateDone)
    && (cpu.pc == PUBLISH ==> s.error != 0 || s.lateDone)
    && (cpu.master && s.lateDone ==> cpu.pc >= PUBLISH)
    && (cpu.master && (cpu.pc == LOOP_ERR || cpu.pc == LOOP_ACT) ==> s.error != 0)
    && (cpu.pc == FINAL ==> s.error != 0 || s.activate)
    && (cpu.pc == RESTORE ==> s.error != 0)
    && (cpu.pc == RETURNED ==> s.error != 0 && cpu.code == s.error)
    && (cpu.pc == ACTIVE ==> s.activate)
  }

  ghost predicate Global(s: State) {
    && s.entered == |CountedIn(s)| && s.initialized == |Inited(s)|
    && s.errorWrites == (if s.error != 0 then 1 else 0)
    && (s.masterId.By? ==> s.masterId.id in s.cpus)
    && (s.lock.By? ==> s.lock.id in s.cpus)
    && (s.earlyDone || s.error != 0 ==> s.masterId.By?)
    && (s.activate ==> s.lateDone)
    && (s.lateDone ==> s.error == 0 && s.initialized == |s.cpus|)
  }

  ghost predicate Inv(s: State) {
    s.cpus != map[] && Global(s) && forall c <- s.cpus :: Ok(s, c, s.cpus[c])
  }

  lemma InitInv(s: State)
    requires Init(s)
    ensures Inv(s)
  {
    assert CountedIn(s) == {} && Inited(s) == {};
  }

  /** A step field by field. */
  lemma Fields(s: State, c: nat, k: Outcome)
    requires c in s.cpus
    ensures var s', pc := Next(s, c, k), s.cpus[c].pc;
            && s'.cpus == s.cpus[c := NextCpu(s, c, k)] && |s'.cpus| == |s.cpus|
            && s'.lock == (if (pc == BEGIN || pc == LOCK2) && s.lock == Nobody then By(c)
                           else if pc == LEAVE1 || pc == LEAVE2 then Nobody else s.lock)
            && s'.masterId == (if pc == ELECT && s.masterId == Nobody then By(c) else s.masterId)
            && s'.entered == s.entered + (if pc == COUNT_IN then 1 else 0)
            && s'.initialized == s.initialized + (if pc == CPU_INIT && k.code == 0 then 1 else 0)
    ensures var s', pc := Next(s, c, k), s.cpus[c].pc;
            && s'.error == (if pc == EARLY || (pc == CPU_INIT && k.code != 0) || pc == LATE then k.code else s.error)
            && s'.activate == (s.activate || (pc == PUBLISH && s.error == 0))
            && s'.earlyDone == (if pc == EARLY then k.code != 0 || k.last else s.earlyDone)
            && s'.lateDone == (if pc == LATE then k.code == 0 && k.last else s.lateDone)
  {
    hide NextCpu, NextPc, NextShared;
    OwnerFields(s, c, k);
    CounterFields(s, c, k);
    FlagFields(s, c, k);
    SameSize(s.cpus, c, NextCpu(s, c, k));
  }

  lemma OwnerFields(s: State, c: nat, k: Outcome)
    requires c in s.cpus
    ensures var s', pc := NextShared(s, c, k), s.cpus[c].pc;
            && s'.lock == (if (pc == BEGIN || pc == LOCK2) && s.lock == Nobody then By(c)
                           else if pc == LEAVE1 || pc == LEAVE2 then Nobody else s.lock)
            && s'.masterId == (if pc == ELECT && s.masterId == Nobody then By(c) else s.masterId)
  {
  }

  lemma CounterFields(s: State, c: nat, k: Outcome)
    requires c in s.cpus
    ensures var s', pc := NextShared(s, c, k), s.cpus[c].pc;
            && s'.entered == s.entered + (if pc == COUNT_IN then 1 else 0)
            && s'.initialized == s.initialized + (if pc == CPU_INIT && k.code == 0 then 1 else 0)
  {
  }

  lemma FlagFields(s: State, c: nat, k: Outcome)
    requires c in s.cpus
    ensures var s', pc := NextShared(s, c, k), s.cpus[c].pc;
            && s'.error == (if pc == EARLY || (pc == CPU_INIT && k.code != 0) || pc == LATE then k.code else s.error)
            && s'.activate == (s.activate || (pc == PUBLISH && s.error == 0))
            && s'.earlyDone == (if pc == EARLY then k.code != 0 || k.last else s.earlyDone)
            && s'.lateDone == (if pc == LATE then k.code == 0 && k.last else s.lateDone)
  {
  }

  lemma SameSize(m: map<nat, Cpu>, c: nat, x: Cpu)
    requires c in m
    ensures |m[c := x]| == |m|
  {
    assert m[c := x].Keys == m.Keys;
    assert |m[c := x]| == |m[c := x].Keys| && |m| == |m.Keys|;
  }

  /** How a move changes the number of CPUs counted in and initialized. */
  lemma CountMoves(s: State, s': State, c: nat)
    requires c in s.cpus && c in s'.cpus && s'.cpus == s.cpus[c := s'.cpus[c]]
    requires s.cpus[c].pc >= LEAVE1 ==> s'.cpus[c].pc >= LEAVE1
    ensures |CountedIn(s')| == |CountedIn(s)| + if s.cpus[c].pc < LEAVE1 <= s'.cpus[c].pc then 1 else 0
  {
    assert c in CountedIn(s) <==> s.cpus[c].pc >= LEAVE1;
    if s'.cpus[c].pc >= LEAVE1 {
      assert CountedIn(s') == CountedIn(s) + {c};
      AddOne(CountedIn(s), c);
    } else {
      assert CountedIn(s') == CountedIn(s);
    }
  }

  lemma InitedMoves(s: State, s': State, c: nat)
    requires c in s.cpus && c in s'.cpus && s'.cpus == s.cpus[c := s'.cpus[c]]
    requires s.cpus[c].inited ==> s'.cpus[c].inited
    ensures |Inited(s')| == |Inited(s)| + if !s.cpus[c].inited && s'.cpus[c].inited then 1 else 0
  {
    assert c in Inited(s) <==> s.cpus[c].inited;
    if s'.cpus[c].inited {
      assert Inited(s') == Inited(s) + {c};
      AddOne(Inited(s), c);
    } else {
      assert Inited(s') == Inited(s);
    }
  }

  /** While one CPU is missing, the counters are below the number of CPUs. */
  lemma NotFull(s: State, c: nat)
    requires c in s.cpus && Global(s)
    ensures s.entered <= |s.cpus| && s.initialized <= |s.cpus|
    ensures s.entered == |s.cpus| ==> s.cpus[c].pc >= LEAVE1
    ensures s.initialized == |s.cpus| ==> s.cpus[c].inited
    ensures (forall d <- s.cpus :: s.cpus[d].inited) ==> s.initialized == |s.cpus|
    ensures (forall d <- s.cpus :: s.cpus[d].pc >= LEAVE1) ==> s.entered == |s.cpus|
  {
    assert |s.cpus| == |s.cpus.Keys|;
    Cardinality(CountedIn(s), s.cpus.Keys);
    Cardinality(Inited(s), s.cpus.Keys);
    assert c in CountedIn(s) <==> s.cpus[c].pc >= LEAVE1;
    assert c in Inited(s) <==> s.cpus[c].inited;
    if forall d <- s.cpus :: s.cpus[d].inited {
      assert Inited(s) == s.cpus.Keys;
    }
    if forall d <- s.cpus :: s.cpus[d].pc >= LEAVE1 {
      assert CountedIn(s) == s.cpus.Keys;
    }
  }

  lemma GlobalNext(s: State, c: nat, k: Outcome)
    requires c in s.cpus && Inv(s)
    ensures Global(Next(s, c, k))
  {
    hide CountedIn, Inited, Next, NextShared;
    assert Ok(s, c, s.cpus[c]);
    Fields(s, c, k);
    CountMoves(s, Next(s, c, k), c);
    InitedMoves(s, Next(s, c, k), c);
    NotFull(s, c);
    ErrorWritten(s, c, k);
  }

  lemma ErrorWritten(s: State, c: nat, k: Outcome)
    requires c in s.cpus && Inv(s)
    ensures Next(s, c, k).errorWrites == if Next(s, c, k).error != 0 then 1 else 0
  {
    hide CountedIn, Inited;
    assert Ok(s, c, s.cpus[c]);
  }

  lemma OkSelfBefore(s: State, c: nat, k: Outcome)
    requires c in s.cpus && Inv(s) && s.cpus[c].pc <= CPU_INIT
    ensures Ok(Next(s, c, k), c, NextCpu(s, c, k))
  {
    hide CountedIn, Inited, Next, NextShared;
    assert Ok(s, c, s.cpus[c]);
    Fields(s, c, k);
    NotFull(s, c);
  }

  lemma OkSelfAfter(s: State, c: nat, k: Outcome)
    requires c in s.cpus && Inv(s) && s.cpus[c].pc > CPU_INIT
    ensures Ok(Next(s, c, k), c, NextCpu(s, c, k))
  {
    hide CountedIn, Inited, Next, NextShared;
    assert Ok(s, c, s.cpus[c]);
    Fields(s, c, k);
    NotFull(s, c);
  }

  lemma OkOther(s: State, c: nat, k: Outcome, d: nat)
    requires c in s.cpus && d in s.cpus && d != c && Inv(s)
    ensures Ok(Next(s, c, k), d, s.cpus[d])
  {
    hide CountedIn, Inited, Next, NextShared, NextCpu;
    assert Ok(s, c, s.cpus[c]) && Ok(s, d, s.cpus[d]);
    Fields(s, c, k);
    NotFull(s, c);
    NotFull(s, d);
  }

  lemma NextInv(s: State, c: nat, k: Outcome)
    requires c in s.cpus && Inv(s)
    ensures Inv(Next(s, c, k))
  {
    var s' := Next(s, c, k);
    GlobalNext(s, c, k);
    if s.cpus[c].pc <= CPU_INIT {
      OkSelfBefore(s, c, k);
    } else {
      OkSelfAfter(s, c, k);
    }
    forall d | d in s'.cpus ensures Ok(s', d, s'.cpus[d]) {
      if d != c {
        OkOther(s, c, k, d);
      }
    }
    assert c in s'.cpus;
  }

  // ----- what every run guarantees -----

  /** One master at most, elected only after everybody entered; at most one error is
      ever raised; whoever returns returns it; whoever activates does so after
      init_late completed, and then nobody returns. */
  ghost predicate Safe(s: State) {
    && (forall c <- s.cpus :: s.cpus[c].master ==> s.entered == |s.cpus| && s.masterId == By(c))
    && (forall c <- s.cpus :: s.cpus[c].pc > ELECT ==> MasterElected(s))
    && s.errorWrites <= 1
    && (forall c <- s.cpus :: s.cpus[c].pc == RETURNED ==> s.cpus[c].code == s.error != 0)
    && (forall c <- s.cpus :: s.cpus[c].pc == ACTIVE ==> s.lateDone && s.error == 0)
  }

  predicate MasterElected(s: State) {
    s.masterId.By? && s.masterId.id in s.cpus && s.cpus[s.masterId.id].master
  }

  lemma {:induction false} RunInv(run: seq<State>, i: nat)
    requires Run(run) && i < |run|
    ensures Inv(run[i])
  {
    if i == 0 {
      InitInv(run[0]);
    } else {
      RunInv(run, i - 1);
      assert Moves(run[i - 1], run[i - 1 + 1]);
      var c, k :| c in run[i - 1].cpus && run[i] == Next(run[i - 1], c, k);
      NextInv(run[i - 1], c, k);
    }
  }

  lemma RunSafe(run: seq<State>, i: nat)
    requires Run(run) && i < |run|
    ensures Safe(run[i])
  {
    RunInv(run, i);
    var s := run[i];
    forall c | c in s.cpus ensures Ok(s, c, s.cpus[c]) {
    }
  }

  lemma StepStable(s: State, c: nat, k: Outcome)
    requires c in s.cpus && Inv(s)
    ensures s.error != 0 ==> Next(s, c, k).error == s.error
    ensures s.lateDone ==> Next(s, c, k).lateDone
    ensures Next(s, c, k).cpus.Keys == s.cpus.Keys
  {
    hide Global, CountedIn, Inited;
    assert Ok(s, c, s.cpus[c]);
  }

  lemma {:induction false} RunStable(run: seq<State>, i: nat, j: nat)
    requires Run(run) && i <= j < |run|
    ensures run[i].error != 0 ==> run[j].error == run[i].error
    ensures run[i].lateDone ==> run[j].lateDone
    ensures run[j].cpus.Keys == run[i].cpus.Keys
    decreases j
  {
    hide Inv, Next, Init;
    if i < j {
      RunStable(run, i, j - 1);
      RunInv(run, j - 1);
      assert Moves(run[j - 1], run[j - 1 + 1]);
      var c, k :| c in run[j - 1].cpus && run[j] == Next(run[j - 1], c, k);
      StepStable(run[j - 1], c, k);
    }
  }

  /** Over a whole run: either some CPU activates and nobody ever returns, or nobody
      activates and all that return give one and the same error. */
  lemma BootVerdict(run: seq<State>, i: nat, c: nat, j: nat, d: nat)
    requires Run(run) && i < |run| && j < |run| && c in run[i].cpus && d in run[j].cpus
    requires run[j].cpus[d].pc == RETURNED
    ensures run[i].cpus[c].pc != ACTIVE
    ensures run[i].cpus[c].pc == RETURNED ==> run[i].cpus[c].code == run[j].cpus[d].code
  {
    RunSafe(run, i);
    RunSafe(run, j);
    RunInv(run, i);
    RunInv(run, j);
    if i <= j {
      RunStable(run, i, j);
    } else {
      RunStable(run, j, i);
    }
  }

  // ----- errors have causes -----

  /** Who moved, and what the hardware-dependent part yielded. */
  datatype Act = Act(cpu: nat, outcome: Outcome)

  /** The run that the acts drive. */
  ghost predicate Driven(run: seq<State>, acts: seq<Act>) {
    && |run| == |acts| + 1 && Init(run[0])
    && forall i | 0 <= i < |acts| :: Drives(run[i], acts[i], run[i + 1])
  }

  ghost predicate Drives(s: State, a: Act, s': State) {
    a.cpu in s.cpus && s' == Next(s, a.cpu, a.outcome)
  }

  /** The act is a stage of an initialization, and it fails. */
  ghost predicate Fails(s: State, a: Act) {
    a.cpu in s.cpus && s.cpus[a.cpu].pc in {EARLY, CPU_INIT, LATE} && a.outcome.code != 0
  }

  lemma DrivenIsRun(run: seq<State>, acts: seq<Act>)
    requires Driven(run, acts)
    ensures Run(run)
  {
    hide Next, Init;
    forall i | 0 <= i < |run| - 1 ensures Moves(run[i], run[i + 1]) {
      assert Drives(run[i], acts[i], run[i + 1]);
    }
  }

  /** A failing stage raises its code as the error, and nothing else raises one. */
  lemma StepError(s: State, a: Act)
    requires a.cpu in s.cpus && Inv(s)
    ensures Next(s, a.cpu, a.outcome).error == if Fails(s, a) then a.outcome.code else s.error
  {
    hide Global, CountedIn, Inited;
    assert Ok(s, a.cpu, s.cpus[a.cpu]);
  }

  /** An error is the code of the one stage that failed before. */
  lemma {:induction false} ErrorHasCause(run: seq<State>, acts: seq<Act>, i: nat)
    requires Driven(run, acts) && i < |run|
    ensures run[i].error != 0 <==> exists j | 0 <= j < i :: Fails(run[j], acts[j])
    ensures forall j | 0 <= j < i && Fails(run[j], acts[j]) :: run[i].error == acts[j].outcome.code
  {
    hide Next, Inv, Fails;
    if i > 0 {
      DrivenIsRun(run, acts);
      ErrorHasCause(run, acts, i - 1);
      RunInv(run, i - 1);
      assert Drives(run[i - 1], acts[i - 1], run[i - 1 + 1]);
      StepError(run[i - 1], acts[i - 1]);
      FailsOnce(run[i - 1], acts[i - 1]);
    }
  }

  lemma FailsOnce(s: State, a: Act)
    requires Inv(s)
    ensures Fails(s, a) ==> s.error == 0 && a.outcome.code != 0
  {
    hide Global, CountedIn, Inited;
    if Fails(s, a) {
      assert Ok(s, a.cpu, s.cpus[a.cpu]);
    }
  }

  /** Over a whole run: a CPU that is done is active exactly if no stage of the run fails, and otherwise
      gives the code of the stage that failed. */
  lemma BootOutcome(run: seq<State>, acts: seq<Act>, i: nat, c: nat)
    requires Driven(run, acts) && i < |run| && c in run[i].cpus && run[i].cpus[c].pc >= RETURNED
    ensures run[i].cpus[c].pc == ACTIVE <==> forall j | 0 <= j < |acts| :: !Fails(run[j], acts[j])
    ensures run[i].cpus[c].pc == RETURNED <==>
              exists j | 0 <= j < |acts| :: Fails(run[j], acts[j]) && acts[j].outcome.code == run[i].cpus[c].code
  {
    hide Next, Fails, Init, Run, Driven;
    var last := |run| - 1;
    DrivenRun(run, acts);
    RunInv(run, i);
    RunSafe(run, i);
    assert Ok(run[i], c, run[i].cpus[c]);
    RunInv(run, last);
    RunStable(run, i, last);
    ErrorHasCause(run, acts, last);
    ErrorHasCause(run, acts, i);
  }

  lemma DrivenRun(run: seq<State>, acts: seq<Act>)
    requires Driven(run, acts)
    ensures Run(run) && |run| == |acts| + 1
  {
    DrivenIsRun(run, acts);
  }

  // ----- no CPU is left waiting -----

  /** Two steps of CPU c alone, one for each read of a waiting loop. */
  function Twice(s: State, c: nat, k: Outcome): State
    requires c in s.cpus
  {
    Next(Next(s, c, k), c, k)
  }

  /** The last place of the waiting loop that pc belongs to. */
  function LoopEnd(pc: nat): nat {
    if pc == WAIT_ERR then WAIT_INIT else if pc == LOOP_ERR then LOOP_ACT else pc
  }

  /** CPU c gets past its place in the code within two of its steps. */
  ghost predicate CanAdvance(s: State, c: nat)
    requires c in s.cpus
  {
    || (exists k :: Next(s, c, k).cpus[c].pc > LoopEnd(s.cpus[c].pc))
    || (exists k :: Twice(s, c, k).cpus[c].pc > LoopEnd(s.cpus[c].pc))
  }

  lemma Advances(s: State, c: nat)
    requires c in s.cpus && s.cpus[c].pc < RETURNED
    requires s.cpus[c].pc == BEGIN || s.cpus[c].pc == LOCK2 ==> s.lock == Nobody
    requires s.cpus[c].pc == WAIT_ENTERED ==> s.entered == |s.cpus|
    requires s.cpus[c].pc == WAIT_ERR || s.cpus[c].pc == WAIT_INIT ==> s.error != 0 || s.initialized == |s.cpus|
    requires s.cpus[c].pc == LOOP_ERR || s.cpus[c].pc == LOOP_ACT ==> s.error != 0 || s.activate
    ensures CanAdvance(s, c)
  {
    var k, pc := Outcome(0, true), s.cpus[c].pc;
    if pc == WAIT_ERR || pc == WAIT_INIT || pc == LOOP_ERR || pc == LOOP_ACT {
      LoopExit(s, c, k);
    } else {
      assert NextPc(s, c, k) > pc;
      assert Next(s, c, k).cpus[c].pc > LoopEnd(pc);
    }
  }

  lemma LoopExit(s: State, c: nat, k: Outcome)
    requires c in s.cpus
    requires s.cpus[c].pc in {WAIT_ERR, WAIT_INIT, LOOP_ERR, LOOP_ACT}
    requires s.cpus[c].pc == WAIT_ERR || s.cpus[c].pc == WAIT_INIT ==> s.error != 0 || s.initialized == |s.cpus|
    requires s.cpus[c].pc == LOOP_ERR || s.cpus[c].pc == LOOP_ACT ==> s.error != 0 || s.activate
    ensures Next(s, c, k).cpus[c].pc > LoopEnd(s.cpus[c].pc) || Twice(s, c, k).cpus[c].pc > LoopEnd(s.cpus[c].pc)
  {
    var s1 := Next(s, c, k);
    assert NextShared(s, c, k) == s;
    assert s1.cpus.Keys == s.cpus.Keys;
    assert |s1.cpus| == |s1.cpus.Keys| && |s.cpus| == |s.cpus.Keys|;
    assert Twice(s, c, k).cpus[c].pc == NextPc(s1, c, k);
  }

  /** With the lock free and all CPUs past the first barrier, one of them can advance. */
  lemma LateProgress(s: State, w: nat) returns (c: nat)
    requires Inv(s) && w in s.cpus && s.cpus[w].pc < RETURNED
    requires forall d <- s.cpus :: s.cpus[d].pc >= WAIT_ERR
    ensures c in s.cpus && CanAdvance(s, c)
  {
    hide CanAdvance, CountedIn, Inited;
    forall d | d in s.cpus ensures Ok(s, d, s.cpus[d]) {
    }
    NotFull(s, w);
    c := w;
    if (s.cpus[w].pc == LOOP_ERR || s.cpus[w].pc == LOOP_ACT) && s.error == 0 && !s.activate {
      c := s.masterId.id;
    }
    Advances(s, c);
  }

  /** As long as some CPU is neither back in Linux nor active, some CPU can advance:
      the protocol never deadlocks, whatever fails. */
  lemma NoDeadlock(s: State, w: nat) returns (c: nat)
    requires Inv(s) && w in s.cpus && s.cpus[w].pc < RETURNED
    ensures c in s.cpus && CanAdvance(s, c)
  {
    hide CanAdvance, CountedIn, Inited;
    if s.lock.By? {
      c := s.lock.id;
      assert Ok(s, c, s.cpus[c]);
      Advances(s, c);
    } else if d :| d in s.cpus && (s.cpus[d].pc == BEGIN || s.cpus[d].pc == LOCK2) {
      c := d;
      Advances(s, c);
    } else {
      forall d | d in s.cpus ensures s.cpus[d].pc == WAIT_ENTERED || s.cpus[d].pc >= WAIT_ERR {
        assert Ok(s, d, s.cpus[d]);
      }
      if d :| d in s.cpus && s.cpus[d].pc == WAIT_ENTERED {
        c := d;
        NotFull(s, c);
        Advances(s, c);
      } else {
        c := LateProgress(s, w);
      }
    }
  }
}
