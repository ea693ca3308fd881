/** Cell life cycle (hypervisor/control.c): create, set_loadable, start and destroy with all
    their error exits, as atomic hypercalls.  Outcomes of architecture hooks, allocations
    and what cells answer to messages are arguments. */
module Cells {
  import opened Common
  import opened RootMemory

  const EPERM := 1
  const ENOENT := 2
  const E2BIG := 7
  const ENOMEM := 12
  const EBUSY := 16
  const EEXIST := 17
  const EINVAL := 22

  /** `passive`: the cell answers no messages; `timeout`: how often it is polled for an answer, 0 for
      without end. */
  datatype Config = Config(id: nat, name: string, cpus: set<nat>, regions: seq<Region>, passive: bool, timeout: nat)

  /** A listed cell; its CPU set is the configured one. */
  datatype Cell = Cell(config: Config, loadable: bool, mem: PageMap)

  /** per_cpu(cpu)->cell */
  datatype Owner = Root | Of(id: nat)

  datatype Call =
    | Create(caller: nat, cfg: Config, setup: Setup, hooks: Hooks)
    | Start(caller: nat, id: nat, hooks: Hooks)
    | SetLoadable(caller: nat, id: nat, hooks: Hooks)
    | Destroy(caller: nat, id: nat, hooks: Hooks)
    | Report(id: nat, now: CommState)   // a running cell writes its state

  datatype CommState = Running | RunningLocked | ShutDown | Failed

  predicate Stopped(s: CommState) {
    s.ShutDown? || s.Failed?
  }

  /** How a waiting hypervisor sees a cell react: nothing for `quiet` polls, then a reply, with the
      cell's state next to it. */
  datatype Answer = Answer(quiet: nat, approves: bool, now: CommState)

  datatype Code = ShutdownRequest | ReconfigNotice

  datatype Message = Message(id: nat, code: Code)

  /** What the steps before the hand-over of a new cell come to; codes are 0 on success. */
  datatype Setup = Setup(mapped: bool, small: bool, remapped: bool, inPool: bool, init: int, arch: int, units: int)

  /** What else a call meets: the answer to a shutdown request, the hooks for region i (and the root's
      region j), and the answers to the final notices. */
  datatype Hooks = Hooks(answer: Answer, unmaps: nat -> bool, maps: nat -> bool, remaps: (nat, nat) -> bool,
                         notices: nat -> Answer)

  // ----- messages -----

  /** A cell in state s is waited for. */
  predicate Awaited(cfg: Config, s: CommState) {
    !cfg.passive && !Stopped(s)
  }

  /** The last poll a limited wait allows is still without a reply. */
  predicate TimesOut(cfg: Config, s: CommState, a: Answer) {
    Awaited(cfg, s) && 0 < cfg.timeout <= a.quiet
  }

  /** A message is refused only by a cell that is waited for, answers in time, and runs on. */
  predicate Refused(cfg: Config, s: CommState, a: Answer) {
    Awaited(cfg, s) && !TimesOut(cfg, s, a) && !a.approves && !Stopped(a.now)
  }

  function StateAfter(cfg: Config, s: CommState, a: Answer): CommState {
    if TimesOut(cfg, s, a) then Failed else if Awaited(cfg, s) then a.now else s
  }

  function Sent(cfg: Config, code: Code): seq<Message> {
    if cfg.passive then [] else [Message(cfg.id, code)]
  }

  function Notices(cells: seq<Cell>): seq<Message> {
    if cells == [] then [] else Notices(cells[..|cells| - 1]) + Sent(cells[|cells| - 1].config, ReconfigNotice)
  }

  /** Each listed cell got its notice; all else keeps its state. */
  ghost predicate Noticed(cells: seq<Cell>, s: map<nat, CommState>, s': map<nat, CommState>, notices: nat -> Answer) {
    && s'.Keys == s.Keys
    && (forall k | 0 <= k < |cells| && cells[k].config.id in s ::
          s'[cells[k].config.id] == StateAfter(cells[k].config, s[cells[k].config.id], notices(cells[k].config.id)))
    && (forall i <- s | !Listed(cells, i) :: s'[i] == s[i])
  }

  /** The CPUs of the cells that did not acknowledge the notice in time. */
  function LateCpus(cells: seq<Cell>, s: map<nat, CommState>, notices: nat -> Answer): set<nat> {
    set k, c | 0 <= k < |cells| && c in cells[k].config.cpus && Late(cells[k].config, s, notices) :: c
  }

  predicate Late(cfg: Config, s: map<nat, CommState>, notices: nat -> Answer) {
    cfg.id in s && TimesOut(cfg, s[cfg.id], notices(cfg.id))
  }

  /** A cell other than the excluded one is running locked. */
  ghost predicate Locked(cells: seq<Cell>, s: map<nat, CommState>, excluded: Owner) {
    exists k | 0 <= k < |cells| ::
      Of(cells[k].config.id) != excluded && cells[k].config.id in s && s[cells[k].config.id] == RunningLocked
  }

  // ----- pages of a configuration -----

  predicate AnyIn(rs: seq<Region>, v: nat) {
    exists i | 0 <= i < |rs| :: InRegion(v, rs[i])
  }

  /** Private regions of either configuration are disjoint from all regions of the other. */
  ghost predicate Compatible(a: Config, b: Config) {
    forall v: nat ::
      !(PrivateIn(a.regions, v) && AnyIn(b.regions, v)) && !(AnyIn(a.regions, v) && PrivateIn(b.regions, v))
  }

  /** A new configuration is compatible with the listed ones it does not clash with by name or id. */
  ghost predicate Fitting(cells: seq<Cell>, cfg: Config) {
    forall k | 0 <= k < |cells| && Differ(cells[k].config, cfg) :: Compatible(cells[k].config, cfg)
  }

  /** No page the cell keeps to itself is mapped in the root cell. */
  ghost predicate Hidden(cell: Cell, rootMap: PageMap) {
    forall v <- rootMap :: PrivateIn(cell.config.regions, v) ==> cell.loadable && LoadableIn(cell.config.regions, v)
  }

  ghost predicate IsolatedCells(cells: seq<Cell>, rootMap: PageMap) {
    && (forall j, k | 0 <= j < k < |cells| :: Compatible(cells[j].config, cells[k].config))
    && (forall k | 0 <= k < |cells| :: Hidden(cells[k], rootMap))
  }

  lemma PartIsAny(rs: seq<Region>, v: nat)
    ensures PrivateIn(rs, v) || LoadableIn(rs, v) ==> AnyIn(rs, v)
  {
  }

  /** What only takes pages from the root, or moves pages of a compatible configuration, hides
      what was hidden. */
  lemma StaysHidden(cell: Cell, cfg: Config, m: PageMap, m': PageMap)
    requires Hidden(cell, m)
    requires || (forall v: nat :: At(m', v) == At(m, v) || v !in m')
             || (Compatible(cell.config, cfg) && PrivateChange(m, m', cfg.regions))
             || (Compatible(cell.config, cfg) && LoadableChange(m, m', cfg.regions))
    ensures Hidden(cell, m')
  {
    forall v | v in m' && PrivateIn(cell.config.regions, v)
      ensures cell.loadable && LoadableIn(cell.config.regions, v)
    {
      PartIsAny(cfg.regions, v);
      assert At(m', v) == Some(m'[v]);
      if At(m', v) == At(m, v) {
        assert v in m;
      }
    }
  }

  lemma PrivateKeepsIdentity(m: PageMap, m': PageMap, rs: seq<Region>)
    requires Identity(m) && (PrivateChange(m, m', rs) || LoadableChange(m, m', rs))
    ensures Identity(m')
  {
    forall v | v in m' ensures m'[v].phys == v {
      assert At(m', v) == Some(m'[v]);
      if At(m', v) == At(m, v) {
        assert v in m && m[v] == m'[v];
      }
    }
  }

  lemma ChangeTwice(m: PageMap, m1: PageMap, m2: PageMap, rs: seq<Region>)
    requires TakenWithin(m, m1, rs) && PrivateChange(m1, m2, rs)
    ensures PrivateChange(m, m1, rs) && PrivateChange(m, m2, rs)
  {
    hide PrivateIn;
    forall v: nat ensures At(m2, v) == At(m, v) || (PrivateIn(rs, v) && (v in m2 ==> m2[v].phys == v)) {
      assert At(m2, v) == At(m1, v) || (PrivateIn(rs, v) && (v in m2 ==> m2[v].phys == v));
      assert At(m1, v) == At(m, v) || (PrivateIn(rs, v) && v !in m1);
    }
  }

  // ----- CPU sets -----

  /** per_cpu(cpu)->cell for the CPUs in `cpus` set to o. */
  function Assign(cpuCell: map<nat, Owner>, cpus: set<nat>, o: Owner): map<nat, Owner> {
    map c | c in cpuCell :: if c in cpus then o else cpuCell[c]
  }

  function Without(cells: seq<Cell>, k: nat): seq<Cell>
    requires k < |cells|
  {
    cells[..k] + cells[k + 1..]
  }

  /** next_cpu, for a set whose largest possible id is max; starts from -1. */
  method NextCpu(cpu: int, cpus: set<nat>, max: nat, except: int) returns (next: int)
    requires -1 <= cpu <= max
    ensures cpu < next <= max + 1
    ensures next <= max ==> next in cpus && next != except
    ensures forall c: int | cpu < c < next :: c < 0 || c !in cpus || c == except
  {
    next := cpu + 1;
    while next <= max && (next == except || next !in cpus)
      invariant cpu < next <= max + 1
      invariant forall c: int | cpu < c < next :: c < 0 || c !in cpus || c == except
    {
      next := next + 1;
    }
  }

  /** for_each_cpu_except visits the CPUs of the set but one, each once, in increasing order. */
  method ForEachCpu(cpus: set<nat>, max: nat, except: int) returns (visited: seq<nat>)
    requires forall c <- cpus :: c <= max
    ensures forall i, j | 0 <= i < j < |visited| :: visited[i] < visited[j]
    ensures forall c: nat :: c in visited <==> c in cpus && c != except
  {
    visited := [];
    var cpu := -1;
    while cpu <= max
      invariant -1 <= cpu <= max + 1
      invariant forall i, j | 0 <= i < j < |visited| :: visited[i] < visited[j]
      invariant forall i | 0 <= i < |visited| :: visited[i] <= cpu
      invariant forall c: nat :: c in visited <==> c in cpus && c != except && c <= cpu
      decreases max + 1 - cpu
    {
      cpu := NextCpu(cpu, cpus, max, except);
      if cpu <= max {
        visited := visited + [cpu];
      }
    }
  }

  /** The root's and the listed cells' CPU sets partition the system's and agree with
      per_cpu(cpu)->cell; ids and names are distinct. */
  ghost predicate PartitionedOf(system: Config, rootCpus: set<nat>, cells: seq<Cell>, cpuCell: map<nat, Owner>) {
    && cpuCell.Keys == system.cpus
    && (forall c: nat :: c in rootCpus <==> c in cpuCell && cpuCell[c] == Root)
    && (forall k, c: nat | 0 <= k < |cells| ::
          c in cells[k].config.cpus <==> c in cpuCell && cpuCell[c] == Of(cells[k].config.id))
    && (forall c <- cpuCell :: cpuCell[c] == Root || Listed(cells, cpuCell[c].id))
    && (forall k | 0 <= k < |cells| :: Differ(cells[k].config, system))
    && (forall j, k | 0 <= j < k < |cells| :: Differ(cells[j].config, cells[k].config))
  }

  predicate Listed(cells: seq<Cell>, id: nat) {
    exists k | 0 <= k < |cells| :: cells[k].config.id == id
  }

  lemma ListedMore(cells: seq<Cell>, cell: Cell)
    ensures Listed(cells + [cell], cell.config.id)
    ensures forall id :: Listed(cells, id) ==> Listed(cells + [cell], id)
  {
    var t := cells + [cell];
    assert t[|cells|] == cell;
    forall id | Listed(cells, id) ensures Listed(t, id) {
      var k :| 0 <= k < |cells| && cells[k].config.id == id;
      assert t[k] == cells[k];
    }
  }

  lemma AddedCell(system: Config, rootCpus: set<nat>, cells: seq<Cell>, cpuCell: map<nat, Owner>, cell: Cell)
    requires PartitionedOf(system, rootCpus, cells, cpuCell) && cell.config.cpus <= rootCpus
    requires Differ(cell.config, system) && forall k | 0 <= k < |cells| :: Differ(cells[k].config, cell.config)
    ensures PartitionedOf(system, rootCpus - cell.config.cpus, cells + [cell],
                          Assign(cpuCell, cell.config.cpus, Of(cell.config.id)))
  {
    ListedMore(cells, cell);
  }

  lemma RemovedCell(system: Config, rootCpus: set<nat>, cells: seq<Cell>, cpuCell: map<nat, Owner>, k: nat)
    requires PartitionedOf(system, rootCpus, cells, cpuCell) && k < |cells|
    ensures PartitionedOf(system, rootCpus + cells[k].config.cpus, Without(cells, k),
                          Assign(cpuCell, cells[k].config.cpus, Root))
  {
    hide Listed;
    var t, cpuCell' := Without(cells, k), Assign(cpuCell, cells[k].config.cpus, Root);
    forall c | c in cpuCell' && cpuCell'[c] != Root ensures Listed(t, cpuCell'[c].id) {
      StillListed(cells, k, cpuCell[c].id);
    }
    forall i | 0 <= i < |t| ensures t[i] == cells[if i < k then i else i + 1] {
    }
  }

  lemma StillListed(cells: seq<Cell>, k: nat, id: nat)
    requires k < |cells| && Listed(cells, id) && cells[k].config.id != id
    ensures Listed(Without(cells, k), id)
  {
    var t := Without(cells, k);
    var j :| 0 <= j < |cells| && cells[j].config.id == id;
    assert t[if j < k then j else j - 1] == cells[j];
  }

  lemma BackAndForth(system: Config, rootCpus: set<nat>, cells: seq<Cell>, cpuCell: map<nat, Owner>, cpus: set<nat>,
                     o: Owner)
    requires PartitionedOf(system, rootCpus, cells, cpuCell) && cpus <= rootCpus
    ensures Assign(Assign(cpuCell, cpus, o), cpus, Root) == cpuCell
  {
  }

  /** Changing what is not the configuration of a cell leaves all that alone. */
  lemma ReplacedCell(system: Config, rootCpus: set<nat>, cells: seq<Cell>, cpuCell: map<nat, Owner>, k: nat, cell: Cell)
    requires PartitionedOf(system, rootCpus, cells, cpuCell) && k < |cells| && cell.config == cells[k].config
    ensures PartitionedOf(system, rootCpus, cells[k := cell], cpuCell)
  {
    forall id | Listed(cells, id) ensures Listed(cells[k := cell], id) {
      var j :| 0 <= j < |cells| && cells[j].config.id == id;
      assert cells[k := cell][j].config.id == id;
    }
  }

  lemma CellCpus(system: Config, rootCpus: set<nat>, cells: seq<Cell>, cpuCell: map<nat, Owner>, k: nat)
    requires PartitionedOf(system, rootCpus, cells, cpuCell) && k < |cells|
    ensures cells[k].config.cpus !! rootCpus && cells[k].config.cpus <= system.cpus
  {
  }

  class Hypervisor {
    const system: Config              // the root cell's configuration
    var rootCpus: set<nat>
    var rootMap: PageMap              // the root cell's guest-physical pages
    var cells: seq<Cell>              // the list behind the root cell
    var numCells: nat
    var cpuCell: map<nat, Owner>
    var suspended: set<nat>
    var state: map<nat, CommState>    // comm_region.cell_state by cell id
    var sent: seq<Message>            // all messages to cells so far

    /** Lists, ids and CPU sets fit together. */
    ghost predicate Partitioned()
      reads this
    {
      && PartitionedOf(system, rootCpus, cells, cpuCell)
      && numCells == |cells| + 1
      && (forall k | 0 <= k < |cells| :: cells[k].config.id in state)
    }

    /** Between hypercalls. */
    ghost predicate Valid()
      reads this
    {
      Partitioned() && OneToOne(system.regions) && Identity(rootMap) && suspended !! rootCpus
    }

    /** No private page of a listed cell is mapped in the root cell, unless the cell is
        loadable and the page may be loaded. */
    ghost predicate Isolated()
      reads this
    {
      IsolatedCells(cells, rootMap)
    }

    constructor (system: Config)
      requires OneToOne(system.regions)
      ensures Valid() && Isolated() && this.system == system && rootCpus == system.cpus && cells == []
      ensures rootMap == Configured(system.regions)
    {
      this.system := system;
      rootCpus, cells, numCells, suspended, state, sent := system.cpus, [], 1, {}, map[], [];
      cpuCell := map c | c in system.cpus :: Root;
      rootMap := Configured(system.regions);
      new;
      ConfiguredIdentity(system.regions);
    }

    // ----- suspending and messages -----

    /** cell_suspend(&root_cell) */
    method SuspendRoot(caller: nat)
      modifies this`suspended
      ensures suspended == old(suspended) + (rootCpus - {caller})
    {
      suspended := suspended + (rootCpus - {caller});
    }

    /** cell_resume of the caller's cell, the root. */
    method ResumeRoot(caller: nat)
      modifies this`suspended
      ensures suspended == old(suspended) - (rootCpus - {caller})
    {
      suspended := suspended - (rootCpus - {caller});
    }

    /** cell_exchange_message: send the message and poll for the reply; `ok` unless it is refused. */
    method ExchangeMessage(k: nat, code: Code, a: Answer) returns (ok: bool)
      requires k < |cells| && cells[k].config.id in state
      modifies this`suspended, this`state, this`sent
      ensures ok <==> !Refused(cells[k].config, old(state)[cells[k].config.id], a)
      ensures state == old(state)[cells[k].config.id :=
                         StateAfter(cells[k].config, old(state)[cells[k].config.id], a)]
      ensures suspended == old(suspended) +
                           if TimesOut(cells[k].config, old(state)[cells[k].config.id], a) then cells[k].config.cpus
                           else {}
      ensures sent == old(sent) + Sent(cells[k].config, code)
    {
      var id, left := cells[k].config.id, cells[k].config.timeout;
      if cells[k].config.passive {
        return true;
      }
      sent := sent + [Message(id, code)];
      if Stopped(state[id]) {
        return true;
      }
      var polls := 0;
      while polls < a.quiet
        invariant polls <= a.quiet && (cells[k].config.timeout > 0 ==> left == cells[k].config.timeout - polls > 0)
        decreases a.quiet - polls
      {
        if cells[k].config.timeout > 0 {
          left := left - 1;
          if left == 0 {
            suspended := suspended + cells[k].config.cpus;
            state := state[id := Failed];
            return true;
          }
        }
        polls := polls + 1;
      }
      state := state[id := a.now];
      return Stopped(a.now) || a.approves;
    }

    /** Between hypercalls, a cell may set its state in the communication region to anything; one that
        reported to be shut down may still be running. */
    method CellReports(id: nat, now: CommState)
      requires Valid()
      modifies this`state
      ensures Valid() && state.Keys == old(state).Keys
      ensures forall i <- state :: state[i] == if i == id then now else old(state)[i]
    {
      if id in state {
        state := state[id := now];
      }
    }

    /** cell_reconfig_completed: every listed cell is told, in order, and its reaction is its own. */
    method ReconfigCompleted(notices: nat -> Answer)
      requires Partitioned()
      modifies this`suspended, this`state, this`sent
      ensures Partitioned() && Noticed(cells, old(state), state, notices)
      ensures suspended == old(suspended) + LateCpus(cells, old(state), notices)
      ensures LateCpus(cells, old(state), notices) !! rootCpus
      ensures sent == old(sent) + Notices(cells)
    {
      hide PartitionedOf, StateAfter, TimesOut, Noticed, LateCpus, Listed;
      var k := 0;
      NoticedNone(cells, state, notices);
      while k < |cells|
        invariant k <= |cells| && Partitioned()
        invariant Noticed(cells[..k], old(state), state, notices)
        invariant suspended == old(suspended) + LateCpus(cells[..k], old(state), notices)
        invariant sent == old(sent) + Notices(cells[..k])
      {
        ghost var s1 := state;
        var id := cells[k].config.id;
        NotYet(system, rootCpus, cells, cpuCell, k, old(state), s1, notices);
        var ignored := ExchangeMessage(k, ReconfigNotice, notices(id));
        NoticedMore(cells, k, old(state), s1, state, notices);
        assert cells[..k + 1][..k] == cells[..k];
        k := k + 1;
      }
      assert cells[..|cells|] == cells;
      LateNotRoot(system, rootCpus, cells, cpuCell, old(state), notices);
    }

    /** cell_reconfig_ok(excluded): no other cell is running locked. */
    method ReconfigOk(excluded: Owner) returns (ok: bool)
      requires forall k | 0 <= k < |cells| :: cells[k].config.id in state
      ensures ok <==> !Locked(cells, state, excluded)
    {
      var k := 0;
      while k < |cells|
        invariant k <= |cells|
        invariant forall j | 0 <= j < k && Of(cells[j].config.id) != excluded ::
                    state[cells[j].config.id] != RunningLocked
      {
        if Of(cells[k].config.id) != excluded && state[cells[k].config.id] == RunningLocked {
          return false;
        }
        k := k + 1;
      }
      return true;
    }

    /** Inside a hypercall of a root CPU: everything holds but that other root CPUs may be
        suspended. */
    ghost predicate Busy(caller: nat)
      reads this
    {
      && Partitioned() && OneToOne(system.regions) && Identity(rootMap)
      && caller in rootCpus && caller !in suspended
    }

    // ----- cell_create -----

    method Create(caller: nat, cfg: Config, setup: Setup, hooks: Hooks) returns (err: int)
      requires Valid() && caller in system.cpus
      modifies this
      ensures Valid() && cpuCell[caller] == old(cpuCell[caller])
      ensures err == if old(cpuCell[caller]) != Root then -EPERM
                     else if old(Admission(caller, cfg, setup)) != 0 then old(Admission(caller, cfg, setup))
                     else if GivesAll(cfg.regions, hooks.unmaps, hooks.maps) then 0 else -ENOMEM
      ensures err == 0 ==>
                && cells == old(cells) + [Cell(cfg, false, Configured(cfg.regions))]
                && cfg.cpus <= old(rootCpus) - {caller} && rootCpus == old(rootCpus) - cfg.cpus
                && Differ(cfg, system) && (forall k | 0 <= k < |old(cells)| :: Differ(old(cells)[k].config, cfg))
                && TakenExactly(old(rootMap), rootMap, cfg.regions)
      ensures err == 0 ==>
                && Noticed(cells, old(state)[cfg.id := ShutDown], state, hooks.notices)
                && suspended == old(suspended) + LateCpus(cells, old(state)[cfg.id := ShutDown], hooks.notices)
                && sent == old(sent) + Notices(cells)
                && state[cfg.id] == ShutDown && cfg.cpus !! suspended
      ensures err != 0 ==>
                && cells == old(cells) && rootCpus == old(rootCpus) && cpuCell == old(cpuCell)
                && state == old(state) && suspended == old(suspended) && sent == old(sent)
                && PrivateChange(old(rootMap), rootMap, cfg.regions)
      ensures err != 0 && ReturnsAll(cfg.regions, system.regions, hooks.remaps) &&
              AsConfigured(old(rootMap), system.regions, cfg.regions) ==>
                rootMap == old(rootMap)
      ensures old(Isolated()) && Fitting(old(cells), cfg) ==> Isolated()
    {
      hide Hidden, Compatible, PrivateIn, Configured, Identity, PrivateChange, IsolatedCells, PartitionedOf;
      hide Noticed, LateCpus, TakenExactly, ReturnsAll, GivesAll, AsConfigured, OneToOne, Locked;
      Unchanged(rootMap, cfg.regions);
      RootCaller(system, rootCpus, cells, cpuCell, caller);
      if cpuCell[caller] != Root {
        return -EPERM;
      }
      SuspendRoot(caller);
      ghost var cells0, rootMap0 := cells, rootMap;
      err := Admit(caller, cfg, setup);
      if err == 0 {
        err := Populate(caller, cfg, hooks);
        if IsolatedCells(cells0, rootMap0) && Fitting(cells0, cfg) {
          IsolationAfterCreate(cells0, cells, cfg, rootMap0, rootMap);
        }
        RootCaller(system, rootCpus, cells, cpuCell, caller);
      }
      ResumeRoot(caller);
    }

    /** The answer of the checks of cell_create, in the order they are made. */
    ghost function Admission(caller: nat, cfg: Config, setup: Setup): (err: int)
      reads this
      ensures err == 0 ==>
                && !Locked(cells, state, Root) && !Clashes(cfg) && caller !in cfg.cpus && cfg.cpus <= rootCpus
                && setup.mapped && setup.small && setup.remapped && setup.inPool
                && setup.init == 0 && setup.arch == 0 && setup.units == 0
      ensures (&& !Locked(cells, state, Root) && !Clashes(cfg) && caller !in cfg.cpus && cfg.cpus <= rootCpus
               && setup == Setup(true, true, true, true, 0, 0, 0)) ==> err == 0
    {
      if Locked(cells, state, Root) then -EPERM
      else if !setup.mapped then -ENOMEM
      else if Clashes(cfg) then -EEXIST
      else if !setup.small then -E2BIG
      else if !setup.remapped || !setup.inPool then -ENOMEM
      else if setup.init != 0 then setup.init
      else if caller in cfg.cpus || !(cfg.cpus <= rootCpus) then -EBUSY
      else if setup.arch != 0 then setup.arch
      else setup.units
    }

    /** The root cell or a listed one has the name or the id. */
    ghost predicate Clashes(cfg: Config)
      reads this
    {
      !Differ(cfg, system) || exists k | 0 <= k < |cells| :: !Differ(cells[k].config, cfg)
    }

    /** All checks of cell_create, in order, up to and including the unit hooks. */
    method Admit(caller: nat, cfg: Config, setup: Setup) returns (err: int)
      requires Partitioned()
      ensures err == Admission(caller, cfg, setup)
    {
      hide PartitionedOf, Locked;
      var reconfigOk := ReconfigOk(Root);
      if !reconfigOk {
        return -EPERM;
      }
      if !setup.mapped {
        return -ENOMEM;
      }
      if !Differ(cfg, system) {
        return -EEXIST;
      }
      var k := 0;
      while k < |cells|
        invariant k <= |cells| && forall j | 0 <= j < k :: Differ(cells[j].config, cfg)
      {
        if !Differ(cells[k].config, cfg) {
          return -EEXIST;
        }
        k := k + 1;
      }
      if !setup.small {
        return -E2BIG;
      }
      if !setup.remapped || !setup.inPool {
        return -ENOMEM;
      }
      if setup.init != 0 {
        return setup.init;
      }
      if caller in cfg.cpus {
        return -EBUSY;
      }
      if !(cfg.cpus <= rootCpus) {
        return -EBUSY;
      }
      if setup.arch != 0 {
        return setup.arch;
      }
      return setup.units;
    }

    /** The rest of cell_create: hand over CPUs and memory and list the cell, or undo it all. */
    method Populate(caller: nat, cfg: Config, hooks: Hooks) returns (err: int)
      requires Busy(caller) && caller !in cfg.cpus && cfg.cpus <= rootCpus && !Clashes(cfg)
      modifies this
      ensures Busy(caller) && (err == if GivesAll(cfg.regions, hooks.unmaps, hooks.maps) then 0 else -ENOMEM)
      ensures err == 0 ==>
                && cells == old(cells) + [Cell(cfg, false, Configured(cfg.regions))]
                && rootCpus == old(rootCpus) - cfg.cpus
                && TakenExactly(old(rootMap), rootMap, cfg.regions)
                && Noticed(cells, old(state)[cfg.id := ShutDown], state, hooks.notices)
                && sent == old(sent) + Notices(cells) && cfg.id in state && state[cfg.id] == ShutDown
                && var late := LateCpus(cells, old(state)[cfg.id := ShutDown], hooks.notices);
                  suspended == old(suspended) - cfg.cpus + late && late !! rootCpus && late !! cfg.cpus
      ensures err != 0 ==>
                && cells == old(cells) && rootCpus == old(rootCpus) && cpuCell == old(cpuCell)
                && state == old(state) && suspended == old(suspended) - cfg.cpus && sent == old(sent)
                && PrivateChange(old(rootMap), rootMap, cfg.regions)
      ensures err != 0 && ReturnsAll(cfg.regions, system.regions, hooks.remaps) &&
              AsConfigured(old(rootMap), system.regions, cfg.regions) ==>
                rootMap == old(rootMap)
    {
      hide Hidden, Compatible, PrivateIn, Configured, Identity, PrivateChange, PartitionedOf, Assign;
      hide Noticed, LateCpus, TakenExactly, TakenWithin, ReturnsAll, AsConfigured, OneToOne, GivenBack, Touches;
      hide GivesBack, Agreeing, Differ, GivesAll, Returned, Private, LateCpus, At, StateAfter;
      ghost var cpus0, cpuCell0, rootMap0 := rootCpus, cpuCell, rootMap;
      AddedCell(system, rootCpus, cells, cpuCell, Cell(cfg, false, Configured(cfg.regions)));
      BackAndForth(system, rootCpus, cells, cpuCell, cfg.cpus, Of(cfg.id));
      suspended := suspended - cfg.cpus;
      rootCpus := rootCpus - cfg.cpus;
      cpuCell := Assign(cpuCell, cfg.cpus, Of(cfg.id));
      var ok, mem;
      ok, rootMap, mem := GiveRegions(rootMap, cfg.regions, hooks.unmaps, hooks.maps);
      if ok {
        Given(rootMap0, rootMap, cfg.regions);
        cells := cells + [Cell(cfg, false, mem)];
        numCells := numCells + 1;
        state := state[cfg.id := ShutDown];
        NewIsQuiet(system, rootCpus, cells, cpuCell, state, hooks.notices);
        ReconfigCompleted(hooks.notices);
        return 0;
      }
      ghost var rootMap1 := rootMap;
      var warned;
      suspended := suspended - cfg.cpus;
      rootCpus := rootCpus + cfg.cpus;
      cpuCell := Assign(cpuCell, cfg.cpus, Root);
      assert rootCpus == cpus0;
      warned, rootMap, mem := ReturnRegions(rootMap, mem, cfg.regions, system.regions, hooks.remaps);
      Undone(rootMap0, rootMap1, rootMap, system.regions, cfg.regions, warned);
      return -ENOMEM;
    }

    // ----- managing an existing cell -----

    /** The answer to a call that reaches no cell, and 0 if it does. */
    ghost function Unreached(caller: nat, id: nat): int
      requires caller in cpuCell
      reads this
    {
      if cpuCell[caller] != Root then -EPERM
      else if id == system.id then -EINVAL
      else if !Listed(cells, id) then -ENOENT
      else 0
    }

    /** cell_management_prologue: find the cell, ask it to shut down, and suspend it.  For a destroy, no
        other cell may be running locked. */
    method Prologue(destroy: bool, caller: nat, id: nat, a: Answer) returns (err: int, k: nat)
      requires Valid() && caller in system.cpus
      modifies this`suspended, this`state, this`sent
      ensures caller in cpuCell && (err == 0 ==> Busy(caller)) && (err != 0 ==> Valid())
      ensures Unreached(caller, id) != 0 ==>
                err == Unreached(caller, id) && state == old(state) && suspended == old(suspended) && sent == old(sent)
      ensures Unreached(caller, id) == 0 ==>
                && k < |cells| && cells[k].config.id == id && id in old(state)
                && (forall j | 0 <= j < |cells| && cells[j].config.id == id :: j == k)
                && cells[k].config.cpus !! rootCpus
      ensures Unreached(caller, id) == 0 && destroy && Locked(cells, old(state), Of(id)) ==>
                err == -EPERM && state == old(state) && suspended == old(suspended) && sent == old(sent)
      ensures Unreached(caller, id) == 0 && !(destroy && Locked(cells, old(state), Of(id))) ==>
                && (err == if Refused(cells[k].config, old(state)[id], a) then -EPERM else 0)
                && state == old(state)[id := StateAfter(cells[k].config, old(state)[id], a)]
                && sent == old(sent) + Sent(cells[k].config, ShutdownRequest)
                && suspended == if err == 0 then old(suspended) + (rootCpus - {caller}) + cells[k].config.cpus
                                else old(suspended)
    {
      hide PartitionedOf, Identity, OneToOne, Locked, StateAfter;
      RootCaller(system, rootCpus, cells, cpuCell, caller);
      k := 0;
      if cpuCell[caller] != Root {
        return -EPERM, k;
      }
      SuspendRoot(caller);
      if id == system.id {
        ResumeRoot(caller);
        return -EINVAL, k;
      }
      while k < |cells| && cells[k].config.id != id
        invariant k <= |cells| && forall j | 0 <= j < k :: cells[j].config.id != id
      {
        k := k + 1;
      }
      if k == |cells| {
        ResumeRoot(caller);
        return -ENOENT, k;
      }
      OnlyOne(system, rootCpus, cells, cpuCell, k);
      var reconfigOk := true;
      if destroy {
        reconfigOk := ReconfigOk(Of(id));
      }
      var shutdownOk := false;
      if reconfigOk {
        shutdownOk := ExchangeMessage(k, ShutdownRequest, a);
      }
      if !shutdownOk {
        ResumeRoot(caller);
        return -EPERM, k;
      }
      suspended := suspended + cells[k].config.cpus;
      return 0, k;
    }

    /** cell_start */
    method Start(caller: nat, id: nat, hooks: Hooks) returns (err: int)
      requires Valid() && caller in system.cpus
      modifies this
      ensures Valid() && cpuCell == old(cpuCell) && rootCpus == old(rootCpus) && caller in cpuCell
      ensures old(Unreached(caller, id)) != 0 ==>
                && err == old(Unreached(caller, id)) && cells == old(cells) && rootMap == old(rootMap)
                && state == old(state) && suspended == old(suspended) && sent == old(sent)
      ensures old(Unreached(caller, id)) == 0 ==> exists k | 0 <= k < |old(cells)| ::
                && old(cells)[k].config.id == id && id in old(state)
                && (err == if Refused(old(cells)[k].config, old(state)[id], hooks.answer) then -EPERM
                           else if old(cells)[k].loadable &&
                                   !TakesAll(old(cells)[k].config.regions, hooks.unmaps) then -ENOMEM
                           else 0)
                && cells == (if err == 0 then old(cells)[k := old(cells)[k].(loadable := false)] else old(cells))
                && StartedMap(old(cells)[k], old(rootMap), rootMap, err)
                && state == old(state)[id := if err == 0 then Running
                                             else StateAfter(old(cells)[k].config, old(state)[id], hooks.answer)]
                && suspended == (if err == 0 then old(suspended) - old(cells)[k].config.cpus
                                 else if err == -EPERM then old(suspended)
                                 else old(suspended) + old(cells)[k].config.cpus)
                && sent == old(sent) + Sent(old(cells)[k].config, ShutdownRequest)
      ensures old(Isolated()) ==> Isolated()
    {
      hide Hidden, Compatible, Identity, IsolatedCells, LoadableIn, PartitionedOf, OneToOne, Listed, StateAfter;
      hide Refused, StartedMap, Sent, TakesAll, LoadableWithin, LoadableTaken, Locked, TimesOut, Awaited;
      ghost var cells0, rootMap0 := cells, rootMap;
      var k;
      err, k := Prologue(false, caller, id, hooks.answer);
      if err != 0 {
        if old(Unreached(caller, id)) == 0 {
          NotStarted(cells[k], rootMap, rootMap, err);
        }
        return;
      }
      if cells[k].loadable {
        var ok;
        ok, rootMap := TakeLoadable(rootMap, cells[k].config.regions, hooks.unmaps);
        StartTook(cells[k], rootMap0, rootMap, ok);
        if IsolatedCells(cells0, rootMap0) {
          IsolationAfterStart(cells0, k, rootMap0, rootMap, ok);
        }
        if !ok {
          ResumeRoot(caller);
          return -ENOMEM;
        }
        ReplacedCell(system, rootCpus, cells, cpuCell, k, cells[k].(loadable := false));
        cells := cells[k := cells[k].(loadable := false)];
      } else {
        NotStarted(cells[k], rootMap, rootMap, 0);
      }
      state := state[id := Running];
      suspended := suspended - cells[k].config.cpus;
      ResumeRoot(caller);
    }

    /** cell_set_loadable */
    method SetLoadable(caller: nat, id: nat, hooks: Hooks) returns (err: int)
      requires Valid() && caller in system.cpus
      modifies this
      ensures Valid() && cpuCell == old(cpuCell) && rootCpus == old(rootCpus) && caller in cpuCell
      ensures old(Unreached(caller, id)) != 0 ==>
                && err == old(Unreached(caller, id)) && cells == old(cells) && rootMap == old(rootMap)
                && state == old(state) && suspended == old(suspended) && sent == old(sent)
      ensures old(Unreached(caller, id)) == 0 ==> exists k | 0 <= k < |old(cells)| ::
                && old(cells)[k].config.id == id && id in old(state)
                && (err == if Refused(old(cells)[k].config, old(state)[id], hooks.answer) then -EPERM
                           else if old(cells)[k].loadable ||
                                   OffersAll(old(cells)[k].config.regions, system.regions, hooks.remaps) then 0
                           else -ENOMEM)
                && cells == (if err == -EPERM then old(cells) else old(cells)[k := old(cells)[k].(loadable := true)])
                && OfferedMap(old(cells)[k], old(rootMap), rootMap, system.regions, err)
                && state == old(state)[id := if err == -EPERM || old(cells)[k].loadable
                                             then StateAfter(old(cells)[k].config, old(state)[id], hooks.answer)
                                             else ShutDown]
                && suspended == (if err == -EPERM then old(suspended) else old(suspended) - old(cells)[k].config.cpus)
                && sent == old(sent) + Sent(old(cells)[k].config, ShutdownRequest)
      ensures old(Isolated()) ==> Isolated()
    {
      hide Hidden, Compatible, Identity, IsolatedCells, LoadableIn, PartitionedOf, GivenBack, LoadableChange;
      hide Touches, GivesBack, Agreeing, OneToOne, Listed, StateAfter, Refused, Sent, OffersAll, OfferedMap;
      ghost var cells0, rootMap0 := cells, rootMap;
      var k;
      err, k := Prologue(false, caller, id, hooks.answer);
      if err != 0 {
        if old(Unreached(caller, id)) == 0 {
          NotOffered(cells[k], rootMap, system.regions, err);
        }
        return;
      }
      suspended := suspended - cells[k].config.cpus;
      if cells[k].loadable {
        NotOffered(cells[k], rootMap, system.regions, err);
        assert cells[k].(loadable := true) == cells[k];
      } else {
        state := state[id := ShutDown];
        ReplacedCell(system, rootCpus, cells, cpuCell, k, cells[k].(loadable := true));
        cells := cells[k := cells[k].(loadable := true)];
        var ok;
        ok, rootMap := OfferLoadable(rootMap, cells[k].config.regions, system.regions, hooks.remaps);
        err := if ok then 0 else -ENOMEM;
        OffersMap(cells0[k], rootMap0, rootMap, system.regions, ok, err);
        if IsolatedCells(cells0, rootMap0) {
          IsolationAfterOffer(cells0, k, rootMap0, rootMap);
        }
      }
      ResumeRoot(caller);
    }

    /** cell_destroy; `warned` says that giving memory back to the root failed in part. */
    method Destroy(caller: nat, id: nat, hooks: Hooks) returns (err: int, warned: bool)
      requires Valid() && caller in system.cpus
      modifies this
      ensures Valid() && caller in old(cpuCell) && cpuCell[caller] == old(cpuCell[caller])
      ensures err != 0 ==>
                && cells == old(cells) && rootCpus == old(rootCpus) && rootMap == old(rootMap)
                && cpuCell == old(cpuCell) && suspended == old(suspended) && !warned
                && forall i <- old(state) | i != id :: i in state && state[i] == old(state)[i]
      ensures old(Unreached(caller, id)) != 0 ==>
                err == old(Unreached(caller, id)) && state == old(state) && sent == old(sent)
      ensures old(Unreached(caller, id)) == 0 && Locked(old(cells), old(state), Of(id)) ==>
                err == -EPERM && state == old(state) && sent == old(sent)
      ensures old(Unreached(caller, id)) == 0 && !Locked(old(cells), old(state), Of(id)) ==>
                exists k | 0 <= k < |old(cells)| ::
                  && old(cells)[k].config.id == id && id in old(state)
                  && (err == if Refused(old(cells)[k].config, old(state)[id], hooks.answer) then -EPERM else 0)
                  && (err == 0 ==>
                        && cells == Without(old(cells), k) && rootCpus == old(rootCpus) + old(cells)[k].config.cpus
                        && PrivateChange(old(rootMap), rootMap, old(cells)[k].config.regions)
                        && (!warned ==>
                              Returned(old(rootMap), rootMap, system.regions, old(cells)[k].config.regions))
                        && (warned <==>
                              !ReturnsAll(old(cells)[k].config.regions, system.regions, hooks.remaps))
                        && var s := old(state)[id := StateAfter(old(cells)[k].config, old(state)[id], hooks.answer)];
                          && Noticed(cells, s, state, hooks.notices)
                          && suspended == old(suspended) - old(cells)[k].config.cpus + LateCpus(cells, s, hooks.notices)
                          && sent == old(sent) + Sent(old(cells)[k].config, ShutdownRequest) + Notices(cells))
      ensures old(Isolated()) ==> Isolated()
    {
      hide IsolatedCells, PartitionedOf, PrivateChange, OneToOne, Identity, Listed, StateAfter, Refused, Sent;
      hide ReturnsAll, Locked, Returned, Noticed, LateCpus;
      var k;
      warned := false;
      err, k := Prologue(true, caller, id, hooks.answer);
      if err != 0 {
        return;
      }
      warned := Dismantle(caller, k, hooks);
      ReconfigCompleted(hooks.notices);
      ResumeRoot(caller);
    }

    /** cell_destroy_internal, and the removal from the list. */
    method Dismantle(caller: nat, k: nat, hooks: Hooks) returns (warned: bool)
      requires Busy(caller) && k < |cells|
      modifies this`rootCpus, this`rootMap, this`cells, this`numCells, this`cpuCell, this`suspended
      ensures Busy(caller) && caller in cpuCell && cpuCell[caller] == Root
      ensures cells == Without(old(cells), k) && rootCpus == old(rootCpus) + old(cells)[k].config.cpus
      ensures suspended == old(suspended) - old(cells)[k].config.cpus
      ensures PrivateChange(old(rootMap), rootMap, old(cells)[k].config.regions)
      ensures !warned ==> Returned(old(rootMap), rootMap, system.regions, old(cells)[k].config.regions)
      ensures warned <==> !ReturnsAll(old(cells)[k].config.regions, system.regions, hooks.remaps)
      ensures old(Isolated()) ==> Isolated()
    {
      hide IsolatedCells, PrivateIn, PartitionedOf, PrivateChange, Assign, Touches, GivesBack, Agreeing, OneToOne;
      hide Identity, Returned, ReturnsAll;
      ghost var rootMap0 := rootMap;
      var cfg := cells[k].config;
      RemovedCell(system, rootCpus, cells, cpuCell, k);
      CallerStays(system, rootCpus, cells, cpuCell, k, caller);
      suspended := suspended - cfg.cpus;
      rootCpus := rootCpus + cfg.cpus;
      cpuCell := Assign(cpuCell, cfg.cpus, Root);
      var mem;
      warned, rootMap, mem := ReturnRegions(rootMap, cells[k].mem, cfg.regions, system.regions, hooks.remaps);
      PrivateKeepsIdentity(rootMap0, rootMap, cfg.regions);
      if IsolatedCells(cells, rootMap0) {
        IsolationAfterDestroy(cells, k, rootMap0, rootMap);
      }
      cells := Without(cells, k);
      numCells := numCells - 1;
    }

    /** Creating a cell out of memory the root maps as configured and destroying it again, both
        without an error, leaves the root as it was. */
    method CreateThenDestroy(caller: nat, cfg: Config, setup: Setup, create: Hooks, destroy: Hooks)
      returns (created: int, destroyed: int)
      requires Valid() && caller in system.cpus && AsConfigured(rootMap, system.regions, cfg.regions)
      modifies this
      ensures Valid()
      ensures created != 0 && ReturnsAll(cfg.regions, system.regions, create.remaps) ==> rootMap == old(rootMap)
      ensures created == 0 && destroyed == 0 && ReturnsAll(cfg.regions, system.regions, destroy.remaps) ==>
                rootMap == old(rootMap)
      ensures created != 0 || destroyed == 0 ==> rootCpus == old(rootCpus) && cells == old(cells)
    {
      hide PrivateIn, Configured, PartitionedOf, Isolated, Returned, PrivateChange, Identity, ReturnsAll, AsConfigured;
      hide Noticed, LateCpus, TakenExactly, OneToOne, Refused, StateAfter, Locked, GivesAll;
      ghost var cells0, m0, cpus0 := cells, rootMap, rootCpus;
      destroyed := 0;
      created := Create(caller, cfg, setup, create);
      if created != 0 {
        return;
      }
      ghost var m1 := rootMap;
      assert cells[|cells0|].config == cfg;
      OnlyOne(system, rootCpus, cells, cpuCell, |cells0|);
      var warned;
      destroyed, warned := Destroy(caller, cfg.id, destroy);
      if destroyed != 0 {
        return;
      }
      if !warned {
        RootRestored(m0, m1, rootMap, system.regions, cfg.regions);
      }
      assert (cells0 + [Cell(cfg, false, Configured(cfg.regions))])[..|cells0|] == cells0;
      assert cells == cells0;
      assert rootCpus == cpus0;
    }

    /** Over every run of management calls, failing or not, from any CPUs: the system stays
        partitioned, and it stays isolated if the configurations used fit together. */
    method Manage(calls: seq<Call>, ghost used: set<Config>)
      requires Valid() && Isolated()
      requires forall i | 0 <= i < |calls| ::
                 (calls[i].Report? || calls[i].caller in system.cpus) && (calls[i].Create? ==> calls[i].cfg in used)
      requires forall k | 0 <= k < |cells| :: cells[k].config in used
      requires forall a, b | a in used && b in used && Differ(a, b) :: Compatible(a, b)
      modifies this
      ensures Valid() && Isolated()
    {
      hide Partitioned, Identity, Compatible, IsolatedCells, PrivateIn, LoadableIn, Configured, Noticed, LateCpus;
      hide Locked, StateAfter, Refused, Listed, ReturnsAll, OffersAll, AsConfigured, Returned, PrivateChange;
      var i := 0;
      while i < |calls|
        invariant i <= |calls| && Valid() && Isolated()
        invariant forall k | 0 <= k < |cells| :: cells[k].config in used
      {
        var err, warned;
        match calls[i] {
          case Create(caller, cfg, setup, hooks) => err := Create(caller, cfg, setup, hooks);
          case Start(caller, id, hooks) => err := Start(caller, id, hooks);
          case SetLoadable(caller, id, hooks) => err := SetLoadable(caller, id, hooks);
          case Destroy(caller, id, hooks) => err, warned := Destroy(caller, id, hooks);
          case Report(id, now) => CellReports(id, now);
        }
        i := i + 1;
      }
    }
  }

  /** The private pages of rs are mapped in m just as the root is configured. */
  ghost predicate AsConfigured(m: PageMap, root: seq<Region>, rs: seq<Region>) {
    forall v: nat | PrivateIn(rs, v) :: At(m, v) == At(Configured(root), v)
  }

  /** What a start leaves of the root's pages: a success takes just the loadable ones of a loadable
      cell, a failed hook at most some of them, and a refusal none. */
  ghost predicate StartedMap(cell: Cell, m: PageMap, m': PageMap, err: int) {
    && (!cell.loadable || err == -EPERM ==> m' == m)
    && (cell.loadable && err == 0 ==> LoadableTaken(m, m', cell.config.regions))
    && LoadableWithin(m, m', cell.config.regions)
  }

  lemma NotStarted(cell: Cell, m: PageMap, m': PageMap, err: int)
    requires m' == m && (err == 0 ==> !cell.loadable)
    ensures StartedMap(cell, m, m', err)
  {
  }

  lemma StartTook(cell: Cell, m: PageMap, m': PageMap, ok: bool)
    requires cell.loadable && LoadableWithin(m, m', cell.config.regions)
    requires ok ==> LoadableTaken(m, m', cell.config.regions)
    ensures StartedMap(cell, m, m', if ok then 0 else -ENOMEM)
    ensures Identity(m) ==> Identity(m')
  {
    hide LoadableIn;
    if Identity(m) {
      PrivateKeepsIdentity(m, m', cell.config.regions);
    }
  }

  /** What a set_loadable leaves of the root's pages. */
  ghost predicate OfferedMap(cell: Cell, m: PageMap, m': PageMap, root: seq<Region>, err: int) {
    && (cell.loadable || err == -EPERM ==> m' == m)
    && (!cell.loadable && err == 0 ==> LoadableReturned(m, m', root, cell.config.regions))
    && LoadableChange(m, m', cell.config.regions)
  }

  lemma NotOffered(cell: Cell, m: PageMap, root: seq<Region>, err: int)
    requires err == -EPERM || cell.loadable
    ensures OfferedMap(cell, m, m, root, err)
  {
  }

  lemma OffersMap(cell: Cell, m: PageMap, m': PageMap, root: seq<Region>, ok: bool, err: int)
    requires !cell.loadable && err == (if ok then 0 else -ENOMEM) && LoadableChange(m, m', cell.config.regions)
    requires ok ==> LoadableReturned(m, m', root, cell.config.regions)
    ensures OfferedMap(cell, m, m', root, err) && (Identity(m) ==> Identity(m'))
  {
    hide LoadableReturned, LoadableChange;
    if Identity(m) {
      PrivateKeepsIdentity(m, m', cell.config.regions);
    }
  }

  lemma RootRestored(m: PageMap, m1: PageMap, m2: PageMap, root: seq<Region>, rs: seq<Region>)
    requires TakenWithin(m, m1, rs) || TakenExactly(m, m1, rs)
    requires Returned(m1, m2, root, rs)
    ensures AsConfigured(m, root, rs) ==> m2 == m
  {
    hide PrivateIn, Configured;
    if AsConfigured(m, root, rs) {
      forall v: nat ensures At(m2, v) == At(m, v) {
        assert At(m2, v) == GivenBack(m1, root, v, PrivateIn(rs, v));
      }
      forall v: nat ensures (v in m2 <==> v in m) && (v in m ==> m2[v] == m[v]) {
        assert At(m2, v) == At(m, v);
      }
      assert m2.Keys == m.Keys;
    }
  }

  /** Where the hand-over of a create failed, it is undone. */
  lemma Undone(m: PageMap, m1: PageMap, m2: PageMap, root: seq<Region>, rs: seq<Region>, warned: bool)
    requires TakenWithin(m, m1, rs) && PrivateChange(m1, m2, rs) && Identity(m)
    requires !warned ==> Returned(m1, m2, root, rs)
    ensures PrivateChange(m, m2, rs) && Identity(m2) && (!warned && AsConfigured(m, root, rs) ==> m2 == m)
  {
    hide PrivateIn, GivenBack, Configured, Identity, PrivateChange;
    ChangeTwice(m, m1, m2, rs);
    PrivateKeepsIdentity(m, m2, rs);
    if !warned {
      RootRestored(m, m1, m2, root, rs);
    }
  }

  // ----- notices, one cell after the other -----

  lemma NoticedNone(cells: seq<Cell>, s: map<nat, CommState>, notices: nat -> Answer)
    ensures Noticed(cells[..0], s, s, notices) && LateCpus(cells[..0], s, notices) == {} && Notices(cells[..0]) == []
  {
  }

  lemma NotYet(system: Config, rootCpus: set<nat>, cells: seq<Cell>, cpuCell: map<nat, Owner>, k: nat,
               s: map<nat, CommState>, s1: map<nat, CommState>, notices: nat -> Answer)
    requires PartitionedOf(system, rootCpus, cells, cpuCell) && k < |cells|
    requires Noticed(cells[..k], s, s1, notices) && cells[k].config.id in s
    ensures !Listed(cells[..k], cells[k].config.id) && s1[cells[k].config.id] == s[cells[k].config.id]
  {
    hide PartitionedOf, StateAfter;
    OnlyOne(system, rootCpus, cells, cpuCell, k);
    assert forall j | 0 <= j < k :: cells[..k][j] == cells[j];
  }

  lemma NoticedMore(cells: seq<Cell>, k: nat, s: map<nat, CommState>, s1: map<nat, CommState>, s2: map<nat, CommState>,
                    notices: nat -> Answer)
    requires k < |cells| && Noticed(cells[..k], s, s1, notices) && cells[k].config.id in s
    requires !Listed(cells[..k], cells[k].config.id)
    requires s2 == s1[cells[k].config.id :=
                        StateAfter(cells[k].config, s[cells[k].config.id], notices(cells[k].config.id))]
    ensures Noticed(cells[..k + 1], s, s2, notices)
    ensures LateCpus(cells[..k + 1], s, notices) == LateCpus(cells[..k], s, notices) +
            if TimesOut(cells[k].config, s[cells[k].config.id], notices(cells[k].config.id)) then cells[k].config.cpus
            else {}
  {
    hide StateAfter, TimesOut;
    var a, b := cells[..k], cells[..k + 1];
    assert b == a + [cells[k]];
    ListedMore(a, cells[k]);
    assert forall j | 0 <= j < k :: a[j] == b[j] && (a[j].config.id == cells[k].config.id ==>
                                                       Listed(a, cells[k].config.id));
    forall c ensures c in LateCpus(b, s, notices) <==>
                     c in LateCpus(a, s, notices) || (c in cells[k].config.cpus && Late(cells[k].config, s, notices)) {
      if c in LateCpus(a, s, notices) {
        var j :| 0 <= j < |a| && c in a[j].config.cpus && Late(a[j].config, s, notices);
        assert c in b[j].config.cpus && Late(b[j].config, s, notices);
      }
      if c in cells[k].config.cpus && Late(cells[k].config, s, notices) {
        assert b[k] == cells[k];
      }
    }
  }

  lemma LateNotRoot(system: Config, rootCpus: set<nat>, cells: seq<Cell>, cpuCell: map<nat, Owner>,
                    s: map<nat, CommState>, notices: nat -> Answer)
    requires PartitionedOf(system, rootCpus, cells, cpuCell)
    ensures LateCpus(cells, s, notices) !! rootCpus
  {
    forall c | c in LateCpus(cells, s, notices) ensures c !in rootCpus {
      var j :| 0 <= j < |cells| && c in cells[j].config.cpus && Late(cells[j].config, s, notices);
      CellCpus(system, rootCpus, cells, cpuCell, j);
    }
  }

  /** A new cell is shut down, so that it is told but not waited for. */
  lemma NewIsQuiet(system: Config, rootCpus: set<nat>, cells: seq<Cell>, cpuCell: map<nat, Owner>,
                   s: map<nat, CommState>, notices: nat -> Answer)
    requires PartitionedOf(system, rootCpus, cells, cpuCell) && cells != []
    requires var cfg := cells[|cells| - 1].config; cfg.id in s && s[cfg.id] == ShutDown
    ensures LateCpus(cells, s, notices) !! cells[|cells| - 1].config.cpus
    ensures forall s' | Noticed(cells, s, s', notices) :: s'[cells[|cells| - 1].config.id] == ShutDown
  {
    var cfg := cells[|cells| - 1].config;
    forall c | c in LateCpus(cells, s, notices) ensures c !in cfg.cpus {
      var j :| 0 <= j < |cells| && c in cells[j].config.cpus && Late(cells[j].config, s, notices);
      if j < |cells| - 1 {
        assert Differ(cells[j].config, cells[|cells| - 1].config);
        assert cpuCell[c] == Of(cells[j].config.id);
      }
    }
  }

  lemma OnlyOne(system: Config, rootCpus: set<nat>, cells: seq<Cell>, cpuCell: map<nat, Owner>, k: nat)
    requires PartitionedOf(system, rootCpus, cells, cpuCell) && k < |cells|
    ensures forall j | 0 <= j < |cells| && cells[j].config.id == cells[k].config.id :: j == k
    ensures cells[k].config.cpus !! rootCpus
  {
    CellCpus(system, rootCpus, cells, cpuCell, k);
    forall j | 0 <= j < |cells| && cells[j].config.id == cells[k].config.id ensures j == k {
      assert j < k ==> Differ(cells[j].config, cells[k].config);
      assert k < j ==> Differ(cells[k].config, cells[j].config);
    }
  }

  lemma RootCaller(system: Config, rootCpus: set<nat>, cells: seq<Cell>, cpuCell: map<nat, Owner>, caller: nat)
    requires PartitionedOf(system, rootCpus, cells, cpuCell) && caller in system.cpus
    ensures caller in cpuCell && (caller in rootCpus <==> cpuCell[caller] == Root)
  {
  }

  lemma CallerStays(system: Config, rootCpus: set<nat>, cells: seq<Cell>, cpuCell: map<nat, Owner>, k: nat, caller: nat)
    requires PartitionedOf(system, rootCpus, cells, cpuCell) && k < |cells| && caller in rootCpus
    ensures var after := Assign(cpuCell, cells[k].config.cpus, Root);
      caller in cpuCell && caller in after && after[caller] == Root == cpuCell[caller]
  {
  }

  lemma IsolationAfterStart(cells: seq<Cell>, k: nat, m: PageMap, m': PageMap, ok: bool)
    requires IsolatedCells(cells, m) && k < |cells|
    requires LoadableWithin(m, m', cells[k].config.regions) && (ok ==> LoadableTaken(m, m', cells[k].config.regions))
    ensures IsolatedCells(cells, m') && (ok ==> IsolatedCells(cells[k := cells[k].(loadable := false)], m'))
  {
    hide Compatible, LoadableIn, PrivateIn;
    forall j | 0 <= j < |cells| ensures Hidden(cells[j], m') {
      StaysHidden(cells[j], cells[j].config, m, m');
    }
    if ok {
      forall v | v in m' ensures !PrivateIn(cells[k].config.regions, v) {
        assert At(m', v) == Some(m'[v]);
      }
    }
  }

  lemma CompatiblePair(cells: seq<Cell>, m: PageMap, j: nat, k: nat)
    requires IsolatedCells(cells, m) && j < |cells| && k < |cells| && j != k
    ensures Compatible(cells[j].config, cells[k].config)
  {
    hide PrivateIn, AnyIn;
    var a, b := if j < k then j else k, if j < k then k else j;
    assert Compatible(cells[a].config, cells[b].config);
  }

  lemma IsolationAfterOffer(cells: seq<Cell>, k: nat, m: PageMap, m': PageMap)
    requires IsolatedCells(cells, m) && k < |cells| && LoadableChange(m, m', cells[k].config.regions)
    ensures IsolatedCells(cells[k := cells[k].(loadable := true)], m')
  {
    hide LoadableIn, PrivateIn, AnyIn;
    var cell := cells[k].(loadable := true);
    forall j | 0 <= j < |cells| && j != k ensures Hidden(cells[j], m') {
      CompatiblePair(cells, m, j, k);
      StaysHidden(cells[j], cells[k].config, m, m');
    }
    forall v | v in m' && PrivateIn(cell.config.regions, v) ensures LoadableIn(cell.config.regions, v) {
      assert At(m', v) == Some(m'[v]);
      if At(m', v) == At(m, v) {
        assert v in m;
      }
    }
  }

  lemma IsolationAfterDestroy(cells: seq<Cell>, k: nat, m: PageMap, m': PageMap)
    requires IsolatedCells(cells, m) && k < |cells| && PrivateChange(m, m', cells[k].config.regions)
    ensures IsolatedCells(Without(cells, k), m')
  {
    hide LoadableIn, PrivateIn, AnyIn, Hidden;
    var t := Without(cells, k);
    forall i | 0 <= i < |t| ensures t[i] == cells[if i < k then i else i + 1] {
    }
    forall j | 0 <= j < |cells| && j != k ensures Hidden(cells[j], m') {
      CompatiblePair(cells, m, j, k);
      StaysHidden(cells[j], cells[k].config, m, m');
    }
  }

  lemma Unchanged(m: PageMap, rs: seq<Region>)
    ensures PrivateChange(m, m, rs) && LoadableChange(m, m, rs)
  {
  }

  lemma IsolationAfterCreate(cells: seq<Cell>, cells': seq<Cell>, cfg: Config, m: PageMap, m': PageMap)
    requires IsolatedCells(cells, m) && forall k | 0 <= k < |cells| :: Compatible(cells[k].config, cfg)
    requires || (cells' == cells && PrivateChange(m, m', cfg.regions))
             || (&& cells' == cells + [Cell(cfg, false, Configured(cfg.regions))]
                 && TakenExactly(m, m', cfg.regions))
    ensures IsolatedCells(cells', m')
  {
    hide Hidden, Compatible, PrivateIn, Configured;
    if cells' != cells {
      Given(m, m', cfg.regions);
      NewIsHidden(Cell(cfg, false, Configured(cfg.regions)), m, m');
    }
    forall k | 0 <= k < |cells| ensures Hidden(cells[k], m') {
      StaysHidden(cells[k], cfg, m, m');
    }
  }

  lemma NewIsHidden(cell: Cell, m: PageMap, m': PageMap)
    requires TakenExactly(m, m', cell.config.regions)
    ensures Hidden(cell, m')
  {
    forall v | v in m' ensures !PrivateIn(cell.config.regions, v) {
      assert At(m', v) == Some(m'[v]);
    }
  }

  lemma Given(m: PageMap, m': PageMap, rs: seq<Region>)
    requires TakenExactly(m, m', rs)
    ensures PrivateChange(m, m', rs) && (forall v: nat :: At(m', v) == At(m, v) || v !in m')
    ensures Identity(m) ==> Identity(m')
  {
    hide PrivateIn;
    forall v: nat ensures At(m', v) == At(m, v) || v !in m' {
    }
    if Identity(m) {
      PrivateKeepsIdentity(m, m', rs);
    }
  }

  /** Neither name nor id is the same. */
  predicate Differ(a: Config, b: Config) {
    a.id != b.id && a.name != b.name
  }

  lemma {:induction false} ConfiguredIdentity(rs: seq<Region>)
    requires OneToOne(rs)
    ensures Identity(Configured(rs))
  {
    if rs != [] {
      var init, last := rs[..|rs| - 1], rs[|rs| - 1];
      ConfiguredIdentity(init);
      assert last.virt == last.phys;
      forall v | v in Configured(rs) ensures Configured(rs)[v].phys == v {
        assert At(Configured(rs), v) ==
          if InVirt(v, last) then Some(Mapping(last.phys + (v - last.virt), last.flags)) else At(Configured(init), v);
      }
    }
  }
}
