/** Runs of the whole bus: every slave in it stays sound and keeps its windows, so what is proved of ready
    simulators holds in every state a run reaches. */
module BusRuns {
  import opened Bytes
  import opened Datagrams
  import opened SimulatorModel
  import opened BusModel
  import opened BusProperties
  import opened RegistryProperties
  import opened SlaveRuns
  import ProcessImage
  import Endpoints
  import AlMachine
  import E = El1258Model
  import Slaves = SlaveModel
  import SP = SlaveProperties

  predicate AllDeployed<R(==)>(s: Sim<R>) { forall r :: r in s.heap ==> Deployed(s.heap[r]) }

  lemma DeployedIsReady<R>(s: Sim<R>)
    requires WellFormed(s) && AllDeployed(s)
    ensures Ready(s)
    ensures forall r :: r in s.heap ==> AlMachine.Ranked(s.heap[r].al.state)
  {
    forall r | r in s.heap ensures Slaves.RoomForMessages(s.heap[r]) && AlMachine.Ranked(s.heap[r].al.state) {
      DeployedIsRoomy(s.heap[r]);
    }
  }

  // ---- one access

  lemma WriteAtDeployed<R>(s: Sim<R>, r: R, reg: uint16, data: seq<uint8>, clock: E.Clock)
    requires Ready(s) && AllDeployed(s) && r in s.heap && |data| <= MAX_PAYLOAD
    ensures AllDeployed(WriteAt(s, r, reg, data, clock).0)
  {
    StepKeepsDeployed(s.heap[r], SP.WriteOp(reg, data, clock));
    hide Deployed, Slaves.Write, Slaves.WellFormed;
  }

  lemma ReadAtDeployed<R>(s: Sim<R>, r: R, reg: uint16, dst: seq<uint8>)
    requires WellFormed(s) && AllDeployed(s) && r in s.heap
    ensures AllDeployed(ReadAt(s, r, reg, dst).0)
  {
    StepKeepsDeployed(s.heap[r], SP.ReadOp(reg, dst));
    hide Deployed, Slaves.Read, Slaves.WellFormed;
  }

  lemma IndexDeployed<R>(s: Sim<R>, i: nat, reg: uint16, data: seq<uint8>, clock: E.Clock)
    requires Ready(s) && AllDeployed(s) && |data| <= MAX_PAYLOAD
    ensures AllDeployed(WriteByIndex(s, i, reg, data, clock).0)
  {
    if OnlineAt(s, i) { WriteAtDeployed(s, s.slaves[i], reg, data, clock); }
  }

  lemma ReadIndexDeployed<R>(s: Sim<R>, i: nat, reg: uint16, dst: seq<uint8>)
    requires WellFormed(s) && AllDeployed(s)
    ensures AllDeployed(ReadByIndex(s, i, reg, dst).0)
  {
    if OnlineAt(s, i) { ReadAtDeployed(s, s.slaves[i], reg, dst); }
  }

  lemma StationDeployed<R>(s: Sim<R>, address: uint16, reg: uint16, data: seq<uint8>, clock: E.Clock)
    requires Ready(s) && AllDeployed(s) && |data| <= MAX_PAYLOAD
    ensures AllDeployed(WriteToSlave(s, address, reg, data, clock).0)
  {
    var r := Lookup(s.heap, s.slaves, address);
    if r.Some? { WriteAtDeployed(s, r.value, reg, data, clock); }
  }

  lemma ReadStationDeployed<R>(s: Sim<R>, address: uint16, reg: uint16, dst: seq<uint8>)
    requires WellFormed(s) && AllDeployed(s)
    ensures AllDeployed(ReadFromSlave(s, address, reg, dst).0)
  {
    var r := Lookup(s.heap, s.slaves, address);
    if r.Some? { ReadAtDeployed(s, r.value, reg, dst); }
  }

  // ---- frames

  lemma {:induction false} BroadcastDeployed<R>(s: Sim<R>, n: nat, reg: uint16, data: seq<uint8>, clock: Readings)
    requires Ready(s) && AllDeployed(s) && |data| <= MAX_PAYLOAD
    ensures AllDeployed(Broadcast(s, n, reg, data, clock).0)
    decreases n
  {
    hide WellFormed, Roomy, AllDeployed;
    if n > 0 {
      hide Broadcast, WriteByIndex;
      BroadcastNext(s, n - 1, reg, data, clock);
      BroadcastDeployed(s, n - 1, reg, data, clock);
      IndexDeployed(Broadcast(s, n - 1, reg, data, clock).0, n - 1, reg, data, clock(n - 1));
    }
  }

  lemma EndpointStepDeployed<R>(s: Sim<R>, d: Datagram, clock: Readings)
    requires Ready(s) && AllDeployed(s) && Ok(d)
    ensures AllDeployed(EndpointStep(s, d, clock).0)
  {
    hide WellFormed, Roomy, Deployed, OnlyHeap, SimulatorModel.OnlineSlaveCount;
    hide Broadcast, ReadFromSlave, WriteToSlaveReady, WriteToSlave, ReadByIndex, WriteByIndexReady, WriteByIndex;
    var pos, ado := Position(d.header.address), Offset(d.header.address);
    match d.header.command
    case BWR | BRW => BroadcastDeployed(s, OnlineSlaveCount(s), ado, d.data, clock);
    case FPRD => ReadStationDeployed(s, pos, ado, d.data);
    case FPWR | FPRW => StationDeployed(s, pos, ado, d.data, clock(0));
    case APRD => ReadIndexDeployed(s, DecodeIndex(pos), ado, d.data);
    case APWR | APRW => IndexDeployed(s, DecodeIndex(pos), ado, d.data, clock(0));
    case _ =>
  }

  lemma {:induction false} ProcessDeployed<R>(s: Sim<R>, f: Frame, cs: seq<Readings>)
    requires Ready(s) && AllDeployed(s) && FrameOk(f) && |cs| == |f|
    ensures AllDeployed(Process(s, f, cs).0)
    decreases |f|
  {
    hide WellFormed, Roomy, AllDeployed, EndpointStep;
    if f != [] {
      var k := |f| - 1;
      ProcessDeployed(s, f[..k], cs[..k]);
      EndpointStepDeployed(Process(s, f[..k], cs[..k]).0, f[k], cs[k]);
    }
  }

  // ---- calls that touch many slaves

  lemma {:induction false} GrowDeployed<R>(s: Sim<R>, news: seq<R>)
    requires WellFormed(s) && AllDeployed(s)
    ensures AllDeployed(Grow(s, news))
    decreases |news|
  {
    hide WellFormed, Deployed, Slaves.Fresh;
    if news != [] {
      var k := |news| - 1;
      GrowDeployed(s, news[..k]);
      NewPlainDeployed(NextAddress(Grow(s, news[..k])));
    }
  }

  lemma NewPlainDeployed(address: uint16)
    ensures Deployed(Slaves.Fresh(address, 0, 0, Slaves.Plain))
  {
    NewSlaveIsSound(address, 0, 0, Slaves.Plain);
  }

  /** Every slave of one heap has the core it has in the other. */
  predicate SameCores<R(==)>(h: map<R, Slaves.Slave>, k: map<R, Slaves.Slave>) {
    HeapOk(k) && k.Keys == h.Keys && forall r :: r in h ==> SameCore(h[r], k[r])
  }

  lemma SameCoresKeepDeployed<R>(s: Sim<R>, t: Sim<R>)
    requires AllDeployed(s) && SameCores(s.heap, t.heap)
    ensures AllDeployed(t)
  {
    forall r | r in t.heap ensures Deployed(t.heap[r]) { SameCoreKeepsDeployed(s.heap[r], t.heap[r]); }
  }

  lemma StartAllKeepsCores<R>(heap: map<R, Slaves.Slave>, slaves: seq<R>)
    requires HeapOk(heap) && forall r :: r in slaves ==> r in heap
    ensures SameCores(heap, StartAll(heap, slaves))
  {
    Endpoints.StartAllIsEach(heap, slaves);
  }

  lemma UnmapAllKeepsCores<R>(heap: map<R, Slaves.Slave>, maps: seq<InputMap<R>>, alive: set<R>)
    requires HeapOk(heap) && forall m :: m in maps ==> m.slave in heap
    ensures SameCores(heap, UnmapAll(heap, maps, alive))
  {
    hide HeapOk;
    forall r | r in heap ensures SameCore(heap[r], UnmapAll(heap, maps, alive)[r]) {
      ProcessImage.UnmapAllIsEach(heap, maps, alive, r);
    }
  }

  lemma PassKeepsCores<R>(s: Sim<R>, alive: set<R>, clocks: seq<E.Clock>)
    requires WellFormed(s) && |clocks| == |s.maps|
    ensures SameCores(s.heap, RunOnce(s, alive, clocks).heap)
  {
    hide HeapOk, Slaves.WellFormed;
    var t := RunOnce(s, alive, clocks);
    forall r | r in s.heap ensures r in t.heap && SameCore(s.heap[r], t.heap[r]) {
      ProcessImage.PassRestoresMirrors(s, alive, clocks, r);
    }
  }

  // ---- runs

  /** Writes are of frame size, and a slave handed in by a caller is one constructed and used as such. */
  predicate InUse<R>(c: Call<R>) {
    match c
    case AddVirtualSlave(_, state) => Deployed(state)
    case MapDigitalInputs(_, state, _, _) => Deployed(state)
    case Operate(_, op) => SP.FrameSized(op)
    case Write(_, _, data, _) => |data| <= MAX_PAYLOAD
    case WriteIndex(_, _, data, _) => |data| <= MAX_PAYLOAD
    case _ => true
  }

  lemma MappingKeepsDeployed(state: Slaves.Slave)
    requires Deployed(state)
    ensures Deployed(state.(mapped := true))
  {}

  lemma CallKeepsDeployed<R>(s: Sim<R>, c: Call<R>)
    requires Enabled(s, c) && InUse(c) && AllDeployed(s)
    ensures AllDeployed(Step(s, c))
  {
    hide Deployed, Process, SocketProcess, Slaves.WellFormed, SP.Step;
    match c
    case SetVirtualSlaveCount(_, news) => GrowDeployed(s, news);
    case StartAllSlaves =>
      StartAllKeepsCores(s.heap, s.slaves);
      SameCoresKeepDeployed(s, Step(s, c));
    case Operate(r, op) => StepKeepsDeployed(s.heap[r], op);
    case Write(address, reg, data, clock) => StationDeployed(s, address, reg, data, clock);
    case Read(address, reg, dst) => ReadStationDeployed(s, address, reg, dst);
    case WriteIndex(index, reg, data, clock) => IndexDeployed(s, index, reg, data, clock);
    case ReadIndex(index, reg, dst) => ReadIndexDeployed(s, index, reg, dst);
    case MapDigitalInputs(_, state, _, _) => MappingKeepsDeployed(state);
    case ClearInputMappings(alive) =>
      UnmapAllKeepsCores(s.heap, s.maps, alive);
      SameCoresKeepDeployed(s, Step(s, c));
    case Pass(alive, clocks) =>
      PassKeepsCores(s, alive, clocks);
      SameCoresKeepDeployed(s, Step(s, c));
    case EndpointFrame(frame, rows) => ProcessDeployed(s, frame, rows);
    case SocketFrame(frame, rows, now) =>
      ProcessDeployed(s, frame, rows);
      SocketWriteQueuesProcessedFrame(s, frame, rows, now);
    case _ =>
  }

  /** Over every run of the bus from an empty simulator, every slave stays sound (its AL machine in one of the four
      states, its latch consistent, its EEPROM image its own) and keeps the standard windows; so the simulator is
      ready for every frame. */
  lemma {:induction false} EveryRunIsReady<R>(ss: seq<Sim<R>>, cs: seq<Call<R>>, k: nat)
    requires Trace(ss, cs) && k < |ss| && ss[0].heap == map[] && WellFormed(ss[0])
    requires forall i :: 0 <= i < k ==> InUse(cs[i])
    ensures AllDeployed(ss[k]) && Ready(ss[k])
    decreases k
  {
    hide Deployed, Step, Enabled, WellFormed, Roomy;
    if k > 0 {
      EveryRunIsReady(ss, cs, k - 1);
      assert StepAt(ss, cs, k - 1);
      CallKeepsDeployed(ss[k - 1], cs[k - 1]);
      StepWellFormed(ss[k - 1], cs[k - 1]);
    }
    DeployedIsReady(ss[k]);
  }

  /** In every state such a run reaches, one ACK|OPERATIONAL broadcast brings all online slaves of a registry without
      repetitions to OPERATIONAL, if they are mapped and come first. */
  lemma BroadcastInEveryRun<R>(ss: seq<Sim<R>>, cs: seq<Call<R>>, k: nat, clock: Readings)
    requires Trace(ss, cs) && k < |ss| && ss[0].heap == map[] && ss[0].slaves == [] && ss[0].count == 0 && WellFormed(ss[0])
    requires forall i :: 0 <= i < k ==> InUse(cs[i])
    requires WellFormed(ss[k]) && Distinct(ss[k].slaves) && OnlinePrefix(ss[k])
    requires forall i :: 0 <= i < |ss[k].slaves| && OnlineAt(ss[k], i) ==> ss[k].heap[ss[k].slaves[i]].mapped
    ensures Ready(ss[k])
    ensures var (t, _) := EndpointStep(ss[k], BroadcastWrite(Slaves.AL_CONTROL, [0x18, 0x00]), clock);
            forall i :: 0 <= i < |ss[k].slaves| && OnlineAt(ss[k], i) ==>
              t.heap[ss[k].slaves[i]].al == AlMachine.Al(AlMachine.Operational, AlMachine.NO_ERROR, false)
  {
    hide EndpointStep, Deployed, Roomy;
    EveryRunIsReady(ss, cs, k);
    CountIsTheRegistry(ss, cs, k, 0);
    DeployedIsReady(ss[k]);
    OneBroadcastToOperational(ss[k], clock);
  }
}
