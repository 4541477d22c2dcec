/** The slave registry over every run of simulator calls. */
module RegistryProperties {
  import opened Bytes
  import opened Datagrams
  import opened SimulatorModel
  import opened BusModel
  import BusProperties
  import E = El1258Model
  import Slaves = SlaveModel
  import SP = SlaveProperties

  /** The calls that can be made on a simulator, on a slave it shares with its callers, and by the two programs
      that step frames through it. */
  datatype Call<R> =
    | SetLinkUp(up: bool)
    | SetLatency(ms: uint32)
    | SetVirtualSlaveCount(n: nat, news: seq<R>)
    | AddVirtualSlave(r: R, state: Slaves.Slave)
    | ClearVirtualSlaves
    | StartAllSlaves
    | Operate(r: R, op: SP.Op)
    | Write(address: uint16, reg: uint16, data: seq<uint8>, clock: E.Clock)
    | Read(address: uint16, reg: uint16, dst: seq<uint8>)
    | WriteIndex(index: nat, reg: uint16, data: seq<uint8>, clock: E.Clock)
    | ReadIndex(index: nat, reg: uint16, dst: seq<uint8>)
    | WriteMemory(logicalAddress: uint32, data: seq<uint8>)
    | MapDigitalInputs(r: R, state: Slaves.Slave, logicalAddress: uint32, width: nat)
    | ClearInputMappings(alive: set<R>)
    | Pass(alive: set<R>, clocks: seq<E.Clock>)
    | Send(frame: Frame, now: int)
    | Receive(now: int)
    | EndpointFrame(frame: Frame, rows: seq<Readings>)
    | SocketFrame(frame: Frame, rows: seq<Readings>, now: int)

  predicate Enabled<R(==)>(s: Sim<R>, c: Call<R>) {
    && WellFormed(s)
    && match c
       case SetVirtualSlaveCount(n, news) => |news| == if n > |s.slaves| then n - |s.slaves| else 0
       case AddVirtualSlave(_, state) => Slaves.WellFormed(state)
       case Operate(r, op) => r in s.heap && SP.Enabled(s.heap[r], op)
       case Write(_, _, _, _) => Roomy(s)
       case WriteIndex(_, _, _, _) => Roomy(s)
       case MapDigitalInputs(_, state, _, width) => Slaves.WellFormed(state) && width <= MAX_MAP_WIDTH
       case Pass(_, clocks) => |clocks| == |s.maps|
       case EndpointFrame(frame, rows) => Roomy(s) && FrameOk(frame) && |rows| == |frame|
       case SocketFrame(frame, rows, _) => Roomy(s) && FrameOk(frame) && |rows| == |frame|
       case _ => true
  }

  function Step<R(==)>(s: Sim<R>, c: Call<R>): (t: Sim<R>)
    requires Enabled(s, c)
    ensures WellFormed(t)
  {
    hide Roomy, Slaves.WellFormed, OnlyHeap;
    match c
    case SetLinkUp(up) => s.(linkUp := up)
    case SetLatency(ms) => s.(latencyMs := ms)
    case SetVirtualSlaveCount(n, news) => SetCount(s, n, news)
    case AddVirtualSlave(r, state) => AddSlave(s, r, state)
    case ClearVirtualSlaves => ClearSlaves(s)
    case StartAllSlaves => s.(heap := StartAll(s.heap, s.slaves))
    case Operate(r, op) => s.(heap := s.heap[r := SP.Step(s.heap[r], op)])
    case Write(address, reg, data, clock) => WriteToSlave(s, address, reg, data, clock).0
    case Read(address, reg, dst) => ReadFromSlave(s, address, reg, dst).0
    case WriteIndex(index, reg, data, clock) => WriteByIndex(s, index, reg, data, clock).0
    case ReadIndex(index, reg, dst) => ReadByIndex(s, index, reg, dst).0
    case WriteMemory(address, data) => WriteLogical(s, address, data).0
    case MapDigitalInputs(r, state, address, width) => MapInputs(s, r, state, address, width)
    case ClearInputMappings(alive) => s.(heap := UnmapAll(s.heap, s.maps, alive), maps := [])
    case Pass(alive, clocks) => RunOnce(s, alive, clocks)
    case Send(frame, now) => SendFrame(s, frame, now).0
    case Receive(now) => ReceiveFrame(s, now).0
    case EndpointFrame(frame, rows) => Process(s, frame, rows).0
    case SocketFrame(frame, rows, now) => SocketWrite(s, frame, rows, now).0
  }

  predicate StepAt<R(==)>(ss: seq<Sim<R>>, cs: seq<Call<R>>, i: nat)
    requires i < |cs| && |ss| == |cs| + 1
  {
    Enabled(ss[i], cs[i]) && ss[i + 1] == Step(ss[i], cs[i])
  }

  predicate Trace<R(==)>(ss: seq<Sim<R>>, cs: seq<Call<R>>) {
    |ss| == |cs| + 1 && forall i :: 0 <= i < |cs| ==> StepAt(ss, cs, i)
  }

  lemma StepKeepsCount<R>(s: Sim<R>, c: Call<R>)
    requires Enabled(s, c) && s.count == |s.slaves|
    ensures var t := Step(s, c); t.count == |t.slaves|
  {
    hide Slaves.Write, Slaves.Read, Slaves.WellFormed, HeapOk, SP.Step, Process, SocketProcess;
    match c
    case SetVirtualSlaveCount(_, news) => GrowLength(s, news);
    case EndpointFrame(frame, rows) => BusProperties.ProcessStanding(s, frame, rows);
    case SocketFrame(frame, rows, now) =>
      BusProperties.ProcessStanding(s, frame, rows);
      BusProperties.SocketWriteQueuesProcessedFrame(s, frame, rows, now);
    case _ =>
  }

  /** In every state reachable from an empty simulator the separate count equals the registry's length, so
      the online count is exactly the online entries, and the two "present by count only" answers are never
      given, for any address. */
  lemma {:induction false} CountIsTheRegistry<R>(ss: seq<Sim<R>>, cs: seq<Call<R>>, k: nat, address: uint16)
    requires Trace(ss, cs) && k < |ss| && ss[0].slaves == [] && ss[0].count == 0 && WellFormed(ss[0])
    ensures WellFormed(ss[k]) && ss[k].count == |ss[k].slaves|
    ensures OnlineSlaveCount(ss[k]) == CountOnline(ss[k].heap, ss[k].slaves)
    ensures !CountedOnly(ss[k], address)
    decreases k
  {
    hide Step, WellFormed, Enabled;
    if k > 0 {
      CountIsTheRegistry(ss, cs, k - 1, address);
      assert StepAt(ss, cs, k - 1);
      StepKeepsCount(ss[k - 1], cs[k - 1]);
      StepWellFormed(ss[k - 1], cs[k - 1]);
    }
    OnlineCountIsExact(ss[k]);
  }

  lemma StepWellFormed<R>(s: Sim<R>, c: Call<R>)
    requires Enabled(s, c)
    ensures WellFormed(Step(s, c))
  {}

  lemma OnlineCountIsExact<R>(s: Sim<R>)
    requires WellFormed(s) && s.count == |s.slaves|
    ensures OnlineSlaveCount(s) == CountOnline(s.heap, s.slaves)
  {}

  /** Growing an empty registry by new slaves gives index `i` the address `i + 1`, in 16 bits. */
  lemma GrowthNumbersFromOne<R>(s: Sim<R>, news: seq<R>, i: nat)
    requires WellFormed(s) && s.slaves == [] && Distinct(news) && i < |news|
    ensures var t := Grow(s, news);
            && t.slaves == news && news[i] in t.heap
            && t.heap[news[i]] == Slaves.Fresh((i + 1) % 0x1_0000, 0, 0, Slaves.Plain)
  {
    hide Slaves.Fresh;
    GrowthNumbers(s, news, i);
  }

  /** Entry `i` of a registry grown to `news` has its number. */
  predicate Numbered<R(==)>(t: Sim<R>, news: seq<R>, i: nat)
    requires i < |news|
  {
    news[i] in t.heap && t.heap[news[i]] == Slaves.Fresh(Cut16(i + 1), 0, 0, Slaves.Plain)
  }

  lemma {:induction false} GrowthNumbers<R>(s: Sim<R>, news: seq<R>, i: nat)
    requires WellFormed(s) && s.slaves == [] && Distinct(news) && i < |news|
    ensures Grow(s, news).slaves == news && Numbered(Grow(s, news), news, i)
    decreases |news|
  {
    hide WellFormed, Grow, Distinct, Numbered;
    var k := |news| - 1;
    DistinctEntry(news, k);
    GrowLength(s, news);
    assert s.slaves + news == news;
    if k == 0 {
      GrowthStarts(s, news);
    } else {
      GrowthNumbers(s, news[..k], if i < k then i else k - 1);
      GrowthGoesOn(s, news, i);
    }
  }

  lemma GrowthStarts<R>(s: Sim<R>, news: seq<R>)
    requires WellFormed(s) && s.slaves == [] && |news| == 1
    ensures Numbered(Grow(s, news), news, 0)
  {
    hide WellFormed, Slaves.Fresh, Cut16, Grow, GrowOne, NextAddress;
    assert news[..0] == [] && news[..1] == news;
    GrowNext(s, news, 0);
    GrowNone(s);
    GrowOneSlave(s, news[0], news[0]);
  }

  lemma GrowthGoesOn<R>(s: Sim<R>, news: seq<R>, i: nat)
    requires WellFormed(s) && s.slaves == [] && |news| > 1 && news[|news| - 1] !in news[..|news| - 1] && i < |news|
    requires var k := |news| - 1; Numbered(Grow(s, news[..k]), news[..k], if i < k then i else k - 1)
    ensures Numbered(Grow(s, news), news, i)
  {
    hide WellFormed, Slaves.Fresh, Cut16, Grow, GrowOne, NextAddress;
    var k := |news| - 1;
    var u := Grow(s, news[..k]);
    assert news[..k + 1] == news;
    GrowNext(s, news, k);
    GrowOneSlave(u, news[k], news[i]);
    if i == k {
      GrowLength(s, news[..k]);
      assert u.slaves == news[..k] && news[..k][k - 1] == news[k - 1];
      FreshAddress(Cut16(k));
      NextAddressFollows(u, k);
    } else {
      assert news[..k][i] == news[i] && news[i] in news[..k];
    }
  }

  lemma GrowOneSlave<R>(s: Sim<R>, r: R, q: R)
    requires WellFormed(s)
    ensures var t := GrowOne(s, r);
            && r in t.heap
            && t.heap[r] == Slaves.Fresh(NextAddress(s), 0, 0, Slaves.Plain)
            && (q != r && q in s.heap ==> q in t.heap && t.heap[q] == s.heap[q])
  {}

  lemma GrowNone<R>(s: Sim<R>)
    requires WellFormed(s)
    ensures Grow(s, []) == s && (s.slaves == [] ==> NextAddress(s) == Cut16(1))
  {}

  lemma NextAddressFollows<R>(s: Sim<R>, k: nat)
    requires WellFormed(s) && s.slaves != [] && s.slaves[|s.slaves| - 1] in s.heap
    requires s.heap[s.slaves[|s.slaves| - 1]].address == Cut16(k)
    ensures NextAddress(s) == Cut16(k + 1)
  {}

  lemma FreshAddress(address: uint16)
    ensures Slaves.Fresh(address, 0, 0, Slaves.Plain).address == address
  {}

  /** Adding a slave keeps every index and gives it the next one; the count goes with it. Clearing leaves none. */
  lemma AddingKeepsIndices<R>(s: Sim<R>, r: R, state: Slaves.Slave, i: nat)
    requires WellFormed(s) && Slaves.WellFormed(state) && i <= |s.slaves|
    ensures var t := AddSlave(s, r, state);
            && |t.slaves| == t.count == |s.slaves| + 1
            && t.slaves[i] == (if i < |s.slaves| then s.slaves[i] else r)
            && r in t.heap && t.heap[r] == state && forall q :: q in s.heap && q != r ==> q in t.heap && t.heap[q] == s.heap[q]
    ensures ClearSlaves(s).slaves == [] && ClearSlaves(s).count == 0 && ClearSlaves(s).heap == s.heap
  {}

  /** Shrinking keeps the prefix, growing keeps the whole registry in front; the states of the slaves kept
      are their own, provided the new objects are new. */
  lemma {:induction false} ResizingKeepsPrefix<R>(s: Sim<R>, n: nat, news: seq<R>)
    requires WellFormed(s) && |news| == if n > |s.slaves| then n - |s.slaves| else 0
    requires forall r :: r in news ==> r !in s.heap
    ensures var t := SetCount(s, n, news);
            && |t.slaves| == n == t.count
            && (if n <= |s.slaves| then t.slaves == s.slaves[..n] else t.slaves[..|s.slaves|] == s.slaves)
            && forall r :: r in s.heap ==> r in t.heap && t.heap[r] == s.heap[r]
  {
    GrowLength(s, news);
    GrowthTouchesNoOld(s, news);
    if news == [] { assert s.slaves + news == s.slaves; }
  }

  lemma {:induction false} GrowthTouchesNoOld<R>(s: Sim<R>, news: seq<R>)
    requires WellFormed(s) && forall r :: r in news ==> r !in s.heap
    ensures forall r :: r in s.heap ==> r in Grow(s, news).heap && Grow(s, news).heap[r] == s.heap[r]
    decreases |news|
  {
    hide Slaves.Fresh, HeapOk, Slaves.WellFormed;
    if news != [] { GrowthTouchesNoOld(s, news[..|news| - 1]); }
  }
}
