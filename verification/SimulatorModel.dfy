/** The network simulator as a value. Slaves are shared objects: `R` stands for a reference to one, the
    registry and the input maps hold references, and `heap` gives the state each refers to. One slave
    may be registered or mapped more than once. */
module SimulatorModel {
  import opened Bytes
  import opened Datagrams
  import E = El1258Model
  import Slaves = SlaveModel

  const LOGICAL_SIZE := 16384
  const MAX_MAP_WIDTH := 4
  const NS_PER_MS := 1_000_000

  datatype InputMap<R> = InputMap(slave: R, address: uint32, width: nat)

  datatype FrameItem = FrameItem(frame: Frame, readyAt: int)

  /** `count` is the slave count kept beside the registry. */
  datatype Sim<R(==)> = Sim(
    linkUp: bool, latencyMs: uint32, count: nat, queue: seq<FrameItem>,
    slaves: seq<R>, logical: seq<uint8>, maps: seq<InputMap<R>>, heap: map<R, Slaves.Slave>)

  predicate HeapOk<R(==)>(heap: map<R, Slaves.Slave>) { forall r :: r in heap ==> Slaves.WellFormed(heap[r]) }

  predicate WellFormed<R(==)>(s: Sim<R>) {
    && |s.logical| == LOGICAL_SIZE && HeapOk(s.heap)
    && (forall r :: r in s.slaves ==> r in s.heap)
    && (forall m :: m in s.maps ==> m.slave in s.heap && m.width <= MAX_MAP_WIDTH)
  }

  /** Every slave's mailbox windows can hold a message. */
  predicate Roomy<R(==)>(s: Sim<R>) { forall r :: r in s.heap ==> Slaves.RoomForMessages(s.heap[r]) }

  // ---- registry

  predicate Distinct<R(==)>(slaves: seq<R>) { forall i, j :: 0 <= i < j < |slaves| ==> slaves[i] != slaves[j] }

  /** Without repetitions: no entry occurs before its own index, and prefixes have none either. */
  lemma DistinctEntry<R>(slaves: seq<R>, k: nat)
    requires Distinct(slaves) && k < |slaves|
    ensures Distinct(slaves[..k]) && slaves[k] !in slaves[..k]
  {}

  function CountOnline<R(==)>(heap: map<R, Slaves.Slave>, slaves: seq<R>): (n: nat)
    requires forall r :: r in slaves ==> r in heap
    ensures n <= |slaves|
  {
    if slaves == [] then 0
    else
      var k := |slaves| - 1;
      CountOnline(heap, slaves[..k]) + if heap[slaves[k]].online then 1 else 0
  }

  /** How many of the first `n` registry entries are online. */
  function CountFirst<R(==)>(s: Sim<R>, n: nat): nat
    requires WellFormed(s) && n <= |s.slaves|
  {
    CountOnline(s.heap, s.slaves[..n])
  }

  /** The online slaves of the registry, plus any counted beyond it. */
  function OnlineSlaveCount<R(==)>(s: Sim<R>): nat
    requires WellFormed(s)
  {
    CountOnline(s.heap, s.slaves) + if s.count > |s.slaves| then s.count - |s.slaves| else 0
  }

  function NextAddress<R(==)>(s: Sim<R>): uint16
    requires WellFormed(s)
  {
    if s.slaves == [] then 1 else (s.heap[s.slaves[|s.slaves| - 1]].address as int + 1) % 0x1_0000
  }

  /** One more stub slave, with the address after the last one's. */
  function GrowOne<R(==)>(s: Sim<R>, r: R): (t: Sim<R>)
    requires WellFormed(s)
    ensures WellFormed(t) && t.slaves == s.slaves + [r] && t.count == s.count
  {
    s.(slaves := s.slaves + [r], heap := s.heap[r := Slaves.Fresh(NextAddress(s), 0, 0, Slaves.Plain)])
  }

  /** The registry grown by new stub slaves, one after another. */
  function Grow<R(==)>(s: Sim<R>, news: seq<R>): (r: Sim<R>)
    requires WellFormed(s)
    ensures WellFormed(r)
  {
    if news == [] then s
    else
      var k := |news| - 1;
      GrowOne(Grow(s, news[..k]), news[k])
  }

  lemma GrowNext<R>(s: Sim<R>, news: seq<R>, k: nat)
    requires WellFormed(s) && k < |news|
    ensures var t := Grow(s, news[..k]);
            Grow(s, news[..k + 1]) ==
            t.(slaves := t.slaves + [news[k]], heap := t.heap[news[k] := Slaves.Fresh(NextAddress(t), 0, 0, Slaves.Plain)])
  {
    assert news[..k + 1][..k] == news[..k];
  }

  lemma {:induction false} GrowLength<R>(s: Sim<R>, news: seq<R>)
    requires WellFormed(s)
    ensures Grow(s, news).slaves == s.slaves + news && Grow(s, news).count == s.count
    decreases |news|
  {
    if news == [] {
      assert s.slaves + news == s.slaves;
    } else {
      var k := |news| - 1;
      GrowLength(s, news[..k]);
      assert s.slaves + news == (s.slaves + news[..k]) + [news[k]];
    }
  }

  /** The registry brought to `n` entries; `news` are the objects allocated for it, if it grows. */
  function SetCount<R(==)>(s: Sim<R>, n: nat, news: seq<R>): (r: Sim<R>)
    requires WellFormed(s) && |news| == if n > |s.slaves| then n - |s.slaves| else 0
    ensures WellFormed(r)
  {
    var t := Grow(s, news);
    t.(slaves := if n < |t.slaves| then t.slaves[..n] else t.slaves, count := n)
  }

  function AddSlave<R(==)>(s: Sim<R>, r: R, state: Slaves.Slave): (t: Sim<R>)
    requires WellFormed(s) && Slaves.WellFormed(state)
    ensures WellFormed(t)
  {
    s.(slaves := s.slaves + [r], count := |s.slaves| + 1, heap := s.heap[r := state])
  }

  function ClearSlaves<R(==)>(s: Sim<R>): (t: Sim<R>)
    requires WellFormed(s)
    ensures WellFormed(t)
  {
    s.(slaves := [], count := 0)
  }

  function StartAll<R(==)>(heap: map<R, Slaves.Slave>, slaves: seq<R>): (h: map<R, Slaves.Slave>)
    requires HeapOk(heap) && forall r :: r in slaves ==> r in heap
    ensures HeapOk(h) && h.Keys == heap.Keys
  {
    if slaves == [] then heap
    else
      var k := |slaves| - 1;
      var h := StartAll(heap, slaves[..k]);
      h[slaves[k] := h[slaves[k]].(started := true)]
  }

  lemma StartAllNext<R>(heap: map<R, Slaves.Slave>, slaves: seq<R>, k: nat)
    requires HeapOk(heap) && k < |slaves| && forall r :: r in slaves ==> r in heap
    ensures var h := StartAll(heap, slaves[..k]);
            StartAll(heap, slaves[..k + 1]) == h[slaves[k] := h[slaves[k]].(started := true)]
  {
    assert slaves[..k + 1][..k] == slaves[..k];
  }

  // ---- register access

  /** Nothing but the states of the slaves differs. */
  predicate OnlyHeap<R(==)>(s: Sim<R>, t: Sim<R>) {
    && t.linkUp == s.linkUp && t.latencyMs == s.latencyMs && t.count == s.count && t.queue == s.queue
    && t.slaves == s.slaves && t.logical == s.logical && t.maps == s.maps && t.heap.Keys == s.heap.Keys
  }

  /** The first online slave of the registry with a station address. */
  function Lookup<R(==)>(heap: map<R, Slaves.Slave>, slaves: seq<R>, address: uint16): (r: Option<R>)
    requires forall r :: r in slaves ==> r in heap
    ensures r.Some? ==> r.value in slaves
  {
    if slaves == [] then None
    else if heap[slaves[0]].online && heap[slaves[0]].address == address then Some(slaves[0])
    else Lookup(heap, slaves[1..], address)
  }

  function WriteAt<R(==)>(s: Sim<R>, r: R, reg: uint16, data: seq<uint8>, clock: E.Clock): (t: (Sim<R>, bool))
    requires WellFormed(s) && Roomy(s) && r in s.heap
    ensures WellFormed(t.0) && OnlyHeap(s, t.0)
  {
    var (v, ok) := Slaves.Write(s.heap[r], reg, data, clock);
    (s.(heap := s.heap[r := v]), ok)
  }

  function ReadAt<R(==)>(s: Sim<R>, r: R, reg: uint16, dst: seq<uint8>): (t: (Sim<R>, seq<uint8>, bool))
    requires WellFormed(s) && r in s.heap
    ensures WellFormed(t.0) && OnlyHeap(s, t.0) && |t.1| == |dst| && (Roomy(s) ==> Roomy(t.0))
  {
    var (v, out, ok) := Slaves.Read(s.heap[r], reg, dst);
    (s.(heap := s.heap[r := v]), out, ok)
  }

  /** Present by count only: an empty registry, but an address within the count. */
  predicate CountedOnly<R(==)>(s: Sim<R>, address: uint16) { s.slaves == [] && 1 <= address <= s.count }

  function WriteToSlave<R(==)>(s: Sim<R>, address: uint16, reg: uint16, data: seq<uint8>, clock: E.Clock): (t: (Sim<R>, bool))
    requires WellFormed(s) && Roomy(s)
    ensures WellFormed(t.0) && OnlyHeap(s, t.0)
  {
    match Lookup(s.heap, s.slaves, address)
    case Some(r) => WriteAt(s, r, reg, data, clock)
    case None => (s, CountedOnly(s, address))
  }

  function ReadFromSlave<R(==)>(s: Sim<R>, address: uint16, reg: uint16, dst: seq<uint8>): (t: (Sim<R>, seq<uint8>, bool))
    requires WellFormed(s)
    ensures WellFormed(t.0) && OnlyHeap(s, t.0) && |t.1| == |dst| && (Roomy(s) ==> Roomy(t.0))
  {
    match Lookup(s.heap, s.slaves, address)
    case Some(r) => ReadAt(s, r, reg, dst)
    case None => if CountedOnly(s, address) then (s, Zeros(|dst|), true) else (s, dst, false)
  }

  predicate OnlineAt<R(==)>(s: Sim<R>, index: nat)
    requires WellFormed(s)
  {
    index < |s.slaves| && s.heap[s.slaves[index]].online
  }

  function WriteByIndex<R(==)>(s: Sim<R>, index: nat, reg: uint16, data: seq<uint8>, clock: E.Clock): (t: (Sim<R>, bool))
    requires WellFormed(s) && Roomy(s)
    ensures WellFormed(t.0) && OnlyHeap(s, t.0)
  {
    if OnlineAt(s, index) then WriteAt(s, s.slaves[index], reg, data, clock) else (s, false)
  }

  function ReadByIndex<R(==)>(s: Sim<R>, index: nat, reg: uint16, dst: seq<uint8>): (t: (Sim<R>, seq<uint8>, bool))
    requires WellFormed(s)
    ensures WellFormed(t.0) && OnlyHeap(s, t.0) && |t.1| == |dst| && (Roomy(s) ==> Roomy(t.0))
  {
    if OnlineAt(s, index) then ReadAt(s, s.slaves[index], reg, dst) else (s, dst, false)
  }

  // ---- logical memory and process image

  predicate InLogical(address: uint32, len: nat) { address as int + len <= LOGICAL_SIZE }

  function WriteLogical<R(==)>(s: Sim<R>, address: uint32, data: seq<uint8>): (t: (Sim<R>, bool))
    requires WellFormed(s)
    ensures WellFormed(t.0) && t.0.heap == s.heap
  {
    if InLogical(address, |data|) then (s.(logical := Splice(s.logical, address, data)), true) else (s, false)
  }

  function ReadLogical<R(==)>(s: Sim<R>, address: uint32, dst: seq<uint8>): (t: (seq<uint8>, bool))
    requires WellFormed(s)
    ensures |t.0| == |dst|
  {
    if InLogical(address, |dst|) then (s.logical[address..address as int + |dst|], true) else (dst, false)
  }

  function MapInputs<R(==)>(s: Sim<R>, r: R, state: Slaves.Slave, address: uint32, width: nat): (t: Sim<R>)
    requires WellFormed(s) && Slaves.WellFormed(state) && width <= MAX_MAP_WIDTH
    ensures WellFormed(t)
  {
    s.(maps := s.maps + [InputMap(r, address, width)], heap := s.heap[r := state.(mapped := true)])
  }

  /** Every slave still alive that some map names loses its mapping flag. */
  function UnmapAll<R(==)>(heap: map<R, Slaves.Slave>, maps: seq<InputMap<R>>, alive: set<R>): (h: map<R, Slaves.Slave>)
    requires HeapOk(heap) && forall m :: m in maps ==> m.slave in heap
    ensures HeapOk(h) && h.Keys == heap.Keys
  {
    if maps == [] then heap
    else
      var k := |maps| - 1;
      var h := UnmapAll(heap, maps[..k], alive);
      var r := maps[k].slave;
      if r in alive then h[r := h[r].(mapped := false)] else h
  }

  function RoutineAll<R(==)>(heap: map<R, Slaves.Slave>, slaves: seq<R>): (h: map<R, Slaves.Slave>)
    requires HeapOk(heap) && forall r :: r in slaves ==> r in heap
    ensures HeapOk(h) && h.Keys == heap.Keys
  {
    if slaves == [] then heap
    else
      var k := |slaves| - 1;
      var h := RoutineAll(heap, slaves[..k]);
      if h[slaves[k]].online then h[slaves[k] := Slaves.Routine(h[slaves[k]])] else h
  }

  lemma RoutineAllNext<R>(heap: map<R, Slaves.Slave>, slaves: seq<R>, k: nat)
    requires HeapOk(heap) && k < |slaves| && forall r :: r in slaves ==> r in heap
    ensures var h := RoutineAll(heap, slaves[..k]);
            RoutineAll(heap, slaves[..k + 1]) ==
            if h[slaves[k]].online then h[slaves[k] := Slaves.Routine(h[slaves[k]])] else h
  {
    assert slaves[..k + 1][..k] == slaves[..k];
  }

  /** Little-endian bytes of `bits` laid over the memory at `address`, clipped at its end. */
  function Overlay(logical: seq<uint8>, address: uint32, width: nat, bits: uint32): (r: seq<uint8>)
    requires width <= MAX_MAP_WIDTH
    ensures |r| == |logical|
  {
    seq(|logical|, a requires 0 <= a < |logical| =>
      if address as int <= a < address as int + width then Le32Bytes(bits)[a - address as int] else logical[a])
  }

  /** What the map at the end of a list reads: nothing if its slave is gone or has no inputs. */
  function ReadMap<R(==)>(heap: map<R, Slaves.Slave>, m: InputMap<R>, alive: set<R>, clock: E.Clock):
    (t: (map<R, Slaves.Slave>, Option<uint32>))
    requires HeapOk(heap) && m.slave in heap
    ensures HeapOk(t.0) && t.0.Keys == heap.Keys
  {
    if m.slave in alive then
      var (v, bits) := Slaves.ReadInputs(heap[m.slave], clock);
      (heap[m.slave := v], bits)
    else (heap, None)
  }

  /** The maps read in order, each laid over the memory the ones before it left. */
  function Refresh<R(==)>(heap: map<R, Slaves.Slave>, logical: seq<uint8>, maps: seq<InputMap<R>>, alive: set<R>,
                          clocks: seq<E.Clock>): (t: (map<R, Slaves.Slave>, seq<uint8>))
    requires HeapOk(heap) && |clocks| == |maps|
    requires forall m :: m in maps ==> m.slave in heap && m.width <= MAX_MAP_WIDTH
    ensures HeapOk(t.0) && t.0.Keys == heap.Keys && |t.1| == |logical|
  {
    if maps == [] then (heap, logical)
    else
      var k := |maps| - 1;
      var (h, l) := Refresh(heap, logical, maps[..k], alive, clocks[..k]);
      var (h', bits) := ReadMap(h, maps[k], alive, clocks[k]);
      (h', if bits.Some? then Overlay(l, maps[k].address, maps[k].width, bits.value) else l)
  }

  function Live<R(==)>(maps: seq<InputMap<R>>, alive: set<R>): (l: seq<InputMap<R>>)
    ensures forall m :: m in l ==> m in maps
  {
    if maps == [] then []
    else
      var k := |maps| - 1;
      Live(maps[..k], alive) + if maps[k].slave in alive then [maps[k]] else []
  }

  /** One more map refreshed. */
  lemma RefreshNext<R>(heap: map<R, Slaves.Slave>, logical: seq<uint8>, maps: seq<InputMap<R>>, alive: set<R>,
                       clocks: seq<E.Clock>, k: nat)
    requires HeapOk(heap) && |clocks| == |maps| && k < |maps|
    requires forall m :: m in maps ==> m.slave in heap && m.width <= MAX_MAP_WIDTH
    ensures var (h, l) := Refresh(heap, logical, maps[..k], alive, clocks[..k]);
            var (h', bits) := ReadMap(h, maps[k], alive, clocks[k]);
            Refresh(heap, logical, maps[..k + 1], alive, clocks[..k + 1]) ==
            (h', if bits.Some? then Overlay(l, maps[k].address, maps[k].width, bits.value) else l)
  {
    assert maps[..k + 1][..k] == maps[..k] && clocks[..k + 1][..k] == clocks[..k];
  }

  lemma LiveNext<R>(maps: seq<InputMap<R>>, alive: set<R>, k: nat)
    requires k < |maps|
    ensures Live(maps[..k + 1], alive) == Live(maps[..k], alive) + if maps[k].slave in alive then [maps[k]] else []
  {
    assert maps[..k + 1][..k] == maps[..k];
  }

  /** One periodic pass. `alive` are the slaves some owner still holds; `clocks` are the clock readings,
      one row per map. */
  function RunOnce<R(==)>(s: Sim<R>, alive: set<R>, clocks: seq<E.Clock>): (t: Sim<R>)
    requires WellFormed(s) && |clocks| == |s.maps|
    ensures WellFormed(t)
  {
    var (h, l) := Refresh(RoutineAll(s.heap, s.slaves), s.logical, s.maps, alive, clocks);
    s.(heap := h, logical := l, maps := Live(s.maps, alive))
  }

  // ---- frame queue

  function SendFrame<R(==)>(s: Sim<R>, frame: Frame, now: int): (t: (Sim<R>, bool))
    requires WellFormed(s)
    ensures WellFormed(t.0)
  {
    if s.linkUp then (s.(queue := s.queue + [FrameItem(frame, now + s.latencyMs as int * NS_PER_MS)]), true) else (s, false)
  }

  function ReceiveFrame<R(==)>(s: Sim<R>, now: int): (t: (Sim<R>, Option<Frame>))
    requires WellFormed(s)
    ensures WellFormed(t.0)
  {
    if s.linkUp && s.queue != [] && now >= s.queue[0].readyAt then (s.(queue := s.queue[1..]), Some(s.queue[0].frame))
    else (s, None)
  }
}
