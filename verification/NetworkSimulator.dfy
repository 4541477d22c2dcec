/** The network simulator as the program keeps it. The slaves it shares with its callers are reached by
    reference: `heap` holds the state each reference leads to, and a call on a slave updates it there. */
module NetworkSimulators {
  import opened Bytes
  import opened Datagrams
  import opened SimulatorModel
  import E = El1258Model
  import Slaves = SlaveModel

  class NetworkSimulator<R(==)> {
    var linkUp: bool
    var latencyMs: uint32
    var virtualSlaveCount: nat
    var queue: seq<FrameItem>
    var slaves: seq<R>
    var logical: seq<uint8>
    var inputMaps: seq<InputMap<R>>
    var heap: map<R, Slaves.Slave>

    ghost function View(): Sim<R>
      reads this
    {
      Sim(linkUp, latencyMs, virtualSlaveCount, queue, slaves, logical, inputMaps, heap)
    }

    ghost predicate Valid()
      reads this
    {
      WellFormed(View())
    }

    constructor ()
      ensures Valid() && View() == Sim(true, 0, 0, [], [], Zeros(LOGICAL_SIZE), [], map[])
    {
      linkUp, latencyMs, virtualSlaveCount := true, 0, 0;
      queue, slaves, inputMaps := [], [], [];
      logical := Zeros(LOGICAL_SIZE);
      heap := map[];
    }

    method SetLinkUp(up: bool)
      requires Valid()
      modifies this`linkUp
      ensures Valid() && View() == old(View()).(linkUp := up)
    {
      linkUp := up;
    }

    method SetLatencyMs(ms: uint32)
      requires Valid()
      modifies this`latencyMs
      ensures Valid() && View() == old(View()).(latencyMs := ms)
    {
      latencyMs := ms;
    }

    // ---- registry

    /** Grows or shrinks the registry; `news` are the references of the slaves allocated for it. */
    method SetVirtualSlaveCount(n: nat, news: seq<R>)
      requires Valid() && |news| == if n > |slaves| then n - |slaves| else 0
      modifies this`slaves, this`heap, this`virtualSlaveCount
      ensures Valid() && View() == SetCount(old(View()), n, news)
    {
      GrowLength(View(), news);
      GrowRegistry(n, news);
      while |slaves| > n
        invariant |slaves| >= n || slaves == Grow(old(View()), news).slaves
        invariant |slaves| <= |Grow(old(View()), news).slaves|
        invariant View() == Grow(old(View()), news).(slaves := Grow(old(View()), news).slaves[..|slaves|])
        decreases |slaves|
      {
        slaves := slaves[..|slaves| - 1];
      }
      virtualSlaveCount := |slaves|;
    }

    method PushStub(r: R)
      requires Valid()
      modifies this`slaves, this`heap
      ensures Valid() && View() == GrowOne(old(View()), r)
    {
      var next := if |slaves| == 0 then 1 else (heap[slaves[|slaves| - 1]].address as int + 1) % 0x1_0000;
      heap := heap[r := Slaves.Fresh(next, 0, 0, Slaves.Plain)];
      slaves := slaves + [r];
    }

    method GrowRegistry(n: nat, news: seq<R>)
      requires Valid() && |news| == if n > |slaves| then n - |slaves| else 0
      modifies this`slaves, this`heap
      ensures Valid() && View() == Grow(old(View()), news)
    {
      var k := 0;
      while |slaves| < n
        invariant 0 <= k <= |news| && Valid()
        invariant View() == Grow(old(View()), news[..k])
        invariant |slaves| == old(|slaves|) + k
        decreases n - |slaves|
      {
        hide GrowOne, Slaves.WellFormed, HeapOk, WellFormed;
        GrowNext(old(View()), news, k);
        PushStub(news[k]);
        k := k + 1;
      }
      assert news[..k] == news;
    }

    method AddVirtualSlave(slave: R, state: Slaves.Slave)
      requires Valid() && Slaves.WellFormed(state)
      modifies this`slaves, this`virtualSlaveCount, this`heap
      ensures Valid() && View() == AddSlave(old(View()), slave, state)
    {
      heap := heap[slave := state];
      slaves := slaves + [slave];
      virtualSlaveCount := |slaves|;
    }

    method ClearVirtualSlaves()
      requires Valid()
      modifies this`slaves, this`virtualSlaveCount
      ensures Valid() && View() == ClearSlaves(old(View()))
    {
      slaves := [];
      virtualSlaveCount := 0;
    }

    method StartAllSlaves()
      requires Valid()
      modifies this`heap
      ensures Valid() && View() == old(View()).(heap := StartAll(old(heap), slaves))
    {
      hide Slaves.WellFormed;
      for i := 0 to |slaves|
        invariant heap == StartAll(old(heap), slaves[..i])
      {
        hide HeapOk, StartAll;
        StartAllNext(old(heap), slaves, i);
        heap := heap[slaves[i] := heap[slaves[i]].(started := true)];
      }
      assert slaves[..|slaves|] == slaves;
    }

    method OnlineSlaveCount() returns (n: nat)
      requires Valid()
      ensures n == SimulatorModel.OnlineSlaveCount(View())
    {
      n := 0;
      for i := 0 to |slaves|
        invariant n == CountFirst(View(), i)
      {
        assert slaves[..i + 1][..i] == slaves[..i];
        if heap[slaves[i]].online {
          n := n + 1;
        }
      }
      assert slaves[..|slaves|] == slaves;
      if virtualSlaveCount > |slaves| {
        n := n + (virtualSlaveCount - |slaves|);
      }
    }

    // ---- frame queue

    method SendFrame(frame: Frame, now: int) returns (ok: bool)
      requires Valid()
      modifies this`queue
      ensures Valid() && (View(), ok) == SimulatorModel.SendFrame(old(View()), frame, now)
    {
      if !linkUp {
        return false;
      }
      var item := FrameItem(frame, now + latencyMs as int * NS_PER_MS);
      queue := queue + [item];
      return true;
    }

    method ReceiveFrame(now: int) returns (out: Option<Frame>)
      requires Valid()
      modifies this`queue
      ensures Valid() && (View(), out) == SimulatorModel.ReceiveFrame(old(View()), now)
    {
      if !linkUp {
        return None;
      }
      if |queue| == 0 {
        return None;
      }
      var item := queue[0];
      if now < item.readyAt {
        return None;
      }
      queue := queue[1..];
      return Some(item.frame);
    }

    // ---- register access

    method GetSlaveByStationAddress(address: uint16) returns (s: Option<R>)
      requires Valid()
      ensures s == Lookup(heap, slaves, address)
    {
      for i := 0 to |slaves|
        invariant Lookup(heap, slaves, address) == Lookup(heap, slaves[i..], address)
      {
        if heap[slaves[i]].online && heap[slaves[i]].address == address {
          return Some(slaves[i]);
        }
        assert slaves[i..][1..] == slaves[i + 1..];
      }
      return None;
    }

    method WriteToSlave(address: uint16, reg: uint16, data: seq<uint8>, clock: E.Clock) returns (ok: bool)
      requires Valid() && Roomy(View())
      modifies this`heap
      ensures Valid() && (View(), ok) == SimulatorModel.WriteToSlave(old(View()), address, reg, data, clock)
    {
      var s := GetSlaveByStationAddress(address);
      if s.Some? {
        var (v, accepted) := Slaves.Write(heap[s.value], reg, data, clock);
        heap := heap[s.value := v];
        return accepted;
      }
      if |slaves| == 0 && address >= 1 && address <= virtualSlaveCount {
        return true;
      }
      return false;
    }

    method ReadFromSlave(address: uint16, reg: uint16, dst: seq<uint8>) returns (data: seq<uint8>, ok: bool)
      requires Valid()
      modifies this`heap
      ensures Valid() && (View(), data, ok) == SimulatorModel.ReadFromSlave(old(View()), address, reg, dst)
    {
      var s := GetSlaveByStationAddress(address);
      if s.Some? {
        var (v, out, accepted) := Slaves.Read(heap[s.value], reg, dst);
        heap := heap[s.value := v];
        return out, accepted;
      }
      if |slaves| == 0 && address >= 1 && address <= virtualSlaveCount {
        return Zeros(|dst|), true;
      }
      return dst, false;
    }

    method WriteToSlaveByIndex(index: nat, reg: uint16, data: seq<uint8>, clock: E.Clock) returns (ok: bool)
      requires Valid() && Roomy(View())
      modifies this`heap
      ensures Valid() && (View(), ok) == WriteByIndex(old(View()), index, reg, data, clock)
    {
      if index < |slaves| {
        var s := slaves[index];
        if heap[s].online {
          var (v, accepted) := Slaves.Write(heap[s], reg, data, clock);
          heap := heap[s := v];
          return accepted;
        }
      }
      return false;
    }

    method ReadFromSlaveByIndex(index: nat, reg: uint16, dst: seq<uint8>) returns (data: seq<uint8>, ok: bool)
      requires Valid()
      modifies this`heap
      ensures Valid() && (View(), data, ok) == ReadByIndex(old(View()), index, reg, dst)
    {
      if index < |slaves| {
        var s := slaves[index];
        if heap[s].online {
          var (v, out, accepted) := Slaves.Read(heap[s], reg, dst);
          heap := heap[s := v];
          return out, accepted;
        }
      }
      return dst, false;
    }

    // ---- logical memory and input maps

    method WriteLogical(address: uint32, data: seq<uint8>) returns (ok: bool)
      requires Valid()
      modifies this`logical
      ensures Valid() && (View(), ok) == SimulatorModel.WriteLogical(old(View()), address, data)
    {
      if address as int + |data| > |logical| {
        return false;
      }
      logical := Splice(logical, address, data);
      return true;
    }

    method ReadLogical(address: uint32, dst: seq<uint8>) returns (data: seq<uint8>, ok: bool)
      requires Valid()
      ensures (data, ok) == SimulatorModel.ReadLogical(View(), address, dst)
    {
      if address as int + |dst| > |logical| {
        return dst, false;
      }
      return logical[address..address as int + |dst|], true;
    }

    /** Maps a slave, whose state is `state`, into logical memory. */
    method MapDigitalInputs(slave: R, state: Slaves.Slave, address: uint32, width: nat)
      requires Valid() && Slaves.WellFormed(state) && width <= MAX_MAP_WIDTH
      modifies this`inputMaps, this`heap
      ensures Valid() && View() == MapInputs(old(View()), slave, state, address, width)
    {
      inputMaps := inputMaps + [InputMap(slave, address, width)];
      heap := heap[slave := state.(mapped := true)];
    }

    method ClearInputMappings(alive: set<R>)
      requires Valid()
      modifies this`inputMaps, this`heap
      ensures Valid() && View() == old(View()).(heap := UnmapAll(old(heap), old(inputMaps), alive), maps := [])
    {
      for i := 0 to |inputMaps|
        invariant inputMaps == old(inputMaps) && heap == UnmapAll(old(heap), inputMaps[..i], alive)
      {
        assert inputMaps[..i + 1][..i] == inputMaps[..i];
        var s := inputMaps[i].slave;
        if s in alive {
          heap := heap[s := heap[s].(mapped := false)];
        }
      }
      assert inputMaps[..|inputMaps|] == inputMaps;
      inputMaps := [];
    }

    // ---- the periodic pass

    method RunRoutines()
      requires Valid()
      modifies this`heap
      ensures Valid() && View() == old(View()).(heap := RoutineAll(old(heap), slaves))
    {
      hide Slaves.WellFormed;
      for i := 0 to |slaves|
        invariant heap == RoutineAll(old(heap), slaves[..i])
      {
        hide HeapOk, RoutineAll, Slaves.Routine;
        RoutineAllNext(old(heap), slaves, i);
        if heap[slaves[i]].online {
          heap := heap[slaves[i] := Slaves.Routine(heap[slaves[i]])];
        }
      }
      assert slaves[..|slaves|] == slaves;
    }

    /** Lays the bytes of a reading over logical memory, those that fit. */
    method OverlayBits(address: uint32, width: nat, bits: uint32)
      requires Valid() && width <= MAX_MAP_WIDTH
      modifies this`logical
      ensures Valid() && View() == old(View()).(logical := Overlay(old(logical), address, width, bits))
    {
      for i := 0 to width
        invariant |logical| == LOGICAL_SIZE && logical == Overlay(old(logical), address, i, bits)
      {
        if address as int + i < |logical| {
          logical := logical[address as int + i := Le32Bytes(bits)[i]];
        }
      }
    }

    /** Reads one live map's slave and lays the reading over logical memory. */
    method RefreshMap(m: InputMap<R>, ghost alive: set<R>, clock: E.Clock)
      requires Valid() && m.slave in heap && m.slave in alive && m.width <= MAX_MAP_WIDTH
      modifies this`heap, this`logical
      ensures Valid()
      ensures var (h, bits) := ReadMap(old(heap), m, alive, clock);
              View() == old(View()).(heap := h,
                logical := if bits.Some? then Overlay(old(logical), m.address, m.width, bits.value) else old(logical))
    {
      var (v, bits) := Slaves.ReadInputs(heap[m.slave], clock);
      heap := heap[m.slave := v];
      if bits.Some? {
        OverlayBits(m.address, m.width, bits.value);
      }
    }

    /** One pass of the loop: the map at `it` is read and stepped over, or erased if its slave is gone. */
    method VisitMap(it: nat, alive: set<R>, clock: E.Clock) returns (next: nat)
      requires Valid() && it < |inputMaps|
      modifies this`heap, this`logical, this`inputMaps
      ensures Valid()
      ensures var m := old(inputMaps)[it];
              && (if m.slave in alive then next == it + 1 && inputMaps == old(inputMaps)
                  else next == it && inputMaps == old(inputMaps)[..it] + old(inputMaps)[it + 1..])
              && m.slave in old(heap) && m.width <= MAX_MAP_WIDTH
              && var (h, bits) := ReadMap(old(heap), m, alive, clock);
              && heap == h
              && logical == if bits.Some? then Overlay(old(logical), m.address, m.width, bits.value) else old(logical)
    {
      var m := inputMaps[it];
      if m.slave in alive {
        RefreshMap(m, alive, clock);
        next := it + 1;
      } else {
        inputMaps := inputMaps[..it] + inputMaps[it + 1..];
        next := it;
      }
    }

    /** The input maps in order, the dead ones erased on the way: each is visited once. */
    method RefreshMaps(alive: set<R>, clocks: seq<E.Clock>)
      requires Valid() && |clocks| == |inputMaps|
      modifies this`heap, this`logical, this`inputMaps
      ensures Valid()
      ensures var (h, l) := Refresh(old(heap), old(logical), old(inputMaps), alive, clocks);
              heap == h && logical == l && inputMaps == Live(old(inputMaps), alive)
    {
      hide Slaves.WellFormed, HeapOk, ReadMap, Refresh, Live, Overlay;
      ghost var maps := inputMaps;
      var it, visited := 0, 0;
      RefreshNone(heap, logical, maps, alive, clocks);
      while it < |inputMaps|
        invariant Valid() && 0 <= visited <= |maps|
        invariant 0 <= it <= |inputMaps| && inputMaps[..it] == Live(maps[..visited], alive) && inputMaps[it..] == maps[visited..]
        invariant (heap, logical) == Refresh(old(heap), old(logical), maps[..visited], alive, clocks[..visited])
        decreases |maps| - visited
      {
        RefreshNext(old(heap), old(logical), maps, alive, clocks, visited);
        LiveNext(maps, alive, visited);
        assert inputMaps[it] == inputMaps[it..][0] == maps[visited];
        it := VisitMap(it, alive, clocks[visited]);
        visited := visited + 1;
      }
      assert maps[..visited] == maps && clocks[..visited] == clocks;
      assert inputMaps[..it] == inputMaps;
    }

    /** One periodic pass. */
    method RunOnce(alive: set<R>, clocks: seq<E.Clock>)
      requires Valid() && |clocks| == |inputMaps|
      modifies this`heap, this`logical, this`inputMaps
      ensures Valid() && View() == SimulatorModel.RunOnce(old(View()), alive, clocks)
    {
      RunRoutines();
      RefreshMaps(alive, clocks);
    }
  }

  lemma RefreshNone<R>(heap: map<R, Slaves.Slave>, logical: seq<uint8>, maps: seq<InputMap<R>>, alive: set<R>, clocks: seq<E.Clock>)
    requires HeapOk(heap)
    ensures Refresh(heap, logical, maps[..0], alive, clocks[..0]) == (heap, logical) && Live(maps[..0], alive) == []
  {}
}
