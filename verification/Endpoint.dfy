/** The two programs that step frames through the simulator: the slaves endpoint and the simulated socket. */
module Endpoints {
  import opened Bytes
  import opened Datagrams
  import opened SimulatorModel
  import opened BusModel
  import opened NetworkSimulators
  import E = El1258Model
  import S = SubsModel
  import AlMachine
  import Slaves = SlaveModel

  /** The slave built for registry index `i`. */
  function NewSlave(i: nat): Slaves.Slave {
    Slaves.Fresh((1 + i) % 0x1_0000, E.VENDOR_ID, E.PRODUCT_CODE, Slaves.Subs(S.Fresh()))
  }

  lemma NewSlaveOk(i: nat)
    ensures Slaves.WellFormed(NewSlave(i))
  {}

  predicate IsPrepared<R(==)>(s: Sim<R>, refs: seq<R>) {
    && WellFormed(s) && s.linkUp && s.slaves == refs && s.count == |refs|
    && forall i :: 0 <= i < |refs| ==> refs[i] in s.heap && s.heap[refs[i]] == NewSlave(i).(started := true)
  }

  lemma {:induction false} StartAllIsEach<R>(heap: map<R, Slaves.Slave>, slaves: seq<R>)
    requires HeapOk(heap) && forall r :: r in slaves ==> r in heap
    ensures forall r :: r in heap ==>
              r in StartAll(heap, slaves) &&
              StartAll(heap, slaves)[r] == if r in slaves then heap[r].(started := true) else heap[r]
    decreases |slaves|
  {
    if slaves != [] {
      hide Slaves.WellFormed;
      StartAllIsEach(heap, slaves[..|slaves| - 1]);
      assert slaves == slaves[..|slaves| - 1] + [slaves[|slaves| - 1]];
    }
  }

  /** The broadcast loop, the same in both programs: every slave whose index is below the online count is written to, and the accepted writes counted. */
  method WriteToOnline<R(==)>(sim: NetworkSimulator<R>, reg: uint16, data: seq<uint8>, clock: Readings) returns (ack: uint16)
    requires sim.Valid() && Ready(sim.View()) && |data| <= MAX_PAYLOAD
    modifies sim`heap
    ensures sim.Valid()
    ensures (sim.View(), ack) == Broadcast(old(sim.View()), OnlineSlaveCount(old(sim.View())), reg, data, clock)
  {
    hide WellFormed, Roomy, HeapOk, WriteByIndex;
    ack := 0;
    var online := sim.OnlineSlaveCount();
    for idx := 0 to online
      invariant sim.Valid() && Ready(sim.View())
      invariant (sim.View(), ack) == Broadcast(old(sim.View()), idx, reg, data, clock)
    {
      ghost var before := sim.View();
      var ok := sim.WriteToSlaveByIndex(idx, reg, data, clock(idx));
      assert (sim.View(), ok) == WriteByIndexReady(before, idx, reg, data, clock(idx));
      if ok {
        ack := Increment(ack);
      }
    }
  }

  class SlavesEndpoint<R(==)> {
    const sim: NetworkSimulator<R>

    constructor (sim: NetworkSimulator<R>)
      ensures this.sim == sim
    {
      this.sim := sim;
    }

    /** What a new connection starts from: a registry of fresh EL1258 slaves with station addresses from 1,
        all started, and the link up. `refs` are the objects allocated for them. */
    method Prepare(refs: seq<R>)
      requires sim.Valid() && Distinct(refs)
      modifies sim
      ensures sim.Valid() && IsPrepared(sim.View(), refs)
    {
      sim.ClearVirtualSlaves();
      for i := 0 to |refs|
        invariant sim.Valid() && sim.slaves == refs[..i] && sim.virtualSlaveCount == i
        invariant forall k :: 0 <= k < i ==> refs[k] in sim.heap && sim.heap[refs[k]] == NewSlave(k)
      {
        hide NewSlave, Slaves.WellFormed;
        NewSlaveOk(i);
        sim.AddVirtualSlave(refs[i], NewSlave(i));
      }
      assert refs[..|refs|] == refs;
      StartAllIsEach(sim.heap, refs);
      sim.StartAllSlaves();
      sim.SetLinkUp(true);
    }

    /** One datagram: its data and working counter change, and the simulator's slaves and memory. */
    method ProcessDatagram(d: Datagram, clock: Readings) returns (out: Datagram)
      requires sim.Valid() && Ready(sim.View()) && Ok(d)
      modifies sim`heap, sim`logical
      ensures sim.Valid() && (sim.View(), out) == EndpointStep(old(sim.View()), d, clock)
    {
      hide WellFormed, Roomy, Broadcast, ReadFromSlave, WriteToSlave, ReadByIndex, WriteByIndex, OnlyHeap, CountOnline;
      hide WriteToSlaveReady, WriteByIndexReady, ReadLogical, WriteLogical, SimulatorModel.OnlineSlaveCount;
      hide HeapOk, Slaves.WellFormed, Position, Offset, Lookup, InLogical, CountedOnly, Increment, Cut16, Negated16;
      var ack: uint16 := 0;
      var data := d.data;
      var pos, ado := Position(d.header.address), Offset(d.header.address);
      var ok := false;
      var c := d.header.command;
      if c == NOP {
        ack := 0;
      } else if c == BRD || c == ARMW || c == FRMW {
        var n := sim.OnlineSlaveCount();
        ack := Cut16(n);
        if ack == 0 {
          ack := 1;
        }
      } else if c == BWR || c == BRW {
        ack := WriteToOnline(sim, ado, data, clock);
      } else if c == FPRD || c == FPWR || c == FPRW {
        if c == FPRD {
          data, ok := sim.ReadFromSlave(pos, ado, data);
        } else {
          ok := sim.WriteToSlave(pos, ado, data, clock(0));
        }
        ack := if ok then 1 else 0;
      } else if c == APRD || c == APWR || c == APRW {
        var idx := if pos >= 0x8000 then Negated16(pos) else pos;
        if c == APRD {
          data, ok := sim.ReadFromSlaveByIndex(idx, ado, data);
        } else {
          ok := sim.WriteToSlaveByIndex(idx, ado, data, clock(0));
        }
        ack := if ok then 1 else 0;
      } else if c == LRD || c == LWR || c == LRW {
        if c == LRD {
          data, ok := sim.ReadLogical(d.header.address, data);
        } else {
          ok := sim.WriteLogical(d.header.address, data);
        }
        ack := if ok then 1 else 0;
      } else {
        var n := sim.OnlineSlaveCount();
        ack := if n > 0 then 1 else 0;
      }
      out := d.(data := data, wkc := ack);
    }

    /** Steps a frame in place, datagram by datagram. */
    method ProcessFrame(frame: array<Datagram>, clocks: seq<Readings>)
      requires sim.Valid() && Ready(sim.View()) && FrameOk(frame[..]) && |clocks| == frame.Length
      modifies sim`heap, sim`logical, frame
      ensures sim.Valid() && (sim.View(), frame[..]) == Process(old(sim.View()), old(frame[..]), clocks)
    {
      hide WellFormed, Roomy, HeapOk, EndpointStep, Process;
      ghost var f := frame[..];
      ProcessNone(sim.View());
      assert f[..0] == [] && clocks[..0] == [];
      for i := 0 to frame.Length
        invariant sim.Valid() && Ready(sim.View())
        invariant frame[i..] == f[i..]
        invariant (sim.View(), frame[..i]) == Process(old(sim.View()), f[..i], clocks[..i])
      {
        ProcessNext(old(sim.View()), f, clocks, i);
        assert frame[i] == frame[i..][0] == f[i];
        ghost var done := frame[..i];
        var d := ProcessDatagram(frame[i], clocks[i]);
        frame[i] := d;
        assert frame[..i + 1] == done + [d];
      }
      assert f[..frame.Length] == f && clocks[..frame.Length] == clocks && frame[..frame.Length] == frame[..];
    }
  }

  class SimSocket<R(==)> {
    const sim: NetworkSimulator<R>

    constructor (sim: NetworkSimulator<R>)
      ensures this.sim == sim
    {
      this.sim := sim;
    }

    /** One datagram, by the socket's own rules. */
    method SimulateDatagram(d: Datagram, clock: Readings) returns (out: Datagram)
      requires sim.Valid() && Ready(sim.View()) && Ok(d)
      modifies sim`heap, sim`logical
      ensures sim.Valid() && (sim.View(), out) == SocketStep(old(sim.View()), d, clock)
    {
      hide WellFormed, Roomy, Broadcast, ReadFromSlave, WriteToSlave, ReadByIndex, WriteByIndex, OnlyHeap, CountOnline;
      hide WriteToSlaveReady, WriteByIndexReady, ReadLogical, WriteLogical, SimulatorModel.OnlineSlaveCount;
      hide HeapOk, Slaves.WellFormed, Position, Offset, Lookup, InLogical, CountedOnly, Increment, Cut16, Negated16;
      var ack: uint16 := 0;
      var data := d.data;
      var pos, ado := Position(d.header.address), Offset(d.header.address);
      var ok := false;
      var c := d.header.command;
      if c == BRD {
        var n := sim.OnlineSlaveCount();
        ack := Cut16(n);
      } else if c == BWR || c == BRW {
        ack := WriteToOnline(sim, ado, data, clock);
      } else if c == FPRD || c == FPWR || c == FPRW {
        if c == FPRD {
          data, ok := sim.ReadFromSlave(pos, ado, data);
        } else {
          ok := sim.WriteToSlave(pos, ado, data, clock(0));
        }
        ack := if ok then 1 else 0;
      } else if c == APRD || c == APWR || c == APRW {
        var idx := 0;
        if pos / 0x8000 % 2 == 1 {
          idx := Negated16(pos);
        } else if pos != 0 {
          idx := pos;
        }
        if c == APRD {
          data, ok := sim.ReadFromSlaveByIndex(idx, ado, data);
        } else {
          ok := sim.WriteToSlaveByIndex(idx, ado, data, clock(0));
        }
        ack := if ok then 1 else 0;
      } else if c == LRD || c == LWR || c == LRW {
        if c == LRD {
          data, ok := sim.ReadLogical(d.header.address, data);
        } else {
          ok := sim.WriteLogical(d.header.address, data);
        }
        ack := if ok then 1 else 0;
      } else {
        var n := sim.OnlineSlaveCount();
        ack := if n > 0 then 1 else 0;
      }
      out := d.(data := data, wkc := ack);
    }

    /** Processes a frame and queues the result for reading; a frame is dropped while the link is down. */
    method Write(frame: Frame, clocks: seq<Readings>, now: int) returns (ok: bool)
      requires sim.Valid() && Ready(sim.View()) && FrameOk(frame) && |clocks| == |frame|
      modifies sim`heap, sim`logical, sim`queue
      ensures sim.Valid() && (sim.View(), ok) == SocketWrite(old(sim.View()), frame, clocks, now)
    {
      hide WellFormed, Roomy, HeapOk, SocketStep, SocketProcess;
      if !sim.linkUp {
        return false;
      }
      var f: Frame := [];
      ProcessNone(sim.View());
      assert frame[..0] == [] && clocks[..0] == [];
      for i := 0 to |frame|
        modifies sim`heap, sim`logical
        invariant sim.Valid() && Ready(sim.View())
        invariant (sim.View(), f) == SocketProcess(old(sim.View()), frame[..i], clocks[..i])
      {
        SocketProcessNext(old(sim.View()), frame, clocks, i);
        var d := SimulateDatagram(frame[i], clocks[i]);
        f := f + [d];
      }
      assert frame[..|frame|] == frame && clocks[..|frame|] == clocks;
      ok := sim.SendFrame(f, now);
    }

    /** The next processed frame, once it is due. */
    method Read(now: int) returns (frame: Option<Frame>)
      requires sim.Valid()
      modifies sim`queue
      ensures sim.Valid() && (sim.View(), frame) == ReceiveFrame(old(sim.View()), now)
    {
      frame := sim.ReceiveFrame(now);
    }
  }
}
