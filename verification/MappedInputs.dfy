/** Mapping a slave's inputs into logical memory: what it lets the slave do, and what the next pass writes. */
module MappedInputs {
  import opened Bytes
  import opened AlMachine
  import opened SimulatorModel
  import opened ProcessImage
  import opened DictionaryProperties
  import opened StatusRegisters
  import E = El1258Model
  import Slaves = SlaveModel
  import SP = SlaveProperties

  /** The map is appended with its slave, address and width; the slave is marked as mapped and is otherwise as it was, and
      nothing else changes. So from PRE_OP it can be requested into SAFE_OP, which it then shows. */
  lemma MappedSlaveEntersSafeOp<R>(s: Sim<R>, r: R, state: Slaves.Slave, address: uint32, width: nat, clock: E.Clock)
    requires WellFormed(s) && SP.Mirrors(state) && width <= 4 && state.al.state == PreOp
    ensures var t := MapInputs(s, r, state, address, width);
            && t == s.(maps := s.maps + [InputMap(r, address, width)], heap := s.heap[r := state.(mapped := true)])
            && var w := Slaves.Write(t.heap[r], 0x120, [4, 0], clock).0;
               Slaves.WellFormed(w) && w.regs[0x130] == 4
  {
    AcceptedRequestShowsItself(state.(mapped := true), 4, clock);
    hide Slaves.Write;
  }

  /** The next pass writes a terminal's channels at the given address, channel k as binary digit k of the first byte, and
      zeros behind it up to the width, as far as memory goes. The channels are read after whatever the earlier maps of
      the same terminal read in that pass. */
  lemma MappedTerminalIsImaged<R>(s: Sim<R>, r: R, state: Slaves.Slave, address: uint32, width: nat, alive: set<R>,
                                  clocks: seq<E.Clock>, ch: nat, j: nat)
    requires WellFormed(s) && Slaves.WellFormed(state) && state.device.Terminal? && 1 <= width <= 4 && r in alive
    requires |clocks| == |s.maps| + 1 && ch < 8 && j < width && address as int + j < 16384
    ensures var t := MapInputs(s, r, state, address, width);
            var k := |s.maps|;
            var found := E.ApplyAll(state.device.t, PassReads(s.maps, alive, clocks[..k], r));
            var after := RunOnce(t, alive, clocks).logical;
            && |t.maps| == k + 1
            && (after[address] / WEIGHTS[ch] % 2 == 1 <==> ReadsHigh(found, ch, clocks[k][ch]))
            && (j > 0 ==> after[address as int + j] == 0)
  {
    hide MapInputs, RunOnce, RoutineAll, Reading, E.Aggregate, E.LatchAll, E.Latch, E.Level, E.ApplyAll, Le32Bytes;
    hide PassReads, ReadsHigh, Slaves.WellFormed, HeapOk, Refreshable;
    var t := MapInputs(s, r, state, address, width);
    var k := |s.maps|;
    LastMapFinds(s, r, state, address, width, alive, clocks);
    var found := E.ApplyAll(state.device.t, PassReads(s.maps, alive, clocks[..k], r));
    var v := E.Aggregate(E.LatchAll(found, clocks[k]));
    E.AggregateBit(found, clocks[k], ch);
    BitIsDigit(v, ch);
    LevelReads(found, ch, clocks[k][ch]);
    ByteOfLastMap(t, alive, clocks, k, v, 0);
    ByteOfLastMap(t, alive, clocks, k, v, j);
    SmallBytes(v, j);
  }

  lemma LastMapFinds<R>(s: Sim<R>, r: R, state: Slaves.Slave, address: uint32, width: nat, alive: set<R>, clocks: seq<E.Clock>)
    requires WellFormed(s) && Slaves.WellFormed(state) && state.device.Terminal? && 1 <= width <= 4 && r in alive
    requires |clocks| == |s.maps| + 1
    ensures E.WellFormed(state.device.t)
    ensures var t := MapInputs(s, r, state, address, width);
            var k := |s.maps|;
            var found := E.ApplyAll(state.device.t, PassReads(s.maps, alive, clocks[..k], r));
            && |t.maps| == k + 1 && t.maps[k] == InputMap(r, address, width)
            && Refreshable(RoutineAll(t.heap, t.slaves), t.maps, clocks)
            && Reading(RoutineAll(t.heap, t.slaves), t.logical, t.maps, alive, clocks, k)
               == Some(E.Aggregate(E.LatchAll(found, clocks[k])))
  {
    var t := MapInputs(s, r, state, address, width);
    var k := |s.maps|;
    assert t.maps[..k] == s.maps && t.maps[k] == InputMap(r, address, width);
    assert E.ApplyAll(state.device.t, []) == state.device.t;
    assert [] + PassReads(s.maps, alive, clocks[..k], r) == PassReads(s.maps, alive, clocks[..k], r);
    hide RoutineAll, Reading, E.Aggregate, E.LatchAll, E.ApplyAll, PassReads, Slaves.WellFormed, HeapOk, Refreshable;
    TerminalFound(t, alive, clocks, k, state.device.t, []);
  }

  lemma ByteOfLastMap<R>(t: Sim<R>, alive: set<R>, clocks: seq<E.Clock>, k: nat, v: uint32, j: nat)
    requires WellFormed(t) && |clocks| == |t.maps| == k + 1 && j < t.maps[k].width && t.maps[k].address as int + j < 16384
    requires Refreshable(RoutineAll(t.heap, t.slaves), t.maps, clocks)
    requires Reading(RoutineAll(t.heap, t.slaves), t.logical, t.maps, alive, clocks, k) == Some(v)
    ensures j < 4 && RunOnce(t, alive, clocks).logical[t.maps[k].address as int + j] == Le32Bytes(v)[j]
  {
    hide RunOnce, RoutineAll, Reading, Le32Bytes, HeapOk;
    var a := t.maps[k].address as int + j;
    assert t.maps[k] in t.maps;
    RunOnceProcessImage(t, alive, clocks, a);
    LastToCoverWrites(RoutineAll(t.heap, t.slaves), t.logical, t.maps, alive, clocks, k, a);
  }

  lemma SmallBytes(v: uint32, j: nat)
    requires v < 0x100 && j < 4
    ensures Le32Bytes(v)[0] == v && (j > 0 ==> Le32Bytes(v)[j] == 0)
  {}
}
