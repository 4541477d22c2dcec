/** The periodic pass as a whole: what it leaves in logical memory and in the list of input maps. */
module ProcessImage {
  import opened Bytes
  import opened SimulatorModel
  import E = El1258Model
  import S = SubsModel
  import Slaves = SlaveModel
  import SP = SlaveProperties
  import Debounce

  predicate Refreshable<R(==)>(heap: map<R, Slaves.Slave>, maps: seq<InputMap<R>>, clocks: seq<E.Clock>) {
    && HeapOk(heap) && |clocks| == |maps|
    && forall m :: m in maps ==> m.slave in heap && m.width <= MAX_MAP_WIDTH
  }

  /** What map `k` reads, its slave being in the state the maps before it left. */
  function Reading<R(==)>(heap: map<R, Slaves.Slave>, logical: seq<uint8>, maps: seq<InputMap<R>>, alive: set<R>,
                          clocks: seq<E.Clock>, k: nat): Option<uint32>
    requires Refreshable(heap, maps, clocks) && k < |maps|
  {
    ReadMap(Refresh(heap, logical, maps[..k], alive, clocks[..k]).0, maps[k], alive, clocks[k]).1
  }

  predicate Covers<R>(m: InputMap<R>, a: nat) { m.address as int <= a < m.address as int + m.width }

  /** No map before `n` that covers `a` reads anything, from position `k` on. */
  predicate NoWriterFrom<R(==)>(heap: map<R, Slaves.Slave>, logical: seq<uint8>, maps: seq<InputMap<R>>, alive: set<R>,
                                clocks: seq<E.Clock>, k: nat, n: nat, a: nat)
    requires Refreshable(heap, maps, clocks) && n <= |maps|
  {
    forall j :: k <= j < n && Covers(maps[j], a) ==> Reading(heap, logical, maps, alive, clocks, j).None?
  }

  /** Map `k` is the last before `n` that covers `a` and reads something. */
  predicate LastWriter<R(==)>(heap: map<R, Slaves.Slave>, logical: seq<uint8>, maps: seq<InputMap<R>>, alive: set<R>,
                              clocks: seq<E.Clock>, k: nat, n: nat, a: nat)
    requires Refreshable(heap, maps, clocks) && k < n <= |maps|
  {
    && Covers(maps[k], a) && Reading(heap, logical, maps, alive, clocks, k).Some?
    && NoWriterFrom(heap, logical, maps, alive, clocks, k + 1, n, a)
  }

  lemma OverlayAt<R>(logical: seq<uint8>, m: InputMap<R>, bits: uint32, a: nat)
    requires m.width <= MAX_MAP_WIDTH && a < |logical|
    ensures Overlay(logical, m.address, m.width, bits)[a] ==
            if Covers(m, a) then Le32Bytes(bits)[a - m.address as int] else logical[a]
  {}

  /** Logical memory after the first `n` maps. */
  function MemoryAfter<R(==)>(heap: map<R, Slaves.Slave>, logical: seq<uint8>, maps: seq<InputMap<R>>, alive: set<R>,
                              clocks: seq<E.Clock>, n: nat): (l: seq<uint8>)
    requires Refreshable(heap, maps, clocks) && n <= |maps|
    ensures |l| == |logical|
  {
    Refresh(heap, logical, maps[..n], alive, clocks[..n]).1
  }

  lemma MemoryNext<R>(heap: map<R, Slaves.Slave>, logical: seq<uint8>, maps: seq<InputMap<R>>, alive: set<R>,
                      clocks: seq<E.Clock>, n: nat, a: nat)
    requires Refreshable(heap, maps, clocks) && n < |maps| && a < |logical|
    ensures var bits := Reading(heap, logical, maps, alive, clocks, n);
            MemoryAfter(heap, logical, maps, alive, clocks, n + 1)[a] ==
            if bits.Some? && Covers(maps[n], a) then Le32Bytes(bits.value)[a - maps[n].address as int]
            else MemoryAfter(heap, logical, maps, alive, clocks, n)[a]
  {
    hide ReadMap, HeapOk, Overlay, Le32Bytes;
    RefreshNext(heap, logical, maps, alive, clocks, n);
    var bits := Reading(heap, logical, maps, alive, clocks, n);
    if bits.Some? {
      OverlayAt(MemoryAfter(heap, logical, maps, alive, clocks, n), maps[n], bits.value, a);
    }
  }

  lemma MemoryStart<R>(heap: map<R, Slaves.Slave>, logical: seq<uint8>, maps: seq<InputMap<R>>, alive: set<R>, clocks: seq<E.Clock>)
    requires Refreshable(heap, maps, clocks)
    ensures MemoryAfter(heap, logical, maps, alive, clocks, 0) == logical
  {}

  /** One more map: it is the last writer if it covers the byte and reads something, and else changes nothing. */
  lemma WriterNext<R>(heap: map<R, Slaves.Slave>, logical: seq<uint8>, maps: seq<InputMap<R>>, alive: set<R>,
                      clocks: seq<E.Clock>, k: nat, n: nat, a: nat)
    requires Refreshable(heap, maps, clocks) && k <= n < |maps|
    ensures var writes := Covers(maps[n], a) && Reading(heap, logical, maps, alive, clocks, n).Some?;
            && (NoWriterFrom(heap, logical, maps, alive, clocks, k, n + 1, a) <==>
                  NoWriterFrom(heap, logical, maps, alive, clocks, k, n, a) && !writes)
            && (LastWriter(heap, logical, maps, alive, clocks, k, n + 1, a) <==>
                  if k == n then writes else LastWriter(heap, logical, maps, alive, clocks, k, n, a) && !writes)
  {
    hide Refreshable, Reading, Covers;
  }

  /** The overlay in closed form: each byte of logical memory is the one of the last map that read something
      and covers it, taken little-endian from that reading; bytes no such map covers are unchanged. */
  lemma {:induction false} EachByteIsTheLastWriters<R>(heap: map<R, Slaves.Slave>, logical: seq<uint8>, maps: seq<InputMap<R>>,
                                                       alive: set<R>, clocks: seq<E.Clock>, n: nat, a: nat)
    requires Refreshable(heap, maps, clocks) && n <= |maps| && a < |logical|
    ensures var after := MemoryAfter(heap, logical, maps, alive, clocks, n)[a];
            && (NoWriterFrom(heap, logical, maps, alive, clocks, 0, n, a) ==> after == logical[a])
            && (forall k :: 0 <= k < n && LastWriter(heap, logical, maps, alive, clocks, k, n, a) ==>
                  after == Le32Bytes(Reading(heap, logical, maps, alive, clocks, k).value)[a - maps[k].address as int])
    decreases n
  {
    hide MemoryAfter, Reading, NoWriterFrom, HeapOk;
    MemoryStart(heap, logical, maps, alive, clocks);
    if n > 0 {
      EachByteIsTheLastWriters(heap, logical, maps, alive, clocks, n - 1, a);
      MemoryNext(heap, logical, maps, alive, clocks, n - 1, a);
      WriterNext(heap, logical, maps, alive, clocks, 0, n - 1, a);
      forall k | 0 <= k < n && LastWriter(heap, logical, maps, alive, clocks, k, n, a)
        ensures Covers(maps[k], a) && Reading(heap, logical, maps, alive, clocks, k).Some?
        ensures MemoryAfter(heap, logical, maps, alive, clocks, n)[a] ==
                Le32Bytes(Reading(heap, logical, maps, alive, clocks, k).value)[a - maps[k].address as int]
      {
        WriterNext(heap, logical, maps, alive, clocks, k, n - 1, a);
      }
    }
  }

  /** The whole pass: logical memory is overlaid by the maps as above, over slaves whose routines have run. */
  lemma RunOnceProcessImage<R>(s: Sim<R>, alive: set<R>, clocks: seq<E.Clock>, a: nat)
    requires WellFormed(s) && |clocks| == |s.maps| && a < LOGICAL_SIZE
    ensures var heap := RoutineAll(s.heap, s.slaves);
            var after := RunOnce(s, alive, clocks).logical[a];
            && Refreshable(heap, s.maps, clocks)
            && (NoWriterFrom(heap, s.logical, s.maps, alive, clocks, 0, |s.maps|, a) ==> after == s.logical[a])
            && (forall k :: 0 <= k < |s.maps| && LastWriter(heap, s.logical, s.maps, alive, clocks, k, |s.maps|, a) ==>
                  after == Le32Bytes(Reading(heap, s.logical, s.maps, alive, clocks, k).value)[a - s.maps[k].address as int])
  {
    hide Reading;
    EachByteIsTheLastWriters(RoutineAll(s.heap, s.slaves), s.logical, s.maps, alive, clocks, |s.maps|, a);
    assert s.maps[..|s.maps|] == s.maps && clocks[..|s.maps|] == clocks;
  }

  /** A map reads exactly when its slave is alive and has inputs; a terminal's reading has, at bit `ch`, the
      debounced level of channel `ch`, and nothing above bit 7, so a map's further bytes are zero. */
  lemma TerminalReading<R>(heap: map<R, Slaves.Slave>, m: InputMap<R>, alive: set<R>, clock: E.Clock, ch: nat)
    requires HeapOk(heap) && m.slave in heap
    ensures var (_, bits) := ReadMap(heap, m, alive, clock);
            var device := heap[m.slave].device;
            && (bits.Some? <==> m.slave in alive && !device.Plain?)
            && (bits.Some? && device.Terminal? ==>
                  && bits.value < 0x100
                  && Bit(bits.value, ch) == (ch < E.CHANNEL_COUNT && E.Level(E.Latch(device.t, ch, clock[ch]), ch)))
            && (bits.Some? && device.Subs? ==>
                  bits.value < 0x100
                  && Bit(bits.value, ch) == (ch < S.CHANNEL_COUNT && device.s.channels[ch] != Bit(device.s.invert, ch)))
  {
    var device := heap[m.slave].device;
    assert Slaves.WellFormed(heap[m.slave]);
    match device
    case Plain =>
    case Terminal(t) => E.AggregateBit(t, clock, ch);
    case Subs(d) =>
      S.AggregateBit(d, ch);
      assert S.Aggregate(d) < 0x100;
  }

  /** What a pass over these maps does to one terminal: each live map that names it reads all its channels. */
  function PassReads<R(==)>(maps: seq<InputMap<R>>, alive: set<R>, clocks: seq<E.Clock>, r: R): seq<E.Stimulus>
    requires |clocks| == |maps|
  {
    if maps == [] then []
    else
      var k := |maps| - 1;
      PassReads(maps[..k], alive, clocks[..k], r) + if maps[k].slave == r && r in alive then [E.ReadAll(clocks[k])] else []
  }

  lemma {:induction false} PassReadsTerminals<R>(heap: map<R, Slaves.Slave>, logical: seq<uint8>, maps: seq<InputMap<R>>,
                                                 alive: set<R>, clocks: seq<E.Clock>, r: R)
    requires Refreshable(heap, maps, clocks) && r in heap && heap[r].device.Terminal? && E.WellFormed(heap[r].device.t)
    ensures var h := Refresh(heap, logical, maps, alive, clocks).0;
            r in h && h[r].device == Slaves.Terminal(E.ApplyAll(heap[r].device.t, PassReads(maps, alive, clocks, r)))
    decreases |maps|
  {
    hide Slaves.WellFormed, HeapOk, Overlay, E.Apply, ReadMap;
    if maps != [] {
      var k := |maps| - 1;
      PassReadsTerminals(heap, logical, maps[..k], alive, clocks[..k], r);
      var before := PassReads(maps[..k], alive, clocks[..k], r);
      ReadMapOnTerminal(Refresh(heap, logical, maps[..k], alive, clocks[..k]).0, maps[k], alive, clocks[k], r);
      assert (before + [E.ReadAll(clocks[k])])[..|before|] == before;
      assert before + [] == before;
    }
  }

  lemma ReadMapOnTerminal<R>(heap: map<R, Slaves.Slave>, m: InputMap<R>, alive: set<R>, clock: E.Clock, r: R)
    requires HeapOk(heap) && m.slave in heap && r in heap && heap[r].device.Terminal? && E.WellFormed(heap[r].device.t)
    ensures var h := ReadMap(heap, m, alive, clock).0;
            r in h && h[r].device ==
            if m.slave == r && r in alive then Slaves.Terminal(E.Apply(heap[r].device.t, E.ReadAll(clock))) else heap[r].device
  {}

  /** What map `k` reads from a terminal in the state it finds it in. */
  lemma TerminalFound<R>(s: Sim<R>, alive: set<R>, clocks: seq<E.Clock>, k: nat, t: E.Terminal, ss: seq<E.Stimulus>)
    requires WellFormed(s) && |clocks| == |s.maps| && k < |s.maps| && E.WellFormed(t)
    requires s.maps[k].slave in s.heap && s.maps[k].slave in alive
    requires s.heap[s.maps[k].slave].device == Slaves.Terminal(E.ApplyAll(t, ss))
    ensures var heap := RoutineAll(s.heap, s.slaves);
            var found := E.ApplyAll(t, ss + PassReads(s.maps[..k], alive, clocks[..k], s.maps[k].slave));
            && Refreshable(heap, s.maps, clocks)
            && Reading(heap, s.logical, s.maps, alive, clocks, k) == Some(E.Aggregate(E.LatchAll(found, clocks[k])))
  {
    hide E.ApplyAll, E.LatchAll, E.Aggregate, Slaves.Routine;
    var r := s.maps[k].slave;
    var heap := RoutineAll(s.heap, s.slaves);
    RoutineAllIsEach(s.heap, s.slaves, r);
    RoutineTwice(s.heap[r]);
    assert forall m :: m in s.maps[..k] ==> m in s.maps;
    PassReadsTerminals(heap, s.logical, s.maps[..k], alive, clocks[..k], r);
    E.ApplyAllAppend(t, ss, PassReads(s.maps[..k], alive, clocks[..k], r));
  }

  /** A pulse away from and back to the level shown, shorter than the debounce time, is invisible in the process image
      too. Let a terminal go through any timed run in which channel `ch` sees only such pulses, the reads of this very
      pass by maps before `k` included; then after the pass bit `ch` of the first byte map `k` is last to write is the
      channel's old level. */
  lemma GlitchesStayOutOfTheImage<R>(s: Sim<R>, alive: set<R>, clocks: seq<E.Clock>, k: nat, t: E.Terminal,
                                     ss: seq<E.Stimulus>, ch: nat)
    requires WellFormed(s) && |clocks| == |s.maps| && k < |s.maps| && E.WellFormed(t)
    requires s.maps[k].slave in s.heap && s.maps[k].slave in alive
    requires s.heap[s.maps[k].slave].device == Slaves.Terminal(E.ApplyAll(t, ss))
    requires s.maps[k].address < LOGICAL_SIZE && s.maps[k].width > 0
    requires forall j :: k < j < |s.maps| ==> !Covers(s.maps[j], s.maps[k].address)
    requires ch < E.CHANNEL_COUNT && t.debounceMs > 0 && t.raw[ch] == t.shown[ch]
    requires var es := E.ViewAll(t, ss + PassReads(s.maps[..k], alive, clocks[..k], s.maps[k].slave), ch)
                       + [Debounce.Sample(clocks[k][ch])];
             Debounce.Ordered(E.Channel(t, ch), es) && Debounce.OnlyShortExcursions(es, t.shown[ch], t.debounceMs)
    ensures Bit(RunOnce(s, alive, clocks).logical[s.maps[k].address], ch) == E.Level(t, ch)
  {
    hide RunOnce, RoutineAll, Reading, E.Aggregate, E.LatchAll, E.Level, E.ApplyAll, LastWriter, Le32Bytes, Bit, PassReads;
    hide Debounce.OnlyShortExcursions, Debounce.Ordered, Slaves.WellFormed, HeapOk;
    var a := s.maps[k].address;
    var sampled := PassReads(s.maps[..k], alive, clocks[..k], s.maps[k].slave);
    TerminalFound(s, alive, clocks, k, t, ss);
    RunOnceProcessImage(s, alive, clocks, a);
    LastToCoverWrites(RoutineAll(s.heap, s.slaves), s.logical, s.maps, alive, clocks, k, a);
    E.TerminalHidesGlitches(t, ss + sampled, ch, clocks[k][ch], clocks[k]);
    E.AggregateBit(E.ApplyAll(t, ss + sampled), clocks[k], ch);
    FirstByte(E.Aggregate(E.LatchAll(E.ApplyAll(t, ss + sampled), clocks[k])));
  }

  lemma LastToCoverWrites<R>(heap: map<R, Slaves.Slave>, logical: seq<uint8>, maps: seq<InputMap<R>>, alive: set<R>,
                             clocks: seq<E.Clock>, k: nat, a: nat)
    requires Refreshable(heap, maps, clocks) && k < |maps| && Covers(maps[k], a)
    requires Reading(heap, logical, maps, alive, clocks, k).Some?
    requires forall j :: k < j < |maps| ==> !Covers(maps[j], a)
    ensures LastWriter(heap, logical, maps, alive, clocks, k, |maps|, a)
  {}

  lemma FirstByte(v: uint32)
    requires v < 0x100
    ensures Le32Bytes(v)[0] == v
  {}

  /** Erasing the dead maps keeps exactly the live ones, in order, and is done piece by piece. */
  lemma {:induction false} LiveKeepsExactlyTheLive<R>(a: seq<InputMap<R>>, b: seq<InputMap<R>>, alive: set<R>)
    ensures Live(a + b, alive) == Live(a, alive) + Live(b, alive)
    ensures forall m :: m in Live(b, alive) <==> m in b && m.slave in alive
    decreases |b|
  {
    if b == [] {
      assert a + b == a;
    } else {
      var k := |b| - 1;
      assert (a + b)[..|a| + k] == a + b[..k];
      assert b == b[..k] + [b[k]];
      LiveKeepsExactlyTheLive(a, b[..k], alive);
    }
  }

  // ---- what a pass does to the slaves

  lemma RoutineTwice(v: Slaves.Slave)
    requires Slaves.WellFormed(v)
    ensures var w := Slaves.Routine(v);
            && w == v.(regs := w.regs) && Slaves.Routine(w) == w
            && (v.started ==> SP.Mirrors(w))
  {}

  /** Each online slave of the registry takes its routine once, however often it is registered. */
  lemma {:induction false} RoutineAllIsEach<R>(heap: map<R, Slaves.Slave>, slaves: seq<R>, r: R)
    requires HeapOk(heap) && (forall q :: q in slaves ==> q in heap) && r in heap
    ensures RoutineAll(heap, slaves)[r] == if r in slaves && heap[r].online then Slaves.Routine(heap[r]) else heap[r]
    decreases |slaves|
  {
    hide Slaves.Routine, Slaves.WellFormed;
    if slaves != [] {
      var k := |slaves| - 1;
      assert slaves == slaves[..k] + [slaves[k]];
      RoutineAllIsEach(heap, slaves[..k], r);
      RoutineTwice(heap[r]);
      RoutineAllIsEach(heap, slaves[..k], slaves[k]);
    }
  }

  /** Reading the maps touches nothing of a slave but its derived part. */
  lemma {:induction false} RefreshTouchesDevices<R>(heap: map<R, Slaves.Slave>, logical: seq<uint8>, maps: seq<InputMap<R>>,
                                                    alive: set<R>, clocks: seq<E.Clock>, r: R)
    requires Refreshable(heap, maps, clocks) && r in heap
    ensures var h := Refresh(heap, logical, maps, alive, clocks).0;
            r in h && h[r] == heap[r].(device := h[r].device)
    decreases |maps|
  {
    hide Slaves.WellFormed, Overlay;
    if maps != [] { RefreshTouchesDevices(heap, logical, maps[..|maps| - 1], alive, clocks[..|maps| - 1], r); }
  }

  /** After a pass the status registers of every started online slave show its fields, whatever was written
      over them; other slaves keep their registers, and no slave loses anything else. */
  lemma PassRestoresMirrors<R>(s: Sim<R>, alive: set<R>, clocks: seq<E.Clock>, r: R)
    requires WellFormed(s) && |clocks| == |s.maps| && r in s.heap
    ensures var t := RunOnce(s, alive, clocks);
            && r in t.heap
            && t.heap[r] == s.heap[r].(regs := t.heap[r].regs, device := t.heap[r].device)
            && (if r in s.slaves && s.heap[r].online && s.heap[r].started then SP.Mirrors(t.heap[r])
                else t.heap[r].regs == s.heap[r].regs)
  {
    RoutineAllIsEach(s.heap, s.slaves, r);
    RoutineTwice(s.heap[r]);
    RefreshTouchesDevices(RoutineAll(s.heap, s.slaves), s.logical, s.maps, alive, clocks, r);
  }

  /** Clearing the input maps takes the mapping flag from exactly the live slaves some map names. */
  lemma {:induction false} UnmapAllIsEach<R>(heap: map<R, Slaves.Slave>, maps: seq<InputMap<R>>, alive: set<R>, r: R)
    requires HeapOk(heap) && (forall m :: m in maps ==> m.slave in heap) && r in heap
    ensures UnmapAll(heap, maps, alive)[r] ==
            if r in alive && (exists m :: m in maps && m.slave == r) then heap[r].(mapped := false) else heap[r]
    decreases |maps|
  {
    hide Slaves.WellFormed;
    if maps != [] {
      var k := |maps| - 1;
      assert maps == maps[..k] + [maps[k]];
      UnmapAllIsEach(heap, maps[..k], alive, r);
    }
  }
}
