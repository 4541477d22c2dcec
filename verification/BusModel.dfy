/** The two datagram steps over the simulator: the slaves endpoint's and the simulated socket's. */
module BusModel {
  import opened Bytes
  import opened Datagrams
  import opened SimulatorModel
  import E = El1258Model
  import Slaves = SlaveModel
  import SP = SlaveProperties

  /** Frames are processed while every slave can take a message; no frame-sized write changes that. */
  predicate Ready<R(==)>(s: Sim<R>) { WellFormed(s) && Roomy(s) }

  lemma WriteKeepsRoom(v: Slaves.Slave, reg: uint16, data: seq<uint8>, clock: E.Clock)
    requires Slaves.WellFormed(v) && Slaves.RoomForMessages(v) && |data| <= MAX_PAYLOAD
    ensures Slaves.RoomForMessages(Slaves.Write(v, reg, data, clock).0)
  {
    hide Slaves.Write, Slaves.WellFormed;
    SP.FrameWritesNeverRelocate(v, reg, |data|);
    SP.WriteTouches(v, reg, data, clock);
  }

  /** The clock readings of one datagram: a row for each slave it reaches, in the order it reaches them. */
  type Readings = nat -> E.Clock

  /** `++ack` on 16 bits. */
  function Increment(ack: uint16): uint16 { if ack == 0xFFFF then 0 else ack + 1 }

  /** Writes to the indices `0..n` in turn; the acknowledge counter is 16 bits wide. */
  function Broadcast<R(==)>(s: Sim<R>, n: nat, reg: uint16, data: seq<uint8>, clock: Readings): (t: (Sim<R>, uint16))
    requires Ready(s) && |data| <= MAX_PAYLOAD
    ensures Ready(t.0) && OnlyHeap(s, t.0)
  {
    if n == 0 then (s, 0)
    else
      var (u, ok) := Broadcast(s, n - 1, reg, data, clock);
      var (t, written) := WriteByIndexReady(u, n - 1, reg, data, clock(n - 1));
      (t, if written then Increment(ok) else ok)
  }

  /** `WriteByIndex` on a ready simulator, which stays ready. */
  function WriteByIndexReady<R(==)>(s: Sim<R>, index: nat, reg: uint16, data: seq<uint8>, clock: E.Clock): (t: (Sim<R>, bool))
    requires Ready(s) && |data| <= MAX_PAYLOAD
    ensures Ready(t.0) && t == WriteByIndex(s, index, reg, data, clock)
  {
    if OnlineAt(s, index) then
      WriteKeepsRoom(s.heap[s.slaves[index]], reg, data, clock);
      WriteByIndex(s, index, reg, data, clock)
    else (s, false)
  }

  function WriteToSlaveReady<R(==)>(s: Sim<R>, address: uint16, reg: uint16, data: seq<uint8>, clock: E.Clock): (t: (Sim<R>, bool))
    requires Ready(s) && |data| <= MAX_PAYLOAD
    ensures Ready(t.0) && t == WriteToSlave(s, address, reg, data, clock)
  {
    var r := Lookup(s.heap, s.slaves, address);
    if r.Some? then
      WriteKeepsRoom(s.heap[r.value], reg, data, clock);
      WriteToSlave(s, address, reg, data, clock)
    else WriteToSlave(s, address, reg, data, clock)
  }

  /** One more index of the broadcast loop. */
  lemma BroadcastNext<R>(s: Sim<R>, n: nat, reg: uint16, data: seq<uint8>, clock: Readings)
    requires Ready(s) && |data| <= MAX_PAYLOAD
    ensures var u, ack := Broadcast(s, n, reg, data, clock).0, Broadcast(s, n, reg, data, clock).1;
            && Broadcast(s, n + 1, reg, data, clock).0 == WriteByIndexReady(u, n, reg, data, clock(n)).0
            && Broadcast(s, n + 1, reg, data, clock).1 ==
               if WriteByIndexReady(u, n, reg, data, clock(n)).1 then Increment(ack) else ack
  {
    hide WriteByIndexReady, WriteByIndex, WellFormed, Roomy;
  }

  function Ack(ok: bool): uint16 { if ok then 1 else 0 }

  /** The online count cut to 16 bits, reported as 1 when that leaves nothing. */
  function AtLeastOne(n: nat): uint16 { if Cut16(n) == 0 then 1 else Cut16(n) }

  /** One datagram at the slaves endpoint. Read commands replace the data; write and read-write commands
      only write. */
  function EndpointStep<R(==)>(s: Sim<R>, d: Datagram, clock: Readings): (t: (Sim<R>, Datagram))
    requires Ready(s) && Ok(d)
    ensures Ready(t.0) && Ok(t.1)
  {
    hide Slaves.WellFormed, HeapOk, OnlyHeap;
    var pos, ado := Position(d.header.address), Offset(d.header.address);
    match d.header.command
    case NOP => (s, d.(wkc := 0))
    case BRD => (s, d.(wkc := AtLeastOne(OnlineSlaveCount(s))))
    case BWR | BRW =>
      var (u, ack) := Broadcast(s, OnlineSlaveCount(s), ado, d.data, clock);
      (u, d.(wkc := ack))
    case FPRD =>
      var (u, out, ok) := ReadFromSlave(s, pos, ado, d.data);
      (u, d.(data := out, wkc := Ack(ok)))
    case FPWR | FPRW =>
      var (u, ok) := WriteToSlaveReady(s, pos, ado, d.data, clock(0));
      (u, d.(wkc := Ack(ok)))
    case APRD =>
      var (u, out, ok) := ReadByIndex(s, DecodeIndex(pos), ado, d.data);
      (u, d.(data := out, wkc := Ack(ok)))
    case APWR | APRW =>
      var (u, ok) := WriteByIndexReady(s, DecodeIndex(pos), ado, d.data, clock(0));
      (u, d.(wkc := Ack(ok)))
    case LRD =>
      var (out, ok) := ReadLogical(s, d.header.address, d.data);
      (s, d.(data := out, wkc := Ack(ok)))
    case LWR | LRW =>
      var (u, ok) := WriteLogical(s, d.header.address, d.data);
      (u, d.(wkc := Ack(ok)))
    case ARMW | FRMW => (s, d.(wkc := AtLeastOne(OnlineSlaveCount(s))))
    case Unknown(_) => (s, d.(wkc := Ack(OnlineSlaveCount(s) > 0)))
  }

  /** The socket's own position decoder. */
  function SocketIndex(position: uint16): nat {
    if position == 0 then 0
    else if position / 0x8000 % 2 == 1 then Negated16(position)
    else position
  }

  /** One datagram at the simulated socket, which has its own dispatch. */
  function SocketStep<R(==)>(s: Sim<R>, d: Datagram, clock: Readings): (t: (Sim<R>, Datagram))
    requires Ready(s) && Ok(d)
    ensures Ready(t.0) && Ok(t.1)
  {
    hide Slaves.WellFormed, HeapOk, OnlyHeap;
    var c, pos, ado := d.header.command, Position(d.header.address), Offset(d.header.address);
    if c == BRD then (s, d.(wkc := Cut16(OnlineSlaveCount(s))))
    else if c in {BWR, BRW} then
      var (u, ack) := Broadcast(s, OnlineSlaveCount(s), ado, d.data, clock);
      (u, d.(wkc := ack))
    else if c in {FPRD, FPWR, FPRW} then
      var (u, out, ok) := if c == FPRD then ReadFromSlave(s, pos, ado, d.data)
                          else var (u, ok) := WriteToSlaveReady(s, pos, ado, d.data, clock(0)); (u, d.data, ok);
      (u, d.(data := out, wkc := Ack(ok)))
    else if c in {APRD, APWR, APRW} then
      var index := SocketIndex(pos);
      var (u, out, ok) := if c == APRD then ReadByIndex(s, index, ado, d.data)
                          else var (u, ok) := WriteByIndexReady(s, index, ado, d.data, clock(0)); (u, d.data, ok);
      (u, d.(data := out, wkc := Ack(ok)))
    else if c in {LRD, LWR, LRW} then
      var (u, out, ok) := if c == LRD then var (out, ok) := ReadLogical(s, d.header.address, d.data); (s, out, ok)
                          else var (u, ok) := WriteLogical(s, d.header.address, d.data); (u, d.data, ok);
      (u, d.(data := out, wkc := Ack(ok)))
    else (s, d.(wkc := Ack(OnlineSlaveCount(s) > 0)))
  }

  /** A frame at the endpoint: its datagrams in order, each at its own clock readings. */
  function Process<R(==)>(s: Sim<R>, f: Frame, clocks: seq<Readings>): (t: (Sim<R>, Frame))
    requires Ready(s) && FrameOk(f) && |clocks| == |f|
    ensures Ready(t.0) && FrameOk(t.1) && |t.1| == |f|
  {
    if f == [] then (s, [])
    else
      var k := |f| - 1;
      var (u, done) := Process(s, f[..k], clocks[..k]);
      var (t, d) := EndpointStep(u, f[k], clocks[k]);
      (t, done + [d])
  }

  function SocketProcess<R(==)>(s: Sim<R>, f: Frame, clocks: seq<Readings>): (t: (Sim<R>, Frame))
    requires Ready(s) && FrameOk(f) && |clocks| == |f|
    ensures Ready(t.0) && FrameOk(t.1) && |t.1| == |f|
  {
    if f == [] then (s, [])
    else
      var k := |f| - 1;
      var (u, done) := SocketProcess(s, f[..k], clocks[..k]);
      var (t, d) := SocketStep(u, f[k], clocks[k]);
      (t, done + [d])
  }

  lemma ProcessNone<R>(s: Sim<R>)
    requires Ready(s)
    ensures Process(s, [], []) == (s, []) && SocketProcess(s, [], []) == (s, [])
  {}

  lemma ProcessNext<R>(s: Sim<R>, f: Frame, clocks: seq<Readings>, i: nat)
    requires Ready(s) && FrameOk(f) && |clocks| == |f| && i < |f|
    ensures var (u, done) := Process(s, f[..i], clocks[..i]);
            var (t, d) := EndpointStep(u, f[i], clocks[i]);
            Process(s, f[..i + 1], clocks[..i + 1]) == (t, done + [d])
  {
    hide EndpointStep;
    assert f[..i + 1][..i] == f[..i] && clocks[..i + 1][..i] == clocks[..i];
  }

  lemma SocketProcessNext<R>(s: Sim<R>, f: Frame, clocks: seq<Readings>, i: nat)
    requires Ready(s) && FrameOk(f) && |clocks| == |f| && i < |f|
    ensures var (u, done) := SocketProcess(s, f[..i], clocks[..i]);
            var (t, d) := SocketStep(u, f[i], clocks[i]);
            SocketProcess(s, f[..i + 1], clocks[..i + 1]) == (t, done + [d])
  {
    hide SocketStep;
    assert f[..i + 1][..i] == f[..i] && clocks[..i + 1][..i] == clocks[..i];
  }

  /** A frame written to the socket: dropped while the link is down, else processed and queued. */
  function SocketWrite<R(==)>(s: Sim<R>, f: Frame, clocks: seq<Readings>, now: int): (t: (Sim<R>, bool))
    requires Ready(s) && FrameOk(f) && |clocks| == |f|
    ensures Ready(t.0)
  {
    if !s.linkUp then (s, false)
    else
      var (u, done) := SocketProcess(s, f, clocks);
      SendFrame(u, done, now)
  }
}
