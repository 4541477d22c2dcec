/** From a new connection to an operational bus. */
module BringUp {
  import opened Bytes
  import opened Datagrams
  import opened SimulatorModel
  import opened BusModel
  import opened BusProperties
  import opened Endpoints
  import opened BusAccess
  import opened BusConversations
  import AlMachine
  import E = El1258Model
  import S = SubsModel
  import Slaves = SlaveModel
  import SP = SlaveProperties

  function ReadStatus(address: uint16, filler: seq<uint8>): (d: Datagram)
    requires |filler| == 2
    ensures Ok(d)
  {
    Datagram(Header(FPRD, 0, CreateAddress(address, Slaves.AL_STATUS), 2, 0, 0), filler, 0)
  }

  lemma NewSlaveFacts(i: nat)
    requires i < 0xFFFF
    ensures var v := NewSlave(i).(started := true);
            && Slaves.WellFormed(v) && v.online && v.mapped && v.address == i + 1
            && v.al == AlMachine.Al(AlMachine.Init, AlMachine.NO_ERROR, false)
  {}

  /** The AL_STATUS register reads OPERATIONAL, no error pending. */
  predicate ShowsOperational(v: Slaves.Slave) {
    |v.regs| == Slaves.REGISTER_COUNT && v.regs[Slaves.AL_STATUS] == 0x08 && v.regs[Slaves.AL_STATUS + 1] == 0x00
  }

  /** One slave brought up: it keeps its address and shows OPERATIONAL. */
  lemma SlaveComesUp(v: Slaves.Slave, clock: E.Clock)
    requires Slaves.WellFormed(v) && v.mapped && AlMachine.Ranked(v.al.state)
    ensures var w := Slaves.Write(v, Slaves.AL_CONTROL, [0x18, 0x00], clock).0;
            && w.address == v.address && w.online == v.online
            && ShowsOperational(w)
  {
    hide Slaves.Write;
    var data: seq<uint8> := [0x18, 0x00];
    SP.WriteTouches(v, Slaves.AL_CONTROL, data, clock);
    SP.AlControlWriteMirrors(v, data, clock);
    AlMachine.AckOperationalRequest(v.al);
    assert data[0] % 0x20 == 0x18;
  }

  lemma StatusReadBack<R>(t: Sim<R>, i: nat, filler: seq<uint8>, clock: Readings)
    requires Ready(t) && i < |t.slaves| && i < 0xFFFF && |filler| == 2
    requires forall j :: 0 <= j <= i ==> t.heap[t.slaves[j]].online && t.heap[t.slaves[j]].address == j + 1
    requires ShowsOperational(t.heap[t.slaves[i]])
    ensures EndpointStep(t, ReadStatus(i + 1, filler), clock).1.data == [0x08, 0x00]
    ensures EndpointStep(t, ReadStatus(i + 1, filler), clock).1.wkc == 1
  {
    LookupFindsFirst(t.heap, t.slaves, i + 1, i);
    AddressRoundTrip(i + 1, Slaves.AL_STATUS);
  }

  /** The broadcast read a master detects slaves with. */
  function Detect(filler: seq<uint8>): (d: Datagram)
    requires |filler| == 2
    ensures Ok(d) && d.header.command == BRD
  {
    Datagram(Header(BRD, 0, 0, 2, 0, 0), filler, 0)
  }

  /** On the bus a new connection prepares, of 1 to 65535 slaves, a broadcast read counts them all, one broadcast of
      ACK|OPERATIONAL is counted by every slave, and from then on reading AL_STATUS at station `i + 1` gives OPERATIONAL, no error. */
  lemma FreshBusComesUp<R>(s: Sim<R>, refs: seq<R>, i: nat, filler: seq<uint8>, clock: Readings)
    requires Ready(s) && IsPrepared(s, refs) && Distinct(refs) && i < |refs| <= 0xFFFF && |filler| == 2
    ensures var (t, d) := EndpointStep(s, BroadcastWrite(Slaves.AL_CONTROL, [0x18, 0x00]), clock);
            && d.wkc as int == |refs|
            && EndpointStep(s, Detect(filler), clock).1.wkc as int == |refs|
            && var (_, e) := EndpointStep(t, ReadStatus(i + 1, filler), clock);
            e.data == [0x08, 0x00] && e.wkc == 1
  {
    hide EndpointStep, Slaves.Write, IsPrepared, Ready, OnlineAt;
    PreparedIsOnline(s, refs);
    BroadcastWriteReachesTheOnline(s, Slaves.AL_CONTROL, [0x18, 0x00], clock);
    var t := EndpointStep(s, BroadcastWrite(Slaves.AL_CONTROL, [0x18, 0x00]), clock).0;
    forall k | 0 <= k < |refs|
      ensures refs[k] in t.heap && t.heap[refs[k]].online && t.heap[refs[k]].address == k + 1
      ensures ShowsOperational(t.heap[refs[k]])
    {
      SlaveComesUp(s.heap[refs[k]], clock(k));
    }
    StatusReadBack(t, i, filler, clock);
    CountersInNumbers(s, Detect(filler), clock);
  }

  /** And each of them, asked over the bus, gives the EL1258's identity: vendor 2, product 0x04EA3052, in the EEPROM words
      8 to 11 of station `i + 1`. */
  lemma FreshBusIdentifies<R>(s: Sim<R>, refs: seq<R>, i: nat, cs: seq<Readings>)
    requires Ready(s) && IsPrepared(s, refs) && Distinct(refs) && i < |refs| <= 0xFFFF && |cs| == 3
    ensures FrameOk(EepromFrame(i + 1, 8, 2))
    ensures var g := Process(s, EepromFrame(i + 1, 8, 2), cs).1;
            && |g[1].data| == |g[2].data| == 4
            && g[1].data[0] as int + 0x100 * g[1].data[1] as int
               + 0x1_0000 * (g[1].data[2] as int + 0x100 * g[1].data[3] as int) == 2
            && g[2].data[0] as int + 0x100 * g[2].data[1] as int
               + 0x1_0000 * (g[2].data[2] as int + 0x100 * g[2].data[3] as int) == 0x04EA_3052
  {
    hide EepromFrame, Process, NewSlave;
    PreparedIsOnline(s, refs);
    NewSlaveIdentity(i);
    assert Answers(s, i, i + 1);
    IdentityOverTheBus(s, i, i + 1, cs);
  }

  lemma NewSlaveIdentity(i: nat)
    ensures var v := NewSlave(i).(started := true);
            SP.Sound(v) && v.vendor as int == 2 && v.product as int == 0x04EA_3052
  {}

  /** The slaves of a new connection are all online and mapped, with their addresses in order. */
  lemma PreparedIsOnline<R>(s: Sim<R>, refs: seq<R>)
    requires IsPrepared(s, refs) && |refs| <= 0xFFFF
    ensures s.slaves == refs && s.count == |refs| && OnlineSlaveCount(s) == |refs| && OnlinePrefix(s)
    ensures forall k :: 0 <= k < |refs| ==>
              && OnlineAt(s, k) && refs[k] in s.heap
              && var v := s.heap[refs[k]];
                 v.online && v.mapped && v.address == k + 1 && Slaves.WellFormed(v) && AlMachine.Ranked(v.al.state)
  {
    hide NewSlave;
    forall k | 0 <= k < |refs|
      ensures OnlineAt(s, k) && s.heap[refs[k]].mapped && s.heap[refs[k]].address == k + 1
      ensures AlMachine.Ranked(s.heap[refs[k]].al.state)
    {
      NewSlaveFacts(k);
    }
    CountExtremes(s.heap, s.slaves);
  }
}
