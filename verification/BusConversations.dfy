/** A master talking to one slave over the bus: reading its EEPROM and exchanging SDO messages, as frames of
    station-addressed datagrams. */
module BusConversations {
  import opened Bytes
  import opened Datagrams
  import opened SimulatorModel
  import opened BusModel
  import opened BusAccess
  import opened MailboxBytes
  import E = El1258Model
  import Slaves = SlaveModel
  import SP = SlaveProperties
  import SR = SlaveRuns
  import RA = RegisterAccess

  /** A datagram for the register `reg` of the station `address`. */
  function ToStation(c: Command, address: uint16, reg: uint16, data: seq<uint8>): (d: Datagram)
    requires |data| <= MAX_PAYLOAD && c in {FPRD, FPWR, FPRW} && (reg != 0x0010 || c == FPRD)
    ensures ForStation(d, address) && Ok(d) && d.header.command == c && d.header.address / 0x1_0000 == reg && d.data == data
  {
    Datagram(Header(c, 0, reg as int * 0x1_0000 + address as int, |data|, 0, 0), data, 0)
  }

  /** One more datagram taken, its outcome known. */
  lemma AloneTakes(v: Slaves.Slave, f: Frame, cs: seq<Readings>, address: uint16, k: nat, w: Slaves.Slave, done: Frame,
                   x: Slaves.Slave, d: Datagram)
    requires Slaves.WellFormed(v) && Slaves.RoomForMessages(v) && |cs| == |f| && k < |f|
    requires (forall d :: d in f ==> ForStation(d, address)) && forall d :: d in f[..k] ==> d in f
    requires AloneAll(v, f[..k], cs[..k], address) == (w, done) && ForStation(f[k], address)
    requires Alone(w, f[k], cs[k](0)) == (x, d)
    ensures forall d :: d in f[..k + 1] ==> d in f
    ensures AloneAll(v, f[..k + 1], cs[..k + 1], address) == (x, done + [d])
  {
    hide Alone, ForStation, AloneAll, Slaves.WellFormed, Slaves.RoomForMessages;
    AloneNext(v, f, cs, address, k);
  }

  // ---- EEPROM

  /** A command for the address, then `n` fetches of four bytes. */
  function EepromFrame(address: uint16, at: uint32, n: nat): (f: Frame)
    ensures |f| == n + 1 && forall d :: d in f ==> ForStation(d, address)
  {
    [ToStation(FPWR, address, 0x502, [0, 1, at % 0x100, at / 0x100 % 0x100, at / 0x1_0000 % 0x100, at / 0x100_0000])]
    + seq(n, _ => ToStation(FPRD, address, 0x508, [0, 0, 0, 0]))
  }

  /** Four bytes that hold the words `at` and `at + 1` of an image, low bytes first. */
  predicate HoldsWords(b: seq<uint8>, image: seq<uint16>, at: nat) {
    && |b| == 4
    && b[0] as int + 0x100 * b[1] as int == Slaves.WordAt(image, at % 0x1_0000_0000)
    && b[2] as int + 0x100 * b[3] as int == Slaves.WordAt(image, (at + 1) % 0x1_0000_0000)
  }

  /** The frame after `k` fetches: all counted, the words from `at` on in their data. */
  predicate Fetched(g: Frame, image: seq<uint16>, at: nat, k: nat) {
    && |g| == k + 1 && g[0].wkc == 1
    && forall j :: 1 <= j <= k ==> g[j].wkc == 1 && HoldsWords(g[j].data, image, at + 2 * (j - 1))
  }

  lemma {:induction false} EepromFrameAlone(v: Slaves.Slave, address: uint16, at: uint32, n: nat, cs: seq<Readings>, k: nat)
    requires Slaves.WellFormed(v) && Slaves.RoomForMessages(v) && |cs| == n + 1 && k <= n
    ensures var f := EepromFrame(address, at, n);
            && (forall d :: d in f[..k + 1] ==> d in f)
            && var (w, g) := AloneAll(v, f[..k + 1], cs[..k + 1], address);
            && w == v.(eepromAddr := (at as int + 2 * k) % 0x1_0000_0000)
            && Fetched(g, v.eeprom, at, k)
    decreases k
  {
    hide ToStation, ForStation, Slaves.WellFormed, Slaves.RoomForMessages, HoldsWords, Fetched, EepromFrame, Alone;
    if k == 0 {
      EepromFrameStart(v, address, at, n, cs);
    } else {
      hide AloneAll;
      var f := EepromFrame(address, at, n);
      EepromFrameAt(address, at, n, k);
      EepromFrameAlone(v, address, at, n, cs, k - 1);
      var (w, g) := AloneAll(v, f[..k], cs[..k], address);
      FetchAlone(w, f[k], cs[k](0));
      var (x, d) := Alone(w, f[k], cs[k](0));
      AloneTakes(v, f, cs, address, k, w, g, x, d);
      NextFetch(at, k, v.eeprom, d.data);
      FetchedNext(g, d, v.eeprom, at, k);
    }
  }

  lemma EepromFrameStart(v: Slaves.Slave, address: uint16, at: uint32, n: nat, cs: seq<Readings>)
    requires Slaves.WellFormed(v) && Slaves.RoomForMessages(v) && |cs| == n + 1
    ensures var f := EepromFrame(address, at, n);
            && (forall d :: d in f[..1] ==> d in f)
            && var (w, g) := AloneAll(v, f[..1], cs[..1], address);
            w == v.(eepromAddr := at) && Fetched(g, v.eeprom, at, 0)
  {
    hide ToStation, ForStation, Slaves.WellFormed, Slaves.RoomForMessages, Fetched, EepromFrame, Alone;
    var f := EepromFrame(address, at, n);
    EepromFrameAt(address, at, n, 0);
    assert f[..0] == [] && cs[..0] == [] && AloneAll(v, [], [], address) == (v, []);
    CommandAlone(v, f[0], cs[0](0), at);
    AloneTakes(v, f, cs, address, 0, v, [], v.(eepromAddr := at), f[0].(wkc := 1));
    FetchedNone(f[0].(wkc := 1), v.eeprom, at);
  }

  lemma EepromFrameAt(address: uint16, at: uint32, n: nat, k: nat)
    requires k <= n
    ensures var d := EepromFrame(address, at, n)[k];
            && ForStation(d, address) && Ok(d)
            && (k == 0 ==>
                  && d.header.command == FPWR && d.header.address / 0x1_0000 == 0x502
                  && d.data == [0, 1, at % 0x100, at / 0x100 % 0x100, at / 0x1_0000 % 0x100, at / 0x100_0000])
            && (k > 0 ==> d.header.command == FPRD && d.header.address / 0x1_0000 == 0x508 && |d.data| == 4)
  {}

  lemma FetchedNone(d: Datagram, image: seq<uint16>, at: nat)
    requires d.wkc == 1
    ensures Fetched([] + [d], image, at, 0)
  {}

  lemma FetchedNext(g: Frame, d: Datagram, image: seq<uint16>, at: nat, k: nat)
    requires k > 0 && Fetched(g, image, at, k - 1) && d.wkc == 1 && HoldsWords(d.data, image, at + 2 * (k - 1))
    ensures Fetched(g + [d], image, at, k)
  {
    hide HoldsWords;
  }

  lemma NextFetch(at: uint32, k: nat, image: seq<uint16>, b: seq<uint8>)
    requires k > 0
    ensures var a := (at as int + 2 * (k - 1)) % 0x1_0000_0000;
            && (a + 2) % 0x1_0000_0000 == (at as int + 2 * k) % 0x1_0000_0000
            && (HoldsWords(b, image, a) <==> HoldsWords(b, image, at as int + 2 * (k - 1)))
  {
    var x := at as int + 2 * (k - 1);
    WrapAdds(x, 0);
    WrapAdds(x, 1);
    WrapAdds(x, 2);
  }

  lemma WrapAdds(x: nat, n: nat)
    ensures (x % 0x1_0000_0000 + n) % 0x1_0000_0000 == (x + n) % 0x1_0000_0000
  {}

  lemma CommandAlone(v: Slaves.Slave, d: Datagram, clock: E.Clock, at: uint32)
    requires Slaves.WellFormed(v) && Slaves.RoomForMessages(v) && Ok(d)
    requires d.header.command == FPWR && d.header.address / 0x1_0000 == 0x502
    requires d.data == [0, 1, at % 0x100, at / 0x100 % 0x100, at / 0x1_0000 % 0x100, at / 0x100_0000]
    ensures Alone(v, d, clock) == (v.(eepromAddr := at), d.(wkc := 1))
  {
    RA.EepromCommandInBytes(v, d.data, clock);
    Le32Digits(at);
    hide Slaves.Write, Slaves.WellFormed;
  }

  lemma FetchAlone(v: Slaves.Slave, d: Datagram, clock: E.Clock)
    requires Slaves.WellFormed(v) && Slaves.RoomForMessages(v) && Ok(d)
    requires d.header.command == FPRD && d.header.address / 0x1_0000 == 0x508 && |d.data| == 4
    ensures var (w, e) := Alone(v, d, clock);
            && w == v.(eepromAddr := (v.eepromAddr as int + 2) % 0x1_0000_0000)
            && e.wkc == 1 && HoldsWords(e.data, v.eeprom, v.eepromAddr)
  {
    RA.EepromFetchInBytes(v, d.data);
    hide Slaves.Read, Slaves.WellFormed;
  }

  /** The EEPROM over the bus: a command for an address and `n` fetches are each counted 1, bring back the `2n` words from
      the address on, zero past the image and wrapping at 2^32, and move the slave's EEPROM address past them; nothing
      else anywhere changes. */
  lemma EepromOverTheBus<R>(s: Sim<R>, i: nat, address: uint16, at: uint32, n: nat, cs: seq<Readings>)
    requires Ready(s) && Answers(s, i, address) && |cs| == n + 1
    ensures s.slaves[i] in s.heap && FrameOk(EepromFrame(address, at, n))
    ensures var v := s.heap[s.slaves[i]];
            var (t, g) := Process(s, EepromFrame(address, at, n), cs);
            && t == s.(heap := s.heap[s.slaves[i] := v.(eepromAddr := (at as int + 2 * n) % 0x1_0000_0000)])
            && Fetched(g, v.eeprom, at, n)
  {
    hide EepromFrame, HoldsWords, Process, AloneAll;
    InHeap(s, i, address);
    hide Answers;
    var f := EepromFrame(address, at, n);
    StationFrameIsAlone(s, i, address, f, cs);
    EepromFrameAlone(s.heap[s.slaves[i]], address, at, n, cs, n);
    assert f[..n + 1] == f && cs[..n + 1] == cs;
  }

  /** The identity over the bus: the four words from 8 on are the slave's vendor and product, low words first. */
  lemma IdentityOverTheBus<R>(s: Sim<R>, i: nat, address: uint16, cs: seq<Readings>)
    requires Ready(s) && Answers(s, i, address) && |cs| == 3
    requires s.slaves[i] in s.heap && SP.Sound(s.heap[s.slaves[i]])
    ensures FrameOk(EepromFrame(address, 8, 2))
    ensures var v := s.heap[s.slaves[i]];
            var g := Process(s, EepromFrame(address, 8, 2), cs).1;
            && |g[1].data| == |g[2].data| == 4
            && v.vendor as int == g[1].data[0] as int + 0x100 * g[1].data[1] as int
                                  + 0x1_0000 * (g[1].data[2] as int + 0x100 * g[1].data[3] as int)
            && v.product as int == g[2].data[0] as int + 0x100 * g[2].data[1] as int
                                   + 0x1_0000 * (g[2].data[2] as int + 0x100 * g[2].data[3] as int)
  {
    InHeap(s, i, address);
    SP.IdentityWords(s.heap[s.slaves[i]]);
    hide EepromFrame, Process, SP.Sound, WellFormed, Roomy, Answers, Slaves.WordAt, Fetched, Slaves.WellFormed;
    EepromOverTheBus(s, i, address, 8, 2, cs);
    TwoFetches(Process(s, EepromFrame(address, 8, 2), cs).1, s.heap[s.slaves[i]].eeprom);
  }

  /** The first two fetches of a frame from address 8 on. */
  lemma TwoFetches(g: Frame, image: seq<uint16>)
    requires Fetched(g, image, 8, 2)
    ensures |g[1].data| == |g[2].data| == 4
    ensures g[1].data[0] as int + 0x100 * g[1].data[1] as int == Slaves.WordAt(image, 8)
    ensures g[1].data[2] as int + 0x100 * g[1].data[3] as int == Slaves.WordAt(image, 9)
    ensures g[2].data[0] as int + 0x100 * g[2].data[1] as int == Slaves.WordAt(image, 10)
    ensures g[2].data[2] as int + 0x100 * g[2].data[3] as int == Slaves.WordAt(image, 11)
  {
    hide Slaves.WordAt;
    assert HoldsWords(g[1].data, image, 8 + 2 * (1 - 1)) && HoldsWords(g[2].data, image, 8 + 2 * (2 - 1));
  }

  // ---- SDO

  /** A request is written, the mailbox status read, the reply read, and the status read again. */
  function SdoFrame(address: uint16, request: seq<uint8>): (f: Frame)
    requires |request| == 16
    ensures |f| == 4 && forall d :: d in f ==> ForStation(d, address)
  {
    [ToStation(FPWR, address, 0x1000, request), ToStation(FPRD, address, 0x80D, [0]),
     ToStation(FPRD, address, 0x1200, Zeros(16)), ToStation(FPRD, address, 0x80D, [0])]
  }

  /** One read of a slave on its own. */
  lemma ReadAlone(v: Slaves.Slave, address: uint16, reg: uint16, dst: seq<uint8>, clock: E.Clock)
    requires Slaves.WellFormed(v) && Slaves.RoomForMessages(v) && |dst| <= MAX_PAYLOAD
    ensures var d := ToStation(FPRD, address, reg, dst);
            var (w, out, ok) := Slaves.Read(v, reg, dst);
            Alone(v, d, clock) == (w, d.(data := out, wkc := if ok then 1 else 0))
  {
    hide Slaves.Read;
  }

  lemma TwoAlone(v: Slaves.Slave, f: Frame, cs: seq<Readings>, address: uint16, k: nat, w: Slaves.Slave, done: Frame,
                 x: Slaves.Slave, d: Datagram, y: Slaves.Slave, e: Datagram)
    requires Slaves.WellFormed(v) && Slaves.RoomForMessages(v) && |cs| == |f| && k + 1 < |f|
    requires (forall d :: d in f ==> ForStation(d, address)) && forall d :: d in f[..k] ==> d in f
    requires AloneAll(v, f[..k], cs[..k], address) == (w, done) && ForStation(f[k], address) && ForStation(f[k + 1], address)
    requires Slaves.WellFormed(x) && Slaves.RoomForMessages(x)
    requires Alone(w, f[k], cs[k](0)) == (x, d) && Alone(x, f[k + 1], cs[k + 1](0)) == (y, e)
    ensures forall d :: d in f[..k + 2] ==> d in f
    ensures AloneAll(v, f[..k + 2], cs[..k + 2], address) == (y, done + [d, e])
  {
    hide Alone, ForStation, AloneAll, Slaves.WellFormed, Slaves.RoomForMessages;
    AloneTakes(v, f, cs, address, k, w, done, x, d);
    AloneTakes(v, f, cs, address, k + 1, x, done + [d], y, e);
    assert (done + [d]) + [e] == done + [d, e];
  }

  lemma FourAlone(v: Slaves.Slave, f: Frame, cs: seq<Readings>, address: uint16, t: Slaves.Slave, u: Slaves.Slave,
                  d0: Datagram, d1: Datagram, d2: Datagram, d3: Datagram)
    requires Slaves.WellFormed(v) && Slaves.RoomForMessages(v) && |cs| == |f| == 4
    requires forall d :: d in f ==> ForStation(d, address)
    requires ForStation(f[0], address) && ForStation(f[1], address) && ForStation(f[2], address) && ForStation(f[3], address)
    requires Slaves.WellFormed(t) && Slaves.RoomForMessages(t) && Slaves.WellFormed(u) && Slaves.RoomForMessages(u)
    requires Alone(v, f[0], cs[0](0)) == (t, d0) && Alone(t, f[1], cs[1](0)) == (t, d1)
    requires Alone(t, f[2], cs[2](0)) == (u, d2) && Alone(u, f[3], cs[3](0)) == (u, d3)
    ensures AloneAll(v, f, cs, address) == (u, [d0, d1, d2, d3])
  {
    hide Alone, ForStation, AloneAll, Slaves.WellFormed, Slaves.RoomForMessages;
    AloneNone(v, address);
    assert f[..0] == [] && cs[..0] == [];
    TwoAlone(v, f, cs, address, 0, v, [], t, d0, t, d1);
    TwoAlone(v, f, cs, address, 2, t, [] + [d0, d1], u, d2, u, d3);
    assert f[..4] == f && cs[..4] == cs && [] + [d0, d1] + [d2, d3] == [d0, d1, d2, d3];
  }

  /** Reading a register byte of a slave on its own. */
  lemma ByteAlone(v: Slaves.Slave, address: uint16, reg: uint16, b: uint8, clock: E.Clock)
    requires Slaves.WellFormed(v) && Slaves.RoomForMessages(v) && reg < 4096
    ensures var d := ToStation(FPRD, address, reg, [b]);
            Alone(v, d, clock) == (v, d.(data := [v.regs[reg]], wkc := 1))
  {
    ReadAlone(v, address, reg, [b], clock);
    RA.RegisterRead(v, reg, [b]);
    hide Slaves.Read;
    assert Slaves.Read(v, reg, [b]).1 == [v.regs[reg]];
  }

  lemma WriteAlone(v: Slaves.Slave, address: uint16, reg: uint16, data: seq<uint8>, clock: E.Clock)
    requires Slaves.WellFormed(v) && Slaves.RoomForMessages(v) && |data| <= MAX_PAYLOAD && reg != 0x0010
    ensures var d := ToStation(FPWR, address, reg, data);
            var (w, ok) := Slaves.Write(v, reg, data, clock);
            Alone(v, d, clock) == (w, d.(wkc := if ok then 1 else 0))
  {
    hide Slaves.Write;
  }

  /** What the frame does to the slave alone. */
  lemma SdoFrameAlone(v: Slaves.Slave, address: uint16, count: uint8, service: uint8, commandByte: uint8, index: uint16,
                      sub: uint8, value: uint32, cs: seq<Readings>)
    requires Slaves.WellFormed(v) && SR.StandardWindows(v) && |cs| == 4 && count < 8 && service < 16
    ensures Slaves.RoomForMessages(v)
    ensures var f := SdoFrame(address, SdoBytes(count, service, commandByte, index, sub, value));
            var (w, g) := AloneAll(v, f, cs, address);
            && (forall k :: 0 <= k < 4 ==> g[k].wkc == 1)
            && g[1].data == [0x08] && g[3].data == [0x00]
            && g[2].data == ReplyBytes(v, count, service, commandByte, index, sub, cs[0](0))
            && (w.device, w.mapped) ==
               (if service == 2 && commandByte / 0x20 == 2 then (Slaves.UploadValue(v, index, sub, cs[0](0)).0, v.mapped)
                else if service == 2 && commandByte / 0x20 == 1 then Slaves.DownloadEffect(v, index, sub, value)
                else (v.device, v.mapped))
            && w.al == v.al && !w.haveReply
  {
    hide Slaves.Write, Slaves.Read, ReplyBytes, SdoBytes, Slaves.UploadValue, Slaves.DownloadEffect, AloneAll, ToStation, Alone;
    var request := SdoBytes(count, service, commandByte, index, sub, value);
    var f := SdoFrame(address, request);
    ExchangeInBytes(v, count, service, commandByte, index, sub, value, cs[0](0));
    var t := Slaves.Write(v, 0x1000, request, cs[0](0)).0;
    var (u, reply, _) := Slaves.Read(t, 0x1200, Zeros(16));
    WindowsHold(v, request, cs[0](0));
    WriteAlone(v, address, 0x1000, request, cs[0](0));
    ByteAlone(t, address, 0x80D, 0, cs[1](0));
    ReadAlone(t, address, 0x1200, Zeros(16), cs[2](0));
    ByteAlone(u, address, 0x80D, 0, cs[3](0));
    FourAlone(v, f, cs, address, t, u,
              f[0].(wkc := 1), f[1].(data := [0x08], wkc := 1), f[2].(data := reply, wkc := 1), f[3].(data := [0x00], wkc := 1));
  }

  lemma WindowsHold(v: Slaves.Slave, request: seq<uint8>, clock: E.Clock)
    requires Slaves.WellFormed(v) && SR.StandardWindows(v) && |request| == 16
    ensures Slaves.RoomForMessages(v)
    ensures var t := Slaves.Write(v, 0x1000, request, clock).0;
            Slaves.RoomForMessages(t) && Slaves.RoomForMessages(Slaves.Read(t, 0x1200, Zeros(16)).0)
  {
    WriteKeepsRoom(v, 0x1000, request, clock);
    hide Slaves.Write;
  }

  /** An SDO exchange over the bus: every datagram is counted 1, the mailbox status reads 0x08 while the reply waits and 0
      after it was read, the reply's bytes are those owed, and of all slaves only the addressed one changes. */
  lemma SdoOverTheBus<R>(s: Sim<R>, i: nat, address: uint16, count: uint8, service: uint8, commandByte: uint8, index: uint16,
                         sub: uint8, value: uint32, cs: seq<Readings>)
    requires Ready(s) && Answers(s, i, address) && |cs| == 4 && count < 8 && service < 16
    requires s.slaves[i] in s.heap && SR.StandardWindows(s.heap[s.slaves[i]])
    ensures FrameOk(SdoFrame(address, SdoBytes(count, service, commandByte, index, sub, value)))
    ensures Slaves.WellFormed(s.heap[s.slaves[i]])
    ensures var v := s.heap[s.slaves[i]];
            var (t, g) := Process(s, SdoFrame(address, SdoBytes(count, service, commandByte, index, sub, value)), cs);
            && s.slaves[i] in t.heap
            && var w := t.heap[s.slaves[i]];
            && t == s.(heap := s.heap[s.slaves[i] := w])
            && (forall k :: 0 <= k < 4 ==> g[k].wkc == 1)
            && g[1].data == [0x08] && g[3].data == [0x00]
            && g[2].data == ReplyBytes(v, count, service, commandByte, index, sub, cs[0](0))
            && (w.device, w.mapped) ==
               (if service == 2 && commandByte / 0x20 == 2 then (Slaves.UploadValue(v, index, sub, cs[0](0)).0, v.mapped)
                else if service == 2 && commandByte / 0x20 == 1 then Slaves.DownloadEffect(v, index, sub, value)
                else (v.device, v.mapped))
            && w.al == v.al && !w.haveReply
  {
    hide SdoFrame, SdoBytes, ReplyBytes, Process, AloneAll, Slaves.UploadValue, Slaves.DownloadEffect;
    InHeap(s, i, address);
    hide Answers, Slaves.WellFormed, Slaves.RoomForMessages;
    var f := SdoFrame(address, SdoBytes(count, service, commandByte, index, sub, value));
    StationFrameIsAlone(s, i, address, f, cs);
    SdoFrameAlone(s.heap[s.slaves[i]], address, count, service, commandByte, index, sub, value, cs);
  }
}
