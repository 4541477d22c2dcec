/** The mailbox on the wire: the bytes of an SDO message as the packed structures lay them out, and what comes back for
    the bytes sent. */
module MailboxBytes {
  import opened Bytes
  import opened AlMachine
  import opened SlaveModel
  import opened SlaveProperties
  import opened SlaveRuns
  import opened DictionaryProperties
  import Coe
  import E = El1258Model
  import S = SubsModel

  // ---- layout

  /** A field of a packed structure: its width in bits, and its value. */
  datatype Field = Field(width: nat, value: nat)

  /** The number the fields of a packed structure make, the first one lowest. */
  function Packed(fields: seq<Field>): nat {
    if fields == [] then 0 else fields[0].value + Pow2(fields[0].width) * Packed(fields[1..])
  }

  /** The number some bytes make in memory, the first one lowest. */
  function Number(b: seq<uint8>): nat {
    if b == [] then 0 else b[0] as int + 0x100 * Number(b[1..])
  }

  /** The mailbox header (len, address, channel, priority, type, count, reserved), the CoE header (number, reserved,
      service), the service data (size indicator, transfer type, block size, complete access, command, index, subindex),
      and the data. */
  lemma LayoutOfMessage(m: Coe.Message, flags: uint8)
    requires Coe.Fits(m) && flags < 0x20
    ensures var b := Coe.Encode(m, flags);
            && Number(b[0..4]) == Packed([Field(16, 10), Field(16, 0)])
            && Number(b[4..6]) == Packed([Field(6, 0), Field(2, 0), Field(4, 3), Field(3, m.count), Field(1, 0)])
            && Number(b[6..8]) == Packed([Field(9, 0), Field(3, 0), Field(4, m.service)])
            && Number(b[8..9]) == Packed([Field(1, flags % 2), Field(1, flags / 2 % 2), Field(2, flags / 4 % 4),
                                          Field(1, flags / 16), Field(3, m.command)])
            && Number(b[9..12]) == Packed([Field(16, m.index), Field(8, m.sub)])
            && Number(b[12..16]) == m.value
  {
    var b := Coe.Encode(m, flags);
    SectionsOfMessage(m, flags);
    hide Coe.Encode, Pow2, Packed, Number, Le32Bytes;
    Number4(b[0..4]);
    Number2(b[4..6]);
    Number2(b[6..8]);
    Number1(b[8..9]);
    Number3(b[9..12]);
    Number4(b[12..16]);
    Le32Digits(m.value);
    PackedHeaders(m);
    PackedServiceData(m, flags);
  }

  lemma SectionsOfMessage(m: Coe.Message, flags: uint8)
    requires Coe.Fits(m) && flags < 0x20
    ensures var b := Coe.Encode(m, flags);
            && b[0..4] == [10, 0, 0, 0] && b[4..6] == [0, 3 + 0x10 * m.count] && b[6..8] == [0, 0x10 * m.service]
            && b[8..9] == [flags + 0x20 * m.command] && b[9..12] == [Lo(m.index), Hi(m.index), m.sub]
            && b[12..16] == Le32Bytes(m.value)
  {
    hide Le32Bytes, Lo, Hi;
    var head := [10, 0, 0, 0, 0, 3 + 0x10 * m.count, 0, 0x10 * m.service, flags + 0x20 * m.command, Lo(m.index), Hi(m.index), m.sub];
    assert Coe.Encode(m, flags) == head + Le32Bytes(m.value);
  }

  lemma PackedHeaders(m: Coe.Message)
    ensures Packed([Field(16, 10), Field(16, 0)]) == 10
    ensures Packed([Field(6, 0), Field(2, 0), Field(4, 3), Field(3, m.count), Field(1, 0)]) == 0x300 + 0x1000 * m.count as int
    ensures Packed([Field(9, 0), Field(3, 0), Field(4, m.service)]) == 0x1000 * m.service as int
  {
    Powers();
    hide Pow2, Packed;
    Packed2(Field(16, 10), Field(16, 0));
    Packed5(Field(6, 0), Field(2, 0), Field(4, 3), Field(3, m.count), Field(1, 0));
    Packed3(Field(9, 0), Field(3, 0), Field(4, m.service));
  }

  lemma PackedServiceData(m: Coe.Message, flags: uint8)
    requires flags < 0x20
    ensures Packed([Field(1, flags % 2), Field(1, flags / 2 % 2), Field(2, flags / 4 % 4), Field(1, flags / 16), Field(3, m.command)])
            == flags as int + 0x20 * m.command as int
    ensures Packed([Field(16, m.index), Field(8, m.sub)]) == m.index as int + 0x1_0000 * m.sub as int
  {
    Powers();
    hide Pow2, Packed;
    Packed5(Field(1, flags % 2), Field(1, flags / 2 % 2), Field(2, flags / 4 % 4), Field(1, flags / 16), Field(3, m.command));
    Packed2(Field(16, m.index), Field(8, m.sub));
    assert flags as int == flags % 2 + 2 * (flags / 2 % 2) + 4 * (flags / 4 % 4) + 16 * (flags / 16);
  }

  lemma Powers()
    ensures Pow2(1) == 2 && Pow2(2) == 4 && Pow2(3) == 8 && Pow2(4) == 16 && Pow2(6) == 64 && Pow2(9) == 512 && Pow2(16) == 0x1_0000
  {
    assert Pow2(4) == 16 && Pow2(8) == 256;
    assert Pow2(12) == 4096;
  }

  lemma Number1(b: seq<uint8>)
    requires |b| == 1
    ensures Number(b) == b[0]
  {
    assert b[1..] == [];
  }

  lemma Number2(b: seq<uint8>)
    requires |b| == 2
    ensures Number(b) == b[0] as int + 0x100 * b[1] as int
  {
    Number1(b[1..]);
  }

  lemma Number3(b: seq<uint8>)
    requires |b| == 3
    ensures Number(b) == b[0] as int + 0x100 * b[1] as int + 0x1_0000 * b[2] as int
  {
    Number2(b[1..]);
  }

  lemma Number4(b: seq<uint8>)
    requires |b| == 4
    ensures Number(b) == b[0] as int + 0x100 * b[1] as int + 0x1_0000 * b[2] as int + 0x100_0000 * b[3] as int
  {
    Number3(b[1..]);
  }

  lemma Packed2(f: Field, g: Field)
    ensures Packed([f, g]) == f.value + Pow2(f.width) * g.value
  {
    assert [f, g][1..] == [g] && [g][1..] == [];
    assert Packed([g]) == g.value;
  }

  lemma Packed3(f: Field, g: Field, h: Field)
    ensures Packed([f, g, h]) == f.value + Pow2(f.width) * (g.value + Pow2(g.width) * h.value)
  {
    assert [f, g, h][1..] == [g, h];
    Packed2(g, h);
  }

  lemma Packed5(f: Field, g: Field, h: Field, i: Field, j: Field)
    ensures Packed([f, g, h, i, j]) ==
            f.value + Pow2(f.width) * (g.value + Pow2(g.width) * (h.value + Pow2(h.width) * (i.value + Pow2(i.width) * j.value)))
  {
    assert [f, g, h, i, j][1..] == [g, h, i, j] && [g, h, i, j][1..] == [h, i, j];
    Packed3(h, i, j);
  }

  // ---- exchanges

  /** The sixteen bytes of an SDO message. */
  function SdoBytes(count: uint8, service: uint8, commandByte: uint8, index: uint16, sub: uint8, value: uint32): (b: seq<uint8>)
    requires count < 8 && service < 16
    ensures |b| == 16
  {
    [10, 0, 0, 0, 0, 3 + 0x10 * count, 0, 0x10 * service, commandByte, index % 0x100, index / 0x100, sub,
     value % 0x100, value / 0x100 % 0x100, value / 0x1_0000 % 0x100, value / 0x100_0000]
  }

  /** What is sent back for a request: upload requests (0x40) are answered 0x43 with the object's value, download requests
      (0x20) 0x63 with 0, and everything else 0x43 with 0. */
  function ReplyBytes(s: Slave, count: uint8, service: uint8, commandByte: uint8, index: uint16, sub: uint8, clock: E.Clock): seq<uint8>
    requires WellFormed(s) && count < 8 && service < 16
  {
    if service == 2 && commandByte / 0x20 == 2 then SdoBytes(count, 3, 0x43, index, sub, UploadValue(s, index, sub, clock).1)
    else if service == 2 && commandByte / 0x20 == 1 then SdoBytes(count, 3, 0x63, index, sub, 0)
    else SdoBytes(count, 3, 0x43, index, sub, 0)
  }

  lemma BytesOfMessage(m: Coe.Message, flags: uint8)
    requires Coe.Fits(m) && flags < 0x20
    ensures Coe.Encode(m, flags) == SdoBytes(m.count, m.service, flags + 0x20 * m.command, m.index, m.sub, m.value)
  {}

  /** The whole exchange in bytes, from every state with the standard windows: the request is written at 0x1000, the SM1
      status byte goes up, the reply is read at 0x1200, and the byte goes down. */
  lemma ExchangeInBytes(s: Slave, count: uint8, service: uint8, commandByte: uint8, index: uint16, sub: uint8, value: uint32,
                        clock: E.Clock)
    requires WellFormed(s) && StandardWindows(s) && count < 8 && service < 16
    ensures var (t, sent) := Write(s, 0x1000, SdoBytes(count, service, commandByte, index, sub, value), clock);
            var (u, reply, got) := Read(t, 0x1200, Zeros(16));
            && sent && got && |t.regs| == |u.regs| == 4096
            && t.regs[0x80D] == 0x08 && t.regs[0x805] == 0 && u.regs[0x80D] == 0 && u.regs[0x805] == 0
            && reply == ReplyBytes(s, count, service, commandByte, index, sub, clock)
            && u == s.(mbIn := u.mbIn, mbOut := u.mbOut, haveReply := false, regs := u.regs, device := u.device, mapped := u.mapped)
            && (u.device, u.mapped) ==
               if service == 2 && commandByte / 0x20 == 2 then (UploadValue(s, index, sub, clock).0, s.mapped)
               else if service == 2 && commandByte / 0x20 == 1 then DownloadEffect(s, index, sub, value)
               else (s.device, s.mapped)
  {
    hide Write, Read, Coe.Encode, SdoBytes, ReplyBytes, UploadValue, DownloadEffect, Answer, HoldsReply;
    var command, flags := commandByte / 0x20, commandByte % 0x20;
    var m := Coe.Message(count, service, command, index, sub, value);
    var (c, v) := Answer(s, m, clock);
    var r := Coe.Message(count, 3, c, index, sub, v);
    assert flags + 0x20 * command == commandByte;
    BytesOfMessage(m, flags);
    ReplyOfAnswer(s, m, flags, clock);
    RequestInBytes(s, m, flags, clock);
    BytesOfMessage(r, 3);
    ReplyInBytes(Write(s, 0x1000, Coe.Encode(m, flags), clock).0, r);
    MailboxStatusBytes(s, Coe.Encode(m, flags), clock);
  }

  lemma RequestInBytes(s: Slave, m: Coe.Message, flags: uint8, clock: E.Clock)
    requires WellFormed(s) && StandardWindows(s) && Coe.Fits(m) && flags < 0x20
    ensures var (t, sent) := Write(s, 0x1000, Coe.Encode(m, flags), clock);
            var (c, v) := Answer(s, m, clock);
            && sent && c < 8 && HoldsReply(t, Coe.Message(m.count, 3, c, m.index, m.sub, v)) && StandardWindows(t)
            && t == s.(mbIn := t.mbIn, mbOut := t.mbOut, haveReply := true, regs := t.regs, device := t.device, mapped := t.mapped)
            && (t.device, t.mapped) ==
               if m.service == 2 && m.command == 2 then (UploadValue(s, m.index, m.sub, clock).0, s.mapped)
               else if m.service == 2 && m.command == 1 then DownloadEffect(s, m.index, m.sub, m.value)
               else (s.device, s.mapped)
  {
    assert WindowsUsable(s) && Coe.Encode(m, flags) + [] == Coe.Encode(m, flags);
    RequestAnswered(s, m, flags, [], clock);
    hide Write, Coe.Encode, UploadValue, DownloadEffect, HoldsReply;
  }

  lemma ReplyInBytes(t: Slave, r: Coe.Message)
    requires HoldsReply(t, r) && StandardWindows(t)
    ensures var (u, reply, got) := Read(t, 0x1200, Zeros(16));
            got && reply == Coe.Encode(r, 3) && u == t.(haveReply := false, regs := u.regs)
  {
    ReplyReadBack(t, r, Zeros(16));
    hide Read, Coe.Encode;
    assert Coe.Encode(r, 3) + Zeros(0) == Coe.Encode(r, 3);
  }

  lemma ReplyOfAnswer(s: Slave, m: Coe.Message, flags: uint8, clock: E.Clock)
    requires WellFormed(s) && Coe.Fits(m) && flags < 0x20
    ensures var (c, v) := Answer(s, m, clock);
            ReplyBytes(s, m.count, m.service, flags + 0x20 * m.command, m.index, m.sub, clock) ==
            SdoBytes(m.count, 3, 3 + 0x20 * c, m.index, m.sub, v)
  {
    hide UploadValue;
  }

  /** A mailbox write raises the SM1 status byte and clears that of SM0; reading the reply lowers it. */
  lemma MailboxStatusBytes(s: Slave, data: seq<uint8>, clock: E.Clock)
    requires WindowsUsable(s) && StandardWindows(s) && 0 < |data| <= 512
    ensures var t := Write(s, 0x1000, data, clock).0;
            var u := Read(t, 0x1200, Zeros(16)).0;
            && |t.regs| == |u.regs| == 4096
            && t.regs[0x80D] == 0x08 && t.regs[0x805] == 0 && u.regs[0x80D] == 0 && u.regs[0x805] == 0
  {
    MailboxWriteTouches(s, 0x1000, data, clock);
  }

  /** `width` bits of a number from bit `from` on. */
  function Bits(n: nat, from: nat, width: nat): nat { n / Pow2(from) % Pow2(width) }

  /** What a message is read as depends on these bits of its first sixteen bytes and on no others. */
  lemma FieldsOfMessage(b: seq<uint8>)
    requires |b| >= 16
    ensures var m := Coe.Decode(b);
            && m.count as int == Bits(Number(b[4..6]), 12, 3) && m.service as int == Bits(Number(b[6..8]), 12, 4)
            && m.command as int == Bits(Number(b[8..9]), 5, 3) && m.index as int == Number(b[9..11])
            && m.sub as int == Number(b[11..12]) && m.value as int == Number(b[12..16])
  {
    Powers();
    assert Pow2(5) == 32 && Pow2(12) == 4096 by { assert Pow2(8) == 256; }
    hide Pow2, Number;
    Number2(b[4..6]);
    Number2(b[6..8]);
    Number1(b[8..9]);
    Number2(b[9..11]);
    Number1(b[11..12]);
    Number4(b[12..16]);
    assert b[12..16][0] == b[12] && b[12..16][1] == b[13] && b[12..16][2] == b[14] && b[12..16][3] == b[15];
    TopBits(b[4], b[5]);
    TopBits(b[6], b[7]);
  }

  lemma TopBits(lo: uint8, hi: uint8)
    ensures (lo as int + 0x100 * hi as int) / 4096 == hi / 0x10
  {}

  /** Any mailbox write, of any bytes to anywhere in the receive window, is answered from the message the buffer then
      starts with: the send buffer holds the sixteen bytes of its reply, and zeros. */
  lemma AnyMailboxWriteIsAnswered(s: Slave, reg: uint16, data: seq<uint8>, clock: E.Clock)
    requires WellFormed(s) && StandardWindows(s) && 0x1000 <= reg && reg as int + |data| <= 0x1200 && data != []
    ensures |s.mbIn| == 512
    ensures var (t, sent) := Write(s, reg, data, clock);
            var m := Coe.Decode(Splice(s.mbIn, reg as int - 0x1000, data));
            && sent && t.haveReply
            && t.mbOut == ReplyBytes(s, m.count, m.service, 0x20 * m.command, m.index, m.sub, clock) + Zeros(496)
            && (t.device, t.mapped) ==
               if m.service == 2 && m.command == 2 then (UploadValue(s, m.index, m.sub, clock).0, s.mapped)
               else if m.service == 2 && m.command == 1 then DownloadEffect(s, m.index, m.sub, m.value)
               else (s.device, s.mapped)
  {
    MailboxCase(s, reg, data, clock);
    hide Write, HandleMailbox, Coe.Decode, UploadValue, DownloadEffect, ReplyBytes;
    HandledInBytes(s, Splice(s.mbIn, reg as int - 0x1000, data), clock);
  }

  lemma HandledInBytes(s: Slave, mbIn: seq<uint8>, clock: E.Clock)
    requires WellFormed(s) && StandardWindows(s) && |mbIn| == 512
    ensures WellFormed(s.(mbIn := mbIn))
    ensures var t := HandleMailbox(s.(mbIn := mbIn), clock);
            var m := Coe.Decode(mbIn);
            && t.haveReply
            && t.mbOut == ReplyBytes(s, m.count, m.service, 0x20 * m.command, m.index, m.sub, clock) + Zeros(496)
            && (t.device, t.mapped) ==
               if m.service == 2 && m.command == 2 then (UploadValue(s, m.index, m.sub, clock).0, s.mapped)
               else if m.service == 2 && m.command == 1 then DownloadEffect(s, m.index, m.sub, m.value)
               else (s.device, s.mapped)
  {
    var m := Coe.Decode(mbIn);
    AnswerIgnoresBuffer(s, mbIn, m, clock);
    hide HandleMailbox, Coe.Decode, Coe.Encode, UploadValue, DownloadEffect, Answer, ReplyBytes, SdoBytes, DeviceOk;
    MessageHandled(s.(mbIn := mbIn), m, clock);
    var (c, v) := Answer(s, m, clock);
    AnswerIsResponse(s, m, clock);
    BytesOfMessage(Coe.Message(m.count, 3, c, m.index, m.sub, v), 3);
    ReplyOfAnswer(s, m, 0, clock);
  }

  lemma AnswerIsResponse(s: Slave, m: Coe.Message, clock: E.Clock)
    requires WellFormed(s)
    ensures Answer(s, m, clock).0 in {2, 3}
  {
    hide UploadValue;
  }

  // ---- answers by object

  /** On every kind of slave 0x1018 answers the constructor's vendor and product, then 0 and 0. */
  lemma IdentityAnswers(s: Slave, clock: E.Clock)
    requires WellFormed(s)
    ensures UploadValue(s, 0x1018, 1, clock) == (s.device, s.vendor) && UploadValue(s, 0x1018, 2, clock) == (s.device, s.product)
    ensures UploadValue(s, 0x1018, 3, clock) == UploadValue(s, 0x1018, 4, clock) == (s.device, 0)
  {}

  /** Any other object of a plain slave answers 0, and a download changes nothing. */
  lemma PlainAnswers(s: Slave, index: uint16, sub: uint8, v: uint32, clock: E.Clock)
    requires WellFormed(s) && s.device.Plain?
    ensures !(index == 0x1018 && 1 <= sub <= 4) ==> UploadValue(s, index, sub, clock) == (s.device, 0)
    ensures DownloadEffect(s, index, sub, v) == (s.device, s.mapped)
  {}

  /** A terminal's channel through the mailbox: 1 exactly when it reads high. An object that does not answer is answered
      for with 0, and any other answers its dictionary's value. */
  lemma TerminalAnswers(s: Slave, index: uint16, sub: uint8, clock: E.Clock)
    requires WellFormed(s) && s.device.Terminal? && !(index == 0x1018 && 1 <= sub <= 4)
    ensures var (d, v) := UploadValue(s, index, sub, clock);
            && (index == 0x6000 && 1 <= sub <= 8 ==>
                  && d == Terminal(E.Apply(s.device.t, E.ReadChannel(sub - 1, clock[sub - 1])))
                  && v == if ReadsHigh(s.device.t, sub - 1, clock[sub - 1]) then 1 else 0)
            && (index == 0x6002 && sub == 0 ==>
                  && d == Terminal(E.Apply(s.device.t, E.ReadAll(clock))) && v < 0x100
                  && forall ch :: 0 <= ch < 8 ==> (v / WEIGHTS[ch] % 2 == 1 <==> ReadsHigh(s.device.t, ch, clock[ch])))
            && (!Readable(index, sub) ==> d == s.device && v == 0)
            && (Configurable(index, sub) ==> Some(v) == E.Upload(s.device.t, index, sub, clock).1 && d == s.device)
  {
    hide ReadsHigh, E.LatchAll, E.Latch, E.Level, E.Aggregate, E.Pack4;
    NothingElse(s.device.t, s.mapped, index, sub, 0, clock);
    if index == 0x6000 && 1 <= sub <= 8 {
      UploadOfChannel(s.device.t, sub, clock);
    } else if index == 0x6002 && sub == 0 {
      UploadOfAggregate(s.device.t, clock);
    }
  }

  /** On the slaves application's variant objects answer as its dictionary does, 0 where it does not answer; 0x1018 is
      answered by the base class first. A download sets the flag only when it assigns. */
  lemma SubsThroughMailbox(s: Slave, index: uint16, sub: uint8, v: uint32, clock: E.Clock)
    requires WellFormed(s) && s.device.Subs?
    ensures !(index == 0x1018 && 1 <= sub <= 4) ==>
              UploadValue(s, index, sub, clock) ==
              (s.device, var a := S.Upload(s.device.s, index, sub); if a.Some? then a.value else 0)
    ensures var (d, given) := S.Download(s.device.s, index, sub, v);
            DownloadEffect(s, index, sub, v) == (Subs(d), if given.Some? then given.value else s.mapped)
  {}

  /** One channel, bytes to bytes: uploading 0x6000 subindex k. */
  lemma ChannelInBytes(s: Slave, count: uint8, sub: uint8, clock: E.Clock)
    requires WellFormed(s) && StandardWindows(s) && s.device.Terminal? && count < 8 && 1 <= sub <= 8
    ensures var t := Write(s, 0x1000, [10, 0, 0, 0, 0, 3 + 0x10 * count, 0, 0x20, 0x40, 0x00, 0x60, sub, 0, 0, 0, 0], clock).0;
            Read(t, 0x1200, Zeros(16)).1 ==
            [10, 0, 0, 0, 0, 3 + 0x10 * count, 0, 0x30, 0x43, 0x00, 0x60, sub,
             if ReadsHigh(s.device.t, sub - 1, clock[sub - 1]) then 1 else 0, 0, 0, 0]
  {
    hide Write, Read, UploadValue, ReadsHigh;
    assert SdoBytes(count, 2, 0x40, 0x6000, sub, 0) ==
           [10, 0, 0, 0, 0, 3 + 0x10 * count, 0, 0x20, 0x40, 0x00, 0x60, sub, 0, 0, 0, 0];
    ExchangeInBytes(s, count, 2, 0x40, 0x6000, sub, 0, clock);
    TerminalAnswers(s, 0x6000, sub, clock);
  }
}
