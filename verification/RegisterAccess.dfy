/** One slave's addresses: which accesses it accepts, and what reading back what was written gives. */
module RegisterAccess {
  import opened Bytes
  import opened SlaveModel
  import opened SlaveProperties
  import opened SlaveRuns
  import AlMachine
  import E = El1258Model

  // ---- what is accepted

  /** A write is accepted exactly as an EEPROM command (six bytes or more at 0x502), inside the 4096 registers, inside the
      receive window, or at the sixteen bytes of the first two SyncManagers; a refused one changes nothing. */
  lemma WriteAcceptedExactly(s: Slave, reg: uint16, data: seq<uint8>, clock: E.Clock)
    requires WellFormed(s) && WriteDefined(s, reg, |data|)
    ensures var (r, ok) := Write(s, reg, data, clock);
            && (ok <==> || (reg == 0x502 && |data| >= 6)
                        || reg as int + |data| <= 4096
                        || (s.recvOffset <= reg && reg as int + |data| <= s.recvOffset as int + s.recvSize as int)
                        || 0x800 <= reg < 0x810)
            && (!ok ==> r == s)
  {
    hide HandleMailbox, WriteRegisters, SyncSm, Relocate, WellFormed;
  }

  /** A read is accepted exactly as an EEPROM fetch (four bytes or more at 0x508), inside the registers, or inside the send
      window; a refused one changes nothing, the buffer included. */
  lemma ReadAcceptedExactly(s: Slave, reg: uint16, dst: seq<uint8>)
    requires WellFormed(s)
    ensures var (r, out, ok) := Read(s, reg, dst);
            && (ok <==> || (reg == 0x508 && |dst| >= 4)
                        || reg as int + |dst| <= 4096
                        || (s.sendOffset <= reg && reg as int + |dst| <= s.sendOffset as int + s.sendSize as int))
            && (!ok ==> r == s && out == dst)
  {}

  // ---- registers

  /** A register read gives the register bytes and changes nothing. */
  lemma RegisterRead(s: Slave, reg: uint16, dst: seq<uint8>)
    requires WellFormed(s) && reg as int + |dst| <= 4096 && !(reg == 0x508 && |dst| >= 4)
    ensures var (r, out, ok) := Read(s, reg, dst);
            ok && r == s && |out| == |dst| && forall i :: 0 <= i < |dst| ==> out[i] == s.regs[reg as int + i]
  {}

  /** Reading back after a register write that is neither an EEPROM command nor an AL_CONTROL write: the bytes written
      where the ranges meet, the old ones elsewhere. */
  lemma RegisterReadBack(s: Slave, reg: uint16, data: seq<uint8>, clock: E.Clock, reg2: uint16, dst: seq<uint8>)
    requires WellFormed(s) && reg as int + |data| <= 4096 && !(reg == 0x502 && |data| >= 6) && (reg != 0x120 || data == [])
    requires reg2 as int + |dst| <= 4096 && !(reg2 == 0x508 && |dst| >= 4)
    ensures var t := Write(s, reg, data, clock).0;
            var (u, out, ok) := Read(t, reg2, dst);
            && ok && u == t && |out| == |dst|
            && forall i :: 0 <= i < |dst| ==>
                 out[i] == if reg as int <= reg2 as int + i < reg as int + |data| then data[reg2 as int + i - reg as int]
                           else s.regs[reg2 as int + i]
  {
    PlainRegisterCase(s, reg, data, clock);
    hide Write;
    RegisterRead(Write(s, reg, data, clock).0, reg2, dst);
  }

  /** Writing two bytes or more at 0x0010 sets the station address to the first two, low byte first. */
  lemma StationAddressWritten(s: Slave, data: seq<uint8>, clock: E.Clock)
    requires WellFormed(s) && 2 <= |data| <= 4080
    ensures var (r, ok) := Write(s, 0x0010, data, clock);
            ok && r.address as int == data[0] as int + 0x100 * data[1] as int
  {
    PlainRegisterCase(s, 0x0010, data, clock);
  }

  // ---- mailbox windows

  /** A mailbox write lands at its place in the receive buffer and is answered from the buffer's start. */
  lemma MailboxWriteLands(s: Slave, reg: uint16, data: seq<uint8>, clock: E.Clock)
    requires WellFormed(s) && StandardWindows(s) && 0x1000 <= reg && reg as int + |data| <= 0x1200 && data != []
    ensures var (r, ok) := Write(s, reg, data, clock);
            && ok && r.haveReply && |r.mbIn| == |s.mbIn| == 512
            && forall i :: 0 <= i < 512 ==>
                 r.mbIn[i] == if reg as int <= 0x1000 + i < reg as int + |data| then data[0x1000 + i - reg as int] else s.mbIn[i]
  {
    MailboxWriteTouches(s, reg, data, clock);
    hide Write, SmInSync, SyncSmStatus;
  }

  /** Reading anywhere in the send window gives the bytes of the reply from there on, whatever the part, and withdraws the
      whole reply. */
  lemma MailboxReadAnywhere(s: Slave, reg: uint16, dst: seq<uint8>)
    requires WellFormed(s) && StandardWindows(s) && 0x1200 <= reg && reg as int + |dst| <= 0x1400 && dst != []
    ensures var (r, out, ok) := Read(s, reg, dst);
            && ok && !r.haveReply && |r.regs| == 4096 && r.regs[0x80D] == 0 && |s.mbOut| == 512
            && r == s.(haveReply := false, regs := r.regs)
            && |out| == |dst| && forall i :: 0 <= i < |dst| ==> out[i] == s.mbOut[reg as int - 0x1200 + i]
  {}

  /** So the reply read in two parts is the reply read whole. */
  lemma MailboxReadInParts(s: Slave, n: nat)
    requires WellFormed(s) && StandardWindows(s) && 0 < n < 512
    ensures var (r, head, _) := Read(s, 0x1200, Zeros(n));
            var (_, tail, _) := Read(r, 0x1200 + n, Zeros(512 - n));
            head + tail == Read(s, 0x1200, Zeros(512)).1
  {
    MailboxReadAnywhere(s, 0x1200, Zeros(n));
    MailboxReadAnywhere(Read(s, 0x1200, Zeros(n)).0, 0x1200 + n, Zeros(512 - n));
    MailboxReadAnywhere(s, 0x1200, Zeros(512));
  }

  // ---- the EEPROM

  /** The image tells where the mailboxes are: the offset words hold the high byte of the windows' addresses, the size
      words their sizes, for bootstrap and standard mailboxes alike; the protocol word names CoE, and 0x60 ends it. */
  lemma ImageDescribesTheSlave(address: uint16, vendor: uint32, product: uint32, device: Device, i: nat)
    requires DeviceOk(device) && i < 128
    ensures var s := Fresh(address, vendor, product, device);
            && (i in {0x15, 0x1D} ==> s.eeprom[i] as int * 0x100 == s.recvOffset as int)
            && (i in {0x19, 0x21} ==> s.eeprom[i] as int * 0x100 == s.sendOffset as int)
            && (i in {0x16, 0x1E} ==> s.eeprom[i] == s.recvSize) && (i in {0x1A, 0x22} ==> s.eeprom[i] == s.sendSize)
            && s.eeprom[0] == 0x0180 && s.eeprom[0x24] == 0x0004 && s.eeprom[0x60] == s.eeprom[0x61] == 0xFFFF
            && s.eeprom[8] as int + 0x1_0000 * s.eeprom[9] as int == vendor
            && s.eeprom[10] as int + 0x1_0000 * s.eeprom[11] as int == product
            && s.eeprom[12] == s.eeprom[14] == s.eeprom[0x2E] == s.eeprom[0x30] == 1
            && (i !in {0, 8, 9, 10, 11, 12, 14, 0x15, 0x16, 0x19, 0x1A, 0x1D, 0x1E, 0x21, 0x22, 0x24, 0x2E, 0x30, 0x60, 0x61} ==>
                  s.eeprom[i] == 0)
  {
    var e := EepromImage(vendor, product);
    assert e[i] == EepromWord(i, vendor, product);
    assert e[0] == EepromWord(0, vendor, product) && e[8] == EepromWord(8, vendor, product) && e[9] == EepromWord(9, vendor, product);
    assert e[10] == EepromWord(10, vendor, product) && e[11] == EepromWord(11, vendor, product);
  }

  /** A fetch of four bytes or more at 0x508 gives the two words at the address, low bytes first, leaves the rest of the
      buffer, and moves the address on by two, all of it wrapping at 2^32. */
  lemma EepromFetchInBytes(s: Slave, dst: seq<uint8>)
    requires WellFormed(s) && |dst| >= 4
    ensures var (r, out, ok) := Read(s, 0x508, dst);
            var lo, hi := WordAt(s.eeprom, s.eepromAddr), WordAt(s.eeprom, (s.eepromAddr as int + 1) % 0x1_0000_0000);
            && ok && r == s.(eepromAddr := (s.eepromAddr as int + 2) % 0x1_0000_0000)
            && |out| == |dst| && out[4..] == dst[4..]
            && out[0] as int + 0x100 * out[1] as int == lo && out[2] as int + 0x100 * out[3] as int == hi
  {
    FetchIsSplice(s, dst);
    hide Read, WellFormed, EepromFetch, Le32Bytes, WordAt;
    var bytes := Le32Bytes(EepromFetch(s));
    SplicedWords(dst, bytes);
    FetchedWords(s);
  }

  lemma FetchIsSplice(s: Slave, dst: seq<uint8>)
    requires WellFormed(s) && |dst| >= 4
    ensures Read(s, 0x508, dst) ==
            (s.(eepromAddr := (s.eepromAddr as int + 2) % 0x1_0000_0000), Splice(dst, 0, Le32Bytes(EepromFetch(s))), true)
  {
    hide EepromFetch, Le32Bytes;
  }

  lemma SplicedWords(dst: seq<uint8>, bytes: seq<uint8>)
    requires |dst| >= 4 && |bytes| == 4
    ensures var out := Splice(dst, 0, bytes);
            out[0] == bytes[0] && out[1] == bytes[1] && out[2] == bytes[2] && out[3] == bytes[3] && out[4..] == dst[4..]
  {}

  lemma FetchedWords(s: Slave)
    requires WellFormed(s)
    ensures var b := Le32Bytes(EepromFetch(s));
            && b[0] as int + 0x100 * b[1] as int == WordAt(s.eeprom, s.eepromAddr)
            && b[2] as int + 0x100 * b[3] as int == WordAt(s.eeprom, (s.eepromAddr as int + 1) % 0x1_0000_0000)
  {
    var lo, hi := WordAt(s.eeprom, s.eepromAddr), WordAt(s.eeprom, Advance(s.eepromAddr, 1));
    assert EepromFetch(s) == (lo as int) + 0x1_0000 * (hi as int);
    hide EepromFetch, WellFormed, Le32Bytes, WordAt;
    WordsOfFetch(lo, hi);
  }

  /** A command of six bytes or more at 0x502 sets the address to its third to sixth bytes, and nothing else. */
  lemma EepromCommandInBytes(s: Slave, data: seq<uint8>, clock: E.Clock)
    requires WellFormed(s) && |data| >= 6 && WriteDefined(s, 0x502, |data|)
    ensures var (r, ok) := Write(s, 0x502, data, clock);
            && ok && r == s.(eepromAddr := r.eepromAddr)
            && r.eepromAddr as int ==
               data[2] as int + 0x100 * data[3] as int + 0x1_0000 * data[4] as int + 0x100_0000 * data[5] as int
  {}
}
