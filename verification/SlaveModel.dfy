/** One EtherCAT slave as a value, and what each of its operations makes of it. */
module SlaveModel {
  import opened Bytes
  import opened AlMachine
  import Coe
  import E = El1258Model
  import S = SubsModel

  const REGISTER_COUNT := 4096
  const EEPROM_WORDS := 128

  const STATION_ADDR: uint16 := 0x0010
  const DL_STATUS: uint16 := 0x0110
  const AL_CONTROL: uint16 := 0x0120
  const AL_STATUS: uint16 := 0x0130
  const AL_STATUS_CODE: uint16 := 0x0134
  const EEPROM_CONTROL: uint16 := 0x0502
  const EEPROM_DATA: uint16 := 0x0508
  const SYNC_MANAGER_0: uint16 := 0x0800
  const SYNC_MANAGER_1: uint16 := 0x0808
  const SM0_STATUS: uint16 := 0x0805
  const SM1_STATUS: uint16 := 0x080D
  const MAILBOX_STATUS: uint8 := 0x08

  const OBJ_IDENTITY: uint16 := 0x1018

  /** Which derived class a slave is, with that class's own state. */
  datatype Device = Plain | Terminal(t: E.Terminal) | Subs(s: S.Subs)

  datatype Slave = Slave(
    address: uint16, vendor: uint32, product: uint32, online: bool, started: bool,
    al: Al, mapped: bool, regs: seq<uint8>,
    recvOffset: uint16, recvSize: uint16, sendOffset: uint16, sendSize: uint16,
    haveReply: bool, mbOut: seq<uint8>, mbIn: seq<uint8>,
    eepromAddr: uint32, eeprom: seq<uint16>,
    device: Device)

  predicate DeviceOk(d: Device) {
    match d
    case Plain => true
    case Terminal(t) => E.WellFormed(t)
    case Subs(s) => S.WellFormed(s)
  }

  /** Buffers have their sizes; the mailbox buffers are as large as their windows. */
  predicate WellFormed(s: Slave) {
    && |s.regs| == REGISTER_COUNT && |s.eeprom| == EEPROM_WORDS
    && |s.mbIn| == s.recvSize && |s.mbOut| == s.sendSize
    && DeviceOk(s.device)
  }

  // ---- views of the state kept in the register bytes

  function DlStatus(online: bool): uint16 { if online then 0x0211 else 0 }

  /** The state code, with the ACK bit or-ed in while an error waits to be acknowledged. */
  function StatusByte(a: Al): uint8 { if a.ack && a.state != Ack then Code(a.state) + 0x10 else Code(a.state) }

  function SyncCore(regs: seq<uint8>, online: bool, a: Al): (r: seq<uint8>)
    requires |regs| == REGISTER_COUNT
    ensures |r| == REGISTER_COUNT
  {
    regs[DL_STATUS := Lo(DlStatus(online))][DL_STATUS + 1 := Hi(DlStatus(online))]
    [AL_STATUS := StatusByte(a)][AL_STATUS + 1 := 0]
    [AL_STATUS_CODE := Lo(a.code)][AL_STATUS_CODE + 1 := Hi(a.code)]
  }

  function SyncSmStatus(regs: seq<uint8>, haveReply: bool): (r: seq<uint8>)
    requires |regs| == REGISTER_COUNT
    ensures |r| == REGISTER_COUNT
  {
    regs[SM0_STATUS := 0][SM1_STATUS := if haveReply then MAILBOX_STATUS else 0]
  }

  function SyncSm(s: Slave): (r: Slave)
    requires WellFormed(s)
    ensures WellFormed(r)
  {
    var regs := s.regs
                [SYNC_MANAGER_0 := Lo(s.recvOffset)][SYNC_MANAGER_0 + 1 := Hi(s.recvOffset)]
                [SYNC_MANAGER_0 + 2 := Lo(s.recvSize)][SYNC_MANAGER_0 + 3 := Hi(s.recvSize)]
                [SYNC_MANAGER_1 := Lo(s.sendOffset)][SYNC_MANAGER_1 + 1 := Hi(s.sendOffset)]
                [SYNC_MANAGER_1 + 2 := Lo(s.sendSize)][SYNC_MANAGER_1 + 3 := Hi(s.sendSize)];
    s.(regs := SyncSmStatus(regs, s.haveReply))
  }

  function EepromWord(i: nat, vendor: uint32, product: uint32): uint16 {
    if i == 0 then 0x0180
    else if i == 8 then vendor % 0x1_0000
    else if i == 9 then vendor / 0x1_0000
    else if i == 10 then product % 0x1_0000
    else if i == 11 then product / 0x1_0000
    else if i in {12, 14, 0x2E, 0x30} then 0x0001
    else if i in {0x15, 0x1D} then 0x0010
    else if i in {0x19, 0x21} then 0x0012
    else if i in {0x16, 0x1A, 0x1E, 0x22} then 0x0200
    else if i == 0x24 then 0x0004
    else if i in {0x60, 0x61} then 0xFFFF
    else 0
  }

  function EepromImage(vendor: uint32, product: uint32): (e: seq<uint16>)
    ensures |e| == EEPROM_WORDS
  {
    seq(EEPROM_WORDS, i requires 0 <= i < EEPROM_WORDS => EepromWord(i, vendor, product))
  }

  /** A newly constructed slave. The slaves application's variant maps its inputs on construction. */
  function Fresh(address: uint16, vendor: uint32, product: uint32, device: Device): (s: Slave)
    requires DeviceOk(device)
    ensures WellFormed(s)
  {
    var al := Al(Init, NO_ERROR, false);
    var regs := Zeros(REGISTER_COUNT)[STATION_ADDR := Lo(address)][STATION_ADDR + 1 := Hi(address)];
    var s := Slave(address, vendor, product, true, false, al, false, SyncCore(regs, true, al),
                   0x1000, 512, 0x1200, 512, false, Zeros(512), Zeros(512), 0, EepromImage(vendor, product), device);
    SyncSm(s).(mapped := device.Subs?)
  }

  // ---- AL control

  function Resync(s: Slave): (r: Slave)
    requires WellFormed(s)
    ensures WellFormed(r)
  {
    s.(regs := SyncCore(s.regs, s.online, s.al))
  }

  /** An AL_CONTROL write: entering INIT also withdraws a waiting mailbox reply, without telling the
      SM1 status byte; every exit refreshes the status registers. */
  function HandleAlControl(s: Slave, ctrl: uint16): (r: Slave)
    requires WellFormed(s)
    ensures WellFormed(r)
  {
    var a := AlWrite(s.al, s.mapped, ctrl);
    s.(al := a,
       haveReply := s.haveReply && !(a.state == Init && s.al.state != Init),
       regs := SyncCore(s.regs, s.online, a))
  }

  // ---- mailbox

  /** What an SDO upload finds: the identity object of the base class, then the derived class. */
  function UploadValue(s: Slave, index: uint16, sub: uint8, clock: E.Clock): (r: (Device, uint32))
    requires WellFormed(s)
    ensures DeviceOk(r.0)
  {
    if index == OBJ_IDENTITY && sub == 1 then (s.device, s.vendor)
    else if index == OBJ_IDENTITY && sub == 2 then (s.device, s.product)
    else if index == OBJ_IDENTITY && sub in {3, 4} then (s.device, 0)
    else match s.device
      case Plain => (Plain, 0)
      case Terminal(t) =>
        var (u, v) := E.Upload(t, index, sub, clock);
        (Terminal(u), if v.Some? then v.value else 0)
      case Subs(d) =>
        var v := S.Upload(d, index, sub);
        (s.device, if v.Some? then v.value else 0)
  }

  function DownloadEffect(s: Slave, index: uint16, sub: uint8, value: uint32): (r: (Device, bool))
    requires WellFormed(s)
    ensures DeviceOk(r.0)
  {
    match s.device
    case Plain => (Plain, s.mapped)
    case Terminal(t) =>
      var (u, flag) := E.Configure(t, s.mapped, E.SdoDownload(index, sub, value));
      (Terminal(u), flag)
    case Subs(d) =>
      var (u, flag) := S.Configure(d, s.mapped, E.SdoDownload(index, sub, value));
      (Subs(u), flag)
  }

  predicate RoomForMessages(s: Slave) { s.recvSize >= Coe.MESSAGE_SIZE && s.sendSize >= Coe.MESSAGE_SIZE }

  function Reply(s: Slave, command: uint8, value: uint32): (r: Slave)
    requires WellFormed(s) && RoomForMessages(s) && command < 8
    ensures WellFormed(r)
  {
    var q := Coe.Decode(s.mbIn);
    var answer := Coe.Message(q.count, Coe.SDO_RESPONSE, command, q.index, q.sub, value);
    s.(mbOut := Coe.Encode(answer, Coe.EXPEDITED) + Zeros(s.sendSize - Coe.MESSAGE_SIZE),
       haveReply := true, regs := SyncSmStatus(s.regs, true))
  }

  /** Answers the message at the start of the receive buffer. */
  function HandleMailbox(s: Slave, clock: E.Clock): (r: Slave)
    requires WellFormed(s) && RoomForMessages(s)
    ensures WellFormed(r)
  {
    var q := Coe.Decode(s.mbIn);
    if q.service == Coe.SDO_REQUEST && q.command == Coe.REQUEST_UPLOAD then
      var (device, value) := UploadValue(s, q.index, q.sub, clock);
      Reply(s.(device := device), Coe.RESPONSE_UPLOAD, value)
    else if q.service == Coe.SDO_REQUEST && q.command == Coe.REQUEST_DOWNLOAD then
      var (device, mapped) := DownloadEffect(s, q.index, q.sub, q.value);
      Reply(s.(device := device, mapped := mapped), Coe.RESPONSE_DOWNLOAD, 0)
    else Reply(s, Coe.RESPONSE_UPLOAD, 0)
  }

  // ---- write and read

  predicate IsEepromCommand(reg: uint16, len: nat) { reg == EEPROM_CONTROL && len >= 6 }

  predicate InRegisters(reg: uint16, len: nat) { reg as int + len <= REGISTER_COUNT }

  predicate InRecvWindow(s: Slave, reg: uint16, len: nat) {
    !InRegisters(reg, len) && reg >= s.recvOffset && reg as int + len <= s.recvOffset as int + s.recvSize as int
  }

  /** A write into the first two SyncManager entries that overruns the register space. */
  predicate IsRelocation(s: Slave, reg: uint16, len: nat) {
    !InRegisters(reg, len) && !InRecvWindow(s, reg, len) && SYNC_MANAGER_0 <= reg < SYNC_MANAGER_0 + 16
  }

  /** A mailbox write is parsed as a message, so the mailbox buffers must hold one. */
  predicate WriteDefined(s: Slave, reg: uint16, len: nat) { InRecvWindow(s, reg, len) ==> RoomForMessages(s) }

  /** SyncManager entry 0 places the receive window and entry 1 the send window; a buffer whose size
      changes starts over as zeros. */
  function RelocateEntry(s: Slave, entry: nat, start: uint16, length: uint16): (r: Slave)
    requires WellFormed(s)
    ensures WellFormed(r)
  {
    if entry == 0 then
      s.(recvOffset := start, recvSize := length, mbIn := if |s.mbIn| != length then Zeros(length) else s.mbIn)
    else if entry == 1 then
      s.(sendOffset := start, sendSize := length, mbOut := if |s.mbOut| != length then Zeros(length) else s.mbOut)
    else s
  }

  /** One 8-byte SyncManager entry after another, from byte `pos` of the data on. */
  function Relocate(s: Slave, reg: uint16, data: seq<uint8>, pos: nat): (r: Slave)
    requires WellFormed(s) && SYNC_MANAGER_0 <= reg && pos <= |data|
    ensures WellFormed(r)
    decreases |data| - pos
  {
    if |data| - pos < 8 then s
    else
      var start := Le16(data[pos], data[pos + 1]);
      var length := Le16(data[pos + 2], data[pos + 3]);
      var entry := (reg as int + pos - SYNC_MANAGER_0 as int) / 8;
      Relocate(RelocateEntry(s, entry, start, length), reg, data, pos + 8)
  }

  /** A write inside the register space, with its side effects. They look at the first register only. */
  function WriteRegisters(s: Slave, reg: uint16, data: seq<uint8>): (r: Slave)
    requires WellFormed(s) && InRegisters(reg, |data|)
    ensures WellFormed(r)
  {
    var t := s.(regs := Splice(s.regs, reg, data));
    if reg == STATION_ADDR && |data| >= 2 then
      t.(address := Le16(t.regs[STATION_ADDR], t.regs[STATION_ADDR + 1]))
    else if reg == AL_CONTROL && |data| >= 1 then
      HandleAlControl(t, Le16(t.regs[AL_CONTROL], t.regs[AL_CONTROL + 1]))
    else t
  }

  function Write(s: Slave, reg: uint16, data: seq<uint8>, clock: E.Clock): (r: (Slave, bool))
    requires WellFormed(s) && WriteDefined(s, reg, |data|)
    ensures WellFormed(r.0)
  {
    if IsEepromCommand(reg, |data|) then
      (s.(eepromAddr := Le32(data[2..6])), true)
    else if InRegisters(reg, |data|) then (WriteRegisters(s, reg, data), true)
    else if InRecvWindow(s, reg, |data|) then
      (HandleMailbox(s.(mbIn := Splice(s.mbIn, reg as int - s.recvOffset as int, data)), clock), true)
    else if IsRelocation(s, reg, |data|) then (SyncSm(Relocate(s, reg, data, 0)), true)
    else (s, false)
  }

  predicate IsEepromFetch(reg: uint16, len: nat) { reg == EEPROM_DATA && len >= 4 }

  predicate InSendWindow(s: Slave, reg: uint16, len: nat) {
    && !IsEepromFetch(reg, len) && !InRegisters(reg, len)
    && reg >= s.sendOffset && reg as int + len <= s.sendOffset as int + s.sendSize as int
  }

  /** The EEPROM word at an address, zero past the image. */
  function WordAt(e: seq<uint16>, a: nat): uint16 { if a < |e| then e[a] else 0 }

  /** 32-bit address arithmetic. */
  function Advance(a: uint32, n: nat): uint32 { (a as int + n) % 0x1_0000_0000 }

  /** The two words an EEPROM data read fetches. */
  function EepromFetch(s: Slave): uint32 {
    (WordAt(s.eeprom, s.eepromAddr) as int) + 0x1_0000 * (WordAt(s.eeprom, Advance(s.eepromAddr, 1)) as int)
  }

  /** Reads into `dst`; what comes back is the new content of that buffer. */
  function Read(s: Slave, reg: uint16, dst: seq<uint8>): (r: (Slave, seq<uint8>, bool))
    requires WellFormed(s)
    ensures WellFormed(r.0) && |r.1| == |dst|
  {
    if IsEepromFetch(reg, |dst|) then
      (s.(eepromAddr := Advance(s.eepromAddr, 2)), Splice(dst, 0, Le32Bytes(EepromFetch(s))), true)
    else if InRegisters(reg, |dst|) then (s, s.regs[reg..reg as int + |dst|], true)
    else if InSendWindow(s, reg, |dst|) then
      var off := reg as int - s.sendOffset as int;
      (s.(haveReply := false, regs := SyncSmStatus(s.regs, false)), s.mbOut[off..off + |dst|], true)
    else (s, dst, false)
  }

  // ---- other operations

  function SetOnline(s: Slave, on: bool): (r: Slave)
    requires WellFormed(s)
    ensures WellFormed(r)
  {
    Resync(s.(online := on))
  }

  function SetAlState(s: Slave, state: AlState): (r: Slave)
    requires WellFormed(s)
    ensures WellFormed(r)
  {
    Resync(s.(al := s.al.(state := state)))
  }

  function Routine(s: Slave): (r: Slave)
    requires WellFormed(s)
    ensures WellFormed(r)
  {
    if s.started then Resync(s) else s
  }

  /** The digital inputs bitfield of a slave that has one. */
  function ReadInputs(s: Slave, clock: E.Clock): (r: (Slave, Option<uint32>))
    requires WellFormed(s)
    ensures WellFormed(r.0)
  {
    match s.device
    case Plain => (s, None)
    case Terminal(t) =>
      var u := E.LatchAll(t, clock);
      (s.(device := Terminal(u)), Some(E.Aggregate(u)))
    case Subs(d) => (s, Some(S.Aggregate(d)))
  }

  // ---- the derived class's own operations

  /** `applyDefaultTxPdoMapping`, on a slave whose class has it. */
  function ApplyDefaultMapping(s: Slave): (r: Slave)
    requires WellFormed(s)
    ensures WellFormed(r)
  {
    match s.device
    case Plain => s
    case Terminal(t) => s.(device := Terminal(E.ApplyDefaultMapping(t)), mapped := true)
    case Subs(d) => s.(device := Subs(S.ApplyDefaultMapping(d)), mapped := true)
  }

  /** Driving or reading the channels of a terminal: `setInput`, `setPowerButton`, `setPower`, `input`. */
  function Stimulate(s: Slave, x: E.Stimulus): (r: Slave)
    requires WellFormed(s)
    ensures WellFormed(r)
  {
    if s.device.Terminal? then s.(device := Terminal(E.Apply(s.device.t, x))) else s
  }

  /** `setChannelState` of the slaves application's variant. */
  function SetChannelState(s: Slave, channel: int, level: bool, now: int): (r: Slave)
    requires WellFormed(s)
    ensures WellFormed(r)
  {
    if s.device.Subs? then s.(device := Subs(S.SetChannel(s.device.s, channel, level, now))) else s
  }
}
