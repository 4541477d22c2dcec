/** What holds of one slave over whole runs of its operations, and across its mailbox and EEPROM. */
module SlaveProperties {
  import opened Bytes
  import opened AlMachine
  import opened SlaveModel
  import Coe
  import opened Datagrams
  import E = El1258Model
  import S = SubsModel

  // ---- what one write can touch

  lemma AlControlCase(s: Slave, data: seq<uint8>, clock: E.Clock)
    requires WellFormed(s) && |data| >= 1 && InRegisters(AL_CONTROL, |data|)
    ensures var regs := Splice(s.regs, AL_CONTROL, data);
            Write(s, AL_CONTROL, data, clock) ==
            (HandleAlControl(s.(regs := regs), Le16(regs[AL_CONTROL], regs[AL_CONTROL + 1])), true)
  {}

  lemma PlainRegisterCase(s: Slave, reg: uint16, data: seq<uint8>, clock: E.Clock)
    requires WellFormed(s) && InRegisters(reg, |data|) && !IsEepromCommand(reg, |data|)
    requires reg != AL_CONTROL || data == []
    ensures var (r, ok) := Write(s, reg, data, clock);
            && ok && r.regs == Splice(s.regs, reg, data)
            && r == s.(regs := r.regs, address := r.address)
            && r.address == if reg == STATION_ADDR && |data| >= 2 then Le16(data[0], data[1]) else s.address
  {}

  lemma MailboxCase(s: Slave, reg: uint16, data: seq<uint8>, clock: E.Clock)
    requires WellFormed(s) && WriteDefined(s, reg, |data|)
    requires InRecvWindow(s, reg, |data|) && !IsEepromCommand(reg, |data|)
    ensures Write(s, reg, data, clock) ==
            (HandleMailbox(s.(mbIn := Splice(s.mbIn, reg as int - s.recvOffset as int, data)), clock), true)
  {}

  lemma RelocationCase(s: Slave, reg: uint16, data: seq<uint8>, clock: E.Clock)
    requires WellFormed(s) && IsRelocation(s, reg, |data|)
    ensures Write(s, reg, data, clock) == (SyncSm(Relocate(s, reg, data, 0)), true)
  {}

  /** An answered message touches the reply, the dictionary and the mapping flag. */
  lemma HandlingTouches(s: Slave, clock: E.Clock)
    requires WellFormed(s) && RoomForMessages(s)
    ensures var r := HandleMailbox(s, clock);
            && r.haveReply && r.regs == SyncSmStatus(s.regs, true)
            && r == s.(mbOut := r.mbOut, haveReply := true, regs := r.regs, device := r.device, mapped := r.mapped)
  {}

  lemma {:induction false} RelocateTouches(s: Slave, reg: uint16, data: seq<uint8>, pos: nat)
    requires WellFormed(s) && SYNC_MANAGER_0 <= reg && pos <= |data|
    ensures var r := Relocate(s, reg, data, pos);
            r == s.(recvOffset := r.recvOffset, recvSize := r.recvSize, sendOffset := r.sendOffset,
                    sendSize := r.sendSize, mbIn := r.mbIn, mbOut := r.mbOut)
    decreases |data| - pos
  {
    if |data| - pos >= 8 {
      var start := Le16(data[pos], data[pos + 1]);
      var length := Le16(data[pos + 2], data[pos + 3]);
      RelocateTouches(RelocateEntry(s, (reg as int + pos - SYNC_MANAGER_0 as int) / 8, start, length), reg, data, pos + 8);
    }
  }

  /** Every write leaves the identity, the EEPROM image, and the online and started flags alone, and only
      an AL_CONTROL write moves the AL machine. */
  lemma WriteTouches(s: Slave, reg: uint16, data: seq<uint8>, clock: E.Clock)
    requires WellFormed(s) && WriteDefined(s, reg, |data|)
    ensures var (r, _) := Write(s, reg, data, clock);
            && r.vendor == s.vendor && r.product == s.product && r.eeprom == s.eeprom
            && r.online == s.online && r.started == s.started
            && (!(reg == AL_CONTROL && |data| >= 1 && InRegisters(reg, |data|)) ==> r.al == s.al)
            && (!(reg == STATION_ADDR && |data| >= 2 && InRegisters(reg, |data|)) ==> r.address == s.address)
            && (!IsRelocation(s, reg, |data|) ==> SameWindows(s, r))
  {
    hide Write, HandleMailbox, WellFormed, RoomForMessages, Splice;
    if IsEepromCommand(reg, |data|) {
      EepromCase(s, reg, data, clock);
    } else if InRegisters(reg, |data|) {
      if reg == AL_CONTROL && |data| >= 1 {
        AlControlWriteMirrors(s, data, clock);
      } else {
        PlainRegisterCase(s, reg, data, clock);
      }
    } else if InRecvWindow(s, reg, |data|) {
      MailboxWriteTouches(s, reg, data, clock);
    } else if IsRelocation(s, reg, |data|) {
      RelocationPlacesWindows(s, reg, data, clock);
    } else {
      RefusedCase(s, reg, data, clock);
    }
  }

  lemma EepromCase(s: Slave, reg: uint16, data: seq<uint8>, clock: E.Clock)
    requires WellFormed(s) && WriteDefined(s, reg, |data|) && IsEepromCommand(reg, |data|)
    ensures var (r, ok) := Write(s, reg, data, clock); ok && r == s.(eepromAddr := r.eepromAddr)
  {}

  lemma RefusedCase(s: Slave, reg: uint16, data: seq<uint8>, clock: E.Clock)
    requires WellFormed(s) && !IsEepromCommand(reg, |data|) && !InRegisters(reg, |data|)
    requires !InRecvWindow(s, reg, |data|) && !IsRelocation(s, reg, |data|)
    ensures Write(s, reg, data, clock) == (s, false)
  {}

  lemma MailboxWriteTouches(s: Slave, reg: uint16, data: seq<uint8>, clock: E.Clock)
    requires WellFormed(s) && WriteDefined(s, reg, |data|)
    requires InRecvWindow(s, reg, |data|) && !IsEepromCommand(reg, |data|)
    ensures var (r, ok) := Write(s, reg, data, clock);
            && ok && SmInSync(r) && r.haveReply && r.regs == SyncSmStatus(s.regs, true)
            && r.mbIn == Splice(s.mbIn, reg as int - s.recvOffset as int, data)
            && r == s.(mbIn := r.mbIn, mbOut := r.mbOut, haveReply := true, regs := r.regs, device := r.device, mapped := r.mapped)
  {
    MailboxCase(s, reg, data, clock);
    HandlingTouches(s.(mbIn := Splice(s.mbIn, reg as int - s.recvOffset as int, data)), clock);
  }

  predicate SameWindows(s: Slave, t: Slave) {
    t.recvOffset == s.recvOffset && t.recvSize == s.recvSize && t.sendOffset == s.sendOffset && t.sendSize == s.sendSize
  }

  // ---- runs

  /** Everything that can be done to a slave: register access, the simulator's calls (`setOnline`, setting the
      mapping flag, `start`, `routine`, reading the inputs), and what the derived classes add. */
  datatype Op =
    | WriteOp(reg: uint16, data: seq<uint8>, clock: E.Clock)
    | ReadOp(reg: uint16, dst: seq<uint8>)
    | OnlineOp(on: bool)
    | MappedOp(mapped: bool)
    | StartOp
    | RoutineOp
    | SampleOp(clock: E.Clock)
    | StimulusOp(stimulus: E.Stimulus)
    | ChannelOp(channel: int, level: bool, at: int)
    | DefaultMappingOp

  predicate Enabled(s: Slave, op: Op) {
    WellFormed(s) && (op.WriteOp? ==> WriteDefined(s, op.reg, |op.data|))
  }

  function Step(s: Slave, op: Op): (r: Slave)
    requires Enabled(s, op)
    ensures WellFormed(r)
  {
    match op
    case WriteOp(reg, data, clock) => Write(s, reg, data, clock).0
    case ReadOp(reg, dst) => Read(s, reg, dst).0
    case OnlineOp(on) => SetOnline(s, on)
    case MappedOp(mapped) => s.(mapped := mapped)
    case StartOp => s.(started := true)
    case RoutineOp => Routine(s)
    case SampleOp(clock) => ReadInputs(s, clock).0
    case StimulusOp(stimulus) => Stimulate(s, stimulus)
    case ChannelOp(channel, level, at) => SetChannelState(s, channel, level, at)
    case DefaultMappingOp => ApplyDefaultMapping(s)
  }

  predicate StepAt(ss: seq<Slave>, ops: seq<Op>, i: nat)
    requires i < |ops| && |ss| == |ops| + 1
  {
    Enabled(ss[i], ops[i]) && ss[i + 1] == Step(ss[i], ops[i])
  }

  /** `ss` are the states a slave passes through while `ops` are applied to it. */
  predicate Trace(ss: seq<Slave>, ops: seq<Op>) {
    |ss| == |ops| + 1 && forall i :: 0 <= i < |ops| ==> StepAt(ss, ops, i)
  }

  /** The identity of a slave, its EEPROM image and its error latch are sound. */
  predicate Sound(s: Slave) {
    && WellFormed(s) && Ranked(s.al.state) && LatchOk(s.al)
    && s.eeprom == EepromImage(s.vendor, s.product)
  }

  lemma AlWriteKeepsLatch(a: Al, mapped: bool, ctrl: uint16)
    requires Ranked(a.state) && LatchOk(a)
    ensures var b := AlWrite(a, mapped, ctrl); Ranked(b.state) && LatchOk(b)
  {}

  lemma WriteKeepsSound(s: Slave, reg: uint16, data: seq<uint8>, clock: E.Clock)
    requires Sound(s) && WriteDefined(s, reg, |data|)
    ensures var (r, _) := Write(s, reg, data, clock); Sound(r) && r.vendor == s.vendor && r.product == s.product
  {
    WriteTouches(s, reg, data, clock);
    if reg == AL_CONTROL && |data| >= 1 && InRegisters(reg, |data|) {
      AlControlWriteMirrors(s, data, clock);
      AlWriteKeepsLatch(s.al, s.mapped, data[0] % 0x20);
    }
  }

  lemma StepKeepsSound(s: Slave, op: Op)
    requires Sound(s) && Enabled(s, op)
    ensures var r := Step(s, op); Sound(r) && r.vendor == s.vendor && r.product == s.product
  {
    hide Write, WriteDefined, DeviceOk, SyncCore, SyncSmStatus;
    if op.WriteOp? { WriteKeepsSound(s, op.reg, op.data, op.clock); }
  }

  /** In every reachable state the machine is in one of its four states, the ACK request flag is up
      exactly while a code is latched, the code is one of three, and the EEPROM image is the one built
      from the constructor's identity: no access ever changes it. */
  lemma {:induction false} EveryReachableStateIsSound(ss: seq<Slave>, ops: seq<Op>, k: nat)
    requires Trace(ss, ops) && k < |ss| && Sound(ss[0])
    ensures Sound(ss[k]) && ss[k].vendor == ss[0].vendor && ss[k].product == ss[0].product
    decreases k
  {
    if k > 0 {
      EveryReachableStateIsSound(ss, ops, k - 1);
      assert StepAt(ss, ops, k - 1);
      StepKeepsSound(ss[k - 1], ops[k - 1]);
    }
  }

  /** At every step of every run the machine moves only by an AL_CONTROL write, along what that write's low
      five bits request, and enters SAFE_OP or OPERATIONAL only while the inputs are mapped. */
  lemma OnlyGatedRequestsMoveTheMachine(ss: seq<Slave>, ops: seq<Op>, k: nat)
    requires Trace(ss, ops) && k < |ops| && Sound(ss[0])
    ensures var s, t := ss[k], ss[k + 1];
            t.al != s.al ==>
              && ops[k].WriteOp? && ops[k].reg == AL_CONTROL && |ops[k].data| >= 1
              && t.al == AlWrite(s.al, s.mapped, ops[k].data[0] % 0x20)
              && (t.al.state != s.al.state && t.al.state in {SafeOp, Operational} ==> s.mapped)
  {
    hide Sound, Step, Enabled;
    EveryReachableStateIsSound(ss, ops, k);
    assert StepAt(ss, ops, k);
    StepIsGated(ss[k], ops[k]);
  }

  lemma StepIsGated(s: Slave, op: Op)
    requires Sound(s) && Enabled(s, op)
    ensures var t := Step(s, op);
            t.al != s.al ==>
              && op.WriteOp? && op.reg == AL_CONTROL && |op.data| >= 1
              && t.al == AlWrite(s.al, s.mapped, op.data[0] % 0x20)
              && (t.al.state != s.al.state && t.al.state in {SafeOp, Operational} ==> s.mapped)
  {
    if op.WriteOp? {
      hide Write;
      WriteTouches(s, op.reg, op.data, op.clock);
      if op.reg == AL_CONTROL && |op.data| >= 1 && InRegisters(AL_CONTROL, |op.data|) {
        AlControlWriteMirrors(s, op.data, op.clock);
        WriteIsGated(s.al, s.mapped, op.data[0] % 0x20);
      }
    }
  }

  lemma WriteIsGated(a: Al, mapped: bool, ctrl: uint16)
    requires Ranked(a.state)
    ensures var b := AlWrite(a, mapped, ctrl); b.state != a.state && b.state in {SafeOp, Operational} ==> mapped
  {}

  // ---- register mirror

  /** DL_STATUS, AL_STATUS and AL_STATUS_CODE show the fields. */
  predicate Mirrors(s: Slave) {
    && WellFormed(s)
    && s.regs[DL_STATUS] == Lo(DlStatus(s.online)) && s.regs[DL_STATUS + 1] == Hi(DlStatus(s.online))
    && s.regs[AL_STATUS] == StatusByte(s.al) && s.regs[AL_STATUS + 1] == 0
    && s.regs[AL_STATUS_CODE] == Lo(s.al.code) && s.regs[AL_STATUS_CODE + 1] == Hi(s.al.code)
  }

  /** Whatever was scribbled over the status registers before, and even by the very same write, an
      AL_CONTROL write leaves them showing the fields; the machine sees only the low five bits of the
      first byte, and apart from registers and the waiting reply nothing else changes. */
  lemma AlControlWriteMirrors(s: Slave, data: seq<uint8>, clock: E.Clock)
    requires WellFormed(s) && |data| >= 1 && InRegisters(AL_CONTROL, |data|)
    ensures var (r, ok) := Write(s, AL_CONTROL, data, clock);
            && ok && Mirrors(r)
            && r.al == AlWrite(s.al, s.mapped, data[0] % 0x20)
            && r.regs[SM1_STATUS] == Splice(s.regs, AL_CONTROL, data)[SM1_STATUS]
            && r == s.(al := r.al, regs := r.regs, haveReply := s.haveReply && !(r.al.state == Init && s.al.state != Init))
  {
    AlControlCase(s, data, clock);
    var t := s.(regs := Splice(s.regs, AL_CONTROL, data));
    var hi := t.regs[AL_CONTROL + 1];
    HandlingAlMirrors(t, Le16(data[0], hi));
    LowBitsOfBytes(s.al, s.mapped, data[0], hi);
  }

  lemma LowByte(lo: uint8, hi: uint8)
    ensures Le16(lo, hi) % 0x20 == lo % 0x20
  {}

  lemma LowBitsOfBytes(a: Al, mapped: bool, lo: uint8, hi: uint8)
    ensures AlWrite(a, mapped, Le16(lo, hi)) == AlWrite(a, mapped, lo % 0x20)
  {
    LowByte(lo, hi);
    AlWriteLowBits(a, mapped, Le16(lo, hi), lo % 0x20);
  }

  lemma HandlingAlMirrors(s: Slave, ctrl: uint16)
    requires WellFormed(s)
    ensures var r := HandleAlControl(s, ctrl);
            && Mirrors(r)
            && r.al == AlWrite(s.al, s.mapped, ctrl)
            && r.regs[SM1_STATUS] == s.regs[SM1_STATUS]
            && r == s.(al := r.al, regs := r.regs,
                       haveReply := s.haveReply && !(r.al.state == Init && s.al.state != Init))
  {}

  // ---- mailbox windows and handshake

  /** The relocation branch lies behind the register branch, so no frame-sized write reaches it: only one
      of at least 2034 bytes can. */
  lemma FrameWritesNeverRelocate(s: Slave, reg: uint16, len: nat)
    ensures IsRelocation(s, reg, len) ==> len >= 2034
    ensures len <= MAX_PAYLOAD ==> !IsRelocation(s, reg, len)
  {}

  /** Behind the first two entries the loop changes nothing. */
  lemma {:induction false} FurtherEntriesAreSkipped(s: Slave, reg: uint16, data: seq<uint8>, pos: nat)
    requires WellFormed(s) && SYNC_MANAGER_0 <= reg && 16 <= pos <= |data|
    ensures Relocate(s, reg, data, pos) == s
    decreases |data| - pos
  {
    if |data| - pos >= 8 { FurtherEntriesAreSkipped(s, reg, data, pos + 8); }
  }

  /** Offset and length of the `i`-th SyncManager entry in the data of a write. */
  function EntryIn(data: seq<uint8>, i: nat): (uint16, uint16)
    requires 8 * i + 4 <= |data|
  {
    (Le16(data[8 * i], data[8 * i + 1]), Le16(data[8 * i + 2], data[8 * i + 3]))
  }

  /** The SyncManager registers show the windows. */
  predicate ShowsWindows(s: Slave) {
    && WellFormed(s)
    && s.regs[SYNC_MANAGER_0..SYNC_MANAGER_0 + 4] == [Lo(s.recvOffset), Hi(s.recvOffset), Lo(s.recvSize), Hi(s.recvSize)]
    && s.regs[SYNC_MANAGER_1..SYNC_MANAGER_1 + 4] == [Lo(s.sendOffset), Hi(s.sendOffset), Lo(s.sendSize), Hi(s.sendSize)]
  }

  lemma SyncSmShowsWindows(s: Slave)
    requires WellFormed(s)
    ensures var r := SyncSm(s);
            ShowsWindows(r) && SmInSync(r) && r == s.(regs := r.regs) && r.regs[..SYNC_MANAGER_0] == s.regs[..SYNC_MANAGER_0]
  {}

  /** What a write that does reach the branch makes of the windows, by its register: from the first entry on
      both move, from the second on only the send window does, to the data's first entry. A buffer survives
      exactly if its size stays, and the SyncManager registers show the result. */
  lemma RelocationPlacesWindows(s: Slave, reg: uint16, data: seq<uint8>, clock: E.Clock)
    requires WellFormed(s) && IsRelocation(s, reg, |data|)
    ensures |data| >= 16
    ensures var (r, ok) := Write(s, reg, data, clock);
            && ok && ShowsWindows(r) && SmInSync(r) && r.regs[..SYNC_MANAGER_0] == s.regs[..SYNC_MANAGER_0]
            && (r.recvOffset, r.recvSize) == (if reg < SYNC_MANAGER_1 then EntryIn(data, 0) else (s.recvOffset, s.recvSize))
            && (r.sendOffset, r.sendSize) == EntryIn(data, if reg < SYNC_MANAGER_1 then 1 else 0)
            && r.mbIn == (if r.recvSize == s.recvSize then s.mbIn else Zeros(r.recvSize))
            && r.mbOut == (if r.sendSize == s.sendSize then s.mbOut else Zeros(r.sendSize))
            && r == s.(recvOffset := r.recvOffset, recvSize := r.recvSize, sendOffset := r.sendOffset,
                       sendSize := r.sendSize, mbIn := r.mbIn, mbOut := r.mbOut, regs := r.regs)
  {
    FrameWritesNeverRelocate(s, reg, |data|);
    RelocationCase(s, reg, data, clock);
    RelocatesTwoEntries(s, reg, data);
    RelocateTouches(s, reg, data, 0);
    hide Write, Relocate, SyncSm, ShowsWindows;
    SyncSmShowsWindows(Relocate(s, reg, data, 0));
  }

  lemma RelocatesTwoEntries(s: Slave, reg: uint16, data: seq<uint8>)
    requires WellFormed(s) && SYNC_MANAGER_0 <= reg < SYNC_MANAGER_0 + 16 && |data| >= 16
    ensures var r := Relocate(s, reg, data, 0);
            && (r.recvOffset, r.recvSize) == (if reg < SYNC_MANAGER_1 then EntryIn(data, 0) else (s.recvOffset, s.recvSize))
            && (r.sendOffset, r.sendSize) == EntryIn(data, if reg < SYNC_MANAGER_1 then 1 else 0)
            && r.mbIn == (if r.recvSize == s.recvSize then s.mbIn else Zeros(r.recvSize))
            && r.mbOut == (if r.sendSize == s.sendSize then s.mbOut else Zeros(r.sendSize))
  {
    assert |s.mbIn| == s.recvSize && |s.mbOut| == s.sendSize;
    hide Relocate, WellFormed, Zeros;
    var first := EntryIn(data, 0);
    RelocateNext(s, reg, data, 0);
    if reg < SYNC_MANAGER_1 {
      var second := EntryIn(data, 1);
      var u := RelocateEntry(s, 0, first.0, first.1);
      RelocateNext(u, reg, data, 8);
      FurtherEntriesAreSkipped(RelocateEntry(u, 1, second.0, second.1), reg, data, 16);
    } else {
      var u := RelocateEntry(s, 1, first.0, first.1);
      RelocateNext(u, reg, data, 8);
      FurtherEntriesAreSkipped(u, reg, data, 16);
    }
  }

  lemma RelocateNext(s: Slave, reg: uint16, data: seq<uint8>, pos: nat)
    requires WellFormed(s) && SYNC_MANAGER_0 <= reg && pos + 8 <= |data| && pos % 8 == 0
    ensures var e := EntryIn(data, pos / 8);
            Relocate(s, reg, data, pos) ==
            Relocate(RelocateEntry(s, (reg as int + pos - SYNC_MANAGER_0 as int) / 8, e.0, e.1), reg, data, pos + 8)
  {}

  predicate FrameSized(op: Op) { op.WriteOp? ==> |op.data| <= MAX_PAYLOAD }

  lemma FrameSizedStepKeepsWindows(s: Slave, op: Op)
    requires Enabled(s, op) && FrameSized(op)
    ensures SameWindows(s, Step(s, op))
  {
    if op.WriteOp? {
      FrameWritesNeverRelocate(s, op.reg, |op.data|);
      WriteTouches(s, op.reg, op.data, op.clock);
    }
  }

  /** So over every run of frame-sized operations the windows stay where they were. */
  lemma {:induction false} WindowsStayPut(ss: seq<Slave>, ops: seq<Op>, k: nat)
    requires Trace(ss, ops) && k < |ss| && WellFormed(ss[0])
    requires forall i :: 0 <= i < k ==> FrameSized(ops[i])
    ensures WellFormed(ss[k]) && SameWindows(ss[0], ss[k])
    decreases k
  {
    if k > 0 {
      WindowsStayPut(ss, ops, k - 1);
      assert StepAt(ss, ops, k - 1);
      FrameSizedStepKeepsWindows(ss[k - 1], ops[k - 1]);
    }
  }

  predicate Covers(reg: uint16, len: nat, a: uint16) { reg <= a && a as int < reg as int + len }

  /** The SM1 status byte shows whether a reply waits. */
  predicate SmInSync(s: Slave) {
    WellFormed(s) && s.regs[SM1_STATUS] == (if s.haveReply then MAILBOX_STATUS else 0)
  }

  /** The write is a plain request for INIT, while the machine is in another of its four states. */
  predicate EntersInit(s: Slave, reg: uint16, data: seq<uint8>) {
    && reg == AL_CONTROL && |data| >= 1 && InRegisters(reg, |data|)
    && Ranked(s.al.state) && s.al.state != Init && data[0] % 0x20 == 0x01
  }

  /** Just these writes make the machine enter INIT: an acknowledging one never does. */
  lemma EntersInitExactly(s: Slave, data: seq<uint8>)
    requires |data| >= 1 && InRegisters(AL_CONTROL, |data|)
    ensures EntersInit(s, AL_CONTROL, data) <==>
            s.al.state != Init && AlWrite(s.al, s.mapped, data[0] % 0x20).state == Init
  {}

  /** A write keeps the status byte in step with the waiting reply exactly unless it enters INIT while a
      reply waits, or overwrites the byte with another value. */
  lemma WriteKeepsSmInSyncExactlyUnless(s: Slave, reg: uint16, data: seq<uint8>, clock: E.Clock)
    requires SmInSync(s) && WriteDefined(s, reg, |data|)
    ensures SmInSync(Write(s, reg, data, clock).0) <==>
            if InRegisters(reg, |data|) && !IsEepromCommand(reg, |data|) && Covers(reg, |data|, SM1_STATUS) then
              data[SM1_STATUS as int - reg as int] ==
              (if s.haveReply && !EntersInit(s, reg, data) then MAILBOX_STATUS else 0)
            else !(s.haveReply && EntersInit(s, reg, data))
  {
    SmAfterWrite(s, reg, data, clock);
  }

  lemma SmAfterRegisterWrite(s: Slave, reg: uint16, data: seq<uint8>, clock: E.Clock)
    requires WellFormed(s) && InRegisters(reg, |data|) && !IsEepromCommand(reg, |data|)
    ensures var (r, _) := Write(s, reg, data, clock);
            && WellFormed(r)
            && r.haveReply == (s.haveReply && !EntersInit(s, reg, data))
            && r.regs[SM1_STATUS] ==
               if Covers(reg, |data|, SM1_STATUS) then data[SM1_STATUS as int - reg as int] else s.regs[SM1_STATUS]
  {
    if reg == AL_CONTROL && |data| >= 1 {
      AlControlWriteMirrors(s, data, clock);
      EntersInitExactly(s, data);
    } else {
      PlainRegisterCase(s, reg, data, clock);
    }
  }

  lemma SmAfterOtherWrite(s: Slave, reg: uint16, data: seq<uint8>, clock: E.Clock)
    requires WellFormed(s) && !InRegisters(reg, |data|) && !IsEepromCommand(reg, |data|) && WriteDefined(s, reg, |data|)
    ensures var (r, _) := Write(s, reg, data, clock);
            if InRecvWindow(s, reg, |data|) then r.haveReply && SmInSync(r)
            else r.haveReply == s.haveReply && (SmInSync(r) || r.regs == s.regs)
  {
    if InRecvWindow(s, reg, |data|) {
      MailboxWriteTouches(s, reg, data, clock);
    } else if IsRelocation(s, reg, |data|) {
      RelocationPlacesWindows(s, reg, data, clock);
    }
  }

  /** The reply flag and the status byte after a write, case by case. */
  lemma SmAfterWrite(s: Slave, reg: uint16, data: seq<uint8>, clock: E.Clock)
    requires WellFormed(s) && WriteDefined(s, reg, |data|)
    ensures var (r, _) := Write(s, reg, data, clock);
            && WellFormed(r)
            && if IsEepromCommand(reg, |data|) then r.haveReply == s.haveReply && r.regs == s.regs
               else if InRegisters(reg, |data|) then
                 && r.haveReply == (s.haveReply && !EntersInit(s, reg, data))
                 && r.regs[SM1_STATUS] ==
                    if Covers(reg, |data|, SM1_STATUS) then data[SM1_STATUS as int - reg as int] else s.regs[SM1_STATUS]
               else if InRecvWindow(s, reg, |data|) then r.haveReply && SmInSync(r)
               else r.haveReply == s.haveReply && (SmInSync(r) || r.regs == s.regs)
  {
    if !IsEepromCommand(reg, |data|) {
      if InRegisters(reg, |data|) {
        SmAfterRegisterWrite(s, reg, data, clock);
      } else {
        SmAfterOtherWrite(s, reg, data, clock);
      }
    }
  }

  predicate IsMailboxWrite(s: Slave, op: Op) {
    op.WriteOp? && !IsEepromCommand(op.reg, |op.data|) && InRecvWindow(s, op.reg, |op.data|)
  }

  predicate IsReplyRead(s: Slave, op: Op) { op.ReadOp? && InSendWindow(s, op.reg, |op.dst|) }

  /** An operation that neither enters INIT nor writes over the SM1 status byte. */
  predicate Quiet(s: Slave, op: Op) {
    op.WriteOp? ==> !EntersInit(s, op.reg, op.data) && !Covers(op.reg, |op.data|, SM1_STATUS)
  }

  lemma QuietStep(s: Slave, op: Op)
    requires Enabled(s, op) && Quiet(s, op) && SmInSync(s)
    ensures var r := Step(s, op);
            && SmInSync(r)
            && r.haveReply == if IsMailboxWrite(s, op) then true else if IsReplyRead(s, op) then false else s.haveReply
  {
    if op.WriteOp? {
      SmAfterWrite(s, op.reg, op.data, op.clock);
    }
  }

  /** The handshake over a whole run: the status byte is up exactly from a mailbox write until the next
      read of the reply window. */
  lemma {:induction false} Handshake(ss: seq<Slave>, ops: seq<Op>, k: nat)
    requires Trace(ss, ops) && k < |ss|
    requires SmInSync(ss[0]) && !ss[0].haveReply
    requires forall i :: 0 <= i < k ==> Quiet(ss[i], ops[i])
    ensures SmInSync(ss[k])
    ensures ss[k].regs[SM1_STATUS] == MAILBOX_STATUS <==>
            exists j :: 0 <= j < k && IsMailboxWrite(ss[j], ops[j]) &&
                        forall i :: j < i < k ==> !IsReplyRead(ss[i], ops[i])
    decreases k
  {
    if k > 0 {
      Handshake(ss, ops, k - 1);
      assert StepAt(ss, ops, k - 1);
      QuietStep(ss[k - 1], ops[k - 1]);
    }
  }

  /** Entering INIT with a reply waiting does break it: the byte still announces the withdrawn reply. */
  lemma InitLeavesStaleStatus(s: Slave, clock: E.Clock)
    requires SmInSync(s) && s.haveReply && s.al.state == PreOp
    ensures var (r, _) := Write(s, AL_CONTROL, [0x01, 0x00], clock);
            r.al.state == Init && !r.haveReply && r.regs[SM1_STATUS] == MAILBOX_STATUS
  {
    var data := [0x01, 0x00];
    AlControlWriteMirrors(s, data, clock);
    SmAfterWrite(s, AL_CONTROL, data, clock);
    InitRequest(s.al, s.mapped);
  }

  // ---- SDO exchanges through the mailbox bytes

  /** Both windows lie behind the register space and can hold a message. */
  predicate WindowsUsable(s: Slave) {
    WellFormed(s) && RoomForMessages(s) && s.recvOffset >= REGISTER_COUNT && s.sendOffset >= REGISTER_COUNT
  }

  /** The request is written whole at the start of the receive window, then `dst` is filled from the
      start of the send window. */
  function Exchange(s: Slave, request: Coe.Message, flags: uint8, tail: seq<uint8>, dst: seq<uint8>, clock: E.Clock):
    (r: (Slave, seq<uint8>))
    requires WindowsUsable(s) && Coe.Fits(request) && flags < 0x20
    requires Coe.MESSAGE_SIZE + |tail| <= s.recvSize && |dst| <= s.sendSize
    ensures WellFormed(r.0)
  {
    var (t, _) := Write(s, s.recvOffset, Coe.Encode(request, flags) + tail, clock);
    var (u, out, _) := Read(t, t.sendOffset, dst);
    (u, out)
  }

  /** What the slave owes a request: its response command and value. */
  function Answer(s: Slave, request: Coe.Message, clock: E.Clock): (uint8, uint32)
    requires WellFormed(s)
  {
    if request.service == Coe.SDO_REQUEST && request.command == Coe.REQUEST_UPLOAD then
      (Coe.RESPONSE_UPLOAD, UploadValue(s, request.index, request.sub, clock).1)
    else if request.service == Coe.SDO_REQUEST && request.command == Coe.REQUEST_DOWNLOAD then (Coe.RESPONSE_DOWNLOAD, 0)
    else (Coe.RESPONSE_UPLOAD, 0)
  }

  /** The SDO round trip: from every state, for every request, the bytes read back decode to the echoed
      count, index and subindex, an SDO response, and the owed command and value; and the exchange
      touches only the mailbox, the dictionary and the mapping flag. */
  lemma SdoRoundTrip(s: Slave, request: Coe.Message, flags: uint8, tail: seq<uint8>, dst: seq<uint8>, clock: E.Clock)
    requires WindowsUsable(s) && Coe.Fits(request) && flags < 0x20
    requires Coe.MESSAGE_SIZE + |tail| <= s.recvSize && Coe.MESSAGE_SIZE <= |dst| <= s.sendSize
    ensures var (u, out) := Exchange(s, request, flags, tail, dst, clock);
            var (command, value) := Answer(s, request, clock);
            && |out| == |dst|
            && Coe.Decode(out) == Coe.Message(request.count, Coe.SDO_RESPONSE, command, request.index, request.sub, value)
            && out == Coe.Encode(Coe.Message(request.count, Coe.SDO_RESPONSE, command, request.index, request.sub, value), Coe.EXPEDITED)
                      + Zeros(|dst| - Coe.MESSAGE_SIZE)
            && WindowsUsable(u) && SameWindows(s, u) && SmInSync(u) && !u.haveReply
            && u == s.(mbIn := u.mbIn, mbOut := u.mbOut, haveReply := false, regs := u.regs, device := u.device, mapped := u.mapped)
            && (u.device, u.mapped) ==
               if request.service == Coe.SDO_REQUEST && request.command == Coe.REQUEST_UPLOAD then
                 (UploadValue(s, request.index, request.sub, clock).0, s.mapped)
               else if request.service == Coe.SDO_REQUEST && request.command == Coe.REQUEST_DOWNLOAD then
                 DownloadEffect(s, request.index, request.sub, request.value)
               else (s.device, s.mapped)
  {
    RequestAnswered(s, request, flags, tail, clock);
    var t := Write(s, s.recvOffset, Coe.Encode(request, flags) + tail, clock).0;
    var (command, value) := Answer(s, request, clock);
    ReplyReadBack(t, Coe.Message(request.count, Coe.SDO_RESPONSE, command, request.index, request.sub, value), dst);
  }

  /** The request side: the message is parsed out of the buffer and answered. */
  lemma RequestAnswered(s: Slave, request: Coe.Message, flags: uint8, tail: seq<uint8>, clock: E.Clock)
    requires WindowsUsable(s) && Coe.Fits(request) && flags < 0x20
    requires Coe.MESSAGE_SIZE + |tail| <= s.recvSize
    ensures var (t, ok) := Write(s, s.recvOffset, Coe.Encode(request, flags) + tail, clock);
            var (command, value) := Answer(s, request, clock);
            && ok && HoldsReply(t, Coe.Message(request.count, Coe.SDO_RESPONSE, command, request.index, request.sub, value))
            && t == s.(mbIn := t.mbIn, mbOut := t.mbOut, haveReply := true, regs := t.regs, device := t.device, mapped := t.mapped)
            && (t.device, t.mapped) ==
               if request.service == Coe.SDO_REQUEST && request.command == Coe.REQUEST_UPLOAD then
                 (UploadValue(s, request.index, request.sub, clock).0, s.mapped)
               else if request.service == Coe.SDO_REQUEST && request.command == Coe.REQUEST_DOWNLOAD then
                 DownloadEffect(s, request.index, request.sub, request.value)
               else (s.device, s.mapped)
  {
    hide HoldsReply, Write, HandleMailbox, UploadValue, DownloadEffect, Coe.Decode, WellFormed, DeviceOk;
    var bytes := Coe.Encode(request, flags) + tail;
    ReceivedWhole(s, bytes);
    var received := s.(mbIn := Splice(s.mbIn, 0, bytes));
    assert received.mbIn == Coe.Encode(request, flags) + (tail + s.mbIn[|bytes|..]);
    Coe.DecodeEncode(request, flags, tail + s.mbIn[|bytes|..]);
    MailboxCase(s, s.recvOffset, bytes, clock);
    MessageHandled(received, request, clock);
    AnswerIgnoresBuffer(s, received.mbIn, request, clock);
  }

  lemma AnswerIgnoresBuffer(s: Slave, mbIn: seq<uint8>, request: Coe.Message, clock: E.Clock)
    requires WellFormed(s) && |mbIn| == |s.mbIn|
    ensures var t := s.(mbIn := mbIn);
            && WellFormed(t) && Answer(t, request, clock) == Answer(s, request, clock)
            && UploadValue(t, request.index, request.sub, clock) == UploadValue(s, request.index, request.sub, clock)
            && DownloadEffect(t, request.index, request.sub, request.value) == DownloadEffect(s, request.index, request.sub, request.value)
  {}

  lemma ReceivedWhole(s: Slave, bytes: seq<uint8>)
    requires WindowsUsable(s) && 0 < |bytes| <= s.recvSize
    ensures |s.mbIn| == s.recvSize && InRecvWindow(s, s.recvOffset, |bytes|) && !IsEepromCommand(s.recvOffset, |bytes|)
    ensures WellFormed(s.(mbIn := Splice(s.mbIn, 0, bytes)))
  {}

  /** `t` holds the bytes of a reply at the start of its send buffer. */
  predicate HoldsReply(t: Slave, m: Coe.Message) {
    && WellFormed(t) && RoomForMessages(t) && Coe.Fits(m)
    && t.mbOut == Coe.Encode(m, Coe.EXPEDITED) + Zeros(t.sendSize - Coe.MESSAGE_SIZE)
  }

  lemma MessageHandled(s: Slave, request: Coe.Message, clock: E.Clock)
    requires WellFormed(s) && RoomForMessages(s) && Coe.Decode(s.mbIn) == request
    ensures var t := HandleMailbox(s, clock);
            var (command, value) := Answer(s, request, clock);
            && HoldsReply(t, Coe.Message(request.count, Coe.SDO_RESPONSE, command, request.index, request.sub, value))
            && t == s.(mbOut := t.mbOut, haveReply := true, regs := t.regs, device := t.device, mapped := t.mapped)
            && (t.device, t.mapped) ==
               if request.service == Coe.SDO_REQUEST && request.command == Coe.REQUEST_UPLOAD then
                 (UploadValue(s, request.index, request.sub, clock).0, s.mapped)
               else if request.service == Coe.SDO_REQUEST && request.command == Coe.REQUEST_DOWNLOAD then
                 DownloadEffect(s, request.index, request.sub, request.value)
               else (s.device, s.mapped)
  {
    HandlingTouches(s, clock);
  }

  /** The reply side: any read of at least a message from the window's start decodes to the reply. */
  lemma ReplyReadBack(t: Slave, m: Coe.Message, dst: seq<uint8>)
    requires HoldsReply(t, m) && t.sendOffset >= REGISTER_COUNT && Coe.MESSAGE_SIZE <= |dst| <= t.sendSize
    ensures var (u, out, ok) := Read(t, t.sendOffset, dst);
            && ok && |out| == |dst| && Coe.Decode(out) == m
            && out == Coe.Encode(m, Coe.EXPEDITED) + Zeros(|dst| - Coe.MESSAGE_SIZE)
            && SmInSync(u) && u == t.(haveReply := false, regs := u.regs)
  {
    var encoded, rest := Coe.Encode(m, Coe.EXPEDITED), Zeros(t.sendSize - Coe.MESSAGE_SIZE);
    assert t.mbOut[0..|dst|] == encoded + rest[..|dst| - Coe.MESSAGE_SIZE];
    Coe.DecodeEncode(m, Coe.EXPEDITED, rest[..|dst| - Coe.MESSAGE_SIZE]);
  }

  function UploadRequest(count: uint8, index: uint16, sub: uint8): Coe.Message {
    Coe.Message(count, Coe.SDO_REQUEST, Coe.REQUEST_UPLOAD, index, sub, 0)
  }

  function DownloadRequest(count: uint8, index: uint16, sub: uint8, value: uint32): Coe.Message {
    Coe.Message(count, Coe.SDO_REQUEST, Coe.REQUEST_DOWNLOAD, index, sub, value)
  }

  /** On an EL1258, one message downloads a value and another uploads any writable object: the object
      written answers with the value as stored, and every other one is as it was, except that a count
      write zeroes the entries past the count. The mapping flag follows the dictionary. */
  lemma DownloadThenUploadThroughMailbox(s: Slave, index: uint16, sub: uint8, value: uint32,
                                         index2: uint16, sub2: uint8, count: uint8, dst: seq<uint8>, clock: E.Clock, clock2: E.Clock)
    requires WindowsUsable(s) && s.device.Terminal? && count < 8 && Coe.MESSAGE_SIZE <= |dst| <= s.sendSize
    requires E.Writable(index, sub) && E.Writable(index2, sub2)
    ensures var (t, _) := Exchange(s, DownloadRequest(count, index, sub, value), 0, [], dst, clock);
            WindowsUsable(t) && |dst| <= t.sendSize && t.recvSize >= Coe.MESSAGE_SIZE && t.device.Terminal?
            && t.mapped == E.Mapped(t.device.t)
            && var (u, out) := Exchange(t, UploadRequest(count, index2, sub2), 0, [], dst, clock2);
            && |out| >= Coe.MESSAGE_SIZE
            && Coe.Decode(out).value ==
               if (index2, sub2) == (index, sub) then E.AsStored(index, sub, value)
               else if index2 == index && sub == 0 && sub2 > E.AsStored(index, sub, value) then 0
               else E.Stored(s.device.t, index2, sub2)
  {
    hide Coe.Encode, Exchange, SmInSync;
    SdoRoundTrip(s, DownloadRequest(count, index, sub, value), 0, [], dst, clock);
    var t := Exchange(s, DownloadRequest(count, index, sub, value), 0, [], dst, clock).0;
    SdoRoundTrip(t, UploadRequest(count, index2, sub2), 0, [], dst, clock2);
    E.DownloadThenUpload(s.device.t, index, sub, value, index2, sub2, clock2);
  }

  // ---- EEPROM

  function EepromCommandBytes(address: uint32): seq<uint8> { [0, 1] + Le32Bytes(address) }

  /** `k` successive 4-byte reads of the EEPROM data register. */
  function Fetch(s: Slave, k: nat): (r: (Slave, seq<uint8>))
    requires WellFormed(s)
    ensures WellFormed(r.0)
  {
    if k == 0 then (s, [])
    else
      var (t, bytes) := Fetch(s, k - 1);
      var (u, out, _) := Read(t, EEPROM_DATA, Zeros(4));
      (u, bytes + out)
  }

  lemma WordsOfFetch(lo: uint16, hi: uint16)
    ensures var b := Le32Bytes((lo as int) + 0x1_0000 * (hi as int)); Le16(b[0], b[1]) == lo && Le16(b[2], b[3]) == hi
  {
    var v := (lo as int) + 0x1_0000 * (hi as int);
    assert v % 0x1_0000 == lo && v / 0x1_0000 == hi;
    assert v / 0x100 % 0x100 == lo / 0x100;
    assert v / 0x100_0000 == hi / 0x100;
  }

  lemma OneFetch(s: Slave)
    requires WellFormed(s)
    ensures Read(s, EEPROM_DATA, Zeros(4)) ==
            (s.(eepromAddr := Advance(s.eepromAddr, 2)), Le32Bytes(EepromFetch(s)), true)
  {
    assert Splice(Zeros(4), 0, Le32Bytes(EepromFetch(s))) == Le32Bytes(EepromFetch(s));
  }

  lemma AdvanceTwice(a: uint32, m: nat, n: nat)
    ensures Advance(Advance(a, m), n) == Advance(a, m + n)
  {}

  /** Reading on yields the words from the current address on, one after another, zero past the image,
      the address wrapping at 2^32; nothing but the address moves. */
  lemma {:induction false} FetchReadsOn(s: Slave, k: nat)
    requires WellFormed(s)
    ensures var (t, bytes) := Fetch(s, k);
            && t == s.(eepromAddr := Advance(s.eepromAddr, 2 * k))
            && |bytes| == 4 * k
            && forall i :: 0 <= i < 2 * k ==>
                 Le16(bytes[2 * i], bytes[2 * i + 1]) == WordAt(s.eeprom, Advance(s.eepromAddr, i))
    decreases k
  {
    if k > 0 {
      FetchReadsOn(s, k - 1);
      var (t, bytes) := Fetch(s, k - 1);
      OneFetch(t);
      var out := Le32Bytes(EepromFetch(t));
      AdvanceTwice(s.eepromAddr, 2 * (k - 1), 2);
      AdvanceTwice(s.eepromAddr, 2 * (k - 1), 1);
      WordsOfFetch(WordAt(t.eeprom, t.eepromAddr), WordAt(t.eeprom, Advance(t.eepromAddr, 1)));
      forall i | 0 <= i < 2 * k
        ensures Le16((bytes + out)[2 * i], (bytes + out)[2 * i + 1]) == WordAt(s.eeprom, Advance(s.eepromAddr, i))
      {
        if i >= 2 * (k - 1) {
          assert i == 2 * k - 2 || i == 2 * k - 1;
        }
      }
    }
  }

  /** The EEPROM protocol: after a control write of an address, `k` reads return the `2k` words from it. */
  lemma EepromSequence(s: Slave, address: uint32, k: nat, clock: E.Clock)
    requires WellFormed(s)
    ensures var (t, ok) := Write(s, EEPROM_CONTROL, EepromCommandBytes(address), clock);
            && ok && t == s.(eepromAddr := address)
            && var (u, bytes) := Fetch(t, k);
            && u.eeprom == s.eeprom && |bytes| == 4 * k
            && forall i :: 0 <= i < 2 * k ==>
                 Le16(bytes[2 * i], bytes[2 * i + 1]) == WordAt(s.eeprom, Advance(address, i))
  {
    Le32RoundTrip(address);
    assert EepromCommandBytes(address)[2..6] == Le32Bytes(address);
    FetchReadsOn(s.(eepromAddr := address), k);
  }

  lemma Recombine(v: uint32, b: seq<uint8>)
    requires |b| == 4 && Le16(b[0], b[1]) == v % 0x1_0000 && Le16(b[2], b[3]) == v / 0x1_0000
    ensures Le32(b) == v
  {}

  /** The identity is one: EEPROM words 8 to 11 recombine to the constructor's vendor and product, which
      are what SDO 0x1018:1 and 0x1018:2 answer, on every kind of slave. */
  lemma IdentityAgrees(s: Slave, clock: E.Clock)
    requires Sound(s)
    ensures var (t, _) := Write(s, EEPROM_CONTROL, EepromCommandBytes(8), clock);
            var (_, bytes) := Fetch(t, 2);
            && |bytes| == 8
            && Le32(bytes[..4]) == s.vendor == UploadValue(s, OBJ_IDENTITY, 1, clock).1
            && Le32(bytes[4..]) == s.product == UploadValue(s, OBJ_IDENTITY, 2, clock).1
  {
    assert WellFormed(s);
    IdentityWords(s);
    hide Write, Fetch, UploadValue, Sound, WellFormed, Le16, Le32;
    EepromSequence(s, 8, 2, clock);
    var (t, _) := Write(s, EEPROM_CONTROL, EepromCommandBytes(8), clock);
    var (_, bytes) := Fetch(t, 2);
    assert Le16(bytes[2 * 0], bytes[2 * 0 + 1]) == WordAt(s.eeprom, 8);
    assert Le16(bytes[2 * 1], bytes[2 * 1 + 1]) == WordAt(s.eeprom, 9);
    assert Le16(bytes[2 * 2], bytes[2 * 2 + 1]) == WordAt(s.eeprom, 10);
    assert Le16(bytes[2 * 3], bytes[2 * 3 + 1]) == WordAt(s.eeprom, 11);
    Recombine(s.vendor, bytes[..4]);
    Recombine(s.product, bytes[4..]);
    IdentityUploads(s, clock);
  }

  lemma IdentityWords(s: Slave)
    requires Sound(s)
    ensures WordAt(s.eeprom, 8) == s.vendor % 0x1_0000 && WordAt(s.eeprom, 9) == s.vendor / 0x1_0000
    ensures WordAt(s.eeprom, 10) == s.product % 0x1_0000 && WordAt(s.eeprom, 11) == s.product / 0x1_0000
  {}

  lemma IdentityUploads(s: Slave, clock: E.Clock)
    requires WellFormed(s)
    ensures UploadValue(s, OBJ_IDENTITY, 1, clock).1 == s.vendor && UploadValue(s, OBJ_IDENTITY, 2, clock).1 == s.product
  {}

  // ---- the mapping flag gates the machine

  /** An EL1258 whose flag tells the truth about its dictionary. */
  predicate FlagTrue(s: Slave) { WellFormed(s) && s.device.Terminal? && s.mapped == E.Mapped(s.device.t) }

  lemma StepKeepsFlagTrue(s: Slave, op: Op)
    requires FlagTrue(s) && Enabled(s, op) && !op.MappedOp?
    ensures FlagTrue(Step(s, op))
  {
    match op
    case WriteOp(reg, data, clock) =>
      WriteKeepsFlagTrue(s, reg, data, clock);
    case SampleOp(clock) => LatchingKeepsMapping(s.device.t, clock);
    case StimulusOp(stimulus) => StimulusKeepsMapping(s.device.t, stimulus);
    case DefaultMappingOp =>
      assert E.ApplyDefaultMapping(s.device.t).assignEntries[0] == E.PDO_MAPPING_BASE;
    case _ =>
  }

  lemma StimulusKeepsMapping(t: E.Terminal, x: E.Stimulus)
    requires E.WellFormed(t)
    ensures E.Mapped(E.Apply(t, x)) == E.Mapped(t)
  {
    if x.ReadAll? { LatchingKeepsMapping(t, x.clock); }
  }

  lemma WriteKeepsFlagTrue(s: Slave, reg: uint16, data: seq<uint8>, clock: E.Clock)
    requires FlagTrue(s) && WriteDefined(s, reg, |data|)
    ensures FlagTrue(Write(s, reg, data, clock).0)
  {
    if !IsEepromCommand(reg, |data|) {
      if InRegisters(reg, |data|) {
        if reg == AL_CONTROL && |data| >= 1 {
          AlControlWriteMirrors(s, data, clock);
        } else {
          PlainRegisterCase(s, reg, data, clock);
        }
      } else if InRecvWindow(s, reg, |data|) {
        MailboxCase(s, reg, data, clock);
        HandlingKeepsFlagTrue(s.(mbIn := Splice(s.mbIn, reg as int - s.recvOffset as int, data)), clock);
      } else if IsRelocation(s, reg, |data|) {
        RelocationCase(s, reg, data, clock);
        RelocateTouches(s, reg, data, 0);
      }
    }
  }

  lemma LatchingKeepsMapping(t: E.Terminal, clock: E.Clock)
    requires E.WellFormed(t)
    ensures E.Mapped(E.LatchAll(t, clock)) == E.Mapped(t)
  {
    E.LatchFirstPerChannel(t, clock, E.CHANNEL_COUNT, 0);
  }

  lemma HandlingKeepsFlagTrue(s: Slave, clock: E.Clock)
    requires FlagTrue(s) && RoomForMessages(s)
    ensures FlagTrue(HandleMailbox(s, clock))
  {
    LatchingKeepsMapping(s.device.t, clock);
  }

  /** Over every run of an EL1258 - register accesses, SDO downloads and default mappings, inputs driven and
      read - in which nobody sets the flag directly, the flag tells the truth, so a SAFE_OP request from PRE_OP
      succeeds exactly when the dictionary holds a valid mapping. */
  lemma {:induction false} SafeOpNeedsMappingInDictionary(ss: seq<Slave>, ops: seq<Op>, k: nat, clock: E.Clock)
    requires Trace(ss, ops) && k < |ss| && FlagTrue(ss[0])
    requires forall i :: 0 <= i < k ==> !ops[i].MappedOp?
    ensures FlagTrue(ss[k])
    ensures ss[k].al.state == PreOp ==>
              (Write(ss[k], AL_CONTROL, [0x04, 0x00], clock).0.al.state == SafeOp <==> E.Mapped(ss[k].device.t))
    decreases k
  {
    if k > 0 {
      SafeOpNeedsMappingInDictionary(ss, ops, k - 1, clock);
      assert StepAt(ss, ops, k - 1);
      StepKeepsFlagTrue(ss[k - 1], ops[k - 1]);
    }
    AlControlWriteMirrors(ss[k], [0x04, 0x00], clock);
    if ss[k].al.state == PreOp { SafeOpRequest(ss[k].al, ss[k].mapped); }
  }
}
