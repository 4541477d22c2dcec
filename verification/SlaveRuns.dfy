/** Runs of one slave from its construction on: what a new slave starts from, and how long its register
    views last. */
module SlaveRuns {
  import opened Bytes
  import opened AlMachine
  import opened SlaveModel
  import opened SlaveProperties
  import opened Datagrams
  import Coe
  import E = El1258Model
  import S = SubsModel

  // ---- from construction

  /** The standard mailbox windows. */
  predicate StandardWindows(s: Slave) {
    s.recvOffset == 0x1000 && s.recvSize == 512 && s.sendOffset == 0x1200 && s.sendSize == 512
  }

  /** The station address registers show the address. */
  predicate ShowsAddress(s: Slave) {
    WellFormed(s) && Le16(s.regs[STATION_ADDR], s.regs[STATION_ADDR + 1]) == s.address
  }

  /** A new slave is where every result about runs starts from. */
  lemma NewSlaveIsSound(address: uint16, vendor: uint32, product: uint32, device: Device)
    requires DeviceOk(device)
    ensures var s := Fresh(address, vendor, product, device);
            && Sound(s) && s.vendor == vendor && s.product == product
            && Mirrors(s) && ShowsAddress(s) && ShowsWindows(s) && SmInSync(s) && !s.haveReply
            && StandardWindows(s) && WindowsUsable(s)
            && (device.Terminal? && !E.Mapped(device.t) ==> FlagTrue(s))
  {}

  /** A slave as the bus finds it: sound, with the standard windows. */
  predicate Deployed(s: Slave) { Sound(s) && StandardWindows(s) }

  lemma DeployedIsRoomy(s: Slave)
    requires Deployed(s)
    ensures WindowsUsable(s) && Ranked(s.al.state)
  {}

  /** What soundness and windows depend on is the same. */
  predicate SameCore(s: Slave, t: Slave) {
    t.al == s.al && t.eeprom == s.eeprom && t.vendor == s.vendor && t.product == s.product && SameWindows(s, t)
  }

  lemma SameCoreKeepsDeployed(s: Slave, t: Slave)
    requires Deployed(s) && WellFormed(t) && SameCore(s, t)
    ensures Deployed(t)
  {}

  lemma StepKeepsDeployed(s: Slave, op: Op)
    requires Deployed(s) && Enabled(s, op) && FrameSized(op)
    ensures Deployed(Step(s, op))
  {
    hide Step;
    StepKeepsSound(s, op);
    FrameSizedStepKeepsWindows(s, op);
  }

  lemma NewTerminalIsUnmapped(clock: E.Clock)
    ensures !E.Mapped(E.Fresh(clock))
  {}

  /** Over every run of an EL1258 from its construction in which nobody sets the flag directly, a SAFE_OP request from
      PRE_OP succeeds exactly when the dictionary holds a valid mapping. */
  lemma SafeOpFromConstruction(ss: seq<Slave>, ops: seq<Op>, k: nat, address: uint16, at: E.Clock, clock: E.Clock)
    requires Trace(ss, ops) && k < |ss|
    requires ss[0] == Fresh(address, E.VENDOR_ID, E.PRODUCT_CODE, Terminal(E.Fresh(at)))
    requires forall i :: 0 <= i < k ==> !ops[i].MappedOp?
    ensures FlagTrue(ss[k])
    ensures ss[k].al.state == PreOp ==>
              (Write(ss[k], AL_CONTROL, [0x04, 0x00], clock).0.al.state == SafeOp <==> E.Mapped(ss[k].device.t))
  {
    NewTerminalIsUnmapped(at);
    NewSlaveIsSound(address, E.VENDOR_ID, E.PRODUCT_CODE, Terminal(E.Fresh(at)));
    SafeOpNeedsMappingInDictionary(ss, ops, k, clock);
  }

  /** Over every run of frame-sized operations from construction the slave is sound, has its identity and
      image, and keeps the standard windows. */
  lemma RunFromConstruction(ss: seq<Slave>, ops: seq<Op>, k: nat, address: uint16, vendor: uint32, product: uint32, device: Device)
    requires DeviceOk(device) && Trace(ss, ops) && k < |ss| && ss[0] == Fresh(address, vendor, product, device)
    requires forall i :: 0 <= i < k ==> FrameSized(ops[i])
    ensures Sound(ss[k]) && ss[k].vendor == vendor && ss[k].product == product
    ensures StandardWindows(ss[k]) && WindowsUsable(ss[k])
  {
    hide Fresh, Sound;
    NewSlaveIsSound(address, vendor, product, device);
    EveryReachableStateIsSound(ss, ops, k);
    WindowsStayPut(ss, ops, k);
  }

  /** So at any moment of such a run every SDO request is answered through the mailbox bytes. */
  lemma RequestsAreAnsweredAtAnyMoment(ss: seq<Slave>, ops: seq<Op>, k: nat, address: uint16, vendor: uint32, product: uint32,
                                       device: Device, request: Coe.Message, flags: uint8, dst: seq<uint8>, clock: E.Clock)
    requires DeviceOk(device) && Trace(ss, ops) && k < |ss| && ss[0] == Fresh(address, vendor, product, device)
    requires forall i :: 0 <= i < k ==> FrameSized(ops[i])
    requires Coe.Fits(request) && flags < 0x20 && Coe.MESSAGE_SIZE <= |dst| <= 512
    ensures WindowsUsable(ss[k]) && |dst| <= ss[k].sendSize && Coe.MESSAGE_SIZE <= ss[k].recvSize
    ensures var (u, out) := Exchange(ss[k], request, flags, [], dst, clock);
            var (command, value) := Answer(ss[k], request, clock);
            && |out| == |dst|
            && Coe.Decode(out) == Coe.Message(request.count, Coe.SDO_RESPONSE, command, request.index, request.sub, value)
  {
    hide Exchange, Answer, Coe.Decode;
    RunFromConstruction(ss, ops, k, address, vendor, product, device);
    SdoRoundTrip(ss[k], request, flags, [], dst, clock);
  }

  // ---- how long the register views last

  const STATUS_BYTES: set<uint16> := {DL_STATUS, DL_STATUS + 1, AL_STATUS, AL_STATUS + 1, AL_STATUS_CODE, AL_STATUS_CODE + 1}

  const ADDRESS_BYTES: set<uint16> := {STATION_ADDR, STATION_ADDR + 1}

  /** The write puts another value into one of these bytes of the register space. */
  predicate Overwrites(s: Slave, reg: uint16, data: seq<uint8>, bytes: set<uint16>)
    requires WellFormed(s) && forall a :: a in bytes ==> a < 0x1000
  {
    && InRegisters(reg, |data|) && !IsEepromCommand(reg, |data|)
    && exists a :: a in bytes && Covers(reg, |data|, a) && data[a as int - reg as int] != s.regs[a]
  }

  /** A write leaves DL_STATUS, AL_STATUS and AL_STATUS_CODE showing the fields if and only if it is an AL_CONTROL
      write or puts no other value into their bytes. */
  lemma WriteKeepsMirrorsExactlyUnless(s: Slave, reg: uint16, data: seq<uint8>, clock: E.Clock)
    requires Mirrors(s) && WriteDefined(s, reg, |data|)
    ensures Mirrors(Write(s, reg, data, clock).0) <==>
            (reg == AL_CONTROL && |data| >= 1) || !Overwrites(s, reg, data, STATUS_BYTES)
  {
    assert WellFormed(s);
    hide Write, Mirrors;
    WriteTouches(s, reg, data, clock);
    if reg == AL_CONTROL && |data| >= 1 && InRegisters(reg, |data|) {
      AlControlWriteMirrors(s, data, clock);
    } else {
      RegistersAfterWrite(s, reg, data, clock);
      MirrorsWhileUnchanged(s, Write(s, reg, data, clock).0);
    }
  }

  lemma MirrorsWhileUnchanged(s: Slave, r: Slave)
    requires Mirrors(s) && WellFormed(r) && r.online == s.online && r.al == s.al
    ensures |s.regs| == |r.regs| == REGISTER_COUNT
    ensures Mirrors(r) <==> forall a :: a in STATUS_BYTES ==> r.regs[a] == s.regs[a]
  {
    assert DL_STATUS in STATUS_BYTES && DL_STATUS + 1 in STATUS_BYTES;
    assert AL_STATUS in STATUS_BYTES && AL_STATUS + 1 in STATUS_BYTES;
    assert AL_STATUS_CODE in STATUS_BYTES && AL_STATUS_CODE + 1 in STATUS_BYTES;
  }

  /** A write leaves the station address registers showing the address if and only if it is a whole write of the
      address or puts no other value into its bytes. */
  lemma WriteKeepsAddressExactlyUnless(s: Slave, reg: uint16, data: seq<uint8>, clock: E.Clock)
    requires ShowsAddress(s) && WriteDefined(s, reg, |data|)
    ensures ShowsAddress(Write(s, reg, data, clock).0) <==>
            (reg == STATION_ADDR && |data| >= 2) || !Overwrites(s, reg, data, ADDRESS_BYTES)
  {
    assert WellFormed(s);
    hide Write, ShowsAddress;
    WriteTouches(s, reg, data, clock);
    RegistersAfterWrite(s, reg, data, clock);
    var r := Write(s, reg, data, clock).0;
    if reg == STATION_ADDR && |data| >= 2 && InRegisters(reg, |data|) {
      PlainRegisterCase(s, reg, data, clock);
      AddressWritten(r, data);
    } else {
      ShownWhileUnchanged(s, r);
    }
  }

  lemma AddressWritten(r: Slave, data: seq<uint8>)
    requires WellFormed(r) && |data| >= 2 && r.address == Le16(data[0], data[1])
    requires r.regs[STATION_ADDR] == data[0] && r.regs[STATION_ADDR + 1] == data[1]
    ensures ShowsAddress(r)
  {}

  lemma ShownWhileUnchanged(s: Slave, r: Slave)
    requires ShowsAddress(s) && WellFormed(r) && r.address == s.address
    ensures |s.regs| == |r.regs| == REGISTER_COUNT
    ensures ShowsAddress(r) <==> forall a :: a in ADDRESS_BYTES ==> r.regs[a] == s.regs[a]
  {
    assert STATION_ADDR in ADDRESS_BYTES && STATION_ADDR + 1 in ADDRESS_BYTES;
  }

  /** The bytes below the SyncManagers after a write that is no AL_CONTROL write. */
  lemma RegistersAfterWrite(s: Slave, reg: uint16, data: seq<uint8>, clock: E.Clock)
    requires WellFormed(s) && WriteDefined(s, reg, |data|)
    ensures var r := Write(s, reg, data, clock).0;
            && WellFormed(r)
            && forall a: uint16 :: a < SYNC_MANAGER_0 && (reg == AL_CONTROL && |data| >= 1 && InRegisters(reg, |data|) ==> a < DL_STATUS) ==>
                 r.regs[a] == if InRegisters(reg, |data|) && !IsEepromCommand(reg, |data|) && Covers(reg, |data|, a)
                              then data[a as int - reg as int] else s.regs[a]
  {
    hide Write, HandleMailbox, RoomForMessages;
    if IsEepromCommand(reg, |data|) {
      EepromCase(s, reg, data, clock);
    } else if InRegisters(reg, |data|) {
      if reg == AL_CONTROL && |data| >= 1 {
        AlControlCase(s, data, clock);
      } else {
        PlainRegisterCase(s, reg, data, clock);
      }
    } else if InRecvWindow(s, reg, |data|) {
      MailboxWriteTouches(s, reg, data, clock);
    } else if IsRelocation(s, reg, |data|) {
      RelocationPlacesWindows(s, reg, data, clock);
      var r := Write(s, reg, data, clock).0;
      assert forall a :: 0 <= a < SYNC_MANAGER_0 ==> r.regs[a] == r.regs[..SYNC_MANAGER_0][a];
      assert forall a :: 0 <= a < SYNC_MANAGER_0 ==> s.regs[a] == s.regs[..SYNC_MANAGER_0][a];
    } else {
      RefusedCase(s, reg, data, clock);
    }
  }

  /** The operation scribbles over the status registers. */
  predicate Scribbles(s: Slave, op: Op)
    requires WellFormed(s)
  {
    op.WriteOp? && !(op.reg == AL_CONTROL && |op.data| >= 1) && Overwrites(s, op.reg, op.data, STATUS_BYTES)
  }

  lemma StepKeepsMirrorsExactlyUnless(s: Slave, op: Op)
    requires Mirrors(s) && Enabled(s, op)
    ensures Mirrors(Step(s, op)) <==> !Scribbles(s, op)
  {
    hide Write, WriteDefined, Overwrites, DeviceOk;
    if op.WriteOp? { WriteKeepsMirrorsExactlyUnless(s, op.reg, op.data, op.clock); }
  }

  /** Over every run the status registers show the fields at every moment if and only if nothing scribbles. */
  lemma {:induction false} MirrorsLastExactlyUnless(ss: seq<Slave>, ops: seq<Op>, k: nat)
    requires Trace(ss, ops) && k < |ss| && Mirrors(ss[0])
    ensures forall i :: 0 <= i < k ==> WellFormed(ss[i])
    ensures (forall i :: 0 <= i <= k ==> Mirrors(ss[i])) <==> (forall i :: 0 <= i < k ==> !Scribbles(ss[i], ops[i]))
    decreases k
  {
    hide Mirrors, Scribbles, WellFormed, Step;
    if k > 0 {
      MirrorsLastExactlyUnless(ss, ops, k - 1);
      assert StepAt(ss, ops, k - 1);
      if forall i :: 0 <= i <= k - 1 ==> Mirrors(ss[i]) {
        StepKeepsMirrorsExactlyUnless(ss[k - 1], ops[k - 1]);
      }
    }
  }

  // ---- the mapping flag of the slaves application's variant

  /** A slave of that variant whose flag tells the truth about its dictionary. */
  predicate SubsFlagTrue(s: Slave) { WellFormed(s) && s.device.Subs? && s.mapped == S.Mapped(s.device.s) }

  /** The SDO download a mailbox write leaves in the receive buffer, if it does. */
  function Downloaded(s: Slave, op: Op): Option<E.Configuration>
    requires Enabled(s, op)
  {
    if IsMailboxWrite(s, op) then
      var q := Coe.Decode(Splice(s.mbIn, op.reg as int - s.recvOffset as int, op.data));
      if q.service == Coe.SDO_REQUEST && q.command == Coe.REQUEST_DOWNLOAD then Some(E.SdoDownload(q.index, q.sub, q.value))
      else None
    else None
  }

  predicate Crosses(s: Slave, op: Op)
    requires Enabled(s, op)
  {
    s.device.Subs? && Downloaded(s, op).Some? && S.CrossesZero(s.device.s, Downloaded(s, op).value)
  }

  lemma MailboxKeepsSubsFlagExactlyUnless(s: Slave, op: Op)
    requires SubsFlagTrue(s) && Enabled(s, op) && IsMailboxWrite(s, op)
    ensures SubsFlagTrue(Step(s, op)) <==> !Crosses(s, op)
  {
    var received := s.(mbIn := Splice(s.mbIn, op.reg as int - s.recvOffset as int, op.data));
    MailboxCase(s, op.reg, op.data, op.clock);
    var q := Coe.Decode(received.mbIn);
    var c := E.SdoDownload(q.index, q.sub, q.value);
    MessageHandled(received, q, op.clock);
    hide Write, HandleMailbox, Coe.Decode, S.Configure;
    S.FlagAfterOneCall(s.device.s, s.mapped, c);
  }

  lemma StepKeepsSubsFlagExactlyUnless(s: Slave, op: Op)
    requires SubsFlagTrue(s) && Enabled(s, op) && !op.MappedOp?
    ensures SubsFlagTrue(Step(s, op)) <==> !Crosses(s, op)
  {
    if IsMailboxWrite(s, op) {
      MailboxKeepsSubsFlagExactlyUnless(s, op);
    } else if op.WriteOp? {
      WriteKeepsDevice(s, op.reg, op.data, op.clock);
    }
  }

  lemma WriteKeepsDevice(s: Slave, reg: uint16, data: seq<uint8>, clock: E.Clock)
    requires WellFormed(s) && WriteDefined(s, reg, |data|)
    requires IsEepromCommand(reg, |data|) || !InRecvWindow(s, reg, |data|)
    ensures var (r, _) := Write(s, reg, data, clock); r.device == s.device && r.mapped == s.mapped
  {
    if IsEepromCommand(reg, |data|) {
      EepromCase(s, reg, data, clock);
    } else if InRegisters(reg, |data|) {
      if reg == AL_CONTROL && |data| >= 1 {
        AlControlWriteMirrors(s, data, clock);
      } else {
        PlainRegisterCase(s, reg, data, clock);
      }
    } else if IsRelocation(s, reg, |data|) {
      RelocationPlacesWindows(s, reg, data, clock);
    } else {
      RefusedCase(s, reg, data, clock);
    }
  }

  /** Over every run of such a slave in which nobody sets the flag directly, the flag tells the truth at every
      moment if and only if no mailbox write in it moves a mapping count across zero while the PDO is assigned. */
  lemma {:induction false} SubsFlagLastsExactlyUnless(ss: seq<Slave>, ops: seq<Op>, k: nat)
    requires Trace(ss, ops) && k < |ss| && SubsFlagTrue(ss[0])
    requires forall i :: 0 <= i < k ==> !ops[i].MappedOp?
    ensures forall i :: 0 <= i < k ==> Enabled(ss[i], ops[i])
    ensures (forall i :: 0 <= i <= k ==> SubsFlagTrue(ss[i])) <==> (forall i :: 0 <= i < k ==> !Crosses(ss[i], ops[i]))
    decreases k
  {
    hide SubsFlagTrue, Crosses, Enabled, Step;
    if k > 0 {
      SubsFlagLastsExactlyUnless(ss, ops, k - 1);
      assert StepAt(ss, ops, k - 1);
      if forall i :: 0 <= i <= k - 1 ==> SubsFlagTrue(ss[i]) {
        StepKeepsSubsFlagExactlyUnless(ss[k - 1], ops[k - 1]);
      }
    }
  }

  /** A SAFE_OP request from PRE_OP succeeds exactly when the flag is up, whatever the dictionary holds. */
  lemma SafeOpFollowsTheFlag(s: Slave, clock: E.Clock)
    requires WellFormed(s) && s.al.state == PreOp
    ensures Write(s, AL_CONTROL, [0x04, 0x00], clock).0.al ==
            if s.mapped then Al(SafeOp, NO_ERROR, false) else Al(PreOp, INVALID_STATE_CHANGE, true)
  {
    AlControlWriteMirrors(s, [0x04, 0x00], clock);
    SafeOpRequest(s.al, s.mapped);
  }

  /** The stale flag seen from the bus: clearing 0x1A00:0 through the mailbox leaves the dictionary without a valid
      mapping, and still a SAFE_OP request from PRE_OP succeeds. */
  lemma ClearedCountStillEntersSafeOp(s: Slave, count: uint8, dst: seq<uint8>, clock: E.Clock, clock2: E.Clock)
    requires WindowsUsable(s) && s.device.Subs? && s.mapped && s.al.state == PreOp
    requires count < 8 && Coe.MESSAGE_SIZE <= |dst| <= s.sendSize
    ensures var (t, _) := Exchange(s, DownloadRequest(count, 0x1A00, 0, 0), 0, [], dst, clock);
            && t.device.Subs? && !S.Mapped(t.device.s)
            && Write(t, AL_CONTROL, [0x04, 0x00], clock2).0.al == Al(SafeOp, NO_ERROR, false)
  {
    hide Exchange, Write;
    SdoRoundTrip(s, DownloadRequest(count, 0x1A00, 0, 0), 0, [], dst, clock);
    SafeOpFollowsTheFlag(Exchange(s, DownloadRequest(count, 0x1A00, 0, 0), 0, [], dst, clock).0, clock2);
  }

  /** Every slave of that variant gets there: new, and requested into PRE_OP. */
  lemma NewSubsReachesPreOpMapped(address: uint16, clock: E.Clock)
    ensures var s := Fresh(address, E.VENDOR_ID, E.PRODUCT_CODE, Subs(S.Fresh()));
            var t := Write(s, AL_CONTROL, [0x02, 0x00], clock).0;
            SubsFlagTrue(s) && WindowsUsable(t) && t.device.Subs? && t.mapped && t.al.state == PreOp
  {
    var s := Fresh(address, E.VENDOR_ID, E.PRODUCT_CODE, Subs(S.Fresh()));
    NewSlaveIsSound(address, E.VENDOR_ID, E.PRODUCT_CODE, Subs(S.Fresh()));
    NewSubsFacts(address);
    hide Write, Fresh, S.Fresh, WindowsUsable;
    EntersPreOp(s, clock);
  }

  lemma EntersPreOp(s: Slave, clock: E.Clock)
    requires WindowsUsable(s) && s.al == Al(Init, NO_ERROR, false)
    ensures var t := Write(s, AL_CONTROL, [0x02, 0x00], clock).0;
            WindowsUsable(t) && t.al.state == PreOp && t.device == s.device && t.mapped == s.mapped
  {
    AlControlWriteMirrors(s, [0x02, 0x00], clock);
    hide Write;
    assert Decode(0x02) == PreOp && !AckBit(0x02);
  }

  lemma NewSubsFacts(address: uint16)
    ensures var s := Fresh(address, E.VENDOR_ID, E.PRODUCT_CODE, Subs(S.Fresh()));
            SubsFlagTrue(s) && s.mapped && s.al == Al(Init, NO_ERROR, false)
  {}
}
