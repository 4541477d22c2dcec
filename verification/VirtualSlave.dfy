/** A slave as the program keeps it: one object whose methods update its fields. The derived class's
    share of the object is `terminal` or `subs`, at most one of which is present. */
module VirtualSlaves {
  import opened Bytes
  import opened AlMachine
  import opened SlaveModel
  import opened El1258
  import opened El1258Subs
  import Coe
  import E = El1258Model
  import S = SubsModel

  class VirtualSlave {
    var address: uint16
    const vendorId: uint32
    const productCode: uint32
    var online: bool
    var started: bool
    var alState: AlState
    var alStatusCode: uint16
    var ackRequested: bool
    var inputPdoMapped: bool
    var regs: seq<uint8>
    var mbRecvOffset: uint16
    var mbRecvSize: uint16
    var mbSendOffset: uint16
    var mbSendSize: uint16
    var mbHaveReply: bool
    var mbOut: seq<uint8>
    var mbIn: seq<uint8>
    var eepromAddr: uint32
    var eeprom: seq<uint16>
    const terminal: EL1258Slave?
    const subs: El1258Slave?

    ghost function DeviceRepr(): set<object> {
      (if terminal != null then terminal.Repr() else {}) + (if subs != null then subs.Repr() else {})
    }

    ghost function Repr(): set<object> { {this} + DeviceRepr() }

    ghost predicate DeviceValid()
      reads DeviceRepr()
    {
      && (terminal != null ==> subs == null && terminal.Valid())
      && (subs != null ==> subs.Valid())
    }

    ghost predicate Valid()
      reads Repr()
    {
      && |regs| == REGISTER_COUNT && |eeprom| == EEPROM_WORDS
      && |mbIn| == mbRecvSize && |mbOut| == mbSendSize
      && this !in DeviceRepr() && DeviceValid()
    }

    ghost function AlValue(): Al
      reads this
    {
      Al(alState, alStatusCode, ackRequested)
    }

    ghost function DeviceValue(): (d: Device)
      requires DeviceValid()
      reads DeviceRepr()
      ensures DeviceOk(d)
    {
      if terminal != null then Terminal(terminal.Value())
      else if subs != null then Subs(subs.Value())
      else Plain
    }

    ghost function Value(): (s: Slave)
      requires Valid()
      reads Repr()
      ensures WellFormed(s)
    {
      Slave(address, vendorId, productCode, online, started, AlValue(),
            inputPdoMapped, regs, mbRecvOffset, mbRecvSize, mbSendOffset, mbSendSize,
            mbHaveReply, mbOut, mbIn, eepromAddr, eeprom, DeviceValue())
    }

    constructor (address: uint16, vendor: uint32, product: uint32, terminal: EL1258Slave?, subs: El1258Slave?)
      requires terminal != null ==> subs == null && terminal.Valid()
      requires subs != null ==> subs.Valid()
      ensures Valid() && this.terminal == terminal && this.subs == subs
      ensures Value() == SlaveModel.Fresh(address, vendor, product, DeviceValue())
      ensures fresh(this)
    {
      this.address, vendorId, productCode := address, vendor, product;
      this.terminal, this.subs := terminal, subs;
      online, started := true, false;
      alState, alStatusCode, ackRequested := Init, NO_ERROR, false;
      inputPdoMapped := false;
      regs := Zeros(REGISTER_COUNT)[STATION_ADDR := Lo(address)][STATION_ADDR + 1 := Hi(address)];
      mbRecvOffset, mbRecvSize, mbSendOffset, mbSendSize := 0x1000, 512, 0x1200, 512;
      mbHaveReply, mbOut, mbIn := false, Zeros(512), Zeros(512);
      eepromAddr, eeprom := 0, EepromImage(vendor, product);
      new;
      SyncCoreRegisters();
      SyncSmRegisters();
      if subs != null {
        SetInputPdoMapped(true);  // the derived constructor applies its default mapping
      }
    }

    /** Refreshes the status registers from the fields. */
    method SyncCoreRegisters()
      requires |regs| == REGISTER_COUNT
      modifies this`regs
      ensures regs == SyncCore(old(regs), online, AlValue())
    {
      var dl := if online then 0x0211 else 0;
      regs := regs[DL_STATUS := Lo(dl)];
      regs := regs[DL_STATUS + 1 := Hi(dl)];
      var status := Code(alState);
      if ackRequested && alState != Ack {
        status := status + Code(Ack);
      }
      regs := regs[AL_STATUS := status];
      regs := regs[AL_STATUS + 1 := 0];
      regs := regs[AL_STATUS_CODE := Lo(alStatusCode)];
      regs := regs[AL_STATUS_CODE + 1 := Hi(alStatusCode)];
    }

    method SyncSmStatus()
      requires Valid()
      modifies this`regs
      ensures Valid() && Value() == old(Value()).(regs := SlaveModel.SyncSmStatus(old(regs), mbHaveReply))
    {
      regs := regs[SM0_STATUS := 0];
      regs := regs[SM1_STATUS := if mbHaveReply then MAILBOX_STATUS else 0];
    }

    method SyncSmRegisters()
      requires Valid()
      modifies this`regs
      ensures Valid() && Value() == SyncSm(old(Value()))
    {
      regs := regs[SYNC_MANAGER_0 := Lo(mbRecvOffset)][SYNC_MANAGER_0 + 1 := Hi(mbRecvOffset)];
      regs := regs[SYNC_MANAGER_0 + 2 := Lo(mbRecvSize)][SYNC_MANAGER_0 + 3 := Hi(mbRecvSize)];
      regs := regs[SYNC_MANAGER_1 := Lo(mbSendOffset)][SYNC_MANAGER_1 + 1 := Hi(mbSendOffset)];
      regs := regs[SYNC_MANAGER_1 + 2 := Lo(mbSendSize)][SYNC_MANAGER_1 + 3 := Hi(mbSendSize)];
      SyncSmStatus();
    }

    method SetOnline(on: bool)
      requires Valid()
      modifies this`online, this`regs
      ensures Valid() && Value() == SlaveModel.SetOnline(old(Value()), on)
    {
      online := on;
      SyncCoreRegisters();
    }

    method SetAlState(s: AlState)
      requires Valid()
      modifies this`alState, this`regs
      ensures Valid() && Value() == SlaveModel.SetAlState(old(Value()), s)
    {
      alState := s;
      SyncCoreRegisters();
    }

    method SetInputPdoMapped(v: bool)
      requires Valid()
      modifies this`inputPdoMapped
      ensures Valid() && Value() == old(Value()).(mapped := v)
    {
      inputPdoMapped := v;
    }

    method Start()
      requires Valid()
      modifies this`started
      ensures Valid() && Value() == old(Value()).(started := true)
    {
      started := true;
    }

    method Routine()
      requires Valid()
      modifies this`regs
      ensures Valid() && Value() == SlaveModel.Routine(old(Value()))
    {
      if !started {
        return;
      }
      SyncCoreRegisters();
    }

    method ReadDigitalInputsBitfield(clock: E.Clock) returns (bits: Option<uint32>)
      requires Valid()
      modifies Repr() - {this}
      ensures Valid() && (Value(), bits) == ReadInputs(old(Value()), clock)
    {
      if terminal != null {
        var b := terminal.AggregateBits(clock);
        return Some(b);
      }
      if subs != null {
        var b := subs.CurrentAggregate();
        return Some(b);
      }
      return None;
    }

    // ---- AL control

    method SignalError(code: uint16)
      requires |regs| == REGISTER_COUNT
      modifies this`alStatusCode, this`ackRequested, this`regs
      ensures AlValue() == Al(alState, code, true)
      ensures regs == SyncCore(old(regs), online, AlValue())
    {
      alStatusCode := code;
      ackRequested := true;
      SyncCoreRegisters();
    }

    method ApplyStateTransition(target: AlState)
      requires Ranked(target)
      modifies this`alState, this`ackRequested, this`mbHaveReply
      ensures alState == target
      ensures target != Init ==> ackRequested == old(ackRequested) && mbHaveReply == old(mbHaveReply)
      ensures target == Init ==> !ackRequested && !mbHaveReply
    {
      match target
      case Init =>
        alState := Init;
        ackRequested := false;
        mbHaveReply := false;
      case PreOp => alState := PreOp;
      case SafeOp => alState := SafeOp;
      case Operational => alState := Operational;
    }

    /** The climbing loop, one transition a pass, through the states of `path`. It ends in the state the closed
        form names, whatever the start. */
    method Climb(requested: AlState) returns (success: bool, ghost path: seq<AlState>)
      requires |regs| == REGISTER_COUNT && Ranked(requested)
      modifies this`alState, this`alStatusCode, this`ackRequested, this`mbHaveReply, this`regs
      ensures path == Walk(old(alState), requested, inputPdoMapped) && path[|path| - 1] == alState
      ensures alState == Settled(old(alState), requested, inputPdoMapped)
      ensures success == (alState == requested)
      ensures mbHaveReply == (old(mbHaveReply) && !(alState == Init && old(alState) != Init))
      ensures success ==> regs == old(regs)
      ensures !success ==> AlValue() == Al(alState, INVALID_STATE_CHANGE, true) && regs == SyncCore(old(regs), online, AlValue())
    {
      hide Walk, OnWalk, Settled, Allowed, PreconditionsMet, NextUp, Rank, Distance, SyncCore;
      success := true;
      path := [alState];
      WalkSettles(alState, requested, inputPdoMapped);
      WalkBegins(alState, requested, inputPdoMapped);
      while requested != alState
        invariant OnWalk(path, old(alState), requested, inputPdoMapped) && |path| >= 1 && path[|path| - 1] == alState
        invariant success && (alState == Init ==> old(alState) == Init || requested == Init)
        invariant mbHaveReply == (old(mbHaveReply) && !(alState == Init && old(alState) != Init))
        invariant regs == old(regs)
        decreases Distance(alState, requested)
      {
        HopKeepsSettled(alState, requested, inputPdoMapped);
        var next := requested;
        if Rank(requested) > Rank(alState) {
          next := NextUp(alState);
        }
        if !Allowed(alState, next) {
          SignalError(INVALID_STATE_CHANGE);
          success := false;
          break;
        }
        if !PreconditionsMet(next, inputPdoMapped) {
          SignalError(INVALID_STATE_CHANGE);
          success := false;
          break;
        }
        WalkHops(path, old(alState), requested, inputPdoMapped);
        ApplyStateTransition(next);
        path := path + [alState];
      }
      WalkEnds(path, old(alState), requested, inputPdoMapped);
    }

    /** Handles a control word: acknowledges, then climbs or drops to the state it requests. */
    method HandleAlControlWrite(ctrl: uint16)
      requires |regs| == REGISTER_COUNT
      modifies this`alState, this`alStatusCode, this`ackRequested, this`mbHaveReply, this`regs
      ensures AlValue() == AlWrite(old(AlValue()), inputPdoMapped, ctrl)
      ensures mbHaveReply == (old(mbHaveReply) && !(alState == Init && old(alState) != Init))
      ensures regs == SyncCore(old(regs), online, AlValue())
    {
      var requested := Decode(ctrl);
      var initialRank := Rank(alState);
      var requestedRank := Rank(requested);
      var wantsProgress := requested != Invalid && requestedRank > initialRank;
      if AckBit(ctrl) {
        ackRequested := false;
        alStatusCode := NO_ERROR;
        if !wantsProgress {
          SyncCoreRegisters();
          return;
        }
      }
      if requested == Invalid {
        SyncCoreRegisters();
        return;
      }
      if requested == Boot {
        SignalError(BOOT_NOT_SUPPORTED);
        return;
      }
      if requested == alState {
        SyncCoreRegisters();
        return;
      }
      var success, _ := Climb(requested);
      if !success {
        return;
      }
      alStatusCode := NO_ERROR;
      ackRequested := false;
      SyncCoreRegisters();
    }

    // ---- mailbox

    method SdoUpload(index: uint16, sub: uint8, clock: E.Clock) returns (value: uint32)
      requires Valid()
      modifies Repr() - {this}
      ensures Valid()
      ensures (DeviceValue(), value) == UploadValue(old(Value()), index, sub, clock)
      ensures Value() == old(Value()).(device := DeviceValue())
    {
      value := 0;
      if index == OBJ_IDENTITY && sub == 1 {
        value := vendorId;
      } else if index == OBJ_IDENTITY && sub == 2 {
        value := productCode;
      } else if index == OBJ_IDENTITY && (sub == 3 || sub == 4) {
        value := 0;
      } else if terminal != null {
        var v := terminal.OnSdoUpload(index, sub, clock);
        if v.Some? {
          value := v.value;
        }
      } else if subs != null {
        var v := subs.OnSdoUpload(index, sub);
        if v.Some? {
          value := v.value;
        }
      }
    }

    method SdoDownload(index: uint16, sub: uint8, value: uint32)
      requires Valid()
      modifies Repr() - {this}, this`inputPdoMapped
      ensures Valid()
      ensures (DeviceValue(), inputPdoMapped) == DownloadEffect(old(Value()), index, sub, value)
      ensures Value() == old(Value()).(device := DeviceValue(), mapped := inputPdoMapped)
    {
      if terminal != null {
        var changed, mapped := terminal.OnSdoDownload(index, sub, value);
        if changed {
          inputPdoMapped := mapped;
        }
      } else if subs != null {
        var mapped := subs.OnSdoDownload(index, sub, value);
        if mapped.Some? {
          inputPdoMapped := mapped.value;
        }
      }
    }

    method HandleMailboxWrite(clock: E.Clock)
      requires Valid() && RoomForMessages(Value())
      modifies Repr()
      ensures Valid() && Value() == HandleMailbox(old(Value()), clock)
    {
      var q := Coe.Decode(mbIn);
      var command, value := Coe.RESPONSE_UPLOAD, 0;
      if q.service == Coe.SDO_REQUEST && q.command == Coe.REQUEST_UPLOAD {
        value := SdoUpload(q.index, q.sub, clock);
      } else if q.service == Coe.SDO_REQUEST && q.command == Coe.REQUEST_DOWNLOAD {
        SdoDownload(q.index, q.sub, q.value);
        command := Coe.RESPONSE_DOWNLOAD;
      }
      SendReply(q, command, value);
    }

    method SendReply(q: Coe.Message, command: uint8, value: uint32)
      requires Valid() && RoomForMessages(Value()) && q == Coe.Decode(mbIn) && command < 8
      modifies this`mbOut, this`mbHaveReply, this`regs
      ensures Valid() && Value() == Reply(old(Value()), command, value)
    {
      mbOut := Zeros(mbSendSize);
      var answer := Coe.Message(q.count, Coe.SDO_RESPONSE, command, q.index, q.sub, value);
      mbOut := Splice(mbOut, 0, Coe.Encode(answer, Coe.EXPEDITED));
      assert mbOut == Coe.Encode(answer, Coe.EXPEDITED) + Zeros(mbSendSize - Coe.MESSAGE_SIZE);
      mbHaveReply := true;
      SyncSmStatus();
    }

    // ---- register access

    /** The next two EEPROM words; the address moves on by two, wrapping like any 32-bit sum. */
    method FetchEeprom() returns (val: uint32)
      requires |eeprom| == EEPROM_WORDS
      modifies this`eepromAddr
      ensures val == (WordAt(eeprom, old(eepromAddr)) as int) + 0x1_0000 * (WordAt(eeprom, Advance(old(eepromAddr), 1)) as int)
      ensures eepromAddr == Advance(old(eepromAddr), 2)
    {
      var lo, hi := 0, 0;
      if eepromAddr < |eeprom| {
        lo := eeprom[eepromAddr];
      }
      var next := Advance(eepromAddr, 1);
      if next < |eeprom| {
        hi := eeprom[next];
      }
      val := lo as int + 0x1_0000 * hi as int;
      eepromAddr := Advance(eepromAddr, 2);
    }

    method Read(reg: uint16, dst: seq<uint8>) returns (data: seq<uint8>, ok: bool)
      requires Valid()
      modifies this`eepromAddr, this`mbHaveReply, this`regs
      ensures Valid() && (Value(), data, ok) == SlaveModel.Read(old(Value()), reg, dst)
    {
      var len := |dst|;
      if reg == EEPROM_DATA && len >= 4 {
        var val := FetchEeprom();
        return Splice(dst, 0, Le32Bytes(val)), true;
      }
      if reg as int + len <= |regs| {
        return regs[reg..reg as int + len], true;
      }
      if reg >= mbSendOffset && reg as int + len <= mbSendOffset as int + mbSendSize as int {
        var off := reg as int - mbSendOffset as int;
        var n := Min(len, |mbOut| - off);
        data := mbOut[off..off + n] + dst[n..];
        assert n == len && data == mbOut[off..off + len];
        mbHaveReply := false;
        SyncSmStatus();
        return data, true;
      }
      return dst, false;
    }

    method Write(reg: uint16, src: seq<uint8>, clock: E.Clock) returns (ok: bool)
      requires Valid() && WriteDefined(Value(), reg, |src|)
      modifies Repr()
      ensures Valid() && (Value(), ok) == SlaveModel.Write(old(Value()), reg, src, clock)
    {
      var len := |src|;
      if reg == EEPROM_CONTROL && len >= 6 {
        eepromAddr := Le32(src[2..6]);
        return true;
      }
      if reg as int + len <= |regs| {
        WriteRegisterSpace(reg, src);
      } else if reg >= mbRecvOffset && reg as int + len <= mbRecvOffset as int + mbRecvSize as int {
        WriteMailbox(reg, src, clock);
        return true;
      } else if SYNC_MANAGER_0 <= reg < SYNC_MANAGER_0 + 16 {
        RelocateMailboxes(reg, src);
        return true;
      } else {
        return false;
      }
      return true;
    }

    method WriteMailbox(reg: uint16, src: seq<uint8>, clock: E.Clock)
      requires Valid() && RoomForMessages(Value()) && InRecvWindow(Value(), reg, |src|)
      modifies Repr()
      ensures Valid()
      ensures Value() == HandleMailbox(old(Value()).(mbIn := Splice(old(mbIn), reg as int - old(mbRecvOffset) as int, src)), clock)
    {
      var off := reg as int - mbRecvOffset as int;
      var n := Min(|src|, |mbIn| - off);
      assert src[..n] == src;
      mbIn := Splice(mbIn, off, src[..n]);
      HandleMailboxWrite(clock);
    }

    method AlControlWritten()
      requires Valid()
      modifies this`alState, this`alStatusCode, this`ackRequested, this`mbHaveReply, this`regs
      ensures Valid()
      ensures Value() == HandleAlControl(old(Value()), Le16(old(regs)[AL_CONTROL], old(regs)[AL_CONTROL + 1]))
    {
      HandleAlControlWrite(Le16(regs[AL_CONTROL], regs[AL_CONTROL + 1]));
    }

    method WriteRegisterSpace(reg: uint16, src: seq<uint8>)
      requires Valid() && InRegisters(reg, |src|)
      modifies this
      ensures Valid() && Value() == WriteRegisters(old(Value()), reg, src)
    {
      regs := Splice(regs, reg, src);
      assert Valid() && Value() == old(Value()).(regs := regs);
      if reg == STATION_ADDR && |src| >= 2 {
        address := Le16(regs[STATION_ADDR], regs[STATION_ADDR + 1]);
      }
      if reg == AL_CONTROL && |src| >= 1 {
        AlControlWritten();
      }
    }

    method RelocateEntry(smIndex: nat, start: uint16, length: uint16)
      requires Valid()
      modifies this
      ensures Valid() && Value() == SlaveModel.RelocateEntry(old(Value()), smIndex, start, length)
    {
      if smIndex == 0 {
        MoveRecvWindow(start, length);
      }
      if smIndex == 1 {
        MoveSendWindow(start, length);
      }
    }

    method MoveRecvWindow(start: uint16, length: uint16)
      requires Valid()
      modifies this`mbRecvOffset, this`mbRecvSize, this`mbIn
      ensures Valid() && Value() == SlaveModel.RelocateEntry(old(Value()), 0, start, length)
    {
      mbRecvOffset := start;
      mbRecvSize := length;
      if |mbIn| != length {
        mbIn := Zeros(length);
      }
    }

    method MoveSendWindow(start: uint16, length: uint16)
      requires Valid()
      modifies this`mbSendOffset, this`mbSendSize, this`mbOut
      ensures Valid() && Value() == SlaveModel.RelocateEntry(old(Value()), 1, start, length)
    {
      mbSendOffset := start;
      mbSendSize := length;
      if |mbOut| != length {
        mbOut := Zeros(length);
      }
    }

    method RelocateMailboxes(reg: uint16, src: seq<uint8>)
      requires Valid() && SYNC_MANAGER_0 <= reg
      modifies this
      ensures Valid() && Value() == SyncSm(Relocate(old(Value()), reg, src, 0))
    {
      var pos := 0;
      while |src| - pos >= 8
        invariant 0 <= pos <= |src| && Valid()
        invariant Relocate(Value(), reg, src, pos) == Relocate(old(Value()), reg, src, 0)
      {
        var start := Le16(src[pos], src[pos + 1]);
        var length := Le16(src[pos + 2], src[pos + 3]);
        var smIndex := (reg as int + pos - SYNC_MANAGER_0 as int) / 8;
        RelocateEntry(smIndex, start, length);
        pos := pos + 8;
      }
      SyncSmRegisters();
    }

    // ---- the derived class's own operations

    method ApplyDefaultTxPdoMapping()
      requires Valid() && (terminal != null || subs != null)
      modifies Repr() - {this}, this`inputPdoMapped
      ensures Valid() && Value() == ApplyDefaultMapping(old(Value()))
    {
      if terminal != null {
        terminal.ApplyDefaultTxPdoMapping();
      } else {
        subs.ApplyDefaultTxPdoMapping();
      }
      inputPdoMapped := true;
    }

    method SetInput(channel: int, value: bool, now: int)
      requires Valid() && terminal != null
      modifies terminal.Repr()
      ensures Valid() && Value() == Stimulate(old(Value()), E.Input(channel, value, now))
    {
      terminal.SetInput(channel, value, now);
    }

    method SetPower(on: bool, now1: int, now0: int)
      requires Valid() && terminal != null
      modifies terminal.Repr()
      ensures Valid() && Value() == Stimulate(old(Value()), E.Power(on, now1, now0))
    {
      terminal.SetPower(on, now1, now0);
    }

    method SetPowerButton(pressed: bool, now: int)
      requires Valid() && terminal != null
      modifies terminal.Repr()
      ensures Valid() && Value() == Stimulate(old(Value()), E.Button(pressed, now))
    {
      terminal.SetPowerButton(pressed, now);
    }

    /** The debounced level of one channel. */
    method Input(channel: int, now: int) returns (level: bool)
      requires Valid() && terminal != null
      modifies terminal.Repr()
      ensures Valid() && Value() == Stimulate(old(Value()), E.ReadChannel(channel, now))
      ensures level == E.Level(terminal.Value(), channel)
    {
      level := terminal.EffectiveBit(channel, now);
    }

    method SetChannelState(channel: int, state: bool, now: int)
      requires Valid() && subs != null
      modifies subs.Repr()
      ensures Valid() && Value() == SlaveModel.SetChannelState(old(Value()), channel, state, now)
    {
      subs.SetChannelState(channel, state, now);
    }
  }
}
