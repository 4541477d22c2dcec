/** The EL1258 terminal as the program keeps it: flags and C arrays updated in place. It is the
    derived part of a slave; the mapping flag it computes lives in the base part. */
module El1258 {
  import opened Bytes
  import Debounce
  import opened El1258Model

  class EL1258Slave {
    var power: bool
    var powerButton: bool
    const rawDi: array<bool>
    const effDi: array<bool>
    const lastChange: array<int>
    var invertMask: uint8
    var debounceMs: uint16
    var txpdoCount: uint8
    const txpdoEntries: array<uint32>
    var assignCount: uint8
    const assignEntries: array<uint16>

    ghost function Repr(): set<object> {
      {this, rawDi, effDi, lastChange, txpdoEntries, assignEntries}
    }

    /** The arrays have their declared sizes and do not overlap. */
    ghost predicate Separate() {
      && rawDi.Length == effDi.Length == lastChange.Length == txpdoEntries.Length == CHANNEL_COUNT
      && assignEntries.Length == ASSIGN_SLOTS
      && rawDi != effDi
      && lastChange as object != txpdoEntries && lastChange as object != assignEntries
      && txpdoEntries as object != assignEntries
    }

    ghost predicate Valid()
      reads Repr()
    {
      Separate() && txpdoCount <= CHANNEL_COUNT && assignCount <= ASSIGN_SLOTS
    }

    ghost function Value(): (t: Terminal)
      requires Valid()
      reads Repr()
      ensures WellFormed(t)
    {
      Terminal(power, powerButton, rawDi[..], effDi[..], lastChange[..], invertMask, debounceMs,
               txpdoCount, txpdoEntries[..], assignCount, assignEntries[..])
    }

    constructor (clock: Clock)
      ensures Valid() && Value() == Fresh(clock) && fresh(Repr())
    {
      power, powerButton, invertMask, debounceMs, txpdoCount, assignCount := false, false, 0, 0, 0, 0;
      rawDi := new bool[CHANNEL_COUNT](_ => false);
      effDi := new bool[CHANNEL_COUNT](_ => false);
      lastChange := new int[CHANNEL_COUNT](i requires 0 <= i < CHANNEL_COUNT => clock[i]);
      txpdoEntries := new uint32[CHANNEL_COUNT](_ => 0);
      assignEntries := new uint16[ASSIGN_SLOTS](_ => 0);
      new;
      assert lastChange[..] == clock;
      assert rawDi[..] == Fresh(clock).raw && effDi[..] == Fresh(clock).shown;
      assert txpdoEntries[..] == Fresh(clock).txEntries && assignEntries[..] == Fresh(clock).assignEntries;
      UpdateDerivedInputs(clock[1], clock[0]);
    }

    method SetRawInput(ch: int, v: bool, now: int)
      requires Valid()
      modifies Repr()
      ensures Valid() && Value() == SetRaw(old(Value()), ch, v, now)
    {
      if ch < 0 || ch >= CHANNEL_COUNT {
        return;
      }
      if rawDi[ch] != v {
        rawDi[ch] := v;
        lastChange[ch] := now;
      }
    }

    method UpdateDerivedInputs(now1: int, now0: int)
      requires Valid()
      modifies Repr()
      ensures Valid()
      ensures Value() == SetRaw(SetRaw(old(Value()), 1, old(power), now1), 0, old(powerButton), now0)
    {
      SetRawInput(1, power, now1);
      SetRawInput(0, powerButton, now0);
    }

    method SetPower(on: bool, now1: int, now0: int)
      requires Valid()
      modifies Repr()
      ensures Valid() && Value() == El1258Model.SetPower(old(Value()), on, now1, now0)
    {
      power := on;
      UpdateDerivedInputs(now1, now0);
    }

    method SetPowerButton(pressed: bool, now: int)
      requires Valid()
      modifies Repr()
      ensures Valid() && Value() == SetButton(old(Value()), pressed, now)
    {
      powerButton := pressed;
      SetRawInput(0, pressed, now);
    }

    method SetInput(channel: int, value: bool, now: int)
      requires Valid()
      modifies Repr()
      ensures Valid() && Value() == El1258Model.SetInput(old(Value()), channel, value, now)
    {
      if 0 <= channel < CHANNEL_COUNT {
        SetRawInput(channel, value, now);
        if channel == 1 {
          power := value;
        }
      }
    }

    /** Reads one channel, latching it first if it has been stable long enough. */
    method EffectiveBit(ch: int, now: int) returns (level: bool)
      requires Valid()
      modifies Repr()
      ensures Valid() && Value() == Latch(old(Value()), ch, now) && level == Level(Value(), ch)
    {
      if ch < 0 || ch >= CHANNEL_COUNT {
        return false;
      }
      if debounceMs == 0 {
        return rawDi[ch] != Bit(invertMask, ch);
      }
      var elapsed := Debounce.ElapsedMs(now, lastChange[ch]);
      if effDi[ch] != rawDi[ch] && elapsed >= debounceMs {
        effDi[ch] := rawDi[ch];
      }
      level := effDi[ch] != Bit(invertMask, ch);
    }

    method AggregateBits(clock: Clock) returns (bits: uint32)
      requires Valid()
      modifies Repr()
      ensures Valid() && Value() == LatchAll(old(Value()), clock) && bits == Aggregate(Value())
    {
      var b: nat := 0;
      for i := 0 to CHANNEL_COUNT
        invariant Valid() && Value() == LatchFirst(old(Value()), clock, i)
        invariant b == FromBits(Levels(Value(), i))
      {
        AggregateStep(Value(), i, clock[i]);
        var level := EffectiveBit(i, clock[i]);
        // the weights are distinct powers of two, so adding them is `|=`
        b := b + (if level then Pow2(i) else 0);
      }
      Pow2Eight();
      bits := b;
    }

    method OnSdoUpload(index: uint16, sub: uint8, clock: Clock) returns (value: Option<uint32>)
      requires Valid()
      modifies Repr()
      ensures Valid() && (Value(), value) == Upload(old(Value()), index, sub, clock)
    {
      if index == OBJ_DEVICE_TYPE && sub == 0 {
        return Some(0);
      }
      if index == OBJ_DEVICE_NAME && sub == 0 {
        return Some(Pack4("EL1258"));
      }
      if index == OBJ_HARDWARE_VERSION && sub == 0 {
        return Some(Pack4("HW10"));
      }
      if index == OBJ_SOFTWARE_VERSION && sub == 0 {
        return Some(Pack4("SW10"));
      }
      if index == OBJ_DIGITAL_INPUT && 1 <= sub <= CHANNEL_COUNT {
        var level := EffectiveBit(sub - 1, clock[sub - 1]);
        return Some(if level then 1 else 0);
      }
      if index == OBJ_DIGITAL_AGGREGATE && sub == 0 {
        var bits := AggregateBits(clock);
        return Some(bits);
      }
      if index == OBJ_INVERT_MASK && sub == 0 {
        return Some(invertMask as uint32);
      }
      if index == OBJ_DEBOUNCE_TIME && sub == 0 {
        return Some(debounceMs as uint32);
      }
      if index == PDO_MAPPING_BASE {
        if sub == 0 {
          return Some(txpdoCount);
        }
        if sub - 1 < CHANNEL_COUNT {
          return Some(txpdoEntries[sub - 1]);
        }
      }
      if index == PDO_ASSIGN_TX {
        if sub == 0 {
          return Some(assignCount);
        }
        if sub - 1 < ASSIGN_SLOTS {
          return Some(assignEntries[sub - 1]);
        }
      }
      return None;
    }

    /** Handles an expedited download; when an object changed, `mapped` is what the base part's
        mapping flag is set to. */
    method OnSdoDownload(index: uint16, sub: uint8, value: uint32) returns (changed: bool, mapped: bool)
      requires Valid()
      modifies Repr()
      ensures Valid() && changed == Writable(index, sub)
      ensures Value() == if changed then Download(old(Value()), index, sub, value) else old(Value())
      ensures changed ==> mapped == Mapped(Value())
    {
      changed, mapped := false, false;
      if index == OBJ_INVERT_MASK && sub == 0 {
        invertMask := value % 0x100;
        changed := true;
      } else if index == OBJ_DEBOUNCE_TIME && sub == 0 {
        debounceMs := value % 0x1_0000;
        changed := true;
      } else if index == PDO_MAPPING_BASE {
        if sub == 0 {
          WriteTxpdoCount(value);
          changed := true;
        } else if sub <= CHANNEL_COUNT {
          txpdoEntries[sub - 1] := value;
          changed := true;
        }
      } else if index == PDO_ASSIGN_TX {
        if sub == 0 {
          WriteAssignCount(value);
          changed := true;
        } else if sub <= ASSIGN_SLOTS {
          assignEntries[sub - 1] := value % 0x1_0000;
          changed := true;
        }
      }
      if changed {
        mapped := FindAssigned();
        mapped := mapped && txpdoCount > 0;
      }
    }

    method WriteTxpdoCount(value: uint32)
      requires Valid()
      modifies this, txpdoEntries
      ensures Valid() && Value() == Download(old(Value()), PDO_MAPPING_BASE, 0, value)
    {
      txpdoCount := value % 0x100;
      if txpdoCount > CHANNEL_COUNT {
        txpdoCount := CHANNEL_COUNT;
      }
      for i := txpdoCount to CHANNEL_COUNT
        modifies txpdoEntries
        invariant forall k :: 0 <= k < CHANNEL_COUNT ==>
                    txpdoEntries[k] == if txpdoCount <= k < i then 0 else old(txpdoEntries[k])
      {
        txpdoEntries[i] := 0;
      }
      assert txpdoEntries[..] == ZeroFrom(old(txpdoEntries[..]), txpdoCount);
    }

    method WriteAssignCount(value: uint32)
      requires Valid()
      modifies this, assignEntries
      ensures Valid() && Value() == Download(old(Value()), PDO_ASSIGN_TX, 0, value)
    {
      assignCount := value % 0x100;
      if assignCount > ASSIGN_SLOTS {
        assignCount := ASSIGN_SLOTS;
      }
      for i := assignCount to ASSIGN_SLOTS
        modifies assignEntries
        invariant forall k :: 0 <= k < ASSIGN_SLOTS ==>
                    assignEntries[k] == if assignCount <= k < i then 0 else old(assignEntries[k])
      {
        assignEntries[i] := 0;
      }
      assert assignEntries[..] == ZeroFrom(old(assignEntries[..]), assignCount);
    }

    method FindAssigned() returns (found: bool)
      requires Valid()
      ensures found == Assigned(Value())
    {
      found := false;
      for i := 0 to assignCount
        invariant !found && forall k :: 0 <= k < i ==> assignEntries[k] != PDO_MAPPING_BASE
      {
        if assignEntries[i] == PDO_MAPPING_BASE {
          found := true;
          break;
        }
      }
    }

    method ApplyDefaultTxPdoMapping()
      requires Valid()
      modifies Repr()
      ensures Valid() && Value() == ApplyDefaultMapping(old(Value()))
    {
      txpdoCount := 1;
      txpdoEntries[0] := OBJ_DIGITAL_AGGREGATE as uint32 * 0x1_0000 + CHANNEL_COUNT;
      assignCount := 1;
      assignEntries[0] := PDO_MAPPING_BASE;
    }
  }
}
