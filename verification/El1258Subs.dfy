/** The slaves application's EL1258 variant as the program keeps it. */
module El1258Subs {
  import opened Bytes
  import Debounce
  import opened SubsModel
  import E = El1258Model

  class El1258Slave {
    const channels: array<bool>
    const channelFilters: array<ChannelFilter>
    var invertMask: uint8
    var debounceMs: uint32
    var mapCount: uint8
    const mappings: array<uint32>
    var assignCount: uint8
    var isAssigned: bool

    ghost function Repr(): set<object> { {this, channels, channelFilters, mappings} }

    ghost predicate Valid()
    {
      channels.Length == channelFilters.Length == mappings.Length == CHANNEL_COUNT
    }

    ghost function Value(): (s: Subs)
      requires Valid()
      reads Repr()
      ensures WellFormed(s)
    {
      Subs(channels[..], channelFilters[..], invertMask, debounceMs, mapCount, mappings[..], assignCount, isAssigned)
    }

    constructor ()
      ensures Valid() && Value() == Fresh() && fresh(Repr())
    {
      channels := new bool[CHANNEL_COUNT](_ => false);
      channelFilters := new ChannelFilter[CHANNEL_COUNT](_ => ChannelFilter(false, false, 0));
      mappings := new uint32[CHANNEL_COUNT](_ => 0);
      invertMask, debounceMs := 0, 0;
      new;
      ApplyDefaultTxPdoMapping();
      assert channels[..] == Fresh().channels && channelFilters[..] == Fresh().filters;
    }

    method ApplyDefaultTxPdoMapping()
      requires Valid()
      modifies this, mappings
      ensures Valid() && Value() == ApplyDefaultMapping(old(Value()))
    {
      mapCount := CHANNEL_COUNT;
      for i := 0 to CHANNEL_COUNT
        modifies mappings
        invariant forall k :: 0 <= k < i ==> mappings[k] == ChannelMapping(k + 1)
      {
        mappings[i] := ChannelMapping(i + 1);
      }
      assignCount := 1;
      isAssigned := true;
      assert mappings[..] == ApplyDefaultMapping(old(Value())).mappings;
    }

    method SetChannelState(channel: int, state: bool, now: int)
      requires Valid()
      modifies channels, channelFilters
      ensures Valid() && Value() == SetChannel(old(Value()), channel, state, now)
    {
      if 1 <= channel <= CHANNEL_COUNT {
        if channelFilters[channel - 1].raw != state {
          channelFilters[channel - 1] := ChannelFilter(state, true, now);
        }
        var filter := channelFilters[channel - 1];
        if filter.active {
          var elapsed := Debounce.ElapsedMs(now, filter.start);
          if elapsed >= DEBOUNCE_FILTER_MS {
            channelFilters[channel - 1] := filter.(active := false);
            channels[channel - 1] := filter.raw;
          }
        }
      }
    }

    method CurrentAggregate() returns (bits: uint32)
      requires Valid()
      ensures bits == Aggregate(Value())
    {
      var raw: nat := 0;
      for i := 0 to CHANNEL_COUNT
        invariant raw == FromBits(channels[..i])
      {
        assert channels[..i + 1] == channels[..i] + [channels[i]];
        FromBitsSnoc(channels[..i], channels[i]);
        raw := raw + (if channels[i] then Pow2(i) else 0);
      }
      assert channels[..CHANNEL_COUNT] == channels[..];
      bits := XorByte(raw, invertMask);
    }

    method OnSdoUpload(index: uint16, sub: uint8) returns (value: Option<uint32>)
      requires Valid()
      ensures value == Upload(Value(), index, sub)
    {
      if index == E.OBJ_DIGITAL_AGGREGATE {
        var bits := CurrentAggregate();
        return Some(bits);
      }
      if index in {E.OBJ_DIGITAL_INPUT, OBJ_DIGITAL_STATUS} && 1 <= sub <= CHANNEL_COUNT {
        return Some(if channels[sub - 1] then 1 else 0);
      }
      if index in {E.OBJ_DIGITAL_INPUT, OBJ_DIGITAL_STATUS} && sub == 0 {
        return Some(CHANNEL_COUNT);
      }
      if index == OBJ_IDENTITY && sub <= 4 {
        return Some(if sub == 0 then 4 else if sub == 1 then E.VENDOR_ID else if sub == 2 then E.PRODUCT_CODE
                    else if sub == 3 then REVISION else 0);
      }
      if index == E.OBJ_INVERT_MASK {
        return Some(invertMask as uint32);
      }
      if index == E.OBJ_DEBOUNCE_TIME {
        return Some(debounceMs);
      }
      if index == E.OBJ_DEVICE_TYPE || index == E.OBJ_DEVICE_NAME {
        return Some(0);
      }
      if index == E.OBJ_HARDWARE_VERSION || index == E.OBJ_SOFTWARE_VERSION {
        return Some(1);
      }
      if index in {OBJ_ERROR_REGISTER, OBJ_MANUFACTURER_STATUS} || (index == OBJ_ERROR_HISTORY && sub == 0) {
        return Some(0);
      }
      return None;
    }

    /** Handles an expedited download; `mapped` is the flag value the base part is given, if any. */
    method OnSdoDownload(index: uint16, sub: uint8, value: uint32) returns (mapped: Option<bool>)
      requires Valid()
      modifies this, mappings
      ensures Valid() && (Value(), mapped) == Download(old(Value()), index, sub, value)
    {
      mapped := None;
      if index == E.OBJ_INVERT_MASK {
        invertMask := value % 0x100;
      } else if index == E.OBJ_DEBOUNCE_TIME {
        debounceMs := value;
      } else if IsMappingObject(index) {
        if sub == 0 {
          mapCount := value % 0x100;
        } else if sub <= CHANNEL_COUNT {
          mappings[ChannelFromMapping(index) - 1] := value;
        }
      } else if index == E.PDO_ASSIGN_TX {
        if sub == 0 {
          assignCount := value % 0x100;
        } else if sub == 1 {
          isAssigned := value % 0x1_0000 == E.PDO_MAPPING_BASE;
          mapped := Some(isAssigned && mapCount > 0);
        }
      }
    }
  }
}
