/** The slaves application's own EL1258 variant as a value: channels behind a fixed 3 ms filter that
    runs when the level is set, and CoE hooks whose mapping flag is updated on assignment only. */
module SubsModel {
  import opened Bytes
  import Debounce
  import E = El1258Model

  const CHANNEL_COUNT := 8
  const DEBOUNCE_FILTER_MS := 3
  const PDO_MAPPING_STRIDE := 4

  const OBJ_IDENTITY: uint16 := 0x1018
  const OBJ_DIGITAL_STATUS: uint16 := 0x6001
  const OBJ_ERROR_REGISTER: uint16 := 0x8002
  const OBJ_MANUFACTURER_STATUS: uint16 := 0x8003
  const OBJ_ERROR_HISTORY: uint16 := 0x8004
  const REVISION: uint32 := 0x0011_0000

  datatype ChannelFilter = ChannelFilter(raw: bool, active: bool, start: int)

  datatype Subs = Subs(
    channels: seq<bool>, filters: seq<ChannelFilter>,
    invert: uint8, debounceMs: uint32,
    mapCount: uint8, mappings: seq<uint32>, assignCount: uint8, isAssigned: bool)

  predicate WellFormed(s: Subs) {
    |s.channels| == |s.filters| == |s.mappings| == CHANNEL_COUNT
  }

  /** `makeChannelMapping`: the 1-bit input object of one channel. */
  function ChannelMapping(sub: uint8): uint32 { 0x6000_0000 + 0x100 * (sub as int) + 1 }

  /** A new slave has its default mapping applied; its timers start at the clock's epoch. */
  function Fresh(): (s: Subs)
    ensures WellFormed(s)
  {
    ApplyDefaultMapping(Subs(seq(CHANNEL_COUNT, _ => false),
                             seq(CHANNEL_COUNT, _ => ChannelFilter(false, false, 0)),
                             0, 0, 0, seq(CHANNEL_COUNT, _ => 0), 0, false))
  }

  function ApplyDefaultMapping(s: Subs): (r: Subs)
    requires WellFormed(s)
    ensures WellFormed(r)
  {
    s.(mapCount := 8, mappings := seq(CHANNEL_COUNT, i requires 0 <= i < CHANNEL_COUNT => ChannelMapping(i + 1)),
       assignCount := 1, isAssigned := true)
  }

  // ---- channels

  /** `setChannelState`: a new level starts the timer; an expired timer lets the level through. */
  function SetChannel(s: Subs, channel: int, level: bool, now: int): (r: Subs)
    requires WellFormed(s)
    ensures WellFormed(r)
  {
    if !(1 <= channel <= CHANNEL_COUNT) then s
    else
      var f := s.filters[channel - 1];
      var g := if f.raw != level then ChannelFilter(level, true, now) else f;
      if g.active && Debounce.ElapsedMs(now, g.start) >= DEBOUNCE_FILTER_MS then
        s.(filters := s.filters[channel - 1 := g.(active := false)], channels := s.channels[channel - 1 := g.raw])
      else s.(filters := s.filters[channel - 1 := g])
  }

  /** `(a ^ b) & 0xFF`. */
  function XorByte(a: nat, b: nat): uint8 {
    Pow2Eight();
    FromBits(seq(8, i requires 0 <= i < 8 => Bit(a, i) != Bit(b, i)))
  }

  function Aggregate(s: Subs): uint32
    requires WellFormed(s)
  {
    XorByte(FromBits(s.channels), s.invert)
  }

  /** Bit `ch` of the aggregate is the filtered level of that channel, inverted by its mask bit. */
  lemma AggregateBit(s: Subs, ch: nat)
    requires WellFormed(s)
    ensures Bit(Aggregate(s), ch) == (ch < CHANNEL_COUNT && s.channels[ch] != Bit(s.invert, ch))
  {
    BitOfFromBits(seq(8, i requires 0 <= i < 8 => Bit(FromBits(s.channels), i) != Bit(s.invert, i)), ch);
    BitOfFromBits(s.channels, ch);
  }

  /** An idle timer means the filtered level is the raw one. */
  predicate IdleMeansSettled(s: Subs)
    requires WellFormed(s)
  {
    forall ch :: 0 <= ch < CHANNEL_COUNT && !s.filters[ch].active ==> s.channels[ch] == s.filters[ch].raw
  }

  function Channel(s: Subs, ch: nat): Debounce.Input
    requires WellFormed(s) && ch < CHANNEL_COUNT
  {
    Debounce.Input(s.filters[ch].raw, s.channels[ch], s.filters[ch].start)
  }

  datatype Call = Call(channel: int, level: bool, at: int)

  function SetAll(s: Subs, calls: seq<Call>): (r: Subs)
    requires WellFormed(s)
    ensures WellFormed(r)
  {
    if calls == [] then s
    else
      var c := calls[|calls| - 1];
      SetChannel(SetAll(s, calls[..|calls| - 1]), c.channel, c.level, c.at)
  }

  /** A call drives its channel and then samples it, both at the call's clock reading. */
  function View(calls: seq<Call>, ch: nat): seq<Debounce.Event> {
    if calls == [] then []
    else
      var c := calls[|calls| - 1];
      View(calls[..|calls| - 1], ch)
      + if c.channel == ch + 1 then [Debounce.Drive(c.level, c.at), Debounce.Sample(c.at)] else []
  }

  lemma RunAppend2(x: Debounce.Input, es: seq<Debounce.Event>, e: Debounce.Event, f: Debounce.Event, delay: nat)
    ensures Debounce.Run(x, es + [e, f], delay) == Debounce.Step(Debounce.Step(Debounce.Run(x, es, delay), e, delay), f, delay)
  {
    assert (es + [e, f])[..|es| + 1] == es + [e];
    assert (es + [e])[..|es|] == es;
  }

  lemma SetChannelIsFilterStep(s: Subs, channel: int, level: bool, at: int, ch: nat)
    requires WellFormed(s) && IdleMeansSettled(s) && ch < CHANNEL_COUNT
    ensures var r := SetChannel(s, channel, level, at);
            && r.invert == s.invert
            && (!r.filters[ch].active ==> r.channels[ch] == r.filters[ch].raw)
            && Channel(r, ch) ==
               if channel != ch + 1 then Channel(s, ch)
               else Debounce.Step(Debounce.Step(Channel(s, ch), Debounce.Drive(level, at), 3),
                                  Debounce.Sample(at), 3)
  {}

  /** The timer-flag filter is the debounce filter with a 3 ms delay, on each channel separately: over
      every run of calls it keeps "idle means settled", and shows what that filter shows. */
  lemma {:induction false} ThreeMillisecondFilter(s: Subs, calls: seq<Call>, ch: nat)
    requires WellFormed(s) && IdleMeansSettled(s) && ch < CHANNEL_COUNT
    ensures var r := SetAll(s, calls);
            && IdleMeansSettled(r) && r.invert == s.invert
            && Channel(r, ch) == Debounce.Run(Channel(s, ch), View(calls, ch), 3)
    decreases |calls|
  {
    if calls != [] {
      var n := |calls| - 1;
      var c := calls[n];
      ThreeMillisecondFilter(s, calls[..n], ch);
      var u := SetAll(s, calls[..n]);
      forall k | 0 <= k < CHANNEL_COUNT
        ensures !SetAll(s, calls).filters[k].active ==> SetAll(s, calls).channels[k] == SetAll(s, calls).filters[k].raw
      {
        SetChannelIsFilterStep(u, c.channel, c.level, c.at, k);
      }
      SetChannelIsFilterStep(u, c.channel, c.level, c.at, ch);
      if c.channel == ch + 1 {
        RunAppend2(Channel(s, ch), View(calls[..n], ch), Debounce.Drive(c.level, c.at), Debounce.Sample(c.at),
                   3);
      } else {
        assert View(calls, ch) == View(calls[..n], ch);
      }
    }
  }

  /** Whatever pulses shorter than 3 ms a settled channel is given, neither the channel nor its bit of
      the aggregate moves. */
  lemma SubsHidesGlitches(s: Subs, calls: seq<Call>, ch: nat)
    requires WellFormed(s) && IdleMeansSettled(s) && ch < CHANNEL_COUNT
    requires s.channels[ch] == s.filters[ch].raw
    requires Debounce.Ordered(Channel(s, ch), View(calls, ch))
    requires Debounce.OnlyShortExcursions(View(calls, ch), s.channels[ch], 3)
    ensures var r := SetAll(s, calls);
            r.channels[ch] == s.channels[ch] && Bit(Aggregate(r), ch) == Bit(Aggregate(s), ch)
  {
    var es := View(calls, ch);
    ThreeMillisecondFilter(s, calls, ch);
    Debounce.ShortPulsesAreNeverSeen(Channel(s, ch), es, 3, |es|);
    assert es[..|es|] == es;
    AggregateBit(s, ch);
    AggregateBit(SetAll(s, calls), ch);
  }

  // ---- object dictionary hooks

  /** The eight mapping objects 0x1A00, 0x1A04, ..., 0x1A1C. */
  predicate IsMappingObject(index: uint16) {
    E.PDO_MAPPING_BASE <= index <= 0x1A1C && (index - E.PDO_MAPPING_BASE) % PDO_MAPPING_STRIDE == 0
  }

  /** `channelFromMapping`, on the indices above. */
  function ChannelFromMapping(index: uint16): (channel: nat)
    requires IsMappingObject(index)
    ensures 1 <= channel <= CHANNEL_COUNT
  {
    (index - E.PDO_MAPPING_BASE) / PDO_MAPPING_STRIDE + 1
  }

  function Upload(s: Subs, index: uint16, sub: uint8): Option<uint32>
    requires WellFormed(s)
  {
    if index == E.OBJ_DEVICE_TYPE || index == E.OBJ_DEVICE_NAME then Some(0)
    else if index == E.OBJ_HARDWARE_VERSION || index == E.OBJ_SOFTWARE_VERSION then Some(1)
    else if index == OBJ_IDENTITY && sub <= 4 then
      Some(if sub == 0 then 4 else if sub == 1 then E.VENDOR_ID else if sub == 2 then E.PRODUCT_CODE
           else if sub == 3 then REVISION else 0)
    else if index in {E.OBJ_DIGITAL_INPUT, OBJ_DIGITAL_STATUS} && sub <= CHANNEL_COUNT then
      Some(if sub == 0 then CHANNEL_COUNT else if s.channels[sub - 1] then 1 else 0)
    else if index == E.OBJ_DIGITAL_AGGREGATE then Some(Aggregate(s))
    else if index == E.OBJ_INVERT_MASK then Some(s.invert as uint32)
    else if index == E.OBJ_DEBOUNCE_TIME then Some(s.debounceMs)
    else if index in {OBJ_ERROR_REGISTER, OBJ_MANUFACTURER_STATUS} then Some(0)
    else if index == OBJ_ERROR_HISTORY && sub == 0 then Some(0)
    else None
  }

  /** The slave after a download, and the mapping flag it sets, if it sets one. */
  function Download(s: Subs, index: uint16, sub: uint8, v: uint32): (r: (Subs, Option<bool>))
    requires WellFormed(s)
    ensures WellFormed(r.0)
  {
    if index == E.OBJ_INVERT_MASK then (s.(invert := v % 0x100), None)
    else if index == E.OBJ_DEBOUNCE_TIME then (s.(debounceMs := v), None)
    else if IsMappingObject(index) then
      if sub == 0 then (s.(mapCount := v % 0x100), None)
      else if sub <= CHANNEL_COUNT then
        (s.(mappings := s.mappings[ChannelFromMapping(index) - 1 := v]), None)
      else (s, None)
    else if index == E.PDO_ASSIGN_TX && sub == 0 then (s.(assignCount := v % 0x100), None)
    else if index == E.PDO_ASSIGN_TX && sub == 1 then
      var r := s.(isAssigned := v % 0x1_0000 == E.PDO_MAPPING_BASE);
      (r, Some(r.isAssigned && r.mapCount > 0))
    else (s, None)
  }

  predicate Mapped(s: Subs) { s.isAssigned && s.mapCount > 0 }

  /** The slave and its mapping flag after one configuration call. */
  function Configure(s: Subs, flag: bool, c: E.Configuration): (r: (Subs, bool))
    requires WellFormed(s)
    ensures WellFormed(r.0)
  {
    match c
    case SdoDownload(index, sub, v) =>
      var (t, given) := Download(s, index, sub, v);
      (t, if given.Some? then given.value else flag)
    case DefaultMapping => (ApplyDefaultMapping(s), true)
  }

  function ConfigureAll(s: Subs, flag: bool, cs: seq<E.Configuration>): (r: (Subs, bool))
    requires WellFormed(s)
    ensures WellFormed(r.0)
  {
    if cs == [] then (s, flag)
    else
      var (t, f) := ConfigureAll(s, flag, cs[..|cs| - 1]);
      Configure(t, f, cs[|cs| - 1])
  }

  /** A write of the mapping count that moves it to or from zero while the PDO is assigned. */
  predicate CrossesZero(s: Subs, c: E.Configuration) {
    && c.SdoDownload? && IsMappingObject(c.index) && c.sub == 0
    && s.isAssigned && (c.value % 0x100 > 0) != (s.mapCount > 0)
  }

  /** A call that sets the flag. */
  predicate Refreshes(c: E.Configuration) {
    c.DefaultMapping? || (c.SdoDownload? && c.index == E.PDO_ASSIGN_TX && c.sub == 1)
  }

  /** Unlike the other variant's, this one's flag can go stale. From any state, truthful or stale, one call leaves
      it truthful exactly as follows: a call that sets it always does, a count write does if the flag happens to
      equal the new truth, and any other call leaves it as truthful as it was. */
  lemma FlagAfterOneCall(s: Subs, flag: bool, c: E.Configuration)
    requires WellFormed(s)
    ensures var (r, f) := Configure(s, flag, c);
            f == Mapped(r) <==>
            if Refreshes(c) then true
            else if c.SdoDownload? && IsMappingObject(c.index) && c.sub == 0 then flag == (s.isAssigned && c.value % 0x100 > 0)
            else flag == Mapped(s)
  {}

  lemma OneCallFromTruth(s: Subs, flag: bool, c: E.Configuration)
    requires WellFormed(s)
    ensures flag == Mapped(s) ==> var (r, f) := Configure(s, flag, c); f == Mapped(r) <==> !CrossesZero(s, c)
  {
    FlagAfterOneCall(s, flag, c);
  }

  lemma ConfigureNext(s: Subs, flag: bool, cs: seq<E.Configuration>, k: nat)
    requires WellFormed(s) && k < |cs|
    ensures var (t, f) := ConfigureAll(s, flag, cs[..k]);
            ConfigureAll(s, flag, cs[..k + 1]) == Configure(t, f, cs[k])
  {
    assert cs[..k + 1][..k] == cs[..k];
  }

  predicate TruthfulAfter(s: Subs, flag: bool, cs: seq<E.Configuration>, k: nat)
    requires WellFormed(s) && k <= |cs|
  {
    var (t, f) := ConfigureAll(s, flag, cs[..k]);
    f == Mapped(t)
  }

  predicate CrossesAt(s: Subs, flag: bool, cs: seq<E.Configuration>, k: nat)
    requires WellFormed(s) && k < |cs|
  {
    CrossesZero(ConfigureAll(s, flag, cs[..k]).0, cs[k])
  }

  /** Over every sequence of downloads and default mappings from a truthful flag, the flag stays truthful at every
      prefix if and only if no count write in it crosses zero while assigned. */
  lemma {:induction false} FlagStaysTruthfulExactlyUnless(s: Subs, flag: bool, cs: seq<E.Configuration>, n: nat)
    requires WellFormed(s) && flag == Mapped(s) && n <= |cs|
    ensures (forall k :: 0 <= k <= n ==> TruthfulAfter(s, flag, cs, k)) <==>
            (forall k :: 0 <= k < n ==> !CrossesAt(s, flag, cs, k))
    decreases n
  {
    hide Configure, CrossesZero, Mapped;
    if n == 0 {
      assert cs[..0] == [] && TruthfulAfter(s, flag, cs, 0);
    } else {
      FlagStaysTruthfulExactlyUnless(s, flag, cs, n - 1);
      ConfigureNext(s, flag, cs, n - 1);
      var (t, f) := ConfigureAll(s, flag, cs[..n - 1]);
      OneCallFromTruth(t, f, cs[n - 1]);
      assert TruthfulAfter(s, flag, cs, n - 1) ==> (TruthfulAfter(s, flag, cs, n) <==> !CrossesAt(s, flag, cs, n - 1));
    }
  }

  lemma OnlyRefreshesSetTheFlag(s: Subs, flag: bool, c: E.Configuration)
    requires WellFormed(s)
    ensures !Refreshes(c) ==> Configure(s, flag, c).1 == flag
  {}

  /** What the flag really tells, stale or not: whether the mapping was valid at the last call that set it. */
  lemma {:induction false} FlagIsAsOfTheLastRefresh(s: Subs, flag: bool, cs: seq<E.Configuration>, k: nat, n: nat)
    requires WellFormed(s) && k < n <= |cs| && Refreshes(cs[k])
    requires forall i :: k < i < n ==> !Refreshes(cs[i])
    ensures ConfigureAll(s, flag, cs[..n]).1 == Mapped(ConfigureAll(s, flag, cs[..k + 1]).0)
    decreases n
  {
    hide Configure, ConfigureAll, WellFormed, Mapped, Refreshes;
    ConfigureNext(s, flag, cs, n - 1);
    var (t, f) := ConfigureAll(s, flag, cs[..n - 1]);
    FlagAfterOneCall(t, f, cs[n - 1]);
    OnlyRefreshesSetTheFlag(t, f, cs[n - 1]);
    if n > k + 1 {
      FlagIsAsOfTheLastRefresh(s, flag, cs, k, n - 1);
    }
  }

  /** So a new slave whose channel count is cleared still passes for mapped. */
  lemma ClearedCountStillPassesForMapped()
    ensures var (r, flag) := Configure(Fresh(), true, E.SdoDownload(0x1A00, 0, 0)); Mapped(Fresh()) && flag && !Mapped(r)
  {}
}
