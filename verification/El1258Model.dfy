/** The simulated EL1258 input terminal as a value: eight debounced channels and a small CoE
    object dictionary whose contents decide the PDO-mapped flag. */
module El1258Model {
  import opened Bytes
  import Debounce

  const CHANNEL_COUNT := 8
  const ASSIGN_SLOTS := 4

  const VENDOR_ID: uint32 := 0x0000_0002
  const PRODUCT_CODE: uint32 := 0x04EA_3052

  const OBJ_DEVICE_TYPE: uint16 := 0x1000
  const OBJ_DEVICE_NAME: uint16 := 0x1008
  const OBJ_HARDWARE_VERSION: uint16 := 0x1009
  const OBJ_SOFTWARE_VERSION: uint16 := 0x100A
  const OBJ_DIGITAL_INPUT: uint16 := 0x6000
  const OBJ_DIGITAL_AGGREGATE: uint16 := 0x6002
  const OBJ_INVERT_MASK: uint16 := 0x8000
  const OBJ_DEBOUNCE_TIME: uint16 := 0x8001
  const PDO_MAPPING_BASE: uint16 := 0x1A00
  const PDO_ASSIGN_TX: uint16 := 0x1C13

  /** One clock reading for each channel an operation may sample, in channel order. */
  type Clock = c: seq<int> | |c| == CHANNEL_COUNT witness [0, 0, 0, 0, 0, 0, 0, 0]

  datatype Terminal = Terminal(
    power: bool, button: bool,
    raw: seq<bool>, shown: seq<bool>, since: seq<int>,
    invert: uint8, debounceMs: uint16,
    txCount: uint8, txEntries: seq<uint32>,
    assignCount: uint8, assignEntries: seq<uint16>)

  predicate WellFormed(t: Terminal) {
    && |t.raw| == |t.shown| == |t.since| == |t.txEntries| == CHANNEL_COUNT
    && |t.assignEntries| == ASSIGN_SLOTS
    && t.txCount <= CHANNEL_COUNT && t.assignCount <= ASSIGN_SLOTS
  }

  /** A new terminal; the clock is read once per channel while the fields are initialised. */
  function Fresh(clock: Clock): (t: Terminal)
    ensures WellFormed(t)
  {
    var off := [false, false, false, false, false, false, false, false];
    Terminal(false, false, off, off, clock, 0, 0, 0, [0, 0, 0, 0, 0, 0, 0, 0], 0, [0, 0, 0, 0])
  }

  // ---- channels

  function SetRaw(t: Terminal, ch: int, level: bool, now: int): (r: Terminal)
    requires WellFormed(t)
    ensures WellFormed(r)
  {
    if 0 <= ch < CHANNEL_COUNT && t.raw[ch] != level then
      t.(raw := t.raw[ch := level], since := t.since[ch := now])
    else t
  }

  function SetPower(t: Terminal, on: bool, now1: int, now0: int): (r: Terminal)
    requires WellFormed(t)
    ensures WellFormed(r)
  {
    SetRaw(SetRaw(t.(power := on), 1, on, now1), 0, t.button, now0)
  }

  function SetButton(t: Terminal, pressed: bool, now: int): (r: Terminal)
    requires WellFormed(t)
    ensures WellFormed(r)
  {
    SetRaw(t.(button := pressed), 0, pressed, now)
  }

  function SetInput(t: Terminal, channel: int, level: bool, now: int): (r: Terminal)
    requires WellFormed(t)
    ensures WellFormed(r)
  {
    var u := SetRaw(t, channel, level, now);
    if channel == 1 then u.(power := level) else u
  }

  function Channel(t: Terminal, ch: nat): Debounce.Input
    requires WellFormed(t) && ch < CHANNEL_COUNT
  {
    Debounce.Input(t.raw[ch], t.shown[ch], t.since[ch])
  }

  /** Reading a channel latches the raw level once it has been stable for the debounce time. */
  function Latch(t: Terminal, ch: int, now: int): (r: Terminal)
    requires WellFormed(t)
    ensures WellFormed(r)
  {
    if 0 <= ch < CHANNEL_COUNT && t.debounceMs > 0 then
      t.(shown := t.shown[ch := Debounce.Step(Channel(t, ch), Debounce.Sample(now), t.debounceMs).shown])
    else t
  }

  /** The level a channel reads as once latched: raw when no debounce is configured, inverted by its mask bit. */
  predicate Level(t: Terminal, ch: int)
    requires WellFormed(t)
  {
    0 <= ch < CHANNEL_COUNT && ((if t.debounceMs == 0 then t.raw[ch] else t.shown[ch]) != Bit(t.invert, ch))
  }

  /** Channels `0..n` latched in turn, each at its own clock reading. */
  function LatchFirst(t: Terminal, clock: Clock, n: nat): (r: Terminal)
    requires WellFormed(t) && n <= CHANNEL_COUNT
    ensures WellFormed(r)
  {
    if n == 0 then t else Latch(LatchFirst(t, clock, n - 1), n - 1, clock[n - 1])
  }

  function Levels(t: Terminal, n: nat): (bits: seq<bool>)
    requires WellFormed(t) && n <= CHANNEL_COUNT
    ensures |bits| == n
  {
    seq(n, i requires 0 <= i < n => Level(t, i))
  }

  function LatchAll(t: Terminal, clock: Clock): (r: Terminal)
    requires WellFormed(t)
    ensures WellFormed(r)
  {
    LatchFirst(t, clock, CHANNEL_COUNT)
  }

  /** The aggregated bitfield of a terminal whose channels have just been latched. */
  function Aggregate(t: Terminal): (v: uint32)
    requires WellFormed(t)
  {
    Pow2Eight();
    FromBits(Levels(t, CHANNEL_COUNT))
  }

  lemma {:induction false} LatchFirstTouchesShown(t: Terminal, clock: Clock, n: nat)
    requires WellFormed(t) && n <= CHANNEL_COUNT
    ensures LatchFirst(t, clock, n).(shown := t.shown) == t
    decreases n
  {
    if n > 0 { LatchFirstTouchesShown(t, clock, n - 1); }
  }

  /** Latching one channel leaves every other alone, so latching them in turn latches each by itself. */
  lemma {:induction false} LatchFirstPerChannel(t: Terminal, clock: Clock, n: nat, ch: nat)
    requires WellFormed(t) && n <= CHANNEL_COUNT && ch < CHANNEL_COUNT
    ensures var r := LatchFirst(t, clock, n);
            && r.(shown := t.shown) == t
            && r.shown[ch] == (if ch < n then Latch(t, ch, clock[ch]) else t).shown[ch]
    decreases n
  {
    LatchFirstTouchesShown(t, clock, n);
    if n > 0 {
      LatchFirstTouchesShown(t, clock, n - 1);
      LatchFirstPerChannel(t, clock, n - 1, ch);
    }
  }

  lemma LatchLeavesOthers(t: Terminal, ch: nat, now: int, i: nat)
    requires WellFormed(t) && ch < CHANNEL_COUNT && i < CHANNEL_COUNT && i != ch
    ensures Level(Latch(t, ch, now), i) == Level(t, i)
  {}

  lemma LevelsSnoc(t: Terminal, u: Terminal, n: nat)
    requires WellFormed(t) && WellFormed(u) && n < CHANNEL_COUNT
    requires forall i :: 0 <= i < n ==> Level(u, i) == Level(t, i)
    ensures Levels(u, n + 1) == Levels(t, n) + [Level(u, n)]
  {}

  /** One pass of the accumulation loop: latching channel `n` adds its level on top of those read before. */
  lemma AggregateStep(t: Terminal, n: nat, now: int)
    requires WellFormed(t) && n < CHANNEL_COUNT
    ensures var u := Latch(t, n, now);
            FromBits(Levels(u, n + 1)) == FromBits(Levels(t, n)) + (if Level(u, n) then Pow2(n) else 0)
  {
    var u := Latch(t, n, now);
    forall i | 0 <= i < n ensures Level(u, i) == Level(t, i) { LatchLeavesOthers(t, n, now, i); }
    LevelsSnoc(t, u, n);
    FromBitsSnoc(Levels(t, n), Level(u, n));
  }

  /** Bit `ch` of the aggregate is what reading channel `ch` alone at its clock reading returns. */
  lemma AggregateBit(t: Terminal, clock: Clock, ch: nat)
    requires WellFormed(t)
    ensures ch < CHANNEL_COUNT ==>
              Bit(Aggregate(LatchAll(t, clock)), ch) == Level(Latch(t, ch, clock[ch]), ch)
    ensures ch >= CHANNEL_COUNT ==> !Bit(Aggregate(LatchAll(t, clock)), ch)
    ensures Aggregate(LatchAll(t, clock)) < 0x100
  {
    Pow2Eight();
    BitOfFromBits(Levels(LatchAll(t, clock), CHANNEL_COUNT), ch);
    if ch < CHANNEL_COUNT { LatchFirstPerChannel(t, clock, CHANNEL_COUNT, ch); }
  }

  // ---- object dictionary

  /** The first four characters of an identification string, as one expedited value. */
  function Pack4(s: string): uint32 {
    Le32(seq(4, i requires 0 <= i < 4 => if i < |s| && s[i] < 256 as char then s[i] as int else 0))
  }

  function Upload(t: Terminal, index: uint16, sub: uint8, clock: Clock): (r: (Terminal, Option<uint32>))
    requires WellFormed(t)
    ensures WellFormed(r.0)
  {
    if index == OBJ_DEVICE_TYPE && sub == 0 then (t, Some(0))
    else if index == OBJ_DEVICE_NAME && sub == 0 then (t, Some(Pack4("EL1258")))
    else if index == OBJ_HARDWARE_VERSION && sub == 0 then (t, Some(Pack4("HW10")))
    else if index == OBJ_SOFTWARE_VERSION && sub == 0 then (t, Some(Pack4("SW10")))
    else if index == OBJ_DIGITAL_INPUT && 1 <= sub <= CHANNEL_COUNT then
      var u := Latch(t, sub - 1, clock[sub - 1]);
      (u, Some(if Level(u, sub - 1) then 1 else 0))
    else if index == OBJ_DIGITAL_AGGREGATE && sub == 0 then
      var u := LatchAll(t, clock);
      (u, Some(Aggregate(u)))
    else if Writable(index, sub) then (t, Some(Stored(t, index, sub)))
    else (t, None)
  }

  /** The objects an SDO download can change. */
  predicate Writable(index: uint16, sub: uint8) {
    || (index in {OBJ_INVERT_MASK, OBJ_DEBOUNCE_TIME} && sub == 0)
    || (index == PDO_MAPPING_BASE && sub <= CHANNEL_COUNT)
    || (index == PDO_ASSIGN_TX && sub <= ASSIGN_SLOTS)
  }

  /** The value a writable object holds. */
  function Stored(t: Terminal, index: uint16, sub: uint8): uint32
    requires WellFormed(t) && Writable(index, sub)
  {
    if index == OBJ_INVERT_MASK then t.invert
    else if index == OBJ_DEBOUNCE_TIME then t.debounceMs
    else if index == PDO_MAPPING_BASE then if sub == 0 then t.txCount else t.txEntries[sub - 1]
    else if sub == 0 then t.assignCount else t.assignEntries[sub - 1]
  }

  function Clamp(v: uint32, limit: uint8): uint8 {
    if v % 0x100 > limit then limit else v % 0x100
  }

  /** A list with everything from position `n` on set to zero. */
  function ZeroFrom(s: seq<int>, n: nat): (r: seq<int>)
    requires n <= |s|
    ensures |r| == |s|
    ensures forall i :: 0 <= i < |s| ==> r[i] == if i < n then s[i] else 0
  {
    seq(|s|, i requires 0 <= i < |s| => if i < n then s[i] else 0)
  }

  /** The dictionary after a download to a writable object. */
  function Download(t: Terminal, index: uint16, sub: uint8, v: uint32): (r: Terminal)
    requires WellFormed(t) && Writable(index, sub)
    ensures WellFormed(r)
  {
    if index == OBJ_INVERT_MASK then t.(invert := v % 0x100)
    else if index == OBJ_DEBOUNCE_TIME then t.(debounceMs := v % 0x1_0000)
    else if index == PDO_MAPPING_BASE then
      if sub == 0 then
        var n := Clamp(v, CHANNEL_COUNT);
        t.(txCount := n, txEntries := ZeroFrom(t.txEntries, n))
      else t.(txEntries := t.txEntries[sub as int - 1 := v])
    else
      if sub == 0 then
        var n := Clamp(v, ASSIGN_SLOTS);
        t.(assignCount := n, assignEntries := ZeroFrom(t.assignEntries, n))
      else t.(assignEntries := t.assignEntries[sub as int - 1 := v % 0x1_0000])
  }

  /** What the dictionary makes of a downloaded value: masked to the object's width, counts clamped. */
  function AsStored(index: uint16, sub: uint8, v: uint32): uint32
    requires Writable(index, sub)
  {
    if index == OBJ_INVERT_MASK then v % 0x100
    else if index == OBJ_DEBOUNCE_TIME then v % 0x1_0000
    else if index == PDO_MAPPING_BASE then if sub == 0 then Clamp(v, CHANNEL_COUNT) else v
    else if sub == 0 then Clamp(v, ASSIGN_SLOTS) else v % 0x1_0000
  }

  /** Download then upload, for every pair of writable objects: the one written reads back as
      stored, a count write zeroes its own list past the new count, and nothing else moves. */
  lemma DownloadThenUpload(t: Terminal, index: uint16, sub: uint8, v: uint32, index2: uint16, sub2: uint8, clock: Clock)
    requires WellFormed(t) && Writable(index, sub) && Writable(index2, sub2)
    ensures Upload(Download(t, index, sub, v), index2, sub2, clock).1 == Some(
              if (index2, sub2) == (index, sub) then AsStored(index, sub, v)
              else if index2 == index && sub == 0 && sub2 > AsStored(index, sub, v) then 0
              else Stored(t, index2, sub2))
    ensures var r := Download(t, index, sub, v);
            r.raw == t.raw && r.shown == t.shown && r.since == t.since && r.power == t.power && r.button == t.button
  {
    var r := Download(t, index, sub, v);
    assert Upload(r, index2, sub2, clock).1 == Some(Stored(r, index2, sub2));
    if index2 == index && sub2 > 0 {
      assert index == PDO_MAPPING_BASE || index == PDO_ASSIGN_TX;
    }
  }

  /** TxPDO 0x1A00 is assigned below the assignment count. */
  predicate Assigned(t: Terminal)
    requires WellFormed(t)
  {
    exists k :: 0 <= k < t.assignCount && t.assignEntries[k] == PDO_MAPPING_BASE
  }

  /** The mapping is valid: 0x1A00 is assigned and has at least one entry. */
  predicate Mapped(t: Terminal)
    requires WellFormed(t)
  {
    Assigned(t) && t.txCount > 0
  }

  function ApplyDefaultMapping(t: Terminal): (r: Terminal)
    requires WellFormed(t)
    ensures WellFormed(r)
  {
    t.(txCount := 1, txEntries := t.txEntries[0 := 0x6002_0008],
       assignCount := 1, assignEntries := t.assignEntries[0 := PDO_MAPPING_BASE])
  }

  datatype Configuration = SdoDownload(index: uint16, sub: uint8, value: uint32) | DefaultMapping

  /** The terminal and its mapping flag after one configuration call. */
  function Configure(t: Terminal, flag: bool, c: Configuration): (r: (Terminal, bool))
    requires WellFormed(t)
    ensures WellFormed(r.0)
  {
    match c
    case SdoDownload(index, sub, v) =>
      if Writable(index, sub) then
        var u := Download(t, index, sub, v);
        (u, Mapped(u))
      else (t, flag)
    case DefaultMapping => (ApplyDefaultMapping(t), true)
  }

  function ConfigureAll(t: Terminal, flag: bool, cs: seq<Configuration>): (r: (Terminal, bool))
    requires WellFormed(t)
    ensures WellFormed(r.0)
  {
    if cs == [] then (t, flag)
    else
      var (u, f) := ConfigureAll(t, flag, cs[..|cs| - 1]);
      Configure(u, f, cs[|cs| - 1])
  }

  /** Over every sequence of downloads (to any object, with any value) and default mappings, the
      flag tells the truth about the dictionary. */
  lemma {:induction false} FlagAgreesWithDictionary(t: Terminal, flag: bool, cs: seq<Configuration>)
    requires WellFormed(t) && flag == Mapped(t)
    ensures var (u, f) := ConfigureAll(t, flag, cs); f == Mapped(u)
    decreases |cs|
  {
    if cs != [] {
      FlagAgreesWithDictionary(t, flag, cs[..|cs| - 1]);
      var (u, f) := ConfigureAll(t, flag, cs[..|cs| - 1]);
      assert ApplyDefaultMapping(u).assignEntries[0] == PDO_MAPPING_BASE;
    }
  }

  // ---- timed runs

  datatype Stimulus =
    | Input(channel: int, level: bool, at: int)
    | Button(level: bool, at: int)
    | Power(level: bool, at1: int, at0: int)
    | ReadChannel(channel: int, at: int)
    | ReadAll(clock: Clock)

  function Apply(t: Terminal, s: Stimulus): (r: Terminal)
    requires WellFormed(t)
    ensures WellFormed(r)
  {
    match s
    case Input(channel, level, at) => SetInput(t, channel, level, at)
    case Button(level, at) => SetButton(t, level, at)
    case Power(level, at1, at0) => SetPower(t, level, at1, at0)
    case ReadChannel(channel, at) => Latch(t, channel, at)
    case ReadAll(clock) => LatchAll(t, clock)
  }

  function ApplyAll(t: Terminal, ss: seq<Stimulus>): (r: Terminal)
    requires WellFormed(t)
    ensures WellFormed(r)
  {
    if ss == [] then t else Apply(ApplyAll(t, ss[..|ss| - 1]), ss[|ss| - 1])
  }

  lemma ApplyAllSnoc(t: Terminal, xs: seq<Stimulus>, x: Stimulus)
    requires WellFormed(t)
    ensures ApplyAll(t, xs + [x]) == Apply(ApplyAll(t, xs), x)
  {
    assert (xs + [x])[..|xs|] == xs;
  }

  lemma {:induction false} ApplyAllAppend(t: Terminal, xs: seq<Stimulus>, ys: seq<Stimulus>)
    requires WellFormed(t)
    ensures ApplyAll(t, xs + ys) == ApplyAll(ApplyAll(t, xs), ys)
    decreases |ys|
  {
    hide Apply;
    if ys == [] {
      assert xs + ys == xs;
    } else {
      var k := |ys| - 1;
      ApplyAllAppend(t, xs, ys[..k]);
      assert (xs + ys)[..|xs| + k] == xs + ys[..k];
    }
  }

  /** What one stimulus is to one channel. A power change re-drives the button channel with the
      button's own level. */
  function View(t: Terminal, s: Stimulus, ch: nat): seq<Debounce.Event> {
    match s
    case Input(channel, level, at) => if channel == ch then [Debounce.Drive(level, at)] else []
    case Button(level, at) => if ch == 0 then [Debounce.Drive(level, at)] else []
    case Power(level, at1, at0) =>
      if ch == 1 then [Debounce.Drive(level, at1)] else if ch == 0 then [Debounce.Drive(t.button, at0)] else []
    case ReadChannel(channel, at) => if channel == ch then [Debounce.Sample(at)] else []
    case ReadAll(clock) => if ch < CHANNEL_COUNT then [Debounce.Sample(clock[ch])] else []
  }

  function ViewAll(t: Terminal, ss: seq<Stimulus>, ch: nat): seq<Debounce.Event>
    requires WellFormed(t)
  {
    if ss == [] then []
    else
      var n := |ss| - 1;
      ViewAll(t, ss[..n], ch) + View(ApplyAll(t, ss[..n]), ss[n], ch)
  }

  lemma RunAppend(x: Debounce.Input, es: seq<Debounce.Event>, fs: seq<Debounce.Event>, delay: nat)
    requires |fs| <= 1
    ensures Debounce.Run(x, es + fs, delay) ==
            if fs == [] then Debounce.Run(x, es, delay)
            else Debounce.Step(Debounce.Run(x, es, delay), fs[0], delay)
  {
    if fs == [] {
      assert es + fs == es;
    } else {
      assert (es + fs)[..|es|] == es;
    }
  }

  lemma SetRawChannel(t: Terminal, c: int, level: bool, now: int, ch: nat)
    requires WellFormed(t) && ch < CHANNEL_COUNT
    ensures var r := SetRaw(t, c, level, now);
            && r.debounceMs == t.debounceMs && r.invert == t.invert && r.button == t.button
            && Channel(r, ch) ==
               if c == ch then Debounce.Step(Channel(t, ch), Debounce.Drive(level, now), t.debounceMs)
               else Channel(t, ch)
  {}

  lemma LatchChannel(t: Terminal, c: int, now: int, ch: nat)
    requires WellFormed(t) && ch < CHANNEL_COUNT && t.debounceMs > 0
    ensures Channel(Latch(t, c, now), ch) ==
            if c == ch then Debounce.Step(Channel(t, ch), Debounce.Sample(now), t.debounceMs)
            else Channel(t, ch)
  {}

  /** One stimulus is to a channel exactly the filter event its view says, if any. */
  lemma ApplyIsFilterStep(t: Terminal, s: Stimulus, ch: nat)
    requires WellFormed(t) && ch < CHANNEL_COUNT && t.debounceMs > 0
    ensures var r := Apply(t, s);
            && r.debounceMs == t.debounceMs && r.invert == t.invert
            && Channel(r, ch) ==
               if View(t, s, ch) == [] then Channel(t, ch)
               else Debounce.Step(Channel(t, ch), View(t, s, ch)[0], t.debounceMs)
  {
    match s
    case Input(channel, level, at) => SetRawChannel(t, channel, level, at, ch);
    case Button(level, at) => SetRawChannel(t.(button := level), 0, level, at, ch);
    case Power(level, at1, at0) =>
      var u := t.(power := level);
      SetRawChannel(u, 1, level, at1, ch);
      SetRawChannel(SetRaw(u, 1, level, at1), 0, t.button, at0, ch);
    case ReadChannel(channel, at) => LatchChannel(t, channel, at, ch);
    case ReadAll(clock) =>
      LatchFirstPerChannel(t, clock, CHANNEL_COUNT, ch);
      LatchChannel(t, ch, clock[ch], ch);
  }

  /** The eight channels of a terminal are eight independent filters. */
  lemma {:induction false} ChannelsAreIndependentFilters(t: Terminal, ss: seq<Stimulus>, ch: nat)
    requires WellFormed(t) && ch < CHANNEL_COUNT && t.debounceMs > 0
    ensures var r := ApplyAll(t, ss);
            && r.debounceMs == t.debounceMs && r.invert == t.invert
            && Channel(r, ch) == Debounce.Run(Channel(t, ch), ViewAll(t, ss, ch), t.debounceMs)
    decreases |ss|
  {
    if ss != [] {
      var n := |ss| - 1;
      ChannelsAreIndependentFilters(t, ss[..n], ch);
      var u := ApplyAll(t, ss[..n]);
      ApplyIsFilterStep(u, ss[n], ch);
      RunAppend(Channel(t, ch), ViewAll(t, ss[..n], ch), View(u, ss[n], ch), t.debounceMs);
    }
  }

  /** A pulse away from and back to the level shown, shorter than the debounce time, is invisible
      on the whole terminal: after any timed run in which the channel sees only such pulses, reading
      the channel, or the aggregate that SDO uploads and the process image take, gives its old level. */
  lemma TerminalHidesGlitches(t: Terminal, ss: seq<Stimulus>, ch: nat, at: int, clock: Clock)
    requires WellFormed(t) && ch < CHANNEL_COUNT && t.debounceMs > 0
    requires t.raw[ch] == t.shown[ch]
    requires clock[ch] == at
    requires var es := ViewAll(t, ss, ch) + [Debounce.Sample(at)];
             Debounce.Ordered(Channel(t, ch), es) && Debounce.OnlyShortExcursions(es, t.shown[ch], t.debounceMs)
    ensures var r := ApplyAll(t, ss);
            && Level(Latch(r, ch, at), ch) == Level(t, ch)
            && Bit(Aggregate(LatchAll(r, clock)), ch) == Level(t, ch)
  {
    var es := ViewAll(t, ss, ch);
    var fs := es + [Debounce.Sample(at)];
    ChannelsAreIndependentFilters(t, ss, ch);
    Debounce.ShortPulsesAreNeverSeen(Channel(t, ch), fs, t.debounceMs, |fs|);
    assert fs[..|fs|] == fs;
    RunAppend(Channel(t, ch), es, [Debounce.Sample(at)], t.debounceMs);
    AggregateBit(ApplyAll(t, ss), clock, ch);
  }

  /** Reading a channel whose raw level differs from the one it shows adopts the raw level if and only if that
      level has been held for the whole debounce time, through the run and since before it. */
  lemma TerminalShowsExactlyHeldLevels(t: Terminal, ss: seq<Stimulus>, ch: nat, at: int)
    requires WellFormed(t) && ch < CHANNEL_COUNT && t.debounceMs > 0
    requires var es := ViewAll(t, ss, ch) + [Debounce.Sample(at)]; Debounce.Ordered(Channel(t, ch), es)
    ensures var r := ApplyAll(t, ss);
            var es := ViewAll(t, ss, ch) + [Debounce.Sample(at)];
            var before, after := Level(r, ch), Level(Latch(r, ch, at), ch);
            if r.shown[ch] == r.raw[ch] then after == before
            else
              && (after != before <==>
                    at - t.since[ch] >= t.debounceMs * 1_000_000 && Debounce.Held(Channel(t, ch), es, |es| - 1, t.debounceMs))
              && (after != before ==> after == (r.raw[ch] != Bit(t.invert, ch)))
  {
    var es := ViewAll(t, ss, ch);
    var fs := es + [Debounce.Sample(at)];
    ChannelsAreIndependentFilters(t, ss, ch);
    Debounce.SampleAdoptsExactlyHeldLevels(Channel(t, ch), fs, |es|, t.debounceMs);
    assert fs[..|es|] == es && fs[..|es| + 1] == fs;
    RunAppend(Channel(t, ch), es, [Debounce.Sample(at)], t.debounceMs);
  }
}
