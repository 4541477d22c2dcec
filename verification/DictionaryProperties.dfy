/** The two EL1258 object dictionaries as a master finds them: what each object answers, in numbers, and what a
    download changes of it. */
module DictionaryProperties {
  import opened Bytes
  import Debounce
  import E = El1258Model
  import S = SubsModel

  // ---- the terminal's channels

  /** Channel `ch` read at `now`: the raw level, or under debounce the one shown until the raw level has lasted the
      debounce time, inverted if its mask digit is set. */
  predicate ReadsHigh(t: E.Terminal, ch: nat, now: int)
    requires E.WellFormed(t) && ch < 8
  {
    var lasted := now - t.since[ch] >= 1_000_000 * t.debounceMs as int;
    var level := if t.debounceMs == 0 || lasted then t.raw[ch] else t.shown[ch];
    level != (t.invert as nat / WEIGHTS[ch] % 2 == 1)
  }

  lemma LevelReads(t: E.Terminal, ch: nat, now: int)
    requires E.WellFormed(t) && ch < 8
    ensures E.Level(E.Latch(t, ch, now), ch) <==> ReadsHigh(t, ch, now)
  {
    BitIsDigit(t.invert, ch);
    if t.debounceMs > 0 { Debounce.Lasted(now, t.since[ch], t.debounceMs); }
  }

  /** Object 0x6000 subindex k answers 1 exactly when channel k - 1 reads high, and 0 otherwise; the upload is to the
      channels a read of that channel. */
  lemma UploadOfChannel(t: E.Terminal, sub: uint8, clock: E.Clock)
    requires E.WellFormed(t) && 1 <= sub <= 8
    ensures E.Upload(t, 0x6000, sub, clock) ==
            (E.Apply(t, E.ReadChannel(sub - 1, clock[sub - 1])),
             Some(if ReadsHigh(t, sub - 1, clock[sub - 1]) then 1 else 0))
  {
    LevelReads(t, sub - 1, clock[sub - 1]);
  }

  /** Object 0x6002 answers the number whose binary digit k is that of channel k, and no other; the upload is to the
      channels a read of them all. */
  lemma UploadOfAggregate(t: E.Terminal, clock: E.Clock)
    requires E.WellFormed(t)
    ensures var (r, v) := E.Upload(t, 0x6002, 0, clock);
            && r == E.Apply(t, E.ReadAll(clock)) && v.Some? && v.value < 0x100
            && forall ch :: 0 <= ch < 8 ==> (v.value / WEIGHTS[ch] % 2 == 1 <==> ReadsHigh(t, ch, clock[ch]))
  {
    hide E.Aggregate, E.LatchAll, E.Latch, E.Level, ReadsHigh;
    var v := E.Aggregate(E.LatchAll(t, clock));
    E.AggregateBit(t, clock, 0);
    forall ch | 0 <= ch < 8 ensures v / WEIGHTS[ch] % 2 == 1 <==> ReadsHigh(t, ch, clock[ch]) {
      E.AggregateBit(t, clock, ch);
      BitIsDigit(v, ch);
      LevelReads(t, ch, clock[ch]);
    }
  }

  /** The identification objects answer the first four characters of their strings, low byte first. */
  lemma UploadOfIdentification(t: E.Terminal, clock: E.Clock)
    requires E.WellFormed(t)
    ensures E.Upload(t, 0x1000, 0, clock) == (t, Some(0))
    ensures E.Upload(t, 0x1008, 0, clock) == (t, Some(0x3231_4C45))
    ensures E.Upload(t, 0x1009, 0, clock) == (t, Some(0x3031_5748))
    ensures E.Upload(t, 0x100A, 0, clock) == (t, Some(0x3031_5753))
  {
    PackedAre();
  }

  lemma PackedAre()
    ensures E.Pack4("EL1258") == 0x3231_4C45 && E.Pack4("HW10") == 0x3031_5748 && E.Pack4("SW10") == 0x3031_5753
  {
    assert 'E' as int == 0x45 && 'L' as int == 0x4C && 'H' as int == 0x48 && 'W' as int == 0x57 && 'S' as int == 0x53;
    assert '0' as int == 0x30 && '1' as int == 0x31 && '2' as int == 0x32;
  }

  /** The objects the terminal lets a master configure. */
  predicate Configurable(index: uint16, sub: uint8) {
    || (index == 0x8000 && sub == 0) || (index == 0x8001 && sub == 0)
    || (index == 0x1A00 && sub <= 8) || (index == 0x1C13 && sub <= 4)
  }

  predicate Readable(index: uint16, sub: uint8) {
    || Configurable(index, sub)
    || (index in {0x1000, 0x1008, 0x1009, 0x100A, 0x6002} && sub == 0)
    || (index == 0x6000 && 1 <= sub <= 8)
  }

  /** Every other object does not answer, and no other is changed by a download. */
  lemma NothingElse(t: E.Terminal, flag: bool, index: uint16, sub: uint8, v: uint32, clock: E.Clock)
    requires E.WellFormed(t)
    ensures !Readable(index, sub) ==> E.Upload(t, index, sub, clock) == (t, None)
    ensures Readable(index, sub) ==> E.Upload(t, index, sub, clock).1.Some?
    ensures !Configurable(index, sub) ==> E.Configure(t, flag, E.SdoDownload(index, sub, v)) == (t, flag)
  {}

  /** What a configurable object keeps of a downloaded value. */
  function Kept(index: uint16, sub: uint8, v: uint32): nat {
    if index == 0x8000 then v % 0x100
    else if index == 0x8001 then v % 0x1_0000
    else if index == 0x1A00 then
      if sub > 0 then v else if v % 0x100 > 8 then 8 else v % 0x100
    else
      if sub > 0 then v % 0x1_0000 else if v % 0x100 > 4 then 4 else v % 0x100
  }

  /** Download then upload on any two configurable objects: the one written answers what it keeps, a list written
      shorter answers 0 past its end, and every other answers as before; the channels are not touched. */
  lemma ConfiguredAnswers(t: E.Terminal, flag: bool, index: uint16, sub: uint8, v: uint32, index2: uint16, sub2: uint8, clock: E.Clock)
    requires E.WellFormed(t) && Configurable(index, sub) && Configurable(index2, sub2)
    ensures var (r, f) := E.Configure(t, flag, E.SdoDownload(index, sub, v));
            && E.Upload(t, index2, sub2, clock).1.Some? && E.Upload(r, index2, sub2, clock).1.Some?
            && E.Upload(r, index2, sub2, clock).1.value as int ==
               (if (index2, sub2) == (index, sub) then Kept(index, sub, v)
                else if index2 == index && sub == 0 && sub2 as int > Kept(index, sub, v) then 0
                else E.Upload(t, index2, sub2, clock).1.value)
            && r.raw == t.raw && r.shown == t.shown && r.since == t.since && r.power == t.power && r.button == t.button
  {
    E.DownloadThenUpload(t, index, sub, v, index2, sub2, clock);
  }

  /** The default mapping in the dictionary: one entry, the eight bits of 0x6002:0, in 0x1A00, which is assigned. */
  lemma DefaultMappingAnswers(t: E.Terminal, flag: bool, clock: E.Clock)
    requires E.WellFormed(t)
    ensures var (r, f) := E.Configure(t, flag, E.DefaultMapping);
            && f && E.Mapped(r)
            && E.Upload(r, 0x1A00, 0, clock).1 == Some(1) && E.Upload(r, 0x1A00, 1, clock).1 == Some(0x6002_0008)
            && E.Upload(r, 0x1C13, 0, clock).1 == Some(1) && E.Upload(r, 0x1C13, 1, clock).1 == Some(0x1A00)
            && r.raw == t.raw && r.shown == t.shown && r.since == t.since
            && r.invert == t.invert && r.debounceMs == t.debounceMs && r.power == t.power && r.button == t.button
            && forall sub: uint8 :: 2 <= sub <= 8 ==>
                 E.Upload(r, 0x1A00, sub, clock).1 == E.Upload(t, 0x1A00, sub, clock).1
  {
    var r := E.ApplyDefaultMapping(t);
    assert r.assignEntries[0] == E.PDO_MAPPING_BASE;
  }

  /** The mapping flag after a download, by what the dictionary then answers. */
  lemma FlagByAnswers(t: E.Terminal, flag: bool, index: uint16, sub: uint8, v: uint32, clock: E.Clock)
    requires E.WellFormed(t) && Configurable(index, sub)
    ensures var (r, f) := E.Configure(t, flag, E.SdoDownload(index, sub, v));
            f <==> E.Upload(r, 0x1A00, 0, clock).1.value > 0 &&
                   exists k: uint8 :: 1 <= k <= 4 && k <= E.Upload(r, 0x1C13, 0, clock).1.value
                                      && E.Upload(r, 0x1C13, k, clock).1 == Some(0x1A00)
  {
    var r := E.Configure(t, flag, E.SdoDownload(index, sub, v)).0;
    assert forall k: uint8 :: 1 <= k <= 4 ==> E.Upload(r, 0x1C13, k, clock).1 == Some(r.assignEntries[k - 1]);
    if E.Assigned(r) {
      var k :| 0 <= k < r.assignCount && r.assignEntries[k] == 0x1A00;
      assert E.Upload(r, 0x1C13, k + 1, clock).1 == Some(0x1A00);
    }
  }

  /** A new terminal has nothing configured, and all its channels read low. */
  lemma NewTerminalAnswers(at: E.Clock, clock: E.Clock, index: uint16, sub: uint8)
    requires Configurable(index, sub) || (index == 0x6000 && 1 <= sub <= 8) || (index == 0x6002 && sub == 0)
    ensures E.Upload(E.Fresh(at), index, sub, clock).1 == Some(0)
  {
    var t := E.Fresh(at);
    if index == 0x6000 {
      UploadOfChannel(t, sub, clock);
    } else if index == 0x6002 {
      UploadOfAggregate(t, clock);
      NoDigits(E.Upload(t, 0x6002, 0, clock).1.value);
    }
  }

  lemma NoDigits(v: nat)
    requires v < 0x100 && forall ch :: 0 <= ch < 8 ==> v / WEIGHTS[ch] % 2 != 1
    ensures v == 0
  {
    assert WEIGHTS[0] == 1 && WEIGHTS[1] == 2 && WEIGHTS[2] == 4 && WEIGHTS[3] == 8;
    assert WEIGHTS[4] == 16 && WEIGHTS[5] == 32 && WEIGHTS[6] == 64 && WEIGHTS[7] == 128;
    assert v / 128 == 0 && v / 64 == 0 && v / 32 == 0 && v / 16 == 0;
    assert v / 8 == 0 && v / 4 == 0 && v / 2 == 0;
  }

  /** Pulses shorter than the debounce time are invisible to SDO uploads: after any timed run in which a settled channel
      sees only such pulses, 0x6000 and the channel's digit of 0x6002 answer as they did before it. */
  lemma UploadsHideGlitches(t: E.Terminal, ss: seq<E.Stimulus>, ch: nat, clock: E.Clock, clock0: E.Clock)
    requires E.WellFormed(t) && ch < 8 && t.debounceMs > 0 && t.raw[ch] == t.shown[ch]
    requires var es := E.ViewAll(t, ss, ch) + [Debounce.Sample(clock[ch])];
             Debounce.Ordered(E.Channel(t, ch), es) && Debounce.OnlyShortExcursions(es, t.shown[ch], t.debounceMs)
    ensures var r := E.ApplyAll(t, ss);
            && E.Upload(r, 0x6000, ch + 1, clock).1 == E.Upload(t, 0x6000, ch + 1, clock0).1
            && E.Upload(r, 0x6002, 0, clock).1.Some?
            && (E.Upload(r, 0x6002, 0, clock).1.value / WEIGHTS[ch] % 2 == 1 <==> ReadsHigh(t, ch, clock0[ch]))
  {
    hide E.Upload, E.ApplyAll, Debounce.Ordered, Debounce.OnlyShortExcursions, E.Aggregate, E.LatchAll;
    var r := E.ApplyAll(t, ss);
    E.TerminalHidesGlitches(t, ss, ch, clock[ch], clock);
    LevelReads(r, ch, clock[ch]);
    LevelReads(t, ch, clock0[ch]);
    UploadOfChannel(r, ch + 1, clock);
    UploadOfChannel(t, ch + 1, clock0);
    UploadOfAggregate(r, clock);
  }

  // ---- power and button

  /** The last level the button was pressed to, and the last power was set to, by either control. */
  function LastPressed(button: bool, ss: seq<E.Stimulus>): bool {
    if ss == [] then button
    else if ss[|ss| - 1].Button? then ss[|ss| - 1].level
    else LastPressed(button, ss[..|ss| - 1])
  }

  function LastPowered(power: bool, ss: seq<E.Stimulus>): bool {
    if ss == [] then power
    else if ss[|ss| - 1].Power? || (ss[|ss| - 1].Input? && ss[|ss| - 1].channel == 1) then ss[|ss| - 1].level
    else LastPowered(power, ss[..|ss| - 1])
  }

  /** Over every run the two fields hold the last levels commanded; so a power change re-drives channel 0 with the level
      last pressed. */
  lemma {:induction false} FieldsHoldLastCommands(t: E.Terminal, ss: seq<E.Stimulus>)
    requires E.WellFormed(t)
    ensures var r := E.ApplyAll(t, ss);
            r.button == LastPressed(t.button, ss) && r.power == LastPowered(t.power, ss)
    decreases |ss|
  {
    hide E.Apply;
    if ss != [] {
      var n := |ss| - 1;
      FieldsHoldLastCommands(t, ss[..n]);
      FieldsAfterOne(E.ApplyAll(t, ss[..n]), ss[n]);
    }
  }

  lemma FieldsAfterOne(t: E.Terminal, x: E.Stimulus)
    requires E.WellFormed(t)
    ensures E.Apply(t, x).button == if x.Button? then x.level else t.button
    ensures E.Apply(t, x).power == if x.Power? || (x.Input? && x.channel == 1) then x.level else t.power
  {
    if x.ReadAll? { E.LatchFirstTouchesShown(t, x.clock, 8); }
  }

  /** After a power change channel 1 is driven to the power level and channel 0 to the level last pressed; after a button
      press channel 0 is driven to it. */
  lemma DrivenByCommands(t: E.Terminal, ss: seq<E.Stimulus>, level: bool, at1: int, at0: int)
    requires E.WellFormed(t)
    ensures var r := E.ApplyAll(t, ss + [E.Power(level, at1, at0)]);
            r.raw[1] == level && r.raw[0] == LastPressed(t.button, ss)
    ensures E.ApplyAll(t, ss + [E.Button(level, at0)]).raw[0] == level
  {
    hide E.Apply, E.ApplyAll;
    FieldsHoldLastCommands(t, ss);
    E.ApplyAllSnoc(t, ss, E.Power(level, at1, at0));
    E.ApplyAllSnoc(t, ss, E.Button(level, at0));
    DrivenByOne(E.ApplyAll(t, ss), level, at1, at0);
  }

  lemma DrivenByOne(t: E.Terminal, level: bool, at1: int, at0: int)
    requires E.WellFormed(t)
    ensures var r := E.Apply(t, E.Power(level, at1, at0)); r.raw[1] == level && r.raw[0] == t.button
    ensures E.Apply(t, E.Button(level, at0)).raw[0] == level
  {}

  // ---- the slaves application's variant

  /** Every object of that variant, by index and subindex. Channels answer their filtered level as it is; the mask
      inverts the aggregate only. */
  lemma SubsAnswers(s: S.Subs, sub: uint8)
    requires S.WellFormed(s)
    ensures S.Upload(s, 0x6000, sub) == S.Upload(s, 0x6001, sub) ==
            if sub == 0 then Some(8) else if sub <= 8 then Some(if s.channels[sub - 1] then 1 else 0) else None
    ensures S.Upload(s, 0x8000, sub) == Some(s.invert) && S.Upload(s, 0x8001, sub) == Some(s.debounceMs)
    ensures S.Upload(s, 0x1018, sub) ==
            if sub == 0 then Some(4) else if sub == 1 then Some(2) else if sub == 2 then Some(0x04EA_3052)
            else if sub == 3 then Some(0x0011_0000) else if sub == 4 then Some(0) else None
    ensures S.Upload(s, 0x1000, sub) == S.Upload(s, 0x1008, sub) == Some(0)
    ensures S.Upload(s, 0x1009, sub) == S.Upload(s, 0x100A, sub) == Some(1)
    ensures S.Upload(s, 0x8002, sub) == S.Upload(s, 0x8003, sub) == Some(0)
    ensures S.Upload(s, 0x8004, sub) == if sub == 0 then Some(0) else None
  {}

  lemma SubsAnswersNothingElse(s: S.Subs, index: uint16, sub: uint8)
    requires S.WellFormed(s)
    requires index !in {0x1000, 0x1008, 0x1009, 0x100A, 0x1018, 0x6000, 0x6001, 0x6002, 0x8000, 0x8001, 0x8002, 0x8003, 0x8004}
    ensures S.Upload(s, index, sub) == None
  {}

  /** Object 0x6002 answers the number whose binary digit k is channel k's filtered level, inverted by its mask digit. */
  lemma SubsAggregateAnswers(s: S.Subs, sub: uint8)
    requires S.WellFormed(s)
    ensures var v := S.Upload(s, 0x6002, sub);
            && v.Some? && v.value < 0x100
            && forall ch :: 0 <= ch < 8 ==>
                 (v.value / WEIGHTS[ch] % 2 == 1 <==> s.channels[ch] != (s.invert as nat / WEIGHTS[ch] % 2 == 1))
  {
    var v := S.Aggregate(s);
    assert v < 0x100;
    hide S.Aggregate;
    forall ch | 0 <= ch < 8
      ensures v / WEIGHTS[ch] % 2 == 1 <==> s.channels[ch] != (s.invert as nat / WEIGHTS[ch] % 2 == 1)
    {
      S.AggregateBit(s, ch);
      BitIsDigit(v, ch);
      BitIsDigit(s.invert, ch);
    }
  }

  /** Download then upload on that variant: the mask and the debounce time answer what was written (the mask its low
      byte), the aggregate follows the mask, and everything else answers as before. */
  lemma SubsConfiguredAnswers(s: S.Subs, index: uint16, sub: uint8, v: uint32, index2: uint16, sub2: uint8)
    requires S.WellFormed(s) && (index2 != 0x6002 || index != 0x8000)
    ensures var r := S.Download(s, index, sub, v).0;
            && r.channels == s.channels && r.filters == s.filters
            && S.Upload(r, index2, sub2) ==
               if index == index2 == 0x8000 then Some(v % 0x100)
               else if index == index2 == 0x8001 then Some(v)
               else S.Upload(s, index2, sub2)
  {}

  /** The eight mapping objects 0x1A00 + 4 (channel - 1): subindex 0 sets the one count they share, subindices 1 to 8 the
      channel's mapping; 0x1C13 subindex 0 sets the assignment count, and subindex 1 whether 0x1A00 is assigned and with
      it the flag. Anything else changes neither mapping nor flag. */
  lemma SubsMappingDownloads(s: S.Subs, channel: nat, index: uint16, sub: uint8, v: uint32)
    requires S.WellFormed(s)
    ensures 1 <= channel <= 8 && index as int == 0x1A00 + 4 * (channel - 1) ==>
              S.Download(s, index, sub, v) ==
              (if sub == 0 then s.(mapCount := v % 0x100)
               else if sub <= 8 then s.(mappings := s.mappings[channel - 1 := v]) else s, None)
    ensures index == 0x1C13 ==>
              S.Download(s, index, sub, v) ==
              if sub == 0 then (s.(assignCount := v % 0x100), None)
              else if sub == 1 then
                (s.(isAssigned := v % 0x1_0000 == 0x1A00), Some(v % 0x1_0000 == 0x1A00 && s.mapCount > 0))
              else (s, None)
    ensures index !in {0x1A00, 0x1A04, 0x1A08, 0x1A0C, 0x1A10, 0x1A14, 0x1A18, 0x1A1C, 0x1C13, 0x8000, 0x8001} ==>
              S.Download(s, index, sub, v) == (s, None)
  {}

  /** A new slave of that variant: all channels low, all eight of them mapped by one-bit entries, and assigned. */
  lemma NewSubsAnswers(sub: uint8)
    ensures var s := S.Fresh();
            && s.mapCount == 8 && s.assignCount == 1 && S.Mapped(s)
            && (1 <= sub <= 8 ==> s.mappings[sub - 1] as int == 0x6000_0000 + 0x100 * sub as int + 1)
            && (1 <= sub <= 8 ==> S.Upload(s, 0x6000, sub) == Some(0))
            && S.Upload(s, 0x6002, 0) == Some(0)
  {
    var s := S.Fresh();
    SubsAggregateAnswers(s, 0);
    forall ch | 0 <= ch < 8 ensures S.Upload(s, 0x6002, 0).value / WEIGHTS[ch] % 2 != 1 {
      assert !s.channels[ch] && s.invert as nat / WEIGHTS[ch] == 0;
    }
    hide S.Upload;
    NoDigits(S.Upload(s, 0x6002, 0).value);
    SubsAnswers(s, sub);
  }
}
