/** What a master sees of the AL machine and of the link in a slave's registers, in numbers. */
module StatusRegisters {
  import opened Bytes
  import opened AlMachine
  import opened SlaveModel
  import opened SlaveProperties
  import opened SlaveRuns
  import E = El1258Model

  /** A 16-bit register, low byte first. */
  function Word(s: Slave, a: nat): nat
    requires WellFormed(s) && a + 1 < 4096
  {
    s.regs[a] as int + 0x100 * s.regs[a + 1] as int
  }

  /** The number of a state on the wire. */
  function Number(state: AlState): nat
    requires Ranked(state)
  {
    match state
    case Init => 1
    case PreOp => 2
    case SafeOp => 4
    case Operational => 8
  }

  /** While the registers show the fields: AL_STATUS is the number of the state, with 0x10 added exactly while an error
      waits for its acknowledgement, AL_STATUS_CODE is the code, and DL_STATUS 0x0211 online and 0 offline. */
  lemma StatusInNumbers(s: Slave)
    requires Mirrors(s) && Ranked(s.al.state)
    ensures Word(s, 0x130) == Number(s.al.state) + (if s.al.ack then 0x10 else 0)
    ensures Word(s, 0x134) == s.al.code
    ensures Word(s, 0x110) == if s.online then 0x0211 else 0
  {
    assert DL_STATUS == 0x110 && AL_STATUS == 0x130 && AL_STATUS_CODE == 0x134;
    assert s.al.code == 0x100 * (s.al.code / 0x100) + s.al.code % 0x100;
  }

  /** The highest power of two in a number. */
  function HighestBit(n: nat): nat { if n < 2 then n else 2 * HighestBit(n / 2) }

  lemma HighestBits()
    ensures HighestBit(0) == 0 && HighestBit(1) == 1 && HighestBit(2) == 2 && HighestBit(3) == 2
    ensures forall n :: 4 <= n < 8 ==> HighestBit(n) == 4
    ensures forall n :: 8 <= n < 16 ==> HighestBit(n) == 8
  {
    forall n | 4 <= n < 8 ensures HighestBit(n) == 4 { assert HighestBit(n) == 2 * HighestBit(n / 2) && 2 <= n / 2 < 4; }
    forall n | 8 <= n < 16 ensures HighestBit(n) == 8 { assert HighestBit(n) == 2 * HighestBit(n / 2) && 4 <= n / 2 < 8; }
  }

  /** The state asked for by the low four bits of a control byte, as a number; 0 and 3 (BOOT) ask for none of the four. */
  function Wanted(c: uint8): nat { if c % 0x10 == 3 then 0 else HighestBit(c % 0x10) }

  lemma WantedIsDecoded(c: uint8)
    ensures AckBit(c % 0x20) <==> c / 0x10 % 2 == 1
    ensures Decode(c % 0x20) == Invalid <==> c % 0x10 == 0
    ensures Decode(c % 0x20) == Boot <==> c % 0x10 == 3
    ensures c % 0x10 == 0 || c % 0x10 == 3 <==> Wanted(c) == 0
    ensures c % 0x10 != 0 && c % 0x10 != 3 ==> Ranked(Decode(c % 0x20)) && Wanted(c) == Number(Decode(c % 0x20))
  {
    HighestBits();
    LowFive(c);
  }

  /** A request for the state of number `want`, made in that of number `now`, is granted. */
  predicate Granted(now: nat, want: nat, mapped: bool) { (want >= 4 ==> mapped) && !(now == 8 && want == 2) }

  function Larger(a: nat, b: nat): nat { if a >= b then a else b }

  /** AL_STATUS and AL_STATUS_CODE after a control byte, from what they showed before: the whole of AL control as a
      master can observe it. `now` is the number of the state before the write. */
  function Shown(now: nat, status: nat, code: nat, mapped: bool, c: uint8): (nat, nat) {
    var ack := c / 0x10 % 2 == 1;
    var want := Wanted(c);
    if ack && want <= now then (now, 0)                      // a pure acknowledgement, even of a lower request
    else if c % 0x10 == 3 then (now + 0x10, 0x43)            // BOOT is not supported
    else if want == 0 || want == now then (status, code)     // nothing asked for
    else if Granted(now, want, mapped) then (want, 0)
    else ((if want > now then Larger(now, 2) else now) + 0x10, 0x11)
  }

  /** Every AL_CONTROL write from every state, in register numbers. */
  lemma ControlInNumbers(s: Slave, data: seq<uint8>, clock: E.Clock)
    requires Mirrors(s) && Ranked(s.al.state) && |data| >= 1 && 0x120 + |data| <= 4096
    ensures var (r, ok) := Write(s, 0x120, data, clock);
            && ok && Mirrors(r) && Ranked(r.al.state) && r.regs[0x131] == 0
            && (Word(r, 0x130), Word(r, 0x134)) ==
               Shown(Number(s.al.state), Word(s, 0x130), Word(s, 0x134), s.mapped, data[0])
  {
    var c := data[0];
    AlControlWriteMirrors(s, data, clock);
    var r := Write(s, 0x120, data, clock).0;
    hide Write, Mirrors;
    StatusInNumbers(s);
    ControlOfMachine(s.al, s.mapped, c);
    StatusInNumbers(r);
  }

  lemma ControlOfMachine(a: Al, mapped: bool, c: uint8)
    requires Ranked(a.state)
    ensures var b := AlWrite(a, mapped, c % 0x20);
            var status := Number(a.state) + if a.ack then 0x10 else 0;
            && Ranked(b.state)
            && (Number(b.state) + (if b.ack then 0x10 else 0), b.code as int) ==
               Shown(Number(a.state), status, a.code, mapped, c)
  {
    WantedIsDecoded(c);
    hide Decode, AckBit, Wanted;
  }

  /** An accepted plain request shows its own number: for each of the four states asked for by c from another one. */
  lemma AcceptedRequestShowsItself(s: Slave, c: uint8, clock: E.Clock)
    requires Mirrors(s) && Ranked(s.al.state) && c in {1, 2, 4, 8} && Number(s.al.state) != c as int
    ensures var r := Write(s, 0x120, [c, 0], clock).0;
            WellFormed(r) &&
            if (c >= 4 ==> s.mapped) && !(s.al.state == Operational && c == 2)
            then r.regs[0x130] as int == c as int && Word(r, 0x134) == 0
            else r.regs[0x130] as int >= 0x10 && Word(r, 0x134) == 0x11
  {
    HighestBits();
    assert Wanted(c) == c as int && c % 0x10 == c && c / 0x10 % 2 == 0;
    assert WellFormed(s);
    hide Write, Mirrors, WellFormed, Wanted, HighestBit;
    ControlInNumbers(s, [c, 0], clock);
    assert WellFormed(Write(s, 0x120, [c, 0], clock).0);
  }

  /** An acknowledgement that asks for no progress clears the latch and stays: the status is the state's number again, the
      code 0. */
  lemma AcknowledgementClears(s: Slave, c: uint8, clock: E.Clock)
    requires Mirrors(s) && Ranked(s.al.state) && c / 0x10 % 2 == 1 && Wanted(c) <= Number(s.al.state)
    ensures var r := Write(s, 0x120, [c, 0], clock).0;
            && WellFormed(r) && Word(r, 0x130) == Number(s.al.state) && Word(r, 0x134) == 0
            && r.al == Al(s.al.state, 0, false)
  {
    ControlInNumbers(s, [c, 0], clock);
    AlControlWriteMirrors(s, [c, 0], clock);
    WantedIsDecoded(c);
    hide Write, Decode, AckBit, Wanted;
    var d := Decode(c % 0x20);
    assert Rank(d) <= Rank(s.al.state);
  }

  /** The operations that change what is shown, other than control writes. */
  lemma LinkAndForcedState(s: Slave, on: bool, state: AlState)
    requires WellFormed(s) && Ranked(s.al.state) && Ranked(state)
    ensures var r := SetOnline(s, on);
            Word(r, 0x110) == (if on then 0x0211 else 0) && Word(r, 0x130) % 0x10 == Number(s.al.state) && r.al == s.al
    ensures var r := SetAlState(s, state);
            Word(r, 0x130) % 0x10 == Number(state) && Word(r, 0x134) == s.al.code && r.al == s.al.(state := state)
  {
    StatusInNumbers(SetOnline(s, on));
    StatusInNumbers(SetAlState(s, state));
  }

  /** The periodic routine of a started slave makes them tell the state whatever they told before, and touches no register
      else; that of one not started does nothing. */
  lemma RoutineRefreshes(s: Slave, a: nat)
    requires WellFormed(s) && Ranked(s.al.state) && a < 4096
    ensures !s.started ==> Routine(s) == s
    ensures s.started ==>
              var r := Routine(s);
              && Word(r, 0x130) == Number(s.al.state) + (if s.al.ack then 0x10 else 0)
              && Word(r, 0x134) == s.al.code && Word(r, 0x110) == (if s.online then 0x0211 else 0)
              && r == s.(regs := r.regs)
              && (a !in {0x110, 0x111, 0x130, 0x131, 0x134, 0x135} ==> r.regs[a] == s.regs[a])
  {
    if s.started { StatusInNumbers(Routine(s)); }
  }

  /** At every moment of every run in which nothing scribbles over them, the three registers tell state, latch, code and
      link in these numbers. */
  lemma StatusThroughEveryRun(ss: seq<Slave>, ops: seq<Op>, k: nat)
    requires Trace(ss, ops) && k < |ss| && Sound(ss[0]) && Mirrors(ss[0])
    requires forall i :: 0 <= i < k ==> WellFormed(ss[i]) && !Scribbles(ss[i], ops[i])
    ensures Sound(ss[k])
    ensures Word(ss[k], 0x130) == Number(ss[k].al.state) + (if ss[k].al.code != 0 then 0x10 else 0)
    ensures Word(ss[k], 0x134) == ss[k].al.code && ss[k].al.code in {0, 0x11, 0x43}
    ensures Word(ss[k], 0x110) == if ss[k].online then 0x0211 else 0
  {
    EveryReachableStateIsSound(ss, ops, k);
    MirrorsLastExactlyUnless(ss, ops, k);
    assert Mirrors(ss[k]);
    StatusInNumbers(ss[k]);
  }

  /** A new slave's registers: INIT, no error, link up, its address, and the windows at 0x1000 and 0x1200, 512 bytes each;
      all else is 0. */
  lemma NewRegisters(address: uint16, vendor: uint32, product: uint32, device: Device, a: nat)
    requires DeviceOk(device) && a < 4096
    ensures var s := Fresh(address, vendor, product, device);
            && Word(s, 0x10) == address && Word(s, 0x110) == 0x0211 && Word(s, 0x130) == 1 && Word(s, 0x134) == 0
            && Word(s, 0x800) == 0x1000 && Word(s, 0x802) == 512 && Word(s, 0x808) == 0x1200 && Word(s, 0x80A) == 512
            && (a !in {0x10, 0x11, 0x110, 0x111, 0x130, 0x801, 0x803, 0x809, 0x80B} ==> s.regs[a] == 0)
            && s.online && !s.started && s.al == Al(Init, 0, false) && s.mapped == device.Subs?
            && s.address == address && s.eepromAddr == 0 && s.device == device
  {
    assert address == 0x100 * (address / 0x100) + address % 0x100;
  }
}
