/** The AL (application layer) state machine of one slave: the pure helpers of
    `VirtualSlave` and the theory of the climbing loop in `handleAlControlWrite_`. */
module AlMachine {
  import opened Bytes

  datatype AlState = Invalid | Init | PreOp | Boot | SafeOp | Operational | Ack

  /** AL status codes the slave can latch. */
  const NO_ERROR: uint16 := 0x0000
  const INVALID_STATE_CHANGE: uint16 := 0x0011
  const BOOT_NOT_SUPPORTED: uint16 := 0x0043

  /** The part of a slave an AL_CONTROL write works on. */
  datatype Al = Al(state: AlState, code: uint16, ack: bool)

  function Code(s: AlState): uint8 {
    match s
    case Invalid => 0x00
    case Init => 0x01
    case PreOp => 0x02
    case Boot => 0x03
    case SafeOp => 0x04
    case Operational => 0x08
    case Ack => 0x10
  }

  function Rank(s: AlState): (r: nat)
    ensures r <= 4
  {
    match s
    case Init => 1
    case PreOp => 2
    case SafeOp => 3
    case Operational => 4
    case _ => 0
  }

  predicate Ranked(s: AlState) { s in {Init, PreOp, SafeOp, Operational} }

  /** The low four bits of AL_CONTROL; patterns that are no state fall to their highest state bit. */
  function Decode(ctrl: uint16): (s: AlState)
    ensures s != Ack
  {
    var bits := ctrl % 0x10;
    if bits == 0 then Invalid
    else if bits == 1 then Init
    else if bits == 2 then PreOp
    else if bits == 3 then Boot
    else if bits == 4 then SafeOp
    else if bits >= 8 then Operational
    else SafeOp  // 5, 6, 7
  }

  predicate AckBit(ctrl: uint16) { ctrl / 0x10 % 2 == 1 }

  function NextUp(s: AlState): AlState {
    match s
    case Init => PreOp
    case PreOp => SafeOp
    case SafeOp => Operational
    case _ => s
  }

  predicate Allowed(from: AlState, to: AlState) {
    match from
    case Init => to in {PreOp, Init}
    case PreOp => to in {Init, PreOp, SafeOp}
    case SafeOp => to in {PreOp, SafeOp, Operational, Init}
    case Operational => to in {SafeOp, Operational, Init}
    case Boot => to == Init
    case _ => false
  }

  predicate PreconditionsMet(target: AlState, mapped: bool) {
    target != Boot && (target in {SafeOp, Operational} ==> mapped)
  }

  /** One pass of the loop aims one rank up, or straight at a lower target. */
  function NextHop(current: AlState, requested: AlState): AlState {
    if Rank(requested) > Rank(current) then NextUp(current) else requested
  }

  predicate HopTaken(current: AlState, requested: AlState, mapped: bool) {
    var next := NextHop(current, requested);
    Allowed(current, next) && PreconditionsMet(next, mapped)
  }

  function Distance(current: AlState, requested: AlState): nat {
    if Rank(requested) >= Rank(current) then Rank(requested) - Rank(current) else Rank(current) - Rank(requested)
  }

  /** The states the loop passes through, the starting one included. It stops at the
      target or where a hop is refused, and every pass shortens the rank distance. */
  function Walk(current: AlState, requested: AlState, mapped: bool): (path: seq<AlState>)
    requires Ranked(requested)
    ensures |path| >= 1 && path[0] == current
    decreases Distance(current, requested)
  {
    if current == requested || !HopTaken(current, requested, mapped) then [current]
    else [current] + Walk(NextHop(current, requested), requested, mapped)
  }

  function Higher(a: AlState, b: AlState): AlState { if Rank(a) >= Rank(b) then a else b }

  /** Where a request ends, without walking. */
  function Settled(current: AlState, requested: AlState, mapped: bool): AlState {
    if !Ranked(current) then current
    else if Rank(requested) > Rank(current) then
      if mapped || requested == PreOp then requested else Higher(current, PreOp)
    else if current == Operational && requested == PreOp then current
    else if current == Operational && requested == SafeOp && !mapped then current
    else requested
  }

  /** The loop ends where the closed form says; every hop it takes is an edge of the
      transition table; SAFE_OP and OPERATIONAL are entered only while mapped; and it
      takes at most as many hops as there are ranks between the two states (none at all
      from a state outside the four, BOOT included, whose edge to INIT is never used). */
  lemma {:induction false} WalkSettles(current: AlState, requested: AlState, mapped: bool)
    requires Ranked(requested)
    ensures var path := Walk(current, requested, mapped);
            && path[|path| - 1] == Settled(current, requested, mapped)
            && (forall i, j :: 0 <= i < |path| && j == i + 1 < |path| ==>
                  Allowed(path[i], path[j]) && (path[j] in {SafeOp, Operational} ==> mapped))
            && |path| - 1 <= Distance(current, requested)
            && (!Ranked(current) ==> path == [current])
    decreases Distance(current, requested)
  {
    if current != requested && HopTaken(current, requested, mapped) {
      WalkSettles(NextHop(current, requested), requested, mapped);
    }
  }

  /** One pass of the loop: a hop taken gets closer without changing where the request ends, and a hop
      refused means the request has ended. */
  lemma HopKeepsSettled(current: AlState, requested: AlState, mapped: bool)
    requires Ranked(requested) && current != requested
    ensures if HopTaken(current, requested, mapped) then
              var next := NextHop(current, requested);
              && Ranked(next) && (next == Init ==> requested == Init)
              && Distance(next, requested) < Distance(current, requested)
              && Settled(next, requested, mapped) == Settled(current, requested, mapped)
            else Settled(current, requested, mapped) == current
  {}

  /** `path` is the way the loop has come so far: the walk goes on from its last state. */
  predicate OnWalk(path: seq<AlState>, start: AlState, requested: AlState, mapped: bool)
    requires Ranked(requested)
  {
    |path| >= 1 && path[..|path| - 1] + Walk(path[|path| - 1], requested, mapped) == Walk(start, requested, mapped)
  }

  /** The way of the loop: it begins at the start, a hop taken lengthens it, and where the request is reached or a hop
      refused it is the whole walk. */
  lemma WalkBegins(start: AlState, requested: AlState, mapped: bool)
    requires Ranked(requested)
    ensures OnWalk([start], start, requested, mapped)
  {
    hide Walk;
    assert [start][..0] + Walk(start, requested, mapped) == Walk(start, requested, mapped);
  }

  lemma WalkHops(path: seq<AlState>, start: AlState, requested: AlState, mapped: bool)
    requires Ranked(requested) && OnWalk(path, start, requested, mapped) && |path| >= 1
    requires path[|path| - 1] != requested && HopTaken(path[|path| - 1], requested, mapped)
    ensures OnWalk(path + [NextHop(path[|path| - 1], requested)], start, requested, mapped)
  {
    hide Walk, HopTaken, NextHop;
    var n := |path| - 1;
    var next := NextHop(path[n], requested);
    WalkGoesOn(path[..n], path[n], requested, mapped);
    assert (path + [next])[..n + 1] == path[..n] + [path[n]];
  }

  lemma WalkEnds(path: seq<AlState>, start: AlState, requested: AlState, mapped: bool)
    requires Ranked(requested) && OnWalk(path, start, requested, mapped) && |path| >= 1
    requires path[|path| - 1] == requested || !HopTaken(path[|path| - 1], requested, mapped)
    ensures path == Walk(start, requested, mapped)
  {
    hide Walk, HopTaken;
    WalkUnfolds(path[|path| - 1], requested, mapped);
    assert path == path[..|path| - 1] + [path[|path| - 1]];
  }

  lemma WalkGoesOn(done: seq<AlState>, current: AlState, requested: AlState, mapped: bool)
    requires Ranked(requested) && current != requested && HopTaken(current, requested, mapped)
    ensures done + Walk(current, requested, mapped) == done + [current] + Walk(NextHop(current, requested), requested, mapped)
  {
    hide Walk, HopTaken, NextHop;
    WalkUnfolds(current, requested, mapped);
  }

  lemma WalkUnfolds(current: AlState, requested: AlState, mapped: bool)
    requires Ranked(requested)
    ensures Walk(current, requested, mapped) ==
            if current == requested || !HopTaken(current, requested, mapped) then [current]
            else [current] + Walk(NextHop(current, requested), requested, mapped)
  {}

  /** A whole AL_CONTROL write. */
  function AlWrite(a: Al, mapped: bool, ctrl: uint16): Al {
    var requested := Decode(ctrl);
    var b := if AckBit(ctrl) then a.(code := NO_ERROR, ack := false) else a;
    if AckBit(ctrl) && Rank(requested) <= Rank(a.state) then b
    else if requested == Invalid then b
    else if requested == Boot then b.(code := BOOT_NOT_SUPPORTED, ack := true)
    else if requested == a.state then b
    else
      var final := Settled(a.state, requested, mapped);
      if final == requested then Al(final, NO_ERROR, false)
      else Al(final, INVALID_STATE_CHANGE, true)
  }

  lemma LowFive(c: uint16)
    ensures c % 0x10 == c % 0x20 % 0x10 && c / 0x10 % 2 == c % 0x20 / 0x10
  {
    assert c == 0x20 * (c / 0x20) + c % 0x20;
    assert c / 0x10 == 2 * (c / 0x20) + c % 0x20 / 0x10;
  }

  lemma SameLowBits(c: uint16, d: uint16)
    requires c % 0x20 == d % 0x20
    ensures Decode(c) == Decode(d) && AckBit(c) == AckBit(d)
  {
    LowFive(c);
    LowFive(d);
  }

  /** Only the low five bits of the control word matter. */
  lemma AlWriteLowBits(a: Al, mapped: bool, c: uint16, d: uint16)
    requires c % 0x20 == d % 0x20
    ensures AlWrite(a, mapped, c) == AlWrite(a, mapped, d)
  {
    SameLowBits(c, d);
  }

  /** The plain requests for INIT, and for SAFE_OP from PRE_OP. */
  lemma InitRequest(a: Al, mapped: bool)
    requires Ranked(a.state) && a.state != Init
    ensures AlWrite(a, mapped, 0x01) == Al(Init, NO_ERROR, false)
  {
    assert Decode(0x01) == Init && !AckBit(0x01);
  }

  lemma AckOperationalRequest(a: Al)
    requires Ranked(a.state)
    ensures AlWrite(a, true, 0x18) == Al(Operational, NO_ERROR, false)
  {
    assert Decode(0x18) == Operational && AckBit(0x18);
  }

  lemma SafeOpRequest(a: Al, mapped: bool)
    requires a.state == PreOp
    ensures AlWrite(a, mapped, 0x04) ==
            if mapped then Al(SafeOp, NO_ERROR, false) else Al(PreOp, INVALID_STATE_CHANGE, true)
  {
    assert Decode(0x04) == SafeOp && !AckBit(0x04);
  }

  /** Error latch: the ACK request flag is up exactly while a code is latched, and the codes are these three. */
  predicate LatchOk(a: Al) {
    a.code in {NO_ERROR, INVALID_STATE_CHANGE, BOOT_NOT_SUPPORTED} && (a.ack <==> a.code != NO_ERROR)
  }

  datatype Command = Control(ctrl: uint16) | SetMapped(mapped: bool)

  /** A run of AL_CONTROL writes interleaved with changes of the mapping flag. */
  function Run(a: Al, mapped: bool, commands: seq<Command>): (Al, bool) {
    if commands == [] then (a, mapped)
    else
      var (b, m) := Run(a, mapped, commands[..|commands| - 1]);
      match commands[|commands| - 1]
      case Control(ctrl) => (AlWrite(b, m, ctrl), m)
      case SetMapped(v) => (b, v)
  }

  lemma RunStep(a: Al, mapped: bool, commands: seq<Command>, k: nat)
    requires k < |commands|
    ensures var (b, m) := Run(a, mapped, commands[..k]);
            Run(a, mapped, commands[..k + 1]) ==
            match commands[k]
            case Control(ctrl) => (AlWrite(b, m, ctrl), m)
            case SetMapped(v) => (b, v)
  {
    assert commands[..k + 1][..k] == commands[..k];
  }

  /** Over every run the latch stays consistent and the machine stays in the four real states. */
  lemma {:induction false} RunKeepsLatch(a: Al, mapped: bool, commands: seq<Command>, k: nat)
    requires LatchOk(a) && Ranked(a.state) && k <= |commands|
    ensures var (b, _) := Run(a, mapped, commands[..k]); LatchOk(b) && Ranked(b.state)
    decreases k
  {
    if k > 0 {
      RunKeepsLatch(a, mapped, commands, k - 1);
      RunStep(a, mapped, commands, k - 1);
    }
  }

  /** At every step of every run, SAFE_OP and OPERATIONAL are entered only while the flag is up,
      and the machine never leaves them for want of it: losing the mapping lowers nothing by itself. */
  lemma RunGated(a: Al, mapped: bool, commands: seq<Command>, k: nat)
    requires LatchOk(a) && Ranked(a.state) && k < |commands|
    ensures var (before, m) := Run(a, mapped, commands[..k]);
            var (after, _) := Run(a, mapped, commands[..k + 1]);
            && (after.state != before.state && after.state in {SafeOp, Operational} ==> m)
            && (commands[k].SetMapped? ==> after == before)
  {
    RunKeepsLatch(a, mapped, commands, k);
    RunStep(a, mapped, commands, k);
  }

  function Max(a: nat, b: nat): nat { if a >= b then a else b }

  function Min(a: nat, b: nat): nat { if a <= b then a else b }

  function HighestRank(ctrls: seq<uint16>): nat {
    if ctrls == [] then 0
    else Max(HighestRank(ctrls[..|ctrls| - 1]), Rank(Decode(ctrls[|ctrls| - 1])))
  }

  function Controls(ctrls: seq<uint16>): seq<Command> { seq(|ctrls|, i requires 0 <= i < |ctrls| => Control(ctrls[i])) }

  lemma AcknowledgeStep(a: Al, mapped: bool, ctrl: uint16)
    requires Ranked(a.state) && AckBit(ctrl)
    ensures var b := AlWrite(a, mapped, ctrl);
            && Ranked(b.state)
            && Rank(b.state) == Max(Rank(a.state), Min(if mapped then 4 else 2, Rank(Decode(ctrl))))
  {}

  /** Writes that all carry the ACK bit never lower the state: with the mapping flag constant the
      final rank is the initial one raised to the highest request, capped at PRE_OP when unmapped. */
  lemma {:induction false} AcknowledgeNeverLowers(a: Al, mapped: bool, ctrls: seq<uint16>)
    requires Ranked(a.state)
    requires forall c :: c in ctrls ==> AckBit(c)
    ensures var (b, m) := Run(a, mapped, Controls(ctrls));
            && m == mapped && Ranked(b.state)
            && Rank(b.state) == Max(Rank(a.state), Min(if mapped then 4 else 2, HighestRank(ctrls)))
    decreases |ctrls|
  {
    hide AlWrite, Rank, Decode, AckBit, Ranked;
    if ctrls != [] {
      var n := |ctrls| - 1;
      var commands := Controls(ctrls);
      AcknowledgeNeverLowers(a, mapped, ctrls[..n]);
      assert commands[..n] == Controls(ctrls[..n]) && commands[..n + 1] == commands;
      RunStep(a, mapped, commands, n);
      var before := Run(a, mapped, commands[..n]).0;
      AcknowledgeStep(before, mapped, ctrls[n]);
      assert Run(a, mapped, commands) == (AlWrite(before, mapped, ctrls[n]), mapped);
    }
  }

  /** A descent to SAFE_OP is gated like a climb, and OPERATIONAL never drops straight to PRE_OP:
      from each real state, a plain request for another one succeeds exactly when this holds. */
  lemma RequestSucceedsExactlyWhen(a: Al, mapped: bool, ctrl: uint16)
    requires Ranked(a.state) && Ranked(Decode(ctrl)) && !AckBit(ctrl) && Decode(ctrl) != a.state
    ensures AlWrite(a, mapped, ctrl).state == Decode(ctrl) <==>
            && (Rank(Decode(ctrl)) >= 3 ==> mapped)
            && !(a.state == Operational && Decode(ctrl) == PreOp)
  {}
}
