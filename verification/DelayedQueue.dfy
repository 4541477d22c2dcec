/** The delayed frame queue under concurrent callers. A send checks the link, samples the clock, stamps
    its frame with the latency and only then takes the lock and appends; a receive checks the link and
    samples the clock before it takes the lock. Any steps of any calls may interleave in between. */
module DelayedQueue {
  import opened Bytes
  import opened Datagrams
  import opened SimulatorModel

  /** How far a call has come. */
  datatype Progress =
    | Sampled(frame: Frame, now: int)
    | Stamped(item: FrameItem, sampledAt: int)
    | Polling(now: int)

  /** A frame handed to a receiver, and when. */
  datatype Delivery = Delivery(item: FrameItem, at: int)

  /** `accepted` and `delivered` are the histories: what the lock let in and out, in that order. */
  datatype State = State(
    linkUp: bool, latencyMs: uint32, clock: int, queue: seq<FrameItem>, calls: map<nat, Progress>,
    accepted: seq<FrameItem>, delivered: seq<Delivery>)

  datatype Action =
    | Tick(elapsed: nat)
    | SetLinkUp(up: bool)
    | SetLatency(ms: uint32)
    | SampleSend(call: nat, frame: Frame)
    | StampSend(call: nat)
    | CommitSend(call: nat)
    | SampleReceive(call: nat)
    | CommitReceive(call: nat)

  /** A step out of turn, or while the link is down where the link is checked, does nothing. */
  function Step(s: State, a: Action): State {
    match a
    case Tick(elapsed) => s.(clock := s.clock + elapsed)
    case SetLinkUp(up) => s.(linkUp := up)
    case SetLatency(ms) => s.(latencyMs := ms)
    case SampleSend(call, frame) =>
      if s.linkUp && call !in s.calls then s.(calls := s.calls[call := Sampled(frame, s.clock)]) else s
    case StampSend(call) =>
      if call in s.calls && s.calls[call].Sampled? then
        var p := s.calls[call];
        var item := FrameItem(p.frame, p.now + s.latencyMs as int * NS_PER_MS);
        s.(calls := s.calls[call := Stamped(item, p.now)])
      else s
    case CommitSend(call) =>
      if call in s.calls && s.calls[call].Stamped? then
        var item := s.calls[call].item;
        s.(calls := s.calls - {call}, queue := s.queue + [item], accepted := s.accepted + [item])
      else s
    case SampleReceive(call) =>
      if s.linkUp && call !in s.calls then s.(calls := s.calls[call := Polling(s.clock)]) else s
    case CommitReceive(call) =>
      if call in s.calls && s.calls[call].Polling? then
        var t := s.(calls := s.calls - {call});
        if s.queue != [] && s.calls[call].now >= s.queue[0].readyAt then
          t.(queue := s.queue[1..], delivered := s.delivered + [Delivery(s.queue[0], s.clock)])
        else t
      else s
  }

  function Run(s: State, actions: seq<Action>): State {
    if actions == [] then s else Step(Run(s, actions[..|actions| - 1]), actions[|actions| - 1])
  }

  predicate Quiescent(s: State) { s.queue == [] && s.calls == map[] && s.accepted == [] && s.delivered == [] }

  function Items(ds: seq<Delivery>): seq<FrameItem> { seq(|ds|, i requires 0 <= i < |ds| => ds[i].item) }

  predicate Sound(s: State) {
    && Items(s.delivered) + s.queue == s.accepted
    && (forall d :: d in s.delivered ==> d.item.readyAt <= d.at <= s.clock)
    && (forall c :: c in s.calls && s.calls[c].Polling? ==> s.calls[c].now <= s.clock)
    && (forall c :: c in s.calls && s.calls[c].Stamped? ==> s.calls[c].sampledAt <= s.calls[c].item.readyAt)
  }

  lemma StepKeepsSound(s: State, a: Action)
    requires Sound(s)
    ensures Sound(Step(s, a))
  {
    if a.CommitReceive? && Step(s, a).delivered != s.delivered {
      var d := Delivery(s.queue[0], s.clock);
      assert Items(s.delivered + [d]) == Items(s.delivered) + [s.queue[0]];
      assert s.queue == [s.queue[0]] + s.queue[1..];
    } else if a.CommitSend? && Step(s, a).queue != s.queue {
      var item := s.calls[a.call].item;
      assert Items(s.delivered) + (s.queue + [item]) == (Items(s.delivered) + s.queue) + [item];
    }
  }

  /** Over every interleaving of sends, receives, link and latency changes and the passage of time: what was
      delivered followed by what is queued is what was accepted, in order, so no frame is lost, duplicated
      or overtaken; and none is delivered before its ready time. */
  lemma EveryInterleavingIsFifo(s: State, actions: seq<Action>)
    requires Quiescent(s)
    ensures var t := Run(s, actions);
            && Items(t.delivered) + t.queue == t.accepted
            && forall d :: d in t.delivered ==> d.item.readyAt <= d.at <= t.clock
  {
    SoundRun(s, actions);
  }

  lemma {:induction false} SoundRun(s: State, actions: seq<Action>)
    requires Quiescent(s)
    ensures Sound(Run(s, actions))
    decreases |actions|
  {
    if actions != [] {
      SoundRun(s, actions[..|actions| - 1]);
      StepKeepsSound(Run(s, actions[..|actions| - 1]), actions[|actions| - 1]);
    }
  }

  /** A call whose steps nothing interleaves is the simulator's own operation at the clock's reading. */
  lemma UninterruptedCallsAreTheOperations<R>(s: State, v: Sim<R>, call: nat, frame: Frame)
    requires call !in s.calls && WellFormed(v)
    requires v.linkUp == s.linkUp && v.latencyMs == s.latencyMs && v.queue == s.queue
    ensures Step(Step(Step(s, SampleSend(call, frame)), StampSend(call)), CommitSend(call)).queue ==
            SendFrame(v, frame, s.clock).0.queue
    ensures var t := Step(Step(s, SampleReceive(call)), CommitReceive(call));
            var (w, out) := ReceiveFrame(v, s.clock);
            && t.queue == w.queue
            && (out.Some? <==> t.delivered != s.delivered)
            && (out.Some? ==> t.delivered == s.delivered + [Delivery(s.queue[0], s.clock)] && out.value == s.queue[0].frame)
  {
    if s.linkUp && s.queue != [] {
      assert s.delivered + [Delivery(s.queue[0], s.clock)] != s.delivered;
    }
  }
}
