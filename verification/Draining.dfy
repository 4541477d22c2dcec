/** Draining the delayed frame queue: which frames come out by a given time, and which are held up behind
    a frame that is not ready yet. */
module Draining {
  import opened Bytes
  import opened Datagrams
  import opened SimulatorModel
  import opened DelayedQueue

  /** Receiving at one time until nothing comes: how many frames that delivers. */
  function Drained(queue: seq<FrameItem>, now: int): (n: nat)
    ensures n <= |queue|
  {
    if queue != [] && now >= queue[0].readyAt then 1 + Drained(queue[1..], now) else 0
  }

  /** No frame ready by `now` stands behind one that is not. */
  predicate NoneHeldUp(queue: seq<FrameItem>, now: int) {
    forall i, j :: 0 <= i < j < |queue| && queue[j].readyAt <= now ==> queue[i].readyAt <= now
  }

  /** Draining takes a ready prefix and stops at a frame that is not ready. */
  lemma {:induction false} DrainStopsAtFirstUnready(queue: seq<FrameItem>, now: int)
    ensures var n := Drained(queue, now);
            && (forall i :: 0 <= i < n ==> queue[i].readyAt <= now)
            && (n < |queue| ==> queue[n].readyAt > now)
    decreases |queue|
  {
    if queue != [] && now >= queue[0].readyAt {
      DrainStopsAtFirstUnready(queue[1..], now);
      var n := Drained(queue[1..], now);
      forall i | 0 <= i < n + 1 ensures queue[i].readyAt <= now {
        if i > 0 { assert queue[1..][i - 1] == queue[i]; }
      }
    }
  }

  /** Draining at `now` delivers exactly the frames ready by `now`. */
  predicate DrainsExactly(queue: seq<FrameItem>, now: int) {
    forall i :: 0 <= i < |queue| ==> (i < Drained(queue, now) <==> queue[i].readyAt <= now)
  }

  /** It does if and only if none is held up. */
  lemma DrainDeliversExactlyTheReady(queue: seq<FrameItem>, now: int)
    ensures DrainsExactly(queue, now) <==> NoneHeldUp(queue, now)
  {
    DrainStopsAtFirstUnready(queue, now);
  }

  predicate Sorted(queue: seq<FrameItem>) {
    forall i, j :: 0 <= i < j < |queue| ==> queue[i].readyAt <= queue[j].readyAt
  }

  /** At every time, then, if and only if the frames stand in the order of their ready times. */
  lemma DrainsExactlyAlwaysIfSorted(queue: seq<FrameItem>)
    ensures (forall now :: DrainsExactly(queue, now)) <==> Sorted(queue)
  {
    if Sorted(queue) {
      forall now ensures DrainsExactly(queue, now) { DrainDeliversExactlyTheReady(queue, now); }
    } else {
      var i, j :| 0 <= i < j < |queue| && queue[i].readyAt > queue[j].readyAt;
      DrainDeliversExactlyTheReady(queue, queue[j].readyAt);
      assert !NoneHeldUp(queue, queue[j].readyAt);
    }
  }

  /** Receiving at one time until nothing comes. */
  function ReceiveAll<R(==)>(s: Sim<R>, now: int): (Sim<R>, seq<Frame>)
    requires WellFormed(s)
    decreases |s.queue|
  {
    var (u, out) := ReceiveFrame(s, now);
    if out.None? then (u, [])
    else
      var (v, rest) := ReceiveAll(u, now);
      (v, [out.value] + rest)
  }

  /** A frame sent on an idle link at `now` can be received exactly from `now` plus the latency on, a million nanoseconds
      the millisecond; with the link down nothing is sent or received. */
  lemma SentFrameArrivesAfterLatency<R>(s: Sim<R>, frame: Frame, now: int, later: int)
    requires WellFormed(s) && s.queue == []
    ensures s.linkUp ==>
              var (t, sent) := SendFrame(s, frame, now);
              var (u, out) := ReceiveFrame(t, later);
              sent && (if later >= now + 1_000_000 * s.latencyMs as int then u == s && out == Some(frame) else u == t && out == None)
    ensures !s.linkUp ==> SendFrame(s, frame, now) == (s, false)
  {}

  lemma NothingArrivesWhileDown<R>(s: Sim<R>, now: int)
    requires WellFormed(s) && !s.linkUp
    ensures ReceiveFrame(s, now) == (s, None)
  {}

  function Frames(queue: seq<FrameItem>): seq<Frame> { seq(|queue|, i requires 0 <= i < |queue| => queue[i].frame) }

  /** It takes the frames counted above off the front of the queue, and nothing else. */
  lemma {:induction false} ReceiveAllTakesTheDrained<R>(s: Sim<R>, now: int)
    requires WellFormed(s) && s.linkUp
    ensures var n := Drained(s.queue, now);
            ReceiveAll(s, now) == (s.(queue := s.queue[n..]), Frames(s.queue[..n]))
    decreases |s.queue|
  {
    hide WellFormed;
    var n := Drained(s.queue, now);
    if n == 0 {
      assert s.queue[0..] == s.queue;
    } else {
      var u := s.(queue := s.queue[1..]);
      assert ReceiveFrame(s, now) == (u, Some(s.queue[0].frame));
      ReceiveAllTakesTheDrained(u, now);
      assert Frames(s.queue[..n]) == [s.queue[0].frame] + Frames(u.queue[..n - 1]);
    }
  }

  // ---- when nothing is held up

  /** The step commits no send whose ready time, its clock reading plus the latency it was stamped with, is before
      that of the frame queued last. */
  predicate CommitsInOrder(s: State, a: Action) {
    a.CommitSend? && a.call in s.calls && s.calls[a.call].Stamped? && s.queue != [] ==>
      s.queue[|s.queue| - 1].readyAt <= s.calls[a.call].item.readyAt
  }

  lemma StepKeepsSortedExactlyUnless(s: State, a: Action)
    requires Sorted(s.queue)
    ensures Sorted(Step(s, a).queue) <==> CommitsInOrder(s, a)
  {
    if a.CommitSend? && a.call in s.calls && s.calls[a.call].Stamped? && s.queue != [] {
      var r, n := Step(s, a).queue, |s.queue|;
      assert r[n - 1] == s.queue[n - 1] && r[n] == s.calls[a.call].item;
    }
  }

  lemma {:induction false} QueueStaysSortedExactlyUnless(s: State, actions: seq<Action>, n: nat)
    requires Quiescent(s) && n <= |actions|
    ensures (forall k :: 0 <= k <= n ==> Sorted(Run(s, actions[..k]).queue)) <==>
            (forall k :: 0 <= k < n ==> CommitsInOrder(Run(s, actions[..k]), actions[k]))
    decreases n
  {
    hide Sorted, CommitsInOrder, Step;
    if n == 0 {
      assert actions[..0] == [];
      EmptyIsSorted();
    } else {
      QueueStaysSortedExactlyUnless(s, actions, n - 1);
      RunNext(s, actions, n - 1);
      var before := Run(s, actions[..n - 1]);
      if Sorted(before.queue) { StepKeepsSortedExactlyUnless(before, actions[n - 1]); }
    }
  }

  lemma EmptyIsSorted()
    ensures Sorted([])
  {}

  /** Over every interleaving, draining would deliver exactly the ready frames at every moment and for every time if
      and only if every send was committed in the order of the ready times. */
  lemma DrainsExactlyThroughoutIfCommitsInOrder(s: State, actions: seq<Action>)
    requires Quiescent(s)
    ensures (forall k, now :: 0 <= k <= |actions| ==> DrainsExactly(Run(s, actions[..k]).queue, now)) <==>
            (forall k :: 0 <= k < |actions| ==> CommitsInOrder(Run(s, actions[..k]), actions[k]))
  {
    hide DrainsExactly, Sorted, CommitsInOrder, Run;
    QueueStaysSortedExactlyUnless(s, actions, |actions|);
    forall k | 0 <= k <= |actions|
      ensures Sorted(Run(s, actions[..k]).queue) <==> forall now :: DrainsExactly(Run(s, actions[..k]).queue, now)
    {
      DrainsExactlyAlwaysIfSorted(Run(s, actions[..k]).queue);
    }
  }

  /** A new send starts only when none is under way, and a new latency is no shorter than the old. */
  predicate Steady(s: State, a: Action) {
    match a
    case SampleSend(_, _) => forall c :: c in s.calls ==> s.calls[c].Polling?
    case SetLatency(ms) => ms >= s.latencyMs
    case _ => true
  }

  function Delay(s: State): nat { s.latencyMs * 1_000_000 }

  predicate ReadyBy(queue: seq<FrameItem>, t: int) { forall i :: 0 <= i < |queue| ==> queue[i].readyAt <= t }

  /** How a call under way stands to the queue: a frame being sent will not be ready before those in it. */
  predicate CallInOrder(s: State, p: Progress) {
    match p
    case Sampled(_, now) => now <= s.clock && ReadyBy(s.queue, now + Delay(s))
    case Stamped(item, _) => item.readyAt <= s.clock + Delay(s) && ReadyBy(s.queue, item.readyAt)
    case Polling(_) => true
  }

  /** The queue is in the order of its ready times, and so will be what is under way, at most one send. */
  predicate InOrder(s: State) {
    && Sorted(s.queue) && ReadyBy(s.queue, s.clock + Delay(s))
    && (forall c, d :: c in s.calls && d in s.calls && c != d ==> s.calls[c].Polling? || s.calls[d].Polling?)
    && (forall c :: c in s.calls ==> CallInOrder(s, s.calls[c]))
  }

  lemma TailInOrder(queue: seq<FrameItem>, t: int)
    requires queue != [] && Sorted(queue) && ReadyBy(queue, t)
    ensures Sorted(queue[1..]) && ReadyBy(queue[1..], t)
  {}

  lemma AppendInOrder(queue: seq<FrameItem>, item: FrameItem, t: int)
    requires Sorted(queue) && ReadyBy(queue, item.readyAt) && item.readyAt <= t
    ensures Sorted(queue + [item]) && ReadyBy(queue + [item], t)
  {}

  lemma ReadyLater(queue: seq<FrameItem>, t: int, u: int)
    requires ReadyBy(queue, t) && t <= u
    ensures ReadyBy(queue, u)
  {}

  lemma StepKeepsOrder(s: State, a: Action)
    requires InOrder(s) && Steady(s, a)
    ensures InOrder(Step(s, a))
  {
    hide Sorted, ReadyBy;
    match a
    case Tick(_) => ReadyLater(s.queue, s.clock + Delay(s), Step(s, a).clock + Delay(s));
    case SetLatency(_) =>
      var r := Step(s, a);
      ReadyLater(s.queue, s.clock + Delay(s), s.clock + Delay(r));
      forall c | c in s.calls && s.calls[c].Sampled? ensures ReadyBy(s.queue, s.calls[c].now + Delay(r)) {
        assert CallInOrder(s, s.calls[c]);
        ReadyLater(s.queue, s.calls[c].now + Delay(s), s.calls[c].now + Delay(r));
      }
    case CommitSend(call) =>
      if call in s.calls && s.calls[call].Stamped? {
        assert CallInOrder(s, s.calls[call]);
        AppendInOrder(s.queue, s.calls[call].item, s.clock + Delay(s));
      }
    case CommitReceive(call) =>
      if Step(s, a).queue != s.queue {
        TailInOrder(s.queue, s.clock + Delay(s));
        forall c | c in s.calls && !s.calls[c].Polling? ensures CallInOrder(Step(s, a), s.calls[c]) {
          assert CallInOrder(s, s.calls[c]);
          TailInOrder(s.queue, if s.calls[c].Sampled? then s.calls[c].now + Delay(s) else s.calls[c].item.readyAt);
        }
      }
    case _ =>
  }

  lemma RunNext(s: State, actions: seq<Action>, k: nat)
    requires k < |actions|
    ensures Run(s, actions[..k + 1]) == Step(Run(s, actions[..k]), actions[k])
  {
    assert actions[..k + 1][..k] == actions[..k];
  }

  lemma {:induction false} SteadyRunInOrder(s: State, actions: seq<Action>, k: nat)
    requires Quiescent(s) && k <= |actions|
    requires forall i :: 0 <= i < k ==> Steady(Run(s, actions[..i]), actions[i])
    ensures InOrder(Run(s, actions[..k]))
    decreases k
  {
    if k > 0 {
      SteadyRunInOrder(s, actions, k - 1);
      RunNext(s, actions, k - 1);
      StepKeepsOrder(Run(s, actions[..k - 1]), actions[k - 1]);
    }
  }

  /** Over every run with one send at a time and a latency that never shrinks, whatever receives, link changes
      and time do in between, nothing is ever held up: draining delivers exactly the frames that are ready. */
  lemma SteadyRunHoldsNothingUp(s: State, actions: seq<Action>, now: int)
    requires Quiescent(s)
    requires forall i :: 0 <= i < |actions| ==> Steady(Run(s, actions[..i]), actions[i])
    ensures var q := Run(s, actions).queue;
            forall i :: 0 <= i < |q| ==> (i < Drained(q, now) <==> q[i].readyAt <= now)
  {
    SteadyRunInOrder(s, actions, |actions|);
    assert actions[..|actions|] == actions;
    DrainDeliversExactlyTheReady(Run(s, actions).queue, now);
  }

  /** An idle connection with this latency. */
  function Idle(latencyMs: uint32): State { State(true, latencyMs, 0, [], map[], [], []) }

  /** With a shrinking latency a frame is held up: the second is ready at once, but waits for the first. */
  lemma ShrinkingLatencyHoldsUp(frame: Frame)
    ensures var q := Run(Idle(10), [SampleSend(0, frame), StampSend(0), CommitSend(0), SetLatency(0),
                                    SampleSend(0, frame), StampSend(0), CommitSend(0)]).queue;
            |q| == 2 && q[1].readyAt == 0 && Drained(q, 0) == 0
  {
    var actions := [SampleSend(0, frame), StampSend(0), CommitSend(0), SetLatency(0),
                    SampleSend(0, frame), StampSend(0), CommitSend(0)];
    var late, prompt := FrameItem(frame, 10 * 1_000_000), FrameItem(frame, 0);
    var s := Idle(10);
    RunOfSeven(s, actions);
    hide Run;
    assert Send(s, 0, frame) == s.(queue := [late], accepted := [late]);
    var t := Step(Send(s, 0, frame), SetLatency(0));
    assert Send(t, 0, frame).queue == [late] + [prompt];
  }

  /** The three steps of a send. */
  function Send(s: State, call: nat, frame: Frame): State {
    Step(Step(Step(s, SampleSend(call, frame)), StampSend(call)), CommitSend(call))
  }

  lemma RunOfSeven(s: State, actions: seq<Action>)
    requires |actions| == 7
    ensures Run(s, actions) ==
            Step(Step(Step(Step(Step(Step(Step(s, actions[0]), actions[1]), actions[2]), actions[3]), actions[4]), actions[5]), actions[6])
  {
    hide Step;
    assert actions[..7] == actions && actions[..0] == [];
    RunNext(s, actions, 6);
    RunNext(s, actions, 5);
    RunNext(s, actions, 4);
    RunNext(s, actions, 3);
    RunNext(s, actions, 2);
    RunNext(s, actions, 1);
    RunNext(s, actions, 0);
  }

  /** So is one whose send is overtaken between its clock reading and the lock, even at a constant latency. */
  lemma OvertakenSendIsHeldUp(frame: Frame)
    ensures var q := Run(Idle(10), [SampleSend(0, frame), Tick(1), SampleSend(1, frame), StampSend(1), CommitSend(1),
                                    StampSend(0), CommitSend(0)]).queue;
            |q| == 2 && q[1].readyAt == 10 * 1_000_000 && Drained(q, 10 * 1_000_000) == 0
  {
    var actions := [SampleSend(0, frame), Tick(1), SampleSend(1, frame), StampSend(1), CommitSend(1),
                    StampSend(0), CommitSend(0)];
    var first, second := FrameItem(frame, 10 * 1_000_000), FrameItem(frame, 1 + 10 * 1_000_000);
    RunOfSeven(Idle(10), actions);
    hide Run;
    var s := Step(Step(Idle(10), SampleSend(0, frame)), Tick(1));
    assert s == Idle(10).(clock := 1, calls := map[0 := Sampled(frame, 0)]);
    var t := Send(s, 1, frame);
    assert t == s.(queue := [second], accepted := [second]);
    assert Step(Step(t, StampSend(0)), CommitSend(0)).queue == [second] + [first];
  }
}
