/** A connection served by the bus: what the endpoint's loop over the byte stream does when the processing of a frame
    is the datagram loop over the simulator. */
module Serving {
  import opened Bytes
  import opened Datagrams
  import opened SimulatorModel
  import opened BusModel
  import opened BusProperties
  import opened RegistryProperties
  import opened BusRuns
  import opened Framing
  import E = El1258Model
  import Slaves = SlaveModel

  /** Where the datagrams of a frame lie in its bytes is the library's business: `view` finds them, and `update` writes
      their data and counters back in place. */
  datatype Layout = Layout(view: Packet -> Datagrams.Frame, update: (Packet, Datagrams.Frame) -> Packet)

  ghost predicate LayoutOk(l: Layout) {
    && (forall p :: FrameOk(l.view(p)))
    && (forall p, f :: |l.update(p, f)| == |p|)
  }

  /** What comes from outside while a connection is served: clock readings in the order they are taken, and the slaves
      some owner still holds. */
  datatype World<R(!new)> = World(rows: nat -> Readings, clocks: nat -> E.Clock, alive: set<R>)

  /** The simulator, and how many clock readings were taken. */
  datatype Bus<R> = Bus(sim: Sim<R>, taken: nat)

  function Rows<R(!new)>(w: World<R>, from: nat, n: nat): (rows: seq<Readings>)
    ensures |rows| == n
  {
    seq<Readings>(n, i requires 0 <= i < n => w.rows(from + i))
  }

  function Clocks<R(!new)>(w: World<R>, from: nat, n: nat): (clocks: seq<E.Clock>)
    ensures |clocks| == n
  {
    seq<E.Clock>(n, i requires 0 <= i < n => w.clocks(from + i))
  }

  /** `processFrame_` on the bytes of a frame. */
  function ProcessPacket<R(==,!new)>(l: Layout, w: World<R>, b: Bus<R>, p: Packet): (Bus<R>, Packet) {
    var f := l.view(p);
    if Ready(b.sim) && FrameOk(f) then
      var (t, g) := Process(b.sim, f, Rows(w, b.taken, |f|));
      (Bus(t, b.taken + |f|), l.update(p, g))
    else (b, p)
  }

  /** `runOnce`. */
  function Pass<R(==,!new)>(w: World<R>, b: Bus<R>): Bus<R> {
    if WellFormed(b.sim) then
      Bus(RunOnce(b.sim, w.alive, Clocks(w, b.taken, |b.sim.maps|)), b.taken + |b.sim.maps|)
    else b
  }

  /** What the loop does with one frame. */
  function ServeOne<R(==,!new)>(l: Layout, w: World<R>): (Bus<R>, Packet) -> (Bus<R>, Packet) {
    Served((b: Bus<R>, p: Packet) => ProcessPacket(l, w, b, p), (b: Bus<R>) => Pass(w, b))
  }

  ghost predicate Sound<R>(b: Bus<R>) { WellFormed(b.sim) && AllDeployed(b.sim) }

  lemma ServeOneUnfolds<R(!new)>(l: Layout, w: World<R>, b: Bus<R>, p: Packet)
    ensures ServeOne(l, w)(b, p) == (Pass(w, ProcessPacket(l, w, b, p).0), ProcessPacket(l, w, b, p).1)
  {}

  /** One frame: its datagrams are processed in order over the simulator as it stands, and the simulator stays sound. */
  lemma ServeOneProcesses<R(!new)>(l: Layout, w: World<R>, b: Bus<R>, p: Packet)
    requires LayoutOk(l) && Sound(b)
    ensures Ready(b.sim) && FrameOk(l.view(p))
    ensures var (c, reply) := ServeOne(l, w)(b, p);
            && Sound(c) && |reply| == |p|
            && reply == l.update(p, Process(b.sim, l.view(p), Rows(w, b.taken, |l.view(p)|)).1)
            && c == Pass(w, Bus(Process(b.sim, l.view(p), Rows(w, b.taken, |l.view(p)|)).0, b.taken + |l.view(p)|))
  {
    hide WellFormed, Roomy, AllDeployed, Process, RunOnce;
    DeployedIsReady(b.sim);
    ServeOneUnfolds(l, w, b, p);
    ProcessDeployed(b.sim, l.view(p), Rows(w, b.taken, |l.view(p)|));
    PassIsSound(w, ProcessPacket(l, w, b, p).0);
  }

  lemma PassIsSound<R(!new)>(w: World<R>, b: Bus<R>)
    requires Sound(b)
    ensures Sound(Pass(w, b))
  {
    hide RunOnce, HeapOk;
    PassKeepsCores(b.sim, w.alive, Clocks(w, b.taken, |b.sim.maps|));
    SameCoresKeepDeployed(b.sim, Pass(w, b).sim);
  }

  /** Over a whole connection: each reply is its own frame with its datagrams processed over the simulator the frames
      before it left, each followed by a pass; every reply is as long as its frame; the bus stays sound and ready. */
  lemma {:induction false} EveryReplyIsTheProcessedFrame<R(!new)>(l: Layout, w: World<R>, b0: Bus<R>, ps: seq<Packet>, i: nat)
    requires LayoutOk(l) && Sound(b0) && i < |ps|
    ensures var (b, replies) := Replies(ServeOne(l, w), b0, ps);
            var before := Replies(ServeOne(l, w), b0, ps[..i]).0;
            && Sound(b) && Sound(before) && Ready(before.sim) && FrameOk(l.view(ps[i])) && |replies[i]| == |ps[i]|
            && replies[i] == l.update(ps[i], Process(before.sim, l.view(ps[i]), Rows(w, before.taken, |l.view(ps[i])|)).1)
    decreases |ps|
  {
    hide Sound, LayoutOk, ServeOne, Process;
    var k := |ps| - 1;
    if k > 0 {
      EveryReplyIsTheProcessedFrame(l, w, b0, ps[..k], if i < k then i else 0);
    }
    ServeOneProcesses(l, w, Replies(ServeOne(l, w), b0, ps[..k]).0, ps[k]);
    assert i < k ==> ps[..k][..i] == ps[..i] && ps[..k][i] == ps[i];
  }

  /** Serving a connection over the bus. Undisturbed, the replies written are those above for exactly the frames the
      stream holds; disturbed, for the first `n` of them, the last reply perhaps cut short. */
  method ServeConnection<R(==,!new)>(sock: Socket, l: Layout, w: World<R>, b0: Bus<R>) returns (b: Bus<R>, graceful: bool, ghost n: nat)
    requires LayoutOk(l) && Sound(b0)
    modifies sock
    ensures graceful ==> sock.stoppable
    ensures n <= |Parse(old(sock.incoming))| && old(sock.outgoing) <= sock.outgoing
    ensures var (c, replies) := Replies(ServeOne(l, w), b0, Parse(old(sock.incoming))[..n]);
            && b == c && sock.outgoing <= old(sock.outgoing) + EncodeAll(replies)
            && (sock.Calm() ==> n == |Parse(old(sock.incoming))| && sock.outgoing == old(sock.outgoing) + EncodeAll(replies))
  {
    hide Parse, Replies, EncodeAll, Served, ProcessPacket, Pass;
    ghost var outgoing := sock.outgoing;
    b, graceful, n := HandleClient(sock, (b: Bus<R>, p: Packet) => ProcessPacket(l, w, b, p), (b: Bus<R>) => Pass(w, b), b0);
    assert sock.outgoing == outgoing + sock.outgoing[|outgoing|..];
  }
}
