/** Frames, working counters, broadcast and addressing over the whole bus. */
module BusProperties {
  import opened Bytes
  import opened Datagrams
  import opened SimulatorModel
  import opened BusModel
  import E = El1258Model
  import Slaves = SlaveModel
  import SP = SlaveProperties
  import AlMachine

  // ---- frames

  /** Cutting a frame anywhere and processing the parts in turn is processing it whole. */
  lemma {:induction false} ProcessComposes<R>(s: Sim<R>, f: Frame, g: Frame, cs: seq<Readings>, ds: seq<Readings>)
    requires Ready(s) && FrameOk(f) && FrameOk(g) && |cs| == |f| && |ds| == |g|
    ensures FrameOk(f + g)
    ensures var (u, f') := Process(s, f, cs);
            var (t, g') := Process(u, g, ds);
            Process(s, f + g, cs + ds) == (t, f' + g')
    decreases |g|
  {
    hide EndpointStep;
    if g == [] {
      assert f + g == f && cs + ds == cs;
      assert Process(s, f, cs).1 + [] == Process(s, f, cs).1;
    } else {
      var k := |g| - 1;
      ProcessComposes(s, f, g[..k], cs, ds[..k]);
      assert (f + g)[..|f| + k] == f + g[..k] && (cs + ds)[..|f| + k] == cs + ds[..k];
      var (u, f') := Process(s, f, cs);
      var (v, done) := Process(u, g[..k], ds[..k]);
      var (t, d) := EndpointStep(v, g[k], ds[k]);
      assert Process(s, f + g, cs + ds) == (t, (f' + done) + [d]);
      assert (f' + done) + [d] == f' + (done + [d]);
    }
  }

  predicate IsRead(c: Command) { c in {FPRD, APRD, LRD} }

  /** A datagram keeps its header and length, and only a read command changes its data. */
  predicate SameShape(before: Datagram, after: Datagram) {
    && after.header == before.header && |after.data| == |before.data|
    && (after.data != before.data ==> IsRead(before.header.command))
  }

  lemma StepKeepsShape<R>(s: Sim<R>, d: Datagram, clock: Readings)
    requires Ready(s) && Ok(d)
    ensures SameShape(d, EndpointStep(s, d, clock).1)
  {}

  lemma {:induction false} ProcessKeepsShape<R>(s: Sim<R>, f: Frame, cs: seq<Readings>)
    requires Ready(s) && FrameOk(f) && |cs| == |f|
    ensures var (_, g) := Process(s, f, cs); forall i :: 0 <= i < |f| ==> SameShape(f[i], g[i])
    decreases |f|
  {
    hide EndpointStep;
    if f != [] {
      var k := |f| - 1;
      ProcessKeepsShape(s, f[..k], cs[..k]);
      StepKeepsShape(Process(s, f[..k], cs[..k]).0, f[k], cs[k]);
    }
  }

  // ---- the two implementations

  lemma DecodersAgree(position: uint16)
    ensures SocketIndex(position) == DecodeIndex(position)
  {}

  /** When the two implementations give a datagram the same working counter. */
  predicate CountersAgree(c: Command, online: nat) {
    match c
    case NOP => online == 0
    case BRD => online % 0x1_0000 != 0
    case ARMW | FRMW => online > 0 && online % 0x1_0000 <= 1
    case _ => true
  }

  /** From any simulator state and for any datagram, the two leave the same state, header and data;
      they agree on the working counter exactly when the predicate above says. */
  lemma StepsAgreeExactly<R>(s: Sim<R>, d: Datagram, clock: Readings)
    requires Ready(s) && Ok(d)
    ensures var (u, e) := EndpointStep(s, d, clock);
            var (v, k) := SocketStep(s, d, clock);
            u == v && k == e.(wkc := k.wkc) && (e.wkc == k.wkc <==> CountersAgree(d.header.command, OnlineSlaveCount(s)))
  {
    hide WellFormed, Roomy, OnlyHeap, Broadcast, ReadFromSlave, WriteToSlaveReady, WriteToSlave, ReadByIndex, WriteByIndexReady;
    hide WriteByIndex, SimulatorModel.ReadLogical, SimulatorModel.WriteLogical, SimulatorModel.OnlineSlaveCount;
    DecodersAgree(Position(d.header.address));
  }

  /** Which slaves are online, the registry and the settings are no datagram's business. */
  predicate SameStanding<R(==)>(s: Sim<R>, t: Sim<R>) {
    && OnlyHeap(s, t.(logical := s.logical))
    && forall r :: r in s.heap ==> r in t.heap && t.heap[r].online == s.heap[r].online
  }

  lemma WriteAtStanding<R>(s: Sim<R>, r: R, reg: uint16, data: seq<uint8>, clock: E.Clock)
    requires WellFormed(s) && Roomy(s) && r in s.heap
    ensures SameStanding(s, WriteAt(s, r, reg, data, clock).0)
  {
    SP.WriteTouches(s.heap[r], reg, data, clock);
  }

  lemma ReadAtStanding<R>(s: Sim<R>, r: R, reg: uint16, dst: seq<uint8>)
    requires WellFormed(s) && r in s.heap
    ensures SameStanding(s, ReadAt(s, r, reg, dst).0)
  {}

  lemma IndexStanding<R>(s: Sim<R>, i: nat, reg: uint16, data: seq<uint8>, clock: E.Clock)
    requires Ready(s) && |data| <= MAX_PAYLOAD
    ensures SameStanding(s, WriteByIndexReady(s, i, reg, data, clock).0)
  {
    if OnlineAt(s, i) { WriteAtStanding(s, s.slaves[i], reg, data, clock); }
  }

  lemma StandingComposes<R>(s: Sim<R>, u: Sim<R>, t: Sim<R>)
    ensures SameStanding(s, s)
    ensures SameStanding(s, u) && SameStanding(u, t) ==> SameStanding(s, t)
  {}

  lemma StandingAt<R>(s: Sim<R>, t: Sim<R>, r: R)
    requires SameStanding(s, t) && r in s.heap
    ensures t.slaves == s.slaves && r in t.heap && t.heap[r].online == s.heap[r].online
  {}

  lemma {:induction false} BroadcastStanding<R>(s: Sim<R>, n: nat, reg: uint16, data: seq<uint8>, clock: Readings)
    requires Ready(s) && |data| <= MAX_PAYLOAD
    ensures SameStanding(s, Broadcast(s, n, reg, data, clock).0)
  {
    hide WellFormed, Roomy, SameStanding, OnlyHeap;
    StandingComposes(s, s, s);
    if n > 0 {
      hide Broadcast, WriteByIndexReady, WriteByIndex;
      BroadcastStanding(s, n - 1, reg, data, clock);
      BroadcastNext(s, n - 1, reg, data, clock);
      var u := Broadcast(s, n - 1, reg, data, clock).0;
      IndexStanding(u, n - 1, reg, data, clock(n - 1));
      StandingComposes(s, u, WriteByIndexReady(u, n - 1, reg, data, clock(n - 1)).0);
    }
  }

  lemma StationStanding<R>(s: Sim<R>, address: uint16, reg: uint16, data: seq<uint8>, clock: E.Clock)
    requires Ready(s) && |data| <= MAX_PAYLOAD
    ensures SameStanding(s, ReadFromSlave(s, address, reg, data).0)
    ensures SameStanding(s, WriteToSlaveReady(s, address, reg, data, clock).0)
  {
    var r := Lookup(s.heap, s.slaves, address);
    if r.Some? {
      ReadAtStanding(s, r.value, reg, data);
      WriteAtStanding(s, r.value, reg, data, clock);
    }
  }

  lemma ReadIndexStanding<R>(s: Sim<R>, i: nat, reg: uint16, data: seq<uint8>)
    requires Ready(s)
    ensures SameStanding(s, ReadByIndex(s, i, reg, data).0)
  {
    if OnlineAt(s, i) { ReadAtStanding(s, s.slaves[i], reg, data); }
  }

  lemma StepStanding<R>(s: Sim<R>, d: Datagram, clock: Readings)
    requires Ready(s) && Ok(d)
    ensures SameStanding(s, EndpointStep(s, d, clock).0)
  {
    hide WellFormed, Roomy;
    hide Broadcast, ReadFromSlave, WriteToSlaveReady, WriteToSlave, ReadByIndex, WriteByIndexReady, WriteByIndex, SameStanding;
    StandingComposes(s, s, s);
    var pos, ado := Position(d.header.address), Offset(d.header.address);
    var c := d.header.command;
    if c in {BWR, BRW} {
      BroadcastStanding(s, OnlineSlaveCount(s), ado, d.data, clock);
    } else if c in {FPRD, FPWR, FPRW} {
      StationStanding(s, pos, ado, d.data, clock(0));
    } else if c == APRD {
      ReadIndexStanding(s, DecodeIndex(pos), ado, d.data);
    } else if c in {APWR, APRW} {
      IndexStanding(s, DecodeIndex(pos), ado, d.data, clock(0));
    } else if c in {LWR, LRW} {
      LogicalStanding(s, d.header.address, d.data);
    }
  }

  lemma LogicalStanding<R>(s: Sim<R>, address: uint32, data: seq<uint8>)
    requires WellFormed(s)
    ensures SameStanding(s, SimulatorModel.WriteLogical(s, address, data).0)
  {}

  lemma {:induction false} SameOnlineCount<R>(h: map<R, Slaves.Slave>, k: map<R, Slaves.Slave>, slaves: seq<R>)
    requires forall r :: r in slaves ==> r in h && r in k && h[r].online == k[r].online
    ensures CountOnline(h, slaves) == CountOnline(k, slaves)
    decreases |slaves|
  {
    if slaves != [] { SameOnlineCount(h, k, slaves[..|slaves| - 1]); }
  }

  lemma StandingCount<R>(s: Sim<R>, t: Sim<R>)
    requires WellFormed(s) && WellFormed(t) && SameStanding(s, t)
    ensures OnlineSlaveCount(t) == OnlineSlaveCount(s)
  {
    SameOnlineCount(s.heap, t.heap, s.slaves);
  }

  lemma {:induction false} ProcessStanding<R>(s: Sim<R>, f: Frame, cs: seq<Readings>)
    requires Ready(s) && FrameOk(f) && |cs| == |f|
    ensures var t := Process(s, f, cs).0; SameStanding(s, t) && OnlineSlaveCount(t) == OnlineSlaveCount(s)
    decreases |f|
  {
    hide WellFormed, Roomy, SameStanding, EndpointStep;
    StandingComposes(s, s, s);
    if f != [] {
      var k := |f| - 1;
      ProcessStanding(s, f[..k], cs[..k]);
      var u := Process(s, f[..k], cs[..k]).0;
      StepStanding(u, f[k], cs[k]);
      StandingComposes(s, u, EndpointStep(u, f[k], cs[k]).0);
    }
    StandingCount(s, Process(s, f, cs).0);
  }

  /** Whole frames: from any state, two runs of the same frame give the same states and data, and the same
      counters throughout if they agree on each command at the online count. In particular they do on every
      list of addressed, logical and broadcast writes and reads, with BRD when 1 to 65535 slaves are online. */
  lemma {:induction false} FramesAgree<R>(s: Sim<R>, f: Frame, cs: seq<Readings>)
    requires Ready(s) && FrameOk(f) && |cs| == |f|
    ensures var (u, e) := Process(s, f, cs);
            var (v, k) := SocketProcess(s, f, cs);
            && u == v
            && (forall i :: 0 <= i < |f| ==> k[i] == e[i].(wkc := k[i].wkc))
            && ((forall i :: 0 <= i < |f| ==> CountersAgree(f[i].header.command, OnlineSlaveCount(s))) <==> e == k)
    decreases |f|
  {
    hide EndpointStep, SocketStep;
    if f != [] {
      var n := |f| - 1;
      FramesAgree(s, f[..n], cs[..n]);
      ProcessStanding(s, f[..n], cs[..n]);
      var (u, e) := Process(s, f[..n], cs[..n]);
      var (v, k) := SocketProcess(s, f[..n], cs[..n]);
      StepsAgreeExactly(u, f[n], cs[n]);
      var e1, k1 := EndpointStep(u, f[n], cs[n]).1, SocketStep(u, f[n], cs[n]).1;
      assert (e + [e1])[n] == e1 && (k + [k1])[n] == k1;
      if e + [e1] == k + [k1] {
        assert e == (e + [e1])[..n] == (k + [k1])[..n] == k;
      }
    }
  }

  /** With the link up, a frame written to the socket leaves the slaves and the logical memory as the
      endpoint would, and its processed form at the end of the queue, due after the latency. */
  lemma SocketWriteQueuesProcessedFrame<R>(s: Sim<R>, f: Frame, cs: seq<Readings>, now: int)
    requires Ready(s) && FrameOk(f) && |cs| == |f|
    ensures var (t, sent) := SocketWrite(s, f, cs, now);
            && sent == s.linkUp
            && (!s.linkUp ==> t == s)
            && (s.linkUp ==>
                  t == Process(s, f, cs).0.(queue := s.queue + [FrameItem(SocketProcess(s, f, cs).1, now + s.latencyMs as int * 1_000_000)]))
  {
    hide WellFormed, Roomy;
    hide EndpointStep, SocketStep;
    FramesAgree(s, f, cs);
    ProcessStanding(s, f, cs);
  }

  // ---- broadcast

  /** The online slaves come first in the registry. */
  predicate OnlinePrefix<R(==)>(s: Sim<R>)
    requires WellFormed(s)
  {
    forall i, j :: 0 <= i < j < |s.slaves| && OnlineAt(s, j) ==> OnlineAt(s, i)
  }

  lemma {:induction false} CountSplits<R>(h: map<R, Slaves.Slave>, a: seq<R>, b: seq<R>)
    requires forall r :: r in a + b ==> r in h
    ensures (forall r :: r in a ==> r in h) && (forall r :: r in b ==> r in h)
    ensures CountOnline(h, a + b) == CountOnline(h, a) + CountOnline(h, b)
    decreases |b|
  {
    assert forall r :: r in a ==> r in a + b;
    assert forall r :: r in b ==> r in a + b;
    if b == [] {
      assert a + b == a;
    } else {
      var k := |b| - 1;
      assert (a + b)[..|a| + k] == a + b[..k];
      CountSplits(h, a, b[..k]);
    }
  }

  /** The count is full exactly when all are online, and zero exactly when none is. */
  lemma {:induction false} CountExtremes<R>(h: map<R, Slaves.Slave>, slaves: seq<R>)
    requires forall r :: r in slaves ==> r in h
    ensures CountOnline(h, slaves) == |slaves| <==> forall i :: 0 <= i < |slaves| ==> h[slaves[i]].online
    ensures CountOnline(h, slaves) == 0 <==> forall i :: 0 <= i < |slaves| ==> !h[slaves[i]].online
    decreases |slaves|
  {
    if slaves != [] {
      var k := |slaves| - 1;
      CountExtremes(h, slaves[..k]);
      assert slaves == slaves[..k] + [slaves[k]];
    }
  }

  lemma PrefixFillsCount<R>(s: Sim<R>, i: nat)
    requires WellFormed(s) && s.count == |s.slaves| && OnlinePrefix(s) && OnlineAt(s, i)
    ensures i < OnlineSlaveCount(s)
  {
    var upTo, rest := s.slaves[..i + 1], s.slaves[i + 1..];
    assert s.slaves == upTo + rest;
    CountSplits(s.heap, upTo, rest);
    forall k | 0 <= k < |upTo| ensures s.heap[upTo[k]].online { assert k == i || OnlineAt(s, k); }
    CountExtremes(s.heap, upTo);
  }

  lemma CountedPrefixIsAllOnline<R>(s: Sim<R>, i: nat)
    requires WellFormed(s) && s.count == |s.slaves| && i < OnlineSlaveCount(s)
    requires forall k :: 0 <= k < |s.slaves| && OnlineAt(s, k) ==> k < OnlineSlaveCount(s)
    ensures OnlineAt(s, i)
  {
    var n := OnlineSlaveCount(s);
    var head, tail := s.slaves[..n], s.slaves[n..];
    assert s.slaves == head + tail;
    CountSplits(s.heap, head, tail);
    forall k | 0 <= k < |tail| ensures !s.heap[tail[k]].online { assert tail[k] == s.slaves[n + k] && !OnlineAt(s, n + k); }
    CountExtremes(s.heap, tail);
    CountExtremes(s.heap, head);
    assert head[i] == s.slaves[i];
  }

  /** The broadcast loop stops at the online count, so it reaches every online slave if and only if the
      online slaves come first in the registry. */
  lemma BroadcastReachesAllExactlyOnPrefix<R>(s: Sim<R>)
    requires WellFormed(s) && s.count == |s.slaves|
    ensures (forall i :: 0 <= i < |s.slaves| && OnlineAt(s, i) ==> i < OnlineSlaveCount(s)) <==> OnlinePrefix(s)
  {
    if OnlinePrefix(s) {
      forall i | 0 <= i < |s.slaves| && OnlineAt(s, i) ensures i < OnlineSlaveCount(s) { PrefixFillsCount(s, i); }
    }
    if forall i :: 0 <= i < |s.slaves| && OnlineAt(s, i) ==> i < OnlineSlaveCount(s) {
      forall i, j | 0 <= i < j < |s.slaves| && OnlineAt(s, j) ensures OnlineAt(s, i) { CountedPrefixIsAllOnline(s, i); }
    }
  }

  lemma IncrementsCount(n: nat)
    ensures Increment(n % 0x1_0000) as int == (n + 1) % 0x1_0000
  {}

  /** One more index: if its slave is online it takes the write, and no other slave is touched. */
  lemma WriteIsSolo<R>(s: Sim<R>, i: nat, reg: uint16, data: seq<uint8>, clock: E.Clock)
    requires Ready(s) && |data| <= MAX_PAYLOAD && i < |s.slaves|
    ensures s.slaves[i] in s.heap
    ensures var (t, _) := WriteByIndexReady(s, i, reg, data, clock);
            t.heap == (if s.heap[s.slaves[i]].online
                          then s.heap[s.slaves[i] := Slaves.Write(s.heap[s.slaves[i]], reg, data, clock).0] else s.heap)
  {}

  /** The loop over the first `n` indices of a registry without repetitions: each online slave there takes
      exactly its solo step, and every later one is left alone. */
  lemma {:induction false} BroadcastIsSolo<R>(s: Sim<R>, n: nat, reg: uint16, data: seq<uint8>, clock: Readings, i: nat)
    requires Ready(s) && |data| <= MAX_PAYLOAD && n <= |s.slaves| && Distinct(s.slaves) && i < |s.slaves|
    ensures s.slaves[i] in s.heap
    ensures Broadcast(s, n, reg, data, clock).0.heap[s.slaves[i]] ==
            if i < n && s.heap[s.slaves[i]].online then Slaves.Write(s.heap[s.slaves[i]], reg, data, clock(i)).0
            else s.heap[s.slaves[i]]
    decreases n
  {
    hide WellFormed, Roomy, Slaves.Write, Distinct, OnlyHeap;
    Registered(s, i);
    if n > 0 {
      hide Broadcast, WriteByIndexReady, WriteByIndex;
      DistinctEntries(s.slaves, i, n - 1);
      BroadcastNext(s, n - 1, reg, data, clock);
      BroadcastIsSolo(s, n - 1, reg, data, clock, i);
      BroadcastIsSolo(s, n - 1, reg, data, clock, n - 1);
      var u := Broadcast(s, n - 1, reg, data, clock).0;
      SameRegistry(s, u);
      WriteIsSolo(u, n - 1, reg, data, clock(n - 1));
    }
  }

  lemma SameRegistry<R>(s: Sim<R>, u: Sim<R>)
    requires OnlyHeap(s, u)
    ensures u.slaves == s.slaves && u.heap.Keys == s.heap.Keys
  {}

  lemma Registered<R>(s: Sim<R>, i: nat)
    requires WellFormed(s) && i < |s.slaves|
    ensures s.slaves[i] in s.heap && Slaves.WellFormed(s.heap[s.slaves[i]])
    ensures Roomy(s) ==> Slaves.RoomForMessages(s.heap[s.slaves[i]])
  {}

  lemma DistinctEntries<R>(slaves: seq<R>, i: nat, j: nat)
    requires Distinct(slaves) && i < |slaves| && j < |slaves|
    ensures slaves[i] == slaves[j] <==> i == j
  {}

  /** A slave that is not registered is never touched. */
  lemma {:induction false} BroadcastLeavesOthers<R>(s: Sim<R>, n: nat, reg: uint16, data: seq<uint8>, clock: Readings, r: R)
    requires Ready(s) && |data| <= MAX_PAYLOAD && n <= |s.slaves| && r in s.heap && r !in s.slaves
    ensures Broadcast(s, n, reg, data, clock).0.heap[r] == s.heap[r]
    decreases n
  {
    hide WellFormed, Roomy, Slaves.Write;
    if n > 0 {
      hide Broadcast, WriteByIndexReady, WriteByIndex;
      BroadcastNext(s, n - 1, reg, data, clock);
      BroadcastLeavesOthers(s, n - 1, reg, data, clock, r);
      WriteIsSolo(Broadcast(s, n - 1, reg, data, clock).0, n - 1, reg, data, clock(n - 1));
    }
  }

  /** Whatever the indices before it did, index `n` acknowledges exactly if its slave was online at the start. */
  lemma NextIndexAccepts<R>(s: Sim<R>, n: nat, reg: uint16, data: seq<uint8>, clock: Readings)
    requires Ready(s) && |data| <= MAX_PAYLOAD && n < |s.slaves| && Slaves.InRegisters(reg, |data|)
    ensures s.slaves[n] in s.heap
    ensures WriteByIndexReady(Broadcast(s, n, reg, data, clock).0, n, reg, data, clock(n)).1 == s.heap[s.slaves[n]].online
  {
    hide WellFormed, Roomy, SameStanding, Slaves.InRegisters, Broadcast, WriteByIndexReady, WriteByIndex, OnlyHeap;
    CountNext(s, n + 1);
    BroadcastStanding(s, n, reg, data, clock);
    var u := Broadcast(s, n, reg, data, clock).0;
    StandingAt(s, u, s.slaves[n]);
    IndexAccepts(u, n, reg, data, clock(n));
  }

  /** Every online slave in range acknowledges a write to an in-range register, whatever else is registered. */
  lemma {:induction false} BroadcastCounts<R>(s: Sim<R>, n: nat, reg: uint16, data: seq<uint8>, clock: Readings)
    requires Ready(s) && |data| <= MAX_PAYLOAD && n <= |s.slaves| && Slaves.InRegisters(reg, |data|)
    ensures Broadcast(s, n, reg, data, clock).1 as int == CountFirst(s, n) % 0x1_0000
  {
    hide WellFormed, Roomy, CountFirst, Slaves.InRegisters, Increment, WriteByIndexReady, WriteByIndex, OnlyHeap;
    CountNext(s, n);
    if n > 0 {
      hide Broadcast;
      BroadcastNext(s, n - 1, reg, data, clock);
      BroadcastCounts(s, n - 1, reg, data, clock);
      NextIndexAccepts(s, n - 1, reg, data, clock);
      IncrementsCount(CountFirst(s, n - 1));
    }
  }

  lemma IndexAccepts<R>(s: Sim<R>, i: nat, reg: uint16, data: seq<uint8>, clock: E.Clock)
    requires Ready(s) && |data| <= MAX_PAYLOAD && i < |s.slaves| && Slaves.InRegisters(reg, |data|)
    ensures s.slaves[i] in s.heap && WriteByIndexReady(s, i, reg, data, clock).1 == s.heap[s.slaves[i]].online
  {
    if OnlineAt(s, i) { InRangeWriteAccepted(s.heap[s.slaves[i]], reg, data, clock); }
  }

  lemma CountNext<R>(s: Sim<R>, n: nat)
    requires Ready(s) && n <= |s.slaves|
    ensures n == 0 ==> CountFirst(s, n) == 0
    ensures n > 0 ==>
              && s.slaves[n - 1] in s.heap
              && CountFirst(s, n) == CountFirst(s, n - 1) + if s.heap[s.slaves[n - 1]].online then 1 else 0
  {
    if n > 0 { assert s.slaves[..n][..n - 1] == s.slaves[..n - 1]; }
  }

  lemma InRangeWriteAccepted(v: Slaves.Slave, reg: uint16, data: seq<uint8>, clock: E.Clock)
    requires Slaves.WellFormed(v) && Slaves.InRegisters(reg, |data|)
    ensures Slaves.Write(v, reg, data, clock).1
  {}

  /** A broadcast write never acknowledges more than the indices it visits, whatever the registry. */
  lemma {:induction false} AckWithinCount<R>(s: Sim<R>, n: nat, reg: uint16, data: seq<uint8>, clock: Readings)
    requires Ready(s) && |data| <= MAX_PAYLOAD
    ensures Broadcast(s, n, reg, data, clock).1 as int <= n
  {
    hide WellFormed, Roomy, OnlyHeap;
    if n > 0 {
      hide Broadcast, WriteByIndexReady, WriteByIndex;
      BroadcastNext(s, n - 1, reg, data, clock);
      AckWithinCount(s, n - 1, reg, data, clock);
    }
  }

  /** In the frame: a broadcast's working counter is within the online count. */
  lemma BroadcastCounterWithinOnline<R>(s: Sim<R>, d: Datagram, clock: Readings)
    requires Ready(s) && Ok(d) && d.header.command in {BWR, BRW}
    ensures EndpointStep(s, d, clock).1.wkc as int <= OnlineSlaveCount(s)
    ensures SocketStep(s, d, clock).1.wkc as int <= OnlineSlaveCount(s)
  {
    hide Broadcast, WellFormed, Roomy, SimulatorModel.OnlineSlaveCount;
    AckWithinCount(s, OnlineSlaveCount(s), Offset(d.header.address), d.data, clock);
  }

  function BroadcastWrite(reg: uint16, data: seq<uint8>): Datagram
    requires |data| <= MAX_PAYLOAD
  {
    Datagram(Header(BWR, 0, CreateAddress(0, reg), |data|, 0, 0), data, 0)
  }

  /** What a broadcast write does to the slaves of a registry without repetitions, whatever their order: the online
      ones below the online count take their solo steps, and no other slave is touched. */
  lemma BroadcastWriteIsSolo<R>(s: Sim<R>, reg: uint16, data: seq<uint8>, clock: Readings)
    requires Ready(s) && s.count == |s.slaves| && Distinct(s.slaves) && |data| <= MAX_PAYLOAD
    ensures var (t, d) := EndpointStep(s, BroadcastWrite(reg, data), clock);
            && OnlyHeap(s, t)
            && (forall i :: 0 <= i < |s.slaves| ==>
                  t.heap[s.slaves[i]] ==
                  if i < OnlineSlaveCount(s) && OnlineAt(s, i) then Slaves.Write(s.heap[s.slaves[i]], reg, data, clock(i)).0
                  else s.heap[s.slaves[i]])
            && (forall r :: r in s.heap && r !in s.slaves ==> t.heap[r] == s.heap[r])
  {
    hide Slaves.Write, Broadcast, Slaves.WellFormed;
    AddressRoundTrip(0, reg);
    var n := OnlineSlaveCount(s);
    forall i | 0 <= i < |s.slaves|
      ensures s.slaves[i] in s.heap
      ensures Broadcast(s, n, reg, data, clock).0.heap[s.slaves[i]] ==
              if i < n && s.heap[s.slaves[i]].online then Slaves.Write(s.heap[s.slaves[i]], reg, data, clock(i)).0
              else s.heap[s.slaves[i]]
    {
      BroadcastIsSolo(s, n, reg, data, clock, i);
    }
    forall r | r in s.heap && r !in s.slaves ensures Broadcast(s, n, reg, data, clock).0.heap[r] == s.heap[r] {
      BroadcastLeavesOthers(s, n, reg, data, clock, r);
    }
  }

  /** Its working counter is the number of online slaves below the online count, in 16 bits. */
  lemma BroadcastWriteCounts<R>(s: Sim<R>, reg: uint16, data: seq<uint8>, clock: Readings)
    requires Ready(s) && s.count == |s.slaves| && |data| <= MAX_PAYLOAD && Slaves.InRegisters(reg, |data|)
    ensures EndpointStep(s, BroadcastWrite(reg, data), clock).1.wkc as int == CountFirst(s, OnlineSlaveCount(s)) % 0x1_0000
  {
    hide Broadcast, CountFirst, WellFormed, Roomy;
    AddressRoundTrip(0, reg);
    BroadcastCounts(s, OnlineSlaveCount(s), reg, data, clock);
  }

  /** A broadcast write to an in-range register, over distinct slaves the online ones of which come first:
      each online slave takes its solo step, the offline ones are untouched, and the working counter is
      the online count (in 16 bits). */
  lemma BroadcastWriteReachesTheOnline<R>(s: Sim<R>, reg: uint16, data: seq<uint8>, clock: Readings)
    requires Ready(s) && s.count == |s.slaves| && Distinct(s.slaves) && OnlinePrefix(s)
    requires |data| <= MAX_PAYLOAD && Slaves.InRegisters(reg, |data|)
    ensures var (t, d) := EndpointStep(s, BroadcastWrite(reg, data), clock);
            && d.wkc as int == OnlineSlaveCount(s) % 0x1_0000
            && OnlyHeap(s, t)
            && (forall i :: 0 <= i < |s.slaves| ==>
                  t.heap[s.slaves[i]] ==
                  if OnlineAt(s, i) then Slaves.Write(s.heap[s.slaves[i]], reg, data, clock(i)).0 else s.heap[s.slaves[i]])
            && (forall r :: r in s.heap && r !in s.slaves ==> t.heap[r] == s.heap[r])
  {
    hide EndpointStep, Slaves.Write, SimulatorModel.OnlineSlaveCount;
    BroadcastReachesAllExactlyOnPrefix(s);
    BroadcastWriteIsSolo(s, reg, data, clock);
    BroadcastWriteCounts(s, reg, data, clock);
    OnlineAllBefore(s);
  }

  /** The counter tells: an in-range broadcast write is counted by all online slaves if and only if they come first
      in the registry and are few enough for 16 bits. */
  lemma BroadcastCountsAllExactlyOnPrefix<R>(s: Sim<R>, reg: uint16, data: seq<uint8>, clock: Readings)
    requires Ready(s) && s.count == |s.slaves| && |data| <= MAX_PAYLOAD && Slaves.InRegisters(reg, |data|)
    ensures EndpointStep(s, BroadcastWrite(reg, data), clock).1.wkc as int == OnlineSlaveCount(s) <==>
            OnlinePrefix(s) && OnlineSlaveCount(s) <= 0xFFFF
  {
    hide EndpointStep, WellFormed, Roomy, SimulatorModel.OnlineSlaveCount;
    BroadcastWriteCounts(s, reg, data, clock);
    FullCountExactlyOnPrefix(s);
  }

  lemma FullCountExactlyOnPrefix<R>(s: Sim<R>)
    requires WellFormed(s) && s.count == |s.slaves|
    ensures OnlineSlaveCount(s) <= |s.slaves| && CountFirst(s, OnlineSlaveCount(s)) <= OnlineSlaveCount(s)
    ensures CountFirst(s, OnlineSlaveCount(s)) == OnlineSlaveCount(s) <==> OnlinePrefix(s)
  {
    var n := OnlineSlaveCount(s);
    if OnlinePrefix(s) {
      OnlineAllBefore(s);
    }
    if CountFirst(s, n) == n {
      NoneAfterFullCount(s);
      BroadcastReachesAllExactlyOnPrefix(s);
    }
  }

  lemma NoneAfterFullCount<R>(s: Sim<R>)
    requires WellFormed(s) && s.count == |s.slaves| && CountFirst(s, OnlineSlaveCount(s)) == OnlineSlaveCount(s)
    ensures forall i :: 0 <= i < |s.slaves| && OnlineAt(s, i) ==> i < OnlineSlaveCount(s)
  {
    var n := OnlineSlaveCount(s);
    var tail := s.slaves[n..];
    assert s.slaves == s.slaves[..n] + tail;
    CountSplits(s.heap, s.slaves[..n], tail);
    CountExtremes(s.heap, tail);
    forall i | n <= i < |s.slaves| ensures !OnlineAt(s, i) { assert s.slaves[i] == tail[i - n]; }
  }

  /** One offline slave in front is enough: the online slave behind it is not touched, and nobody counts. */
  lemma OnlineBehindOfflineIsMissed<R>(s: Sim<R>, reg: uint16, data: seq<uint8>, clock: Readings)
    requires Ready(s) && s.count == |s.slaves| == 2 && s.slaves[0] != s.slaves[1]
    requires !OnlineAt(s, 0) && OnlineAt(s, 1)
    requires |data| <= MAX_PAYLOAD && Slaves.InRegisters(reg, |data|)
    ensures OnlineSlaveCount(s) == 1
    ensures var (t, d) := EndpointStep(s, BroadcastWrite(reg, data), clock);
            d.wkc == 0 && t.heap == s.heap
  {
    hide EndpointStep, Slaves.Write, Roomy;
    assert s.slaves == [s.slaves[0]] + [s.slaves[1]];
    CountSplits(s.heap, [s.slaves[0]], [s.slaves[1]]);
    assert s.slaves[..1] == [s.slaves[0]];
    BroadcastWriteIsSolo(s, reg, data, clock);
    BroadcastWriteCounts(s, reg, data, clock);
    var t := EndpointStep(s, BroadcastWrite(reg, data), clock).0;
    forall r | r in s.heap ensures t.heap[r] == s.heap[r] {
      if r in s.slaves { assert r == s.slaves[0] || r == s.slaves[1]; }
    }
  }

  lemma OnlineAllBefore<R>(s: Sim<R>)
    requires WellFormed(s) && s.count == |s.slaves| && OnlinePrefix(s)
    ensures CountOnline(s.heap, s.slaves[..OnlineSlaveCount(s)]) == OnlineSlaveCount(s)
  {
    var n := OnlineSlaveCount(s);
    var head, tail := s.slaves[..n], s.slaves[n..];
    assert s.slaves == head + tail;
    CountSplits(s.heap, head, tail);
    forall k | 0 <= k < |tail| ensures !s.heap[tail[k]].online {
      assert tail[k] == s.slaves[n + k];
      if OnlineAt(s, n + k) { PrefixFillsCount(s, n + k); }
    }
    CountExtremes(s.heap, tail);
  }

  /** One ACK|OPERATIONAL broadcast brings any mix of mapped online slaves to OPERATIONAL, errors cleared. */
  lemma OneBroadcastToOperational<R>(s: Sim<R>, clock: Readings)
    requires Ready(s) && s.count == |s.slaves| && Distinct(s.slaves) && OnlinePrefix(s)
    requires forall i :: 0 <= i < |s.slaves| && OnlineAt(s, i) ==>
               s.heap[s.slaves[i]].mapped && AlMachine.Ranked(s.heap[s.slaves[i]].al.state)
    ensures var (t, _) := EndpointStep(s, BroadcastWrite(Slaves.AL_CONTROL, [0x18, 0x00]), clock);
            forall i :: 0 <= i < |s.slaves| && OnlineAt(s, i) ==>
              t.heap[s.slaves[i]].al == AlMachine.Al(AlMachine.Operational, AlMachine.NO_ERROR, false)
  {
    hide Slaves.Write, EndpointStep, OnlinePrefix, Roomy, OnlyHeap, Distinct, Slaves.WellFormed, AlMachine.AlWrite;
    var data: seq<uint8> := [0x18, 0x00];
    BroadcastWriteReachesTheOnline(s, Slaves.AL_CONTROL, data, clock);
    forall i | 0 <= i < |s.slaves| && OnlineAt(s, i)
      ensures Slaves.Write(s.heap[s.slaves[i]], Slaves.AL_CONTROL, data, clock(i)).0.al ==
              AlMachine.Al(AlMachine.Operational, AlMachine.NO_ERROR, false)
    {
      SP.AlControlWriteMirrors(s.heap[s.slaves[i]], data, clock(i));
      AlMachine.AckOperationalRequest(s.heap[s.slaves[i]].al);
    }
  }

  /** And where none was operational before, that broadcast brings them all there if and only if the online slaves
      come first in the registry: one behind an offline slave can be left in its state. */
  lemma OneBroadcastSufficesExactlyOnPrefix<R>(s: Sim<R>, clock: Readings)
    requires Ready(s) && s.count == |s.slaves| && Distinct(s.slaves)
    requires forall i :: 0 <= i < |s.slaves| && OnlineAt(s, i) ==>
               && s.heap[s.slaves[i]].mapped && AlMachine.Ranked(s.heap[s.slaves[i]].al.state)
               && s.heap[s.slaves[i]].al.state != AlMachine.Operational
    ensures var (t, _) := EndpointStep(s, BroadcastWrite(Slaves.AL_CONTROL, [0x18, 0x00]), clock);
            (forall i :: 0 <= i < |s.slaves| && OnlineAt(s, i) ==> t.heap[s.slaves[i]].al.state == AlMachine.Operational)
            <==> OnlinePrefix(s)
  {
    hide EndpointStep, Slaves.Write, Roomy, OnlyHeap;
    BroadcastWriteIsSolo(s, Slaves.AL_CONTROL, [0x18, 0x00], clock);
    BroadcastReachesAllExactlyOnPrefix(s);
    if OnlinePrefix(s) {
      OneBroadcastToOperational(s, clock);
    }
  }

  // ---- station addresses

  /** The datagram that gives the slave at index `i` its station address. */
  function Assign(i: nat, address: uint16): (d: Datagram)
    ensures Ok(d)
  {
    Datagram(Header(APWR, 0, CreateAddress(EncodeIndex(i), Slaves.STATION_ADDR), 2, 0, 0), [Lo(address), Hi(address)], 0)
  }

  function AssignAll(addresses: seq<uint16>): (f: Frame)
    ensures FrameOk(f) && |f| == |addresses|
  {
    seq(|addresses|, i requires 0 <= i < |addresses| => Assign(i, addresses[i]))
  }

  /** One assignment: index `i` gets the address; an index `j` of another slave keeps all it had. */
  lemma AssignOne<R>(s: Sim<R>, i: nat, address: uint16, clock: Readings, j: nat)
    requires Ready(s) && i <= 0x8000 && OnlineAt(s, i) && OnlineAt(s, j) && (i == j || s.slaves[i] != s.slaves[j])
    ensures var (t, d) := EndpointStep(s, Assign(i, address), clock);
            && d.wkc == 1 && OnlyHeap(s, t) && OnlineAt(t, j)
            && s.slaves[j] in s.heap
            && t.heap[s.slaves[j]].address == if i == j then address else s.heap[s.slaves[j]].address
  {
    AddressRoundTrip(EncodeIndex(i), Slaves.STATION_ADDR);
    DecodeInvertsExactlyUpTo32768(i);
    AddressWritten(s.heap[s.slaves[i]], address, clock(0));
  }

  lemma AddressWritten(v: Slaves.Slave, address: uint16, clock: E.Clock)
    requires Slaves.WellFormed(v)
    ensures var (w, ok) := Slaves.Write(v, Slaves.STATION_ADDR, [Lo(address), Hi(address)], clock);
            ok && w.address == address && w.online == v.online
  {
    var regs := Splice(v.regs, Slaves.STATION_ADDR, [Lo(address), Hi(address)]);
    var lo, hi := regs[Slaves.STATION_ADDR], regs[Slaves.STATION_ADDR + 1];
    assert lo == Lo(address) && hi == Hi(address);
    assert Le16(lo, hi) == address;
  }

  /** The first `k` assignments done: slave `i` is still online, and if it was among them it has its address
      and its datagram counted 1. */
  lemma {:induction false} AssignFirst<R>(s: Sim<R>, addresses: seq<uint16>, cs: seq<Readings>, k: nat, i: nat)
    requires Ready(s) && k <= |addresses| == |cs| && |addresses| <= 0x8001 && i < |addresses|
    requires |addresses| <= |s.slaves| && Distinct(s.slaves[..|addresses|])
    requires forall j :: 0 <= j < |addresses| ==> OnlineAt(s, j)
    ensures var (t, g) := Process(s, AssignAll(addresses)[..k], cs[..k]);
            && OnlyHeap(s, t) && OnlineAt(t, i)
            && (i < k ==> t.heap[s.slaves[i]].address == addresses[i] && g[i].wkc == 1)
    decreases k
  {
    hide WellFormed, Roomy;
    hide EndpointStep, Assign, OnlineAt;
    var f := AssignAll(addresses);
    if k == 0 {
      assert f[..0] == [];
    } else {
      AssignFirst(s, addresses, cs, k - 1, i);
      AssignFirst(s, addresses, cs, k - 1, k - 1);
      assert f[..k][..k - 1] == f[..k - 1] && cs[..k][..k - 1] == cs[..k - 1];
      var u := Process(s, f[..k - 1], cs[..k - 1]).0;
      AssignOne(u, k - 1, addresses[k - 1], cs[k - 1], i);
      if i < k - 1 {
        assert s.slaves[..|addresses|][i] != s.slaves[..|addresses|][k - 1];
      } else if i > k - 1 {
        assert s.slaves[..|addresses|][k - 1] != s.slaves[..|addresses|][i];
      }
    }
  }

  lemma {:induction false} LookupFindsFirst<R>(h: map<R, Slaves.Slave>, slaves: seq<R>, address: uint16, i: nat)
    requires forall r :: r in slaves ==> r in h
    requires i < |slaves| && h[slaves[i]].online && h[slaves[i]].address == address
    requires forall j :: 0 <= j < i ==> !(h[slaves[j]].online && h[slaves[j]].address == address)
    ensures Lookup(h, slaves, address) == Some(slaves[i])
    decreases i
  {
    if i > 0 {
      assert slaves[1..][i - 1] == slaves[i];
      forall j | 0 <= j < i - 1
        ensures !(h[slaves[1..][j]].online && h[slaves[1..][j]].address == address)
      {
        assert slaves[1..][j] == slaves[j + 1];
      }
      LookupFindsFirst(h, slaves[1..], address, i - 1);
    }
  }

  /** Address assignment: one pass of auto-increment writes carrying distinct addresses to the first n <= 32769
      slaves, distinct and online, acknowledges once each; from then on reaching slave `i` by its address and
      by its index is the same access, for every register, read or write, whatever slaves come after. */
  lemma AddressingByStationIsAddressingByIndex<R>(s: Sim<R>, addresses: seq<uint16>, cs: seq<Readings>, i: nat,
                                                     reg: uint16, data: seq<uint8>, clock: E.Clock)
    requires Ready(s) && |addresses| == |cs| && |addresses| <= 0x8001
    requires |addresses| <= |s.slaves| && Distinct(s.slaves[..|addresses|])
    requires forall k :: 0 <= k < |addresses| ==> OnlineAt(s, k)
    requires forall j, k :: 0 <= j < k < |addresses| ==> addresses[j] != addresses[k]
    requires i < |addresses|
    ensures var (t, g) := Process(s, AssignAll(addresses), cs);
            && g[i].wkc == 1
            && ReadFromSlave(t, addresses[i], reg, data) == ReadByIndex(t, i, reg, data)
            && WriteToSlave(t, addresses[i], reg, data, clock) == WriteByIndex(t, i, reg, data, clock)
  {
    var n := |addresses|;
    forall k | 0 <= k < n
      ensures var t := Process(s, AssignAll(addresses)[..n], cs[..n]).0;
              OnlyHeap(s, t) && OnlineAt(t, k) && t.heap[s.slaves[k]].address == addresses[k]
    {
      AssignFirst(s, addresses, cs, n, k);
    }
    AssignFirst(s, addresses, cs, n, i);
    assert AssignAll(addresses)[..n] == AssignAll(addresses) && cs[..n] == cs;
    var t := Process(s, AssignAll(addresses), cs).0;
    LookupFindsFirst(t.heap, t.slaves, addresses[i], i);
  }

  // ---- logical memory

  /** Between periodic passes logical memory is a plain byte array: after a logical write, a read returns,
      byte by byte, what was written where the ranges meet and the old byte elsewhere; a rejected access
      changes nothing. */
  lemma LogicalMemoryIsAByteArray<R>(s: Sim<R>, a: uint32, data: seq<uint8>, b: uint32, dst: seq<uint8>)
    requires WellFormed(s)
    ensures var (t, written) := WriteLogical(s, a, data);
            var (out, read) := ReadLogical(t, b, dst);
            && written == (a as int + |data| <= LOGICAL_SIZE) && read == (b as int + |dst| <= LOGICAL_SIZE)
            && (!written ==> t == s) && (!read ==> out == dst)
            && (read ==> forall k :: 0 <= k < |dst| ==>
                  out[k] == if written && a as int <= b as int + k < a as int + |data| then data[b as int + k - a as int]
                            else s.logical[b as int + k])
  {}
}
