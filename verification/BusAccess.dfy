/** What each kind of datagram does, told of the slaves alone and in numbers: whom it reaches, what it leaves there and in
    the frame, and what it counts. */
module BusAccess {
  import opened Bytes
  import opened Datagrams
  import opened SimulatorModel
  import opened BusModel
  import opened BusProperties
  import E = El1258Model
  import Slaves = SlaveModel
  import SP = SlaveProperties

  // ---- addresses and counts

  /** A header's address is its offset above its position, 16 bits each. */
  lemma AddressInNumbers(address: uint32)
    ensures Position(address) == address % 0x1_0000 && Offset(address) == address / 0x1_0000
    ensures CreateAddress(Position(address), Offset(address)) == address
  {}

  /** Positions below 0x8000 are indices themselves, the others count down from 0x10000, at both programs. */
  lemma IndexInNumbers(position: uint16)
    ensures DecodeIndex(position) == SocketIndex(position) ==
            if position < 0x8000 then position as int else 0x1_0000 - position as int
  {}

  function OnlineIndices<R(==)>(heap: map<R, Slaves.Slave>, slaves: seq<R>): set<nat>
    requires forall r :: r in slaves ==> r in heap
  {
    set i: nat | i < |slaves| && heap[slaves[i]].online
  }

  /** The count is how many indices are online. */
  lemma {:induction false} CountIsCardinality<R>(heap: map<R, Slaves.Slave>, slaves: seq<R>)
    requires forall r :: r in slaves ==> r in heap
    ensures CountOnline(heap, slaves) == |OnlineIndices(heap, slaves)|
    decreases |slaves|
  {
    if slaves != [] {
      var k := |slaves| - 1;
      CountIsCardinality(heap, slaves[..k]);
      var before := OnlineIndices(heap, slaves[..k]);
      assert OnlineIndices(heap, slaves) == if heap[slaves[k]].online then before + {k} else before;
    }
  }

  /** The commands that reach no slave only count: BRD counts the online slaves in 16 bits, where the endpoint never says
      0; ARMW and FRMW are counted so at the endpoint; and what else there is counts 1 if anybody is online. */
  lemma CountersInNumbers<R>(s: Sim<R>, d: Datagram, clock: Readings)
    requires Ready(s) && Ok(d) && d.header.command !in {APRD, APWR, APRW, FPRD, FPWR, FPRW, BWR, BRW, LRD, LWR, LRW}
    ensures var n := OnlineSlaveCount(s);
            var atLeastOne := if n % 0x1_0000 == 0 then 1 else n % 0x1_0000;
            var any := if n > 0 then 1 else 0;
            var (t, e) := EndpointStep(s, d, clock);
            var (u, k) := SocketStep(s, d, clock);
            && t == u == s && e == d.(wkc := e.wkc) && k == d.(wkc := k.wkc)
            && e.wkc as int == (match d.header.command
                                case NOP => 0
                                case BRD | ARMW | FRMW => atLeastOne
                                case _ => any)
            && k.wkc as int == (match d.header.command
                                case BRD => n % 0x1_0000
                                case _ => any)
  {
    hide WellFormed, Roomy, OnlyHeap, SimulatorModel.OnlineSlaveCount;
  }

  // ---- one slave

  /** The lookup finds nobody exactly when nobody online has the address; whom it finds is the first who does. */
  lemma {:induction false} LookupIsExact<R>(h: map<R, Slaves.Slave>, slaves: seq<R>, address: uint16)
    requires forall r :: r in slaves ==> r in h
    ensures var found := Lookup(h, slaves, address);
            && (found.None? <==> forall i :: 0 <= i < |slaves| ==> !(h[slaves[i]].online && h[slaves[i]].address == address))
            && (found.Some? ==> exists i :: 0 <= i < |slaves| && slaves[i] == found.value
                                 && h[slaves[i]].online && h[slaves[i]].address == address
                                 && forall j :: 0 <= j < i ==> !(h[slaves[j]].online && h[slaves[j]].address == address))
    decreases |slaves|
  {
    if forall i :: 0 <= i < |slaves| ==> !(h[slaves[i]].online && h[slaves[i]].address == address) {
      LookupFindsNobody(h, slaves, address);
    } else {
      var i := FirstWith(h, slaves, address);
      LookupFindsFirst(h, slaves, address, i);
    }
  }

  lemma {:induction false} LookupFindsNobody<R>(h: map<R, Slaves.Slave>, slaves: seq<R>, address: uint16)
    requires forall r :: r in slaves ==> r in h
    requires forall i :: 0 <= i < |slaves| ==> !(h[slaves[i]].online && h[slaves[i]].address == address)
    ensures Lookup(h, slaves, address) == None
    decreases |slaves|
  {
    if slaves != [] {
      assert forall i :: 0 <= i < |slaves| - 1 ==> slaves[1..][i] == slaves[i + 1];
      LookupFindsNobody(h, slaves[1..], address);
    }
  }

  lemma {:induction false} FirstWith<R>(h: map<R, Slaves.Slave>, slaves: seq<R>, address: uint16) returns (i: nat)
    requires forall r :: r in slaves ==> r in h
    requires exists i :: 0 <= i < |slaves| && h[slaves[i]].online && h[slaves[i]].address == address
    ensures i < |slaves| && h[slaves[i]].online && h[slaves[i]].address == address
    ensures forall j :: 0 <= j < i ==> !(h[slaves[j]].online && h[slaves[j]].address == address)
  {
    i := 0;
    while !(h[slaves[i]].online && h[slaves[i]].address == address)
      invariant i < |slaves|
      invariant forall j :: 0 <= j < i ==> !(h[slaves[j]].online && h[slaves[j]].address == address)
      decreases |slaves| - i
    {
      i := i + 1;
    }
  }

  /** Slave `i` is the first online one with the address. */
  predicate Answers<R(==)>(s: Sim<R>, i: nat, address: uint16)
    requires WellFormed(s)
  {
    && OnlineAt(s, i) && s.heap[s.slaves[i]].address == address
    && forall j :: 0 <= j < i ==> !(OnlineAt(s, j) && s.heap[s.slaves[j]].address == address)
  }

  /** Nobody online has the address. */
  predicate Nobody<R(==)>(s: Sim<R>, address: uint16)
    requires WellFormed(s)
  {
    forall i :: 0 <= i < |s.slaves| ==> !(OnlineAt(s, i) && s.heap[s.slaves[i]].address == address)
  }

  lemma LookupAnswers<R>(s: Sim<R>, i: nat, address: uint16)
    requires WellFormed(s)
    ensures Nobody(s, address) ==> Lookup(s.heap, s.slaves, address) == None
    ensures Answers(s, i, address) ==> Lookup(s.heap, s.slaves, address) == Some(s.slaves[i]) && s.slaves[i] in s.heap
  {
    if Nobody(s, address) { LookupFindsNobody(s.heap, s.slaves, address); }
    if Answers(s, i, address) { LookupFindsFirst(s.heap, s.slaves, address, i); }
  }

  /** A slave taking one datagram on its own: a read command reads it into the data, any other writes the data to it; the
      counter is 1 if it accepts and 0 if not. */
  function Alone(v: Slaves.Slave, d: Datagram, clock: E.Clock): (r: (Slaves.Slave, Datagram))
    requires Slaves.WellFormed(v) && Slaves.RoomForMessages(v) && Ok(d)
    ensures Slaves.WellFormed(r.0) && Ok(r.1)
  {
    if d.header.command in {FPRD, APRD} then
      var (w, out, ok) := Slaves.Read(v, d.header.address / 0x1_0000, d.data);
      (w, d.(data := out, wkc := if ok then 1 else 0))
    else
      var (w, ok) := Slaves.Write(v, d.header.address / 0x1_0000, d.data, clock);
      (w, d.(wkc := if ok then 1 else 0))
  }

  /** The station-addressed commands, at both programs: the first online slave with the address takes the datagram on its
      own, and nothing else changes; if there is none, nothing at all does and the counter is 0. */
  lemma StationDatagram<R>(s: Sim<R>, d: Datagram, clock: Readings, i: nat)
    requires Ready(s) && Ok(d) && d.header.command in {FPRD, FPWR, FPRW}
    ensures var address := d.header.address % 0x1_0000;
            && (Answers(s, i, address) ==>
                  && s.slaves[i] in s.heap
                  && var (v, e) := Alone(s.heap[s.slaves[i]], d, clock(0));
                     EndpointStep(s, d, clock) == (s.(heap := s.heap[s.slaves[i] := v]), e) == SocketStep(s, d, clock))
            && (Nobody(s, address) && s.count == |s.slaves| ==>
                  EndpointStep(s, d, clock) == (s, d.(wkc := 0)) == SocketStep(s, d, clock))
  {
    var address := d.header.address % 0x1_0000;
    hide EndpointStep, SocketStep, Alone, WellFormed, Roomy;
    LookupAnswers(s, i, address);
    StationStepByLookup(s, d, clock);
    StepsAgreeExactly(s, d, clock);
  }

  lemma StationStepByLookup<R>(s: Sim<R>, d: Datagram, clock: Readings)
    requires Ready(s) && Ok(d) && d.header.command in {FPRD, FPWR, FPRW}
    ensures var found := Lookup(s.heap, s.slaves, d.header.address % 0x1_0000);
            && (found.Some? ==>
                  && found.value in s.heap && Slaves.WellFormed(s.heap[found.value]) && Slaves.RoomForMessages(s.heap[found.value])
                  && var (v, e) := Alone(s.heap[found.value], d, clock(0));
                     EndpointStep(s, d, clock) == (s.(heap := s.heap[found.value := v]), e))
            && (found.None? && s.count == |s.slaves| ==> EndpointStep(s, d, clock) == (s, d.(wkc := 0)))
  {
    hide Slaves.Write, Slaves.Read, Lookup, OnlyHeap;
  }

  /** The position-addressed commands likewise, by index: the slave there if it is online, else nobody. */
  lemma PositionDatagram<R>(s: Sim<R>, d: Datagram, clock: Readings)
    requires Ready(s) && Ok(d) && d.header.command in {APRD, APWR, APRW}
    ensures var position := d.header.address % 0x1_0000;
            var i := if position < 0x8000 then position else 0x1_0000 - position;
            && (OnlineAt(s, i) ==>
                  && s.slaves[i] in s.heap
                  && var (v, e) := Alone(s.heap[s.slaves[i]], d, clock(0));
                     EndpointStep(s, d, clock) == (s.(heap := s.heap[s.slaves[i] := v]), e) == SocketStep(s, d, clock))
            && (!OnlineAt(s, i) ==>
                  EndpointStep(s, d, clock) == (s, d.(wkc := 0)) == SocketStep(s, d, clock))
  {
    hide EndpointStep, SocketStep, Alone, DecodeIndex, SocketIndex, WellFormed, Roomy;
    IndexInNumbers(d.header.address % 0x1_0000);
    PositionStepByIndex(s, d, clock);
    StepsAgreeExactly(s, d, clock);
  }

  lemma PositionStepByIndex<R>(s: Sim<R>, d: Datagram, clock: Readings)
    requires Ready(s) && Ok(d) && d.header.command in {APRD, APWR, APRW}
    ensures var i := DecodeIndex(d.header.address % 0x1_0000);
            && (OnlineAt(s, i) ==>
                  && s.slaves[i] in s.heap && Slaves.WellFormed(s.heap[s.slaves[i]]) && Slaves.RoomForMessages(s.heap[s.slaves[i]])
                  && var (v, e) := Alone(s.heap[s.slaves[i]], d, clock(0));
                     EndpointStep(s, d, clock) == (s.(heap := s.heap[s.slaves[i] := v]), e))
            && (!OnlineAt(s, i) ==> EndpointStep(s, d, clock) == (s, d.(wkc := 0)))
  {
    hide Slaves.Write, Slaves.Read, DecodeIndex, OnlyHeap;
  }

  /** The logical commands: LRD fills the data from the 16384 bytes, LWR and LRW lay it over them, each only if it fits
      whole; nothing else changes. */
  lemma LogicalDatagram<R>(s: Sim<R>, d: Datagram, clock: Readings)
    requires Ready(s) && Ok(d) && d.header.command in {LRD, LWR, LRW}
    ensures var (t, e) := EndpointStep(s, d, clock);
            var a := d.header.address as int;
            var fits := a + |d.data| <= 16384;
            && SocketStep(s, d, clock) == (t, e)
            && e.header == d.header && e.wkc as int == (if fits then 1 else 0) && |e.data| == |d.data|
            && t == s.(logical := t.logical) && |t.logical| == |s.logical| == 16384
            && (forall k :: 0 <= k < 16384 ==>
                  t.logical[k] == if fits && d.header.command != LRD && a <= k < a + |d.data| then d.data[k - a] else s.logical[k])
            && (forall k :: 0 <= k < |d.data| ==>
                  e.data[k] == if fits && d.header.command == LRD then s.logical[a + k] else d.data[k])
  {
    StepsAgreeExactly(s, d, clock);
    hide SocketStep;
  }

  /** Of the read-write commands, the broadcast included, only the write is done: each does what the write command of its
      kind does, and a broadcast's position is of no account. */
  lemma BroadcastDatagram<R>(s: Sim<R>, d: Datagram, clock: Readings)
    requires Ready(s) && Ok(d) && d.header.command in {BWR, BRW}
    ensures var (t, e) := EndpointStep(s, d, clock);
            var (u, k) := EndpointStep(s, BroadcastWrite(d.header.address / 0x1_0000, d.data), clock);
            && t == u && e == d.(wkc := k.wkc) && SocketStep(s, d, clock) == (t, e)
  {
    AddressRoundTrip(0, d.header.address / 0x1_0000);
    StepsAgreeExactly(s, d, clock);
    hide SocketStep, Broadcast;
  }

  // ---- a whole frame for one slave

  /** Addressed to the station, and not changing its address. */
  predicate ForStation(d: Datagram, address: uint16) {
    && Ok(d) && d.header.command in {FPRD, FPWR, FPRW} && d.header.address % 0x1_0000 == address
    && (d.header.command == FPRD || d.header.address / 0x1_0000 != 0x0010)
  }

  lemma AloneKeepsPlace(v: Slaves.Slave, d: Datagram, clock: E.Clock, address: uint16)
    requires Slaves.WellFormed(v) && Slaves.RoomForMessages(v) && ForStation(d, address)
    ensures var w := Alone(v, d, clock).0;
            w.online == v.online && w.address == v.address && Slaves.RoomForMessages(w)
  {
    hide Slaves.Write, Slaves.WellFormed;
    if d.header.command != FPRD {
      SP.WriteTouches(v, d.header.address / 0x1_0000, d.data, clock);
      SP.FrameWritesNeverRelocate(v, d.header.address / 0x1_0000, |d.data|);
    }
  }

  /** The slave taking the datagrams of a frame one after another on its own. */
  function AloneAll(v: Slaves.Slave, f: Frame, cs: seq<Readings>, address: uint16): (r: (Slaves.Slave, Frame))
    requires Slaves.WellFormed(v) && Slaves.RoomForMessages(v) && |cs| == |f| && forall d :: d in f ==> ForStation(d, address)
    ensures Slaves.WellFormed(r.0) && Slaves.RoomForMessages(r.0) && |r.1| == |f|
    ensures r.0.online == v.online && r.0.address == v.address
  {
    if f == [] then (v, [])
    else
      var k := |f| - 1;
      var (w, done) := AloneAll(v, f[..k], cs[..k], address);
      AloneKeepsPlace(w, f[k], cs[k](0), address);
      var (x, d) := Alone(w, f[k], cs[k](0));
      (x, done + [d])
  }

  lemma AloneNone(v: Slaves.Slave, address: uint16)
    requires Slaves.WellFormed(v) && Slaves.RoomForMessages(v)
    ensures AloneAll(v, [], [], address) == (v, [])
  {}

  lemma AloneNext(v: Slaves.Slave, f: Frame, cs: seq<Readings>, address: uint16, k: nat)
    requires Slaves.WellFormed(v) && Slaves.RoomForMessages(v) && |cs| == |f| && k < |f|
    requires forall d :: d in f ==> ForStation(d, address)
    ensures forall d :: d in f[..k + 1] ==> d in f
    ensures ForStation(f[k], address)
    ensures var (w, done) := AloneAll(v, f[..k], cs[..k], address);
            var (x, d) := Alone(w, f[k], cs[k](0));
            AloneAll(v, f[..k + 1], cs[..k + 1], address) == (x, done + [d])
  {
    assert f[..k + 1][..k] == f[..k] && cs[..k + 1][..k] == cs[..k];
    assert f[..k + 1][k] == f[k] && cs[..k + 1][k] == cs[k];
  }

  lemma AnswersAfter<R>(s: Sim<R>, i: nat, address: uint16, w: Slaves.Slave)
    requires Ready(s) && Answers(s, i, address) && Slaves.WellFormed(w) && Slaves.RoomForMessages(w)
    requires w.online == s.heap[s.slaves[i]].online && w.address == s.heap[s.slaves[i]].address
    ensures var t := s.(heap := s.heap[s.slaves[i] := w]); Ready(t) && Answers(t, i, address)
  {}

  /** A frame for one station is to the bus what it is to that slave alone: the slave and the frame end as if it had taken
      the datagrams on its own, and no other slave, nor anything else, changes. */
  lemma {:induction false} StationFrameIsAlone<R>(s: Sim<R>, i: nat, address: uint16, f: Frame, cs: seq<Readings>)
    requires Ready(s) && Answers(s, i, address) && |cs| == |f| && forall d :: d in f ==> ForStation(d, address)
    ensures FrameOk(f) && s.slaves[i] in s.heap
    ensures Slaves.WellFormed(s.heap[s.slaves[i]]) && Slaves.RoomForMessages(s.heap[s.slaves[i]])
    ensures var (w, g) := AloneAll(s.heap[s.slaves[i]], f, cs, address);
            Process(s, f, cs) == (s.(heap := s.heap[s.slaves[i] := w]), g)
    decreases |f|
  {
    hide EndpointStep, Alone, WellFormed, Roomy, Slaves.WellFormed, Slaves.RoomForMessages, Answers;
    InHeap(s, i, address);
    var r := s.slaves[i];
    if f == [] {
      assert s.heap[r := s.heap[r]] == s.heap;
    } else {
      hide Process, AloneAll, OnlyHeap;
      var k := |f| - 1;
      assert ForStation(f[k], address) && f[..k + 1] == f && cs[..k + 1] == cs;
      StationFrameIsAlone(s, i, address, f[..k], cs[..k]);
      var (w, g) := AloneAll(s.heap[r], f[..k], cs[..k], address);
      StationDatagramNext(s, i, address, w, f[k], cs[k]);
      ProcessNext(s, f, cs, k);
      AloneNext(s.heap[r], f, cs, address, k);
    }
  }

  /** One more datagram, the slave having come to `w`. */
  lemma StationDatagramNext<R>(s: Sim<R>, i: nat, address: uint16, w: Slaves.Slave, d: Datagram, clock: Readings)
    requires Ready(s) && Answers(s, i, address) && Slaves.WellFormed(w) && Slaves.RoomForMessages(w) && ForStation(d, address)
    requires w.online == s.heap[s.slaves[i]].online && w.address == s.heap[s.slaves[i]].address
    ensures s.slaves[i] in s.heap
    ensures var u := s.(heap := s.heap[s.slaves[i] := w]);
            var (x, e) := Alone(w, d, clock(0));
            Ready(u) && EndpointStep(u, d, clock) == (s.(heap := s.heap[s.slaves[i] := x]), e)
  {
    hide EndpointStep, Alone, Roomy, Slaves.WellFormed, Slaves.RoomForMessages, OnlyHeap;
    var r := s.slaves[i];
    var u := s.(heap := s.heap[r := w]);
    AnswersAfter(s, i, address, w);
    hide Answers, WellFormed;
    StationDatagram(u, d, clock, i);
    var (x, e) := Alone(w, d, clock(0));
    assert u.heap[r] == w && u.heap[r := x] == s.heap[r := x];
  }

  lemma InHeap<R>(s: Sim<R>, i: nat, address: uint16)
    requires Ready(s) && Answers(s, i, address)
    ensures i < |s.slaves| && s.slaves[i] in s.heap
    ensures Slaves.WellFormed(s.heap[s.slaves[i]]) && Slaves.RoomForMessages(s.heap[s.slaves[i]])
  {}
}
