/** Frames over a byte stream: a 16-bit big-endian length, then that many bytes. The operating system may
    cut every send and receive into chunks of any size. */
module Framing {
  import opened Bytes

  type Packet = seq<uint8>

  const MAX_FRAME := 1500

  function Prefix(len: uint16): (b: seq<uint8>)
    ensures |b| == 2
  {
    [Hi(len), Lo(len)]
  }

  function LengthOf(b: seq<uint8>): uint16
    requires |b| >= 2
  {
    Le16(b[1], b[0])
  }

  predicate Sendable(f: Packet) { 1 <= |f| <= 1500 }

  function Encode(f: Packet): seq<uint8> { Prefix(|f| % 0x1_0000) + f }

  function EncodeAll(fs: seq<Packet>): seq<uint8> {
    if fs == [] then [] else Encode(fs[0]) + EncodeAll(fs[1..])
  }

  /** A frame goes out as its length, high byte first, and its bytes. */
  lemma EncodedBytes(f: Packet)
    requires |f| < 0x1_0000
    ensures |Encode(f)| == |f| + 2 && 0x100 * Encode(f)[0] as int + Encode(f)[1] as int == |f| && Encode(f)[2..] == f
  {}

  // ---- the two ends of a connection

  class Socket {
    /** Whether calls on the connection can fail, and whether whoever serves it can be asked to stop. */
    const faulty: bool
    const stoppable: bool
    /** Bytes the peer has sent or will send; bytes handed to the peer. */
    var incoming: seq<uint8>
    var outgoing: seq<uint8>

    predicate Calm() { !faulty && !stoppable }

    /** `recv`: some of the next bytes; none at the end of the stream, or on an error. */
    method Recv(left: nat) returns (chunk: seq<uint8>)
      requires left > 0
      modifies this`incoming
      ensures chunk + incoming == old(incoming) && |chunk| <= left
      ensures chunk == [] ==> faulty || incoming == []
    {
      var fails: bool := *;
      if |incoming| == 0 || (faulty && fails) {
        return [];
      }
      var n :| 1 <= n <= left && n <= |incoming|;
      chunk, incoming := incoming[..n], incoming[n..];
    }

    /** `send`: takes some prefix of the data, or fails and takes nothing. */
    method Send(data: seq<uint8>) returns (n: int)
      requires |data| > 0
      modifies this`outgoing
      ensures n <= |data| && (n <= 0 ==> faulty)
      ensures outgoing == old(outgoing) + data[..if n > 0 then n else 0]
    {
      var fails: bool := *;
      if faulty && fails {
        assert data[..0] == [];
        return -1;
      }
      n :| 1 <= n <= |data|;
      outgoing := outgoing + data[..n];
    }

    /** Polls until the connection is ready; gives up on an error, or when asked to stop. */
    method Poll() returns (ready: bool)
      ensures !ready ==> !Calm()
    {
      var ends: bool := *;
      ready := !(ends && (faulty || stoppable));
    }

    /** The stop flag. */
    method StopRequested() returns (stop: bool)
      ensures stop ==> stoppable
    {
      var asked: bool := *;
      stop := stoppable && asked;
    }

    /** Puts a chunk behind the first `p` bytes of a buffer. */
    method Place(buf: array<uint8>, p: nat, chunk: seq<uint8>)
      requires p + |chunk| <= buf.Length
      modifies buf
      ensures buf[..p + |chunk|] == old(buf[..p]) + chunk && buf[p + |chunk|..] == old(buf[p + |chunk|..])
    {
      forall i | 0 <= i < |chunk| {
        buf[p + i] := chunk[i];
      }
    }

    /** `read_exact_nb`: fills the first `len` bytes from the stream, `n` of them if it gives up. */
    method ReadExact(buf: array<uint8>, len: nat) returns (ok: bool, ghost n: nat)
      requires len <= buf.Length
      modifies this`incoming, buf
      ensures n <= len && buf[..n] + incoming == old(incoming) && buf[n..] == old(buf[n..])
      ensures ok <==> n == len
      ensures !ok && Calm() ==> incoming == []
    {
      var p, left := 0, len;
      while left > 0
        invariant 0 <= p && 0 <= left && p + left == len
        invariant buf[..p] + incoming == old(incoming) && buf[p..] == old(buf[p..])
        decreases left
      {
        var ready := Poll();
        if !ready {
          return false, p;
        }
        var chunk := Recv(left);
        if |chunk| == 0 {
          return false, p;
        }
        ghost var filled, rest := buf[..p], buf[p..];
        Place(buf, p, chunk);
        assert (filled + chunk) + incoming == filled + (chunk + incoming);
        assert old(buf[p + |chunk|..]) == rest[|chunk|..];
        p, left := p + |chunk|, left - |chunk|;
      }
      return true, p;
    }

    /** `readAll_`: the same without polling. */
    method ReadAll(buf: array<uint8>, len: nat) returns (ok: bool, ghost n: nat)
      requires len <= buf.Length
      modifies this`incoming, buf
      ensures n <= len && buf[..n] + incoming == old(incoming) && buf[n..] == old(buf[n..])
      ensures ok <==> n == len
      ensures !ok && !faulty ==> incoming == []
    {
      var p, left := 0, len;
      while left > 0
        invariant 0 <= p && 0 <= left && p + left == len
        invariant buf[..p] + incoming == old(incoming) && buf[p..] == old(buf[p..])
        decreases left
      {
        var chunk := Recv(left);
        if |chunk| == 0 {
          return false, p;
        }
        ghost var filled, rest := buf[..p], buf[p..];
        Place(buf, p, chunk);
        assert (filled + chunk) + incoming == filled + (chunk + incoming);
        assert old(buf[p + |chunk|..]) == rest[|chunk|..];
        p, left := p + |chunk|, left - |chunk|;
      }
      return true, p;
    }

    /** `write_exact_nb`: hands the data to the peer, `n` bytes of it if it gives up. */
    method WriteExact(data: seq<uint8>) returns (ok: bool, ghost n: nat)
      modifies this`outgoing
      ensures n <= |data| && outgoing == old(outgoing) + data[..n]
      ensures (ok <==> n == |data|) && (Calm() ==> ok)
    {
      var p, left := 0, |data|;
      while left > 0
        invariant 0 <= p && 0 <= left && p + left == |data| && outgoing == old(outgoing) + data[..p]
        decreases left
      {
        var ready := Poll();
        if !ready {
          return false, p;
        }
        var k := Send(data[p..]);
        if k <= 0 {
          return false, p;
        }
        assert data[..p + k] == data[..p] + data[p..][..k];
        p, left := p + k, left - k;
      }
      return true, p;
    }

    /** `writeAll_`: the same without polling. */
    method WriteAll(data: seq<uint8>) returns (ok: bool, ghost n: nat)
      modifies this`outgoing
      ensures n <= |data| && outgoing == old(outgoing) + data[..n]
      ensures (ok <==> n == |data|) && (!faulty ==> ok)
    {
      var p, left := 0, |data|;
      while left > 0
        invariant 0 <= p && 0 <= left && p + left == |data| && outgoing == old(outgoing) + data[..p]
        decreases left
      {
        var k := Send(data[p..]);
        if k <= 0 {
          return false, p;
        }
        assert data[..p + k] == data[..p] + data[p..][..k];
        p, left := p + k, left - k;
      }
      return true, p;
    }
  }

  // ---- the endpoint's request and reply loop

  /** The frames a stream starts with: it ends at a bad length or where the stream breaks off. */
  function Parse(stream: seq<uint8>): (fs: seq<Packet>)
    ensures forall f :: f in fs ==> Sendable(f)
    decreases |stream|
  {
    if |stream| < 2 then []
    else
      var len := LengthOf(stream);
      if len == 0 || len > MAX_FRAME || |stream| - 2 < len then []
      else [stream[2..2 + len]] + Parse(stream[2 + len..])
  }

  lemma PrefixRoundTrip(len: uint16, rest: seq<uint8>)
    ensures LengthOf(Prefix(len) + rest) == len && (Prefix(len) + rest)[2..] == rest
  {}

  lemma ParseOne(f: Packet, rest: seq<uint8>)
    requires Sendable(f)
    ensures Parse(Encode(f) + rest) == [f] + Parse(rest)
  {
    var stream := Encode(f) + rest;
    assert stream == Prefix(|f|) + (f + rest);
    PrefixRoundTrip(|f|, f + rest);
    assert stream[2..2 + |f|] == f && stream[2 + |f|..] == rest;
  }

  /** Every list of frames of 1 to 1500 bytes is recovered exactly, whatever follows it. */
  lemma {:induction false} ParseRecoversFrames(fs: seq<Packet>, rest: seq<uint8>)
    requires forall f :: f in fs ==> Sendable(f)
    ensures Parse(EncodeAll(fs) + rest) == fs + Parse(rest)
    decreases |fs|
  {
    hide Parse, Encode;
    if fs == [] {
      assert EncodeAll(fs) + rest == rest;
      assert fs + Parse(rest) == Parse(rest);
    } else {
      assert EncodeAll(fs) == Encode(fs[0]) + EncodeAll(fs[1..]);
      assert EncodeAll(fs) + rest == Encode(fs[0]) + (EncodeAll(fs[1..]) + rest);
      ParseOne(fs[0], EncodeAll(fs[1..]) + rest);
      ParseRecoversFrames(fs[1..], rest);
      assert [fs[0]] + (fs[1..] + Parse(rest)) == fs + Parse(rest);
    }
  }

  /** A frame cut short adds nothing: a stream that breaks off inside the next frame yields the whole ones. */
  lemma BrokenTailAddsNothing(fs: seq<Packet>, f: Packet, cut: nat)
    requires (forall g :: g in fs ==> Sendable(g)) && Sendable(f) && cut < |Encode(f)|
    ensures Parse(EncodeAll(fs) + Encode(f)[..cut]) == fs
  {
    ParseRecoversFrames(fs, Encode(f)[..cut]);
    BrokenFrame(f, cut);
    assert fs + [] == fs;
  }

  lemma CutBehind(a: seq<uint8>, b: seq<uint8>, n: nat)
    requires n <= |b|
    ensures (a + b)[..|a| + n] == a + b[..n]
  {}

  /** A length of 0 or over 1500 ends the parse, whatever follows. */
  lemma BadLengthEndsTheParse(fs: seq<Packet>, rest: seq<uint8>)
    requires (forall g :: g in fs ==> Sendable(g)) && |rest| >= 2
    requires var len := 0x100 * rest[0] as int + rest[1] as int; len == 0 || len > 1500
    ensures Parse(EncodeAll(fs) + rest) == fs
  {
    ParseRecoversFrames(fs, rest);
    assert fs + [] == fs;
  }

  lemma BrokenFrame(f: Packet, cut: nat)
    requires Sendable(f) && cut < |Encode(f)|
    ensures Parse(Encode(f)[..cut]) == []
  {
    hide Parse;
    EncodedBytes(f);
    if cut < 2 {
      ParseNext(Encode(f)[..cut]);
    } else {
      EncodedIsPrefixed(f);
      hide Encode, Prefix;
      CutBehind(Prefix(|f|), f, cut - 2);
      ParseShort(|f|, f[..cut - 2]);
    }
  }

  lemma EncodedIsPrefixed(f: Packet)
    requires |f| < 0x1_0000
    ensures Encode(f) == Prefix(|f|) + f
  {}

  lemma ParseShort(len: uint16, rest: seq<uint8>)
    requires |rest| < len
    ensures Parse(Prefix(len) + rest) == []
  {
    hide Parse;
    PrefixRoundTrip(len, rest);
    hide Prefix, LengthOf;
    ParseNext(Prefix(len) + rest);
  }

  /** The replies to a list of frames, the processing state threaded through. */
  function Replies<S>(step: (S, Packet) -> (S, Packet), s: S, fs: seq<Packet>): (r: (S, seq<Packet>))
    ensures |r.1| == |fs|
  {
    if fs == [] then (s, [])
    else
      var k := |fs| - 1;
      var (u, done) := Replies(step, s, fs[..k]);
      var (t, reply) := step(u, fs[k]);
      (t, done + [reply])
  }

  lemma {:induction false} RepliesKeepLengths<S(!new)>(step: (S, Packet) -> (S, Packet), s: S, fs: seq<Packet>)
    requires forall u, f :: |step(u, f).1| == |f|
    ensures forall i :: 0 <= i < |fs| ==> |Replies(step, s, fs).1[i]| == |fs[i]|
    decreases |fs|
  {
    if fs != [] { RepliesKeepLengths(step, s, fs[..|fs| - 1]); }
  }

  lemma {:induction false} EncodeAllSnoc(fs: seq<Packet>, f: Packet)
    ensures EncodeAll(fs + [f]) == EncodeAll(fs) + Encode(f)
    decreases |fs|
  {
    if fs == [] {
      assert EncodeAll([f]) == Encode(f) + EncodeAll([]);
    } else {
      assert (fs + [f])[1..] == fs[1..] + [f];
      EncodeAllSnoc(fs[1..], f);
    }
  }

  lemma RepliesNext<S>(step: (S, Packet) -> (S, Packet), s: S, fs: seq<Packet>, f: Packet)
    ensures var (u, done) := Replies(step, s, fs);
            var (t, reply) := step(u, f);
            Replies(step, s, fs + [f]) == (t, done + [reply])
  {
    assert (fs + [f])[..|fs|] == fs;
  }

  /** Where the stream breaks off, or announces a bad length, nothing more is parsed; else one frame is. */
  lemma ParseNext(stream: seq<uint8>)
    ensures |stream| < 2 ==> Parse(stream) == []
    ensures |stream| >= 2 ==>
              var len := LengthOf(stream);
              Parse(stream) ==
              if 1 <= len <= MAX_FRAME && |stream| - 2 >= len then [stream[2..2 + len]] + Parse(stream[2 + len..]) else []
  {}

  /** What reading two bytes, then that many, makes of the stream. */
  lemma TookFrame(stream: seq<uint8>, head: seq<uint8>, middle: seq<uint8>, body: seq<uint8>, rest: seq<uint8>)
    requires |head| == 2 && stream == head + middle && middle == body + rest && |body| == LengthOf(head)
    ensures |stream| >= 2 && LengthOf(stream) == LengthOf(head) && |stream| - 2 >= |body|
    ensures stream[2..2 + |body|] == body && stream[2 + |body|..] == rest
  {
    assert stream[2..] == middle;
    assert stream[2..2 + |body|] == middle[..|body|];
    assert stream[2 + |body|..] == middle[|body|..];
  }

  /** Reads one length-prefixed frame. There is none at a bad length, where the stream ends, or when reading is
      given up. */
  method ReadFrame(sock: Socket) returns (frame: Option<Packet>, invalid: bool)
    modifies sock`incoming
    ensures frame.Some? ==> Parse(old(sock.incoming)) == [frame.value] + Parse(sock.incoming) && |sock.incoming| < |old(sock.incoming)|
    ensures frame.None? && sock.Calm() ==> Parse(old(sock.incoming)) == []
  {
    hide Parse;
    ghost var stream := sock.incoming;
    ParseNext(stream);
    var beLen := new uint8[2](_ => 0);
    var ok, n := sock.ReadExact(beLen, 2);
    if !ok {
      return None, false;
    }
    ghost var head, middle := beLen[..], sock.incoming;
    assert beLen[..2] == head;
    var len := LengthOf(beLen[..]);
    if len == 0 || len > MAX_FRAME {
      return None, true;
    }
    var buf := new uint8[len](_ => 0);
    ok, n := sock.ReadExact(buf, len);
    if !ok {
      return None, false;
    }
    assert buf[..len] == buf[..];
    TookFrame(stream, head, middle, buf[..], sock.incoming);
    return Some(buf[..]), false;
  }

  /** Writes a length and that many bytes, `n` of them if it gives up. */
  method WriteFrame(sock: Socket, frame: Packet) returns (ok: bool, ghost n: nat)
    modifies sock`outgoing
    ensures n <= |Encode(frame)| && sock.outgoing == old(sock.outgoing) + Encode(frame)[..n]
    ensures (ok <==> n == |Encode(frame)|) && (sock.Calm() ==> ok)
  {
    var prefix := Prefix(|frame| % 0x1_0000);
    ok, n := sock.WriteExact(prefix);
    assert Encode(frame)[..n] == prefix[..n];
    if ok && |frame| > 0 {
      var done, k := sock.WriteExact(frame);
      assert Encode(frame)[..2 + k] == prefix + frame[..k];
      return done, 2 + k;
    }
    assert ok ==> frame == [];
  }

  /** One frame served: processed, then the periodic pass. */
  function Served<S>(process: (S, Packet) -> (S, Packet), pass: S -> S): (S, Packet) -> (S, Packet) {
    (s, f) => (pass(process(s, f).0), process(s, f).1)
  }

  /** What a connection has seen after `n` of the stream's frames were served: their replies went out in order, the
      last of them perhaps cut short. */
  ghost predicate ServedFirst<S>(process: (S, Packet) -> (S, Packet), pass: S -> S, s0: S, frames: seq<Packet>, n: nat,
                                 s: S, sent: seq<uint8>, whole: bool)
  {
    && n <= |frames|
    && var (t, replies) := Replies(Served(process, pass), s0, frames[..n]);
       && s == t
       && sent <= EncodeAll(replies)
       && (whole ==> sent == EncodeAll(replies))
       && (n > 0 ==> EncodeAll(replies[..n - 1]) <= sent)
  }

  /** Serves one connection: each frame read is processed in place, the periodic pass is run, and the frame is
      written back with its length. It ends at the end of the stream, at a length of 0 or over 1500, on an error or
      when asked to stop, gracefully only in the last case. However it ends, it has served the first `n` frames of
      the stream; undisturbed, it has served them all and written every reply. */
  method HandleClient<S(!new)>(sock: Socket, process: (S, Packet) -> (S, Packet), pass: S -> S, s0: S)
    returns (s: S, graceful: bool, ghost n: nat)
    modifies sock
    ensures graceful ==> sock.stoppable
    ensures old(sock.outgoing) <= sock.outgoing
    ensures ServedFirst(process, pass, s0, Parse(old(sock.incoming)), n, s, sock.outgoing[|old(sock.outgoing)|..], sock.Calm())
    ensures sock.Calm() ==> n == |Parse(old(sock.incoming))|
  {
    s := s0;
    ghost var frames, before := Parse(sock.incoming), sock.outgoing;
    n := 0;
    ServiceBegins(process, pass, s0, frames, sock.incoming, before);
    while true
      invariant InService(process, pass, s0, frames, n, s, sock.incoming, before, sock.outgoing)
      decreases |sock.incoming|
    {
      hide Parse, Encode, InService, ServedFirst;
      ServiceSoFar(process, pass, s0, frames, n, s, sock.incoming, before, sock.outgoing);
      var stop := sock.StopRequested();
      if stop {
        return s, true, n;
      }
      ghost var incoming, outgoing := sock.incoming, sock.outgoing;
      var frame, invalid := ReadFrame(sock);
      if frame == None {
        if invalid {
          return s, false, n;
        }
        stop := sock.StopRequested();
        return s, stop, n;
      }
      var (t, reply) := process(s, frame.value);
      ghost var u := s;
      s := pass(t);
      var ok, k := WriteFrame(sock, reply);
      ServiceGoesOn(process, pass, s0, frames, n, u, frame.value, incoming, sock.incoming, before, outgoing, k);
      n := n + 1;
      if !ok {
        stop := sock.StopRequested();
        return s, stop, n;
      }
      assert Encode(reply)[..k] == Encode(reply);
    }
  }

  /** Where the loop stands after `n` frames: the rest of them is still to come, every reply so far is out. */
  ghost predicate InService<S>(process: (S, Packet) -> (S, Packet), pass: S -> S, s0: S, frames: seq<Packet>, n: nat, s: S,
                               incoming: seq<uint8>, before: seq<uint8>, outgoing: seq<uint8>)
  {
    && n <= |frames| && Parse(incoming) == frames[n..]
    && s == Replies(Served(process, pass), s0, frames[..n]).0
    && outgoing == before + EncodeAll(Replies(Served(process, pass), s0, frames[..n]).1)
  }

  lemma ServiceBegins<S>(process: (S, Packet) -> (S, Packet), pass: S -> S, s0: S, frames: seq<Packet>,
                         incoming: seq<uint8>, before: seq<uint8>)
    requires Parse(incoming) == frames
    ensures InService(process, pass, s0, frames, 0, s0, incoming, before, before)
  {
    assert frames[..0] == [] && frames[0..] == frames && before + [] == before;
  }

  lemma ServiceSoFar<S>(process: (S, Packet) -> (S, Packet), pass: S -> S, s0: S, frames: seq<Packet>, n: nat, s: S,
                        incoming: seq<uint8>, before: seq<uint8>, outgoing: seq<uint8>)
    requires InService(process, pass, s0, frames, n, s, incoming, before, outgoing)
    ensures before <= outgoing && ServedFirst(process, pass, s0, frames, n, s, outgoing[|before|..], true)
    ensures Parse(incoming) == [] ==> n == |frames|
  {
    hide Parse, Served;
    var replies := Replies(Served(process, pass), s0, frames[..n]).1;
    assert outgoing[|before|..] == EncodeAll(replies);
    if n > 0 {
      assert replies == replies[..n - 1] + [replies[n - 1]];
      EncodeAllSnoc(replies[..n - 1], replies[n - 1]);
    }
  }

  lemma ServiceGoesOn<S>(process: (S, Packet) -> (S, Packet), pass: S -> S, s0: S, frames: seq<Packet>, n: nat, s: S, frame: Packet,
                         incoming: seq<uint8>, rest: seq<uint8>, before: seq<uint8>, outgoing: seq<uint8>, k: nat)
    requires InService(process, pass, s0, frames, n, s, incoming, before, outgoing)
    requires Parse(incoming) == [frame] + Parse(rest) && k <= |Encode(process(s, frame).1)|
    ensures n < |frames|
    ensures var (t, reply) := process(s, frame);
            var after := outgoing + Encode(reply)[..k];
            if k == |Encode(reply)| then InService(process, pass, s0, frames, n + 1, pass(t), rest, before, after)
            else before <= after && ServedFirst(process, pass, s0, frames, n + 1, pass(t), after[|before|..], false)
  {
    hide Parse, Encode, EncodeAll, Replies, Served;
    var replies := Replies(Served(process, pass), s0, frames[..n]).1;
    var (t, reply) := process(s, frame);
    assert frame == frames[n..][0] && frames[n + 1..] == frames[n..][1..] == Parse(rest);
    assert frames[..n + 1] == frames[..n] + [frame];
    RepliesNext(Served(process, pass), s0, frames[..n], frame);
    ServedOne(process, pass, s, frame);
    EncodeAllSnoc(replies, reply);
    var after := outgoing + Encode(reply)[..k];
    if k == |Encode(reply)| {
      assert after == before + (EncodeAll(replies) + Encode(reply));
    } else {
      assert (replies + [reply])[..n] == replies;
      assert after[|before|..] == EncodeAll(replies) + Encode(reply)[..k];
    }
  }

  lemma ServedOne<S>(process: (S, Packet) -> (S, Packet), pass: S -> S, s: S, f: Packet)
    ensures Served(process, pass)(s, f) == (pass(process(s, f).0), process(s, f).1)
  {}

  // ---- the master's side

  /** What one read with a buffer of `size` bytes makes of a stream of whole frames: the outcome, and the
      stream left over. The size is compared after a cast to 16 bits. */
  datatype Outcome = Frame(data: Packet) | TooBig | TimedOut

  function ReadOne(stream: seq<uint8>, size: nat): (Outcome, seq<uint8>) {
    if |stream| < 2 then (TimedOut, [])
    else
      var len := LengthOf(stream);
      if len > size % 0x1_0000 then (TooBig, if |stream| - 2 >= len then stream[2 + len..] else [])
      else if |stream| - 2 < len then (TimedOut, [])
      else (Frame(stream[2..2 + len]), stream[2 + len..])
  }

  /** Successive reads, each with its own buffer size. */
  function ReadMany(stream: seq<uint8>, sizes: seq<nat>): (seq<Outcome>, seq<uint8>)
    decreases |sizes|
  {
    if sizes == [] then ([], stream)
    else
      var (o, rest) := ReadOne(stream, sizes[0]);
      var (os, left) := ReadMany(rest, sizes[1..]);
      ([o] + os, left)
  }

  class MasterSocket {
    const sock: Socket
    /** Whether there is a connection: `fd_ != -1`. */
    var connected: bool

    constructor (sock: Socket)
      ensures this.sock == sock && connected
    {
      this.sock := sock;
      connected := true;
    }

    /** Writes one frame, `n` bytes of its encoding if the connection fails. */
    method Write(frame: seq<uint8>) returns (result: int, ghost n: nat)
      modifies sock
      ensures n <= |Encode(frame)| && sock.outgoing == old(sock.outgoing) + Encode(frame)[..n] && sock.incoming == old(sock.incoming)
      ensures result == if n == |Encode(frame)| then |frame| else -1
      ensures !connected ==> n == 0
      ensures connected && !sock.faulty ==> n == |Encode(frame)|
    {
      if !connected {
        assert Encode(frame)[..0] == [];
        return -1, 0;
      }
      var prefix := Prefix(|frame| % 0x1_0000);
      var ok;
      ok, n := sock.WriteAll(prefix);
      assert Encode(frame)[..n] == prefix[..n];
      if !ok {
        return -1, n;
      }
      ghost var k;
      ok, k := sock.WriteAll(frame);
      assert Encode(frame)[..2 + k] == prefix + frame[..k];
      if !ok {
        return -1, 2 + k;
      }
      return |frame|, 2 + k;
    }

    /** Reads one frame into the buffer; a frame too big for it is consumed whole. Nothing is returned as a frame that
        is not one, connection failures or not. */
    method Read(buf: array<uint8>) returns (result: int)
      modifies sock`incoming, buf
      ensures !connected ==> result == -1 && sock.incoming == old(sock.incoming)
      ensures connected && !sock.faulty ==>
                var (o, rest) := ReadOne(old(sock.incoming), buf.Length);
                && sock.incoming == rest
                && match o
                   case Frame(data) => result == |data| <= buf.Length && buf[..|data|] == data
                   case TooBig => result == -1
                   case TimedOut => result == 0
      ensures result > 0 ==> result <= buf.Length && ReadOne(old(sock.incoming), buf.Length) == (Frame(buf[..result]), sock.incoming)
    {
      if !connected {
        return -1;
      }
      ghost var stream := sock.incoming;
      var beLen := new uint8[2](_ => 0);
      var ok, n := sock.ReadAll(beLen, 2);
      if !ok {
        return 0;
      }
      ghost var head, middle := beLen[..], sock.incoming;
      assert beLen[..2] == head;
      var len := LengthOf(beLen[..]);
      assert stream[2..] == middle;
      if len > buf.Length % 0x1_0000 {
        var tmp := new uint8[len](_ => 0);
        ok, n := sock.ReadAll(tmp, len);
        if n == len { TookFrame(stream, head, middle, tmp[..n], sock.incoming); }
        return -1;
      }
      ok, n := sock.ReadAll(buf, len);
      if !ok {
        return 0;
      }
      TookFrame(stream, head, middle, buf[..len], sock.incoming);
      return len;
    }
  }

  lemma ReadOneWhole(f: Packet, rest: seq<uint8>, size: nat)
    requires |f| < 0x1_0000
    ensures ReadOne(Encode(f) + rest, size) == (if |f| <= size % 0x1_0000 then Frame(f) else TooBig, rest)
  {
    var stream := Encode(f) + rest;
    assert stream == Prefix(|f|) + (f + rest);
    PrefixRoundTrip(|f|, f + rest);
    hide Prefix, Encode, LengthOf;
    assert stream[2..] == f + rest;
    assert stream[2..2 + |f|] == (f + rest)[..|f|] == f;
    assert stream[2 + |f|..] == (f + rest)[|f|..] == rest;
  }

  /** Where the stream breaks off inside a frame the read times out, or refuses the frame if it was too big. */
  lemma BrokenReadTimesOut(f: Packet, cut: nat, size: nat)
    requires |f| < 0x1_0000 && cut < |Encode(f)|
    ensures ReadOne(Encode(f)[..cut], size) == (if cut >= 2 && |f| > size % 0x1_0000 then TooBig else TimedOut, [])
  {
    EncodedBytes(f);
  }

  /** Reads stay aligned: the i-th read of a stream of frames returns the i-th frame if the buffer holds it
      and refuses it otherwise, in both cases consuming exactly that frame. */
  lemma {:induction false} ReadsStayAligned(fs: seq<Packet>, sizes: seq<nat>, rest: seq<uint8>)
    requires |sizes| == |fs| && forall f :: f in fs ==> |f| < 0x1_0000
    ensures var (os, left) := ReadMany(EncodeAll(fs) + rest, sizes);
            && left == rest && |os| == |fs|
            && forall i :: 0 <= i < |fs| ==> os[i] == if |fs[i]| <= sizes[i] % 0x1_0000 then Frame(fs[i]) else TooBig
    decreases |fs|
  {
    if fs == [] {
      assert EncodeAll(fs) + rest == rest;
    } else {
      assert EncodeAll(fs) + rest == Encode(fs[0]) + (EncodeAll(fs[1..]) + rest);
      ReadOneWhole(fs[0], EncodeAll(fs[1..]) + rest, sizes[0]);
      ReadsStayAligned(fs[1..], sizes[1..], rest);
    }
  }

  /** End to end: for every list of frames of 1 to 1500 bytes the master writes, the endpoint recovers exactly
      those, and the master reads their replies in order and with equal lengths, one too big for its buffer
      refused without upsetting the next. Chunking does not matter, as the methods above show. */
  lemma EndToEnd<S(!new)>(step: (S, Packet) -> (S, Packet), s: S, fs: seq<Packet>, sizes: seq<nat>)
    requires forall u, f :: |step(u, f).1| == |f|
    requires (forall f :: f in fs ==> Sendable(f)) && |sizes| == |fs|
    ensures Parse(EncodeAll(fs)) == fs
    ensures var replies := Replies(step, s, Parse(EncodeAll(fs))).1;
            var (os, left) := ReadMany(EncodeAll(replies), sizes);
            && left == [] && |os| == |fs| == |replies|
            && forall i :: 0 <= i < |fs| ==>
                 && |replies[i]| == |fs[i]|
                 && os[i] == if |fs[i]| <= sizes[i] % 0x1_0000 then Frame(replies[i]) else TooBig
  {
    assert EncodeAll(fs) + [] == EncodeAll(fs) && fs + Parse([]) == fs;
    ParseRecoversFrames(fs, []);
    RepliesKeepLengths(step, s, fs);
    var replies := Replies(step, s, fs).1;
    assert EncodeAll(replies) + [] == EncodeAll(replies);
    forall r | r in replies ensures |r| < 0x1_0000 {
      var i :| 0 <= i < |replies| && replies[i] == r;
      assert fs[i] in fs;
    }
    ReadsStayAligned(replies, sizes, []);
  }
}
