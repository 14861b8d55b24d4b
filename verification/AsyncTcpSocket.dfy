/** Packets over a TCP byte stream: a packet is its 16-bit big-endian length followed by its bytes. */
module Framing {
  import Seqs

  type byte = x: int | 0 <= x < 256 witness 0
  type Bytes = seq<byte>

  const PACKET_LEN_SIZE: nat := 2
  const MAX_LENGTH: nat := 65535

  /** The bytes that Send puts on the wire for a packet. */
  function Frame(p: Bytes): Bytes
    requires |p| <= MAX_LENGTH
  {
    [|p| / 256, |p| % 256] + p
  }

  predicate Packets(ps: seq<Bytes>) {
    forall p | p in ps :: |p| <= MAX_LENGTH
  }

  function Frames(ps: seq<Bytes>): Bytes
    requires Packets(ps)
  {
    if ps == [] then [] else Frame(ps[0]) + Frames(ps[1..])
  }

  /** The whole packets at the front of a byte string, and what is left after them. */
  datatype Parsed = Parsed(packets: seq<Bytes>, rest: Bytes)

  function GetBE16(b: Bytes): nat
    requires |b| >= 2
  {
    (b[0] as int) * 256 + b[1]
  }

  predicate Complete(b: Bytes) {
    |b| >= PACKET_LEN_SIZE && |b| >= PACKET_LEN_SIZE + GetBE16(b)
  }

  function Parse(b: Bytes): Parsed
    decreases |b|
  {
    if !Complete(b) then Parsed([], b)
    else
      var n := PACKET_LEN_SIZE + GetBE16(b);
      var tail := Parse(b[n..]);
      Parsed([b[PACKET_LEN_SIZE..n]] + tail.packets, tail.rest)
  }

  /** On the wire: the high byte of the length, its low byte, and the packet; 258 bytes begin with 1 and 2. */
  lemma FrameBytes(p: Bytes, f: Bytes)
    requires |p| <= MAX_LENGTH
    ensures f == Frame(p) <==> |f| == |p| + 2 && (f[0] as int) * 256 + f[1] == |p| && f[2..] == p
    ensures |p| == 258 ==> Frame(p) == [1, 2] + p
  {
    if |f| == |p| + 2 && (f[0] as int) * 256 + f[1] == |p| && f[2..] == p {
      assert f == [f[0], f[1]] + f[2..];
    }
  }

  /** What is left is less than one packet: at most a length and all but one byte of the longest packet. */
  lemma {:induction false} RestBound(b: Bytes)
    ensures |Parse(b).rest| <= PACKET_LEN_SIZE + MAX_LENGTH - 1 && !Complete(Parse(b).rest)
    decreases |b|
  {
    if Complete(b) {
      RestBound(b[PACKET_LEN_SIZE + GetBE16(b)..]);
    }
  }

  lemma FramesCons(p: Bytes, ps: seq<Bytes>)
    requires |p| <= MAX_LENGTH && Packets(ps)
    ensures Packets([p] + ps) && Frames([p] + ps) == Frame(p) + Frames(ps)
  {
    assert ([p] + ps)[1..] == ps;
  }

  /** A frame parses to its packet, whatever follows it. */
  lemma ParseFrame(p: Bytes, tail: Bytes)
    requires |p| <= MAX_LENGTH
    ensures Parse(Frame(p) + tail) == Parsed([p] + Parse(tail).packets, Parse(tail).rest)
  {
    var b, n := Frame(p) + tail, |Frame(p)|;
    assert GetBE16(b) == |p|;
    assert b[n..] == tail && b[PACKET_LEN_SIZE..n] == p;
  }

  /** A byte string that holds a whole packet starts with its frame. */
  lemma StartsWithFrame(b: Bytes) returns (p: Bytes, tail: Bytes)
    requires Complete(b)
    ensures |p| <= MAX_LENGTH && b == Frame(p) + tail && |tail| < |b|
  {
    var n := PACKET_LEN_SIZE + GetBE16(b);
    p, tail := b[PACKET_LEN_SIZE..n], b[n..];
    assert b[..PACKET_LEN_SIZE] == [|p| / 256, |p| % 256];
    assert b == b[..PACKET_LEN_SIZE] + p + tail;
  }

  /** Nothing is lost or invented: the packets framed again, and the rest, are the input. */
  lemma {:induction false} ParseConserves(b: Bytes)
    ensures Packets(Parse(b).packets) && Frames(Parse(b).packets) + Parse(b).rest == b
    decreases |b|
  {
    if Complete(b) {
      var p, tail := StartsWithFrame(b);
      ParseFrame(p, tail);
      ParseConserves(tail);
      FramesCons(p, Parse(tail).packets);
      Seqs.Assoc(Frame(p), Frames(Parse(tail).packets), Parse(tail).rest);
    }
  }

  /** Parsing can stop anywhere and go on later with what was left. */
  lemma {:induction false} ParseAppend(a: Bytes, b: Bytes)
    ensures var first := Parse(a); var second := Parse(first.rest + b);
      Parse(a + b) == Parsed(first.packets + second.packets, second.rest)
    decreases |a|
  {
    if Complete(a) {
      var p, tail := StartsWithFrame(a);
      ParseFrame(p, tail);
      ParseFrame(p, tail + b);
      ParseAppend(tail, b);
      Seqs.Assoc(Frame(p), tail, b);
      Seqs.Assoc([p], Parse(tail).packets, Parse(Parse(tail).rest + b).packets);
    }
  }

  /** Whole frames, and less than a frame after them, parse back to exactly the packets and that rest. */
  lemma {:induction false} ParseFrames(ps: seq<Bytes>, rest: Bytes)
    requires Packets(ps) && !Complete(rest)
    ensures Parse(Frames(ps) + rest) == Parsed(ps, rest)
  {
    if ps == [] {
      assert Frames(ps) + rest == rest;
    } else {
      ParseFrames(ps[1..], rest);
      ParseFrame(ps[0], Frames(ps[1..]) + rest);
      Seqs.Assoc(Frame(ps[0]), Frames(ps[1..]), rest);
      assert [ps[0]] + ps[1..] == ps;
    }
  }

  lemma {:induction false} FramesAppend(ps: seq<Bytes>, qs: seq<Bytes>)
    requires Packets(ps) && Packets(qs)
    ensures Packets(ps + qs) && Frames(ps + qs) == Frames(ps) + Frames(qs)
  {
    if ps == [] {
      assert ps + qs == qs;
    } else {
      FramesAppend(ps[1..], qs);
      assert (ps + qs)[1..] == ps[1..] + qs && (ps + qs)[0] == ps[0];
      Seqs.Assoc(Frame(ps[0]), Frames(ps[1..]), Frames(qs));
    }
  }
}

/** AsyncTCPSocket of asynctcpsocket.cc.  The operating system's socket is not modelled: each call takes what that
    socket answers as a parameter, so a statement about all answers is a statement about all schedules. */
module AsyncTcpSocket {
  import opened Framing
  import opened Wrappers
  import Memory
  import Seqs

  const MAX_PACKET_SIZE: nat := 64 * 1024
  const BUF_SIZE: nat := MAX_PACKET_SIZE + PACKET_LEN_SIZE

  /** What the sending side has done: bytes taken by the socket, bytes still buffered, packets accepted. */
  datatype SenderState = SenderState(wire: Bytes, out: Bytes, accepted: seq<Bytes>)

  /** What the receiving side has done: bytes handed up by the socket, bytes still buffered, packets delivered. */
  datatype ReceiverState = ReceiverState(received: Bytes, buffered: Bytes, delivered: seq<Bytes>)

  class AsyncTcpSocket {
    const inbuf: array<byte>
    const outbuf: array<byte>
    var inpos: nat
    var outpos: nat
    ghost var wire: Bytes               // every byte the socket below has taken, in order
    ghost var accepted: seq<Bytes>      // the packets signalled as sent
    ghost var received: Bytes           // every byte the socket below has handed up, in order
    ghost var delivered: seq<Bytes>     // the packets signalled as read

    ghost predicate Shape()
      reads this
    {
      && inbuf != outbuf && inbuf.Length == BUF_SIZE && outbuf.Length == BUF_SIZE
      && inpos <= inbuf.Length && outpos <= outbuf.Length
    }

    ghost predicate Valid()
      reads this, inbuf, outbuf
    {
      Shape() && Sending(Sender()) && Receiving(Receiver())
    }

    ghost function Sender(): SenderState
      reads this, outbuf
      requires outpos <= outbuf.Length
    {
      SenderState(wire, outbuf[..outpos], accepted)
    }

    ghost function Receiver(): ReceiverState
      reads this, inbuf
      requires inpos <= inbuf.Length
    {
      ReceiverState(received, inbuf[..inpos], delivered)
    }

    constructor ()
      ensures Valid() && fresh(inbuf) && fresh(outbuf)
      ensures Sender() == SenderState([], [], []) && Receiver() == ReceiverState([], [], [])
    {
      inbuf := new byte[BUF_SIZE];
      outbuf := new byte[BUF_SIZE];
      inpos, outpos := 0, 0;
      wire, received, accepted, delivered := [], [], [], [];
    }

    /** Appends to `outbuf`; the first requires is the assertion of the source. */
    method AppendToOutBuffer(pv: Bytes)
      requires outpos + |pv| < outbuf.Length
      requires inbuf != outbuf
      modifies this`outpos, outbuf
      ensures outpos == old(outpos) + |pv| && outbuf[..outpos] == old(outbuf[..outpos]) + pv
    {
      Memory.Copy(outbuf, outpos, pv);
      outpos := outpos + |pv|;
    }

    /** Hands `outbuf` to the socket, which takes `answer` bytes of it, or none and reports an error or a block. */
    method FlushOutBuffer(answer: int) returns (res: int)
      requires outpos <= outbuf.Length && answer <= outpos && inbuf != outbuf
      modifies this`outpos, this`wire, outbuf
      ensures res == answer && outpos <= outbuf.Length
      ensures Sender() == Flushed(old(Sender()), answer)
    {
      res := answer;
      if res <= 0 {
        return;
      }
      wire := wire + outbuf[..res];
      assert outbuf[..outpos][..res] == outbuf[..res] && outbuf[..outpos][res..] == outbuf[res..outpos];
      outpos := outpos - res;
      if outpos > 0 {
        Memory.MoveDown(outbuf, res, outpos);
      }
    }

    /** Sends one packet.  `answer` is what the socket says, should it be asked.  There is no result where the assertion
        of AppendToOutBuffer fails: that is for a packet whose size passes the check here but not the length field. */
    method Send(pv: Bytes, answer: int) returns (res: Option<int>)
      requires Valid() && (outpos == 0 && |pv| <= MAX_LENGTH ==> answer <= |Frame(pv)|)
      modifies this`outpos, this`wire, this`accepted, outbuf
      ensures res == None <==> old(outpos) == 0 && MAX_LENGTH < |pv| <= BUF_SIZE
      ensures res == None ==> wire == old(wire) && accepted == old(accepted)
      ensures res != None ==> Valid()
      ensures |pv| > BUF_SIZE ==> res == Some(-1) && Sender() == old(Sender())
      ensures |pv| <= BUF_SIZE && old(outpos) > 0 ==> res == Some(|pv|) && Sender() == old(Sender())
      ensures |pv| <= MAX_LENGTH && old(outpos) == 0 ==>
        Sender() == Sent(old(Sender()), pv, answer) && res == Some(if answer <= 0 then answer else |pv|)
    {
      if |pv| > BUF_SIZE {
        return Some(-1);
      }
      if outpos != 0 {
        return Some(|pv|);
      }
      if |pv| <= MAX_LENGTH {
        SentKeeps(Sender(), pv, answer);
      }
      res := SendNow(pv, answer);
    }

    /** The rest of Send, once the buffer is known to be empty. */
    method SendNow(pv: Bytes, answer: int) returns (res: Option<int>)
      requires Shape() && outpos == 0 && |pv| <= BUF_SIZE && (|pv| <= MAX_LENGTH ==> answer <= |Frame(pv)|)
      modifies this`outpos, this`wire, this`accepted, outbuf
      ensures Shape() && (res == None <==> |pv| > MAX_LENGTH)
      ensures res == None ==> wire == old(wire) && accepted == old(accepted)
      ensures |pv| <= MAX_LENGTH ==>
        Sender() == Sent(old(Sender()), pv, answer) && res == Some(if answer <= 0 then answer else |pv|)
    {
      AppendToOutBuffer([|pv| / 256 % 256, |pv| % 256]);
      if outpos + |pv| >= outbuf.Length {
        return None;
      }
      AppendToOutBuffer(pv);
      assert outbuf[..outpos] == Frame(pv);
      var taken := FlushOutBuffer(answer);
      if taken <= 0 {
        outpos := 0;
        return Some(taken);
      }
      accepted := accepted + [pv];
      res := Some(|pv|);
    }

    /** The socket can take bytes again; `ready` says that SignalReadyToSend was raised. */
    method OnWriteEvent(answer: int) returns (ready: bool)
      requires Valid() && answer <= outpos
      modifies this`outpos, this`wire, outbuf
      ensures Valid()
      ensures Sender() == Flushed(old(Sender()), answer)
      ensures ready <==> outpos == 0
    {
      FlushedKeeps(Sender(), answer);
      if outpos > 0 {
        var res := FlushOutBuffer(answer);
      }
      ready := outpos == 0;
    }

    /** Signals the whole packets at the front of `inbuf` and moves what is left to the front. */
    method ProcessInput()
      requires inpos <= inbuf.Length && inbuf != outbuf
      modifies this`inpos, this`delivered, inbuf
      ensures inpos <= inbuf.Length
      ensures var parsed := Parse(old(inbuf[..inpos]));
        delivered == old(delivered) + parsed.packets && inbuf[..inpos] == parsed.rest
    {
      ghost var parsed := Parse(inbuf[..inpos]);
      while true
        invariant inpos <= inbuf.Length
        invariant delivered + Parse(inbuf[..inpos]).packets == old(delivered) + parsed.packets
        invariant Parse(inbuf[..inpos]).rest == parsed.rest
        decreases inpos
      {
        if inpos < PACKET_LEN_SIZE {
          return;
        }
        var n := PACKET_LEN_SIZE + (inbuf[0] as int) * 256 + inbuf[1];
        if inpos < n {
          return;
        }
        ghost var before := inbuf[..inpos];
        assert before[PACKET_LEN_SIZE..n] == inbuf[PACKET_LEN_SIZE..n] && before[n..] == inbuf[n..inpos];
        Seqs.Assoc(delivered, [inbuf[PACKET_LEN_SIZE..n]], Parse(before[n..]).packets);
        delivered := delivered + [inbuf[PACKET_LEN_SIZE..n]];
        inpos := inpos - n;
        if inpos > 0 {
          Memory.MoveDown(inbuf, n, inpos);
        }
        assert inbuf[..inpos] == before[n..];
      }
    }

    /** Recv handed up `data`, or reported an error. */
    method OnReadEvent(data: Option<Bytes>)
      requires Valid() && (data.Some? ==> |data.value| <= inbuf.Length - inpos)
      modifies this`inpos, this`received, this`delivered, inbuf
      ensures Valid()
      ensures Receiver() == if data.Some? then Got(old(Receiver()), data.value) else old(Receiver())
    {
      if data.None? {
        return;
      }
      GotKeeps(Receiver(), data.value);
      Receive(data.value);
      if inpos >= inbuf.Length {
        assert false;   // "input buffer overflow" cannot happen
      }
    }

    method Receive(data: Bytes)
      requires Shape() && |data| <= inbuf.Length - inpos
      modifies this`inpos, this`received, this`delivered, inbuf
      ensures Shape() && Receiver() == Got(old(Receiver()), data)
    {
      Memory.Copy(inbuf, inpos, data);
      inpos := inpos + |data|;
      received := received + data;
      ProcessInput();
    }
  }

  /** The socket takes `answer` bytes of the buffer. */
  function Flushed(s: SenderState, answer: int): SenderState
    requires answer <= |s.out|
  {
    if answer <= 0 then s else s.(wire := s.wire + s.out[..answer], out := s.out[answer..])
  }

  /** A packet is sent with nothing buffered: accepted if the socket takes any of it, else dropped whole. */
  function Sent(s: SenderState, p: Bytes, answer: int): SenderState
    requires |p| <= MAX_LENGTH && answer <= |Frame(p)|
  {
    if answer <= 0 then s
    else SenderState(s.wire + Frame(p)[..answer], Frame(p)[answer..], s.accepted + [p])
  }

  /** The socket hands up `data`. */
  function Got(r: ReceiverState, data: Bytes): ReceiverState {
    var parsed := Parse(r.buffered + data);
    ReceiverState(r.received + data, parsed.rest, r.delivered + parsed.packets)
  }

  /** The stream is whole frames of exactly the accepted packets, and only the last can be incomplete on the wire. */
  ghost predicate Sending(s: SenderState) {
    && Packets(s.accepted)
    && s.wire + s.out == Frames(s.accepted)
    && (s.out != [] ==> s.accepted != [] && |s.out| < |Frame(s.accepted[|s.accepted| - 1])|)
  }

  /** However the stream was cut, what was delivered and what is buffered are the one-shot parse of all of it; the
      buffer therefore never fills up. */
  ghost predicate Receiving(r: ReceiverState) {
    && Parse(r.received) == Parsed(r.delivered, r.buffered)
    && |r.buffered| <= MAX_PACKET_SIZE < BUF_SIZE
  }

  lemma FlushedKeeps(s: SenderState, answer: int)
    requires Sending(s) && answer <= |s.out|
    ensures Sending(Flushed(s, answer))
  {
    if answer > 0 {
      assert (s.wire + s.out[..answer]) + s.out[answer..] == s.wire + s.out;
    }
  }

  lemma SentKeeps(s: SenderState, p: Bytes, answer: int)
    requires Sending(s) && s.out == [] && |p| <= MAX_LENGTH && answer <= |Frame(p)|
    ensures Sending(Sent(s, p, answer))
  {
    if answer > 0 {
      FramesAppend(s.accepted, [p]);
      var f := Frame(p);
      Seqs.Assoc(s.wire, f[..answer], f[answer..]);
      Seqs.Split(f, answer);
      assert s.wire + [] == s.wire && Frames([p]) == f + [] == f;
    }
  }

  lemma GotKeeps(r: ReceiverState, data: Bytes)
    requires Receiving(r)
    ensures Receiving(Got(r, data))
  {
    ParseAppend(r.received, data);
    RestBound(r.received + data);
  }

  // ----- Both ends of a connection -----

  /** What can happen at the two ends: an application sends, the sending socket becomes writable, the receiving
      socket hands up some of the bytes under way, or reports an error. */
  datatype Event =
    | SendPacket(packet: Bytes, answer: int)
    | Writable(answer: int)
    | Readable(data: Bytes)
    | ReadError

  datatype Link = Link(sender: SenderState, receiver: ReceiverState)

  /** One event at one end.  The stream between them neither loses, nor changes, nor invents bytes, and hands up no
      more of them than the receiver has room for. */
  ghost predicate IsStep(l: Link, e: Event, l': Link) {
    match e
    case SendPacket(p, answer) =>
      if |p| > BUF_SIZE || l.sender.out != [] then l' == l
      else |p| <= MAX_LENGTH && answer <= |Frame(p)| && l' == l.(sender := Sent(l.sender, p, answer))
    case Writable(answer) =>
      answer <= |l.sender.out| && l' == l.(sender := Flushed(l.sender, answer))
    case Readable(data) =>
      && l.receiver.received + data <= l.sender.wire && |data| <= BUF_SIZE - |l.receiver.buffered|
      && l' == l.(receiver := Got(l.receiver, data))
    case ReadError => l' == l
  }

  /** A finite schedule of events at the two ends, and the states before, between and after them. */
  datatype Run = Run(links: seq<Link>, events: seq<Event>)
  {
    ghost predicate Valid() {
      && |links| == |events| + 1
      && links[0].sender == SenderState([], [], []) && links[0].receiver == ReceiverState([], [], [])
      && forall i | 0 <= i < |events| :: IsStep(links[i], events[i], links[i + 1])
    }
  }

  ghost predicate Linked(l: Link) {
    Sending(l.sender) && Receiving(l.receiver) && l.receiver.received <= l.sender.wire
  }

  lemma StepKeeps(l: Link, e: Event, l': Link)
    requires Linked(l) && IsStep(l, e, l')
    ensures Linked(l')
  {
    match e
    case SendPacket(p, answer) =>
      if |p| <= BUF_SIZE && l.sender.out == [] {
        SentKeeps(l.sender, p, answer);
      }
    case Writable(answer) =>
      FlushedKeeps(l.sender, answer);
    case Readable(data) =>
      GotKeeps(l.receiver, data);
    case ReadError =>
  }

  lemma {:induction false} RunKeeps(run: Run, n: nat)
    requires run.Valid() && n <= |run.events|
    ensures Linked(run.links[n])
  {
    if n > 0 {
      RunKeeps(run, n - 1);
      StepKeeps(run.links[n - 1], run.events[n - 1], run.links[n]);
    } else {
      assert Parse([]) == Parsed([], []);
    }
  }

  /** Over every schedule of partial, blocked and failed sends and of partial receives, the receiver has been given a
      prefix of exactly the packets that the sender accepted; at most the last one is missing once everything on the
      wire has arrived, and none once the sender's buffer is empty too. */
  lemma EndToEnd(run: Run, n: nat)
    requires run.Valid() && n <= |run.events|
    ensures var s, r := run.links[n].sender, run.links[n].receiver;
      && Packets(s.accepted) && s.wire + s.out == Frames(s.accepted)
      && r.delivered <= s.accepted
      && (r.received == s.wire ==> |s.accepted| - 1 <= |r.delivered|)
      && (r.received == s.wire && s.out == [] ==> r.delivered == s.accepted)
  {
    RunKeeps(run, n);
    var s, r := run.links[n].sender, run.links[n].receiver;
    DeliveredIsPrefix(s, r);
    if r.received == s.wire {
      ArrivedIsDelivered(s, r);
    }
  }

  /** The packets that the sender accepts, told from the events: those that are offered while nothing is buffered, and
      of which the socket takes something. */
  function Accepted(run: Run, n: nat): seq<Bytes>
    requires n <= |run.events| < |run.links|
  {
    if n == 0 then []
    else
      Accepted(run, n - 1) +
      match run.events[n - 1]
      case SendPacket(p, answer) =>
        if |p| <= MAX_LENGTH && run.links[n - 1].sender.out == [] && answer > 0 then [p] else []
      case _ => []
  }

  /** How many bytes the sending socket has taken. */
  function Taken(run: Run, n: nat): nat
    requires n <= |run.events| < |run.links|
  {
    if n == 0 then 0
    else
      Taken(run, n - 1) +
      match run.events[n - 1]
      case SendPacket(p, answer) =>
        if |p| <= MAX_LENGTH && run.links[n - 1].sender.out == [] && answer > 0 then answer else 0
      case Writable(answer) => if answer > 0 then answer else 0
      case _ => 0
  }

  /** What the receiving socket has handed up. */
  function HandedUp(run: Run, n: nat): Bytes
    requires n <= |run.events|
  {
    if n == 0 then []
    else HandedUp(run, n - 1) + if run.events[n - 1].Readable? then run.events[n - 1].data else []
  }

  lemma StepExactly(l: Link, e: Event, l': Link)
    requires IsStep(l, e, l')
    ensures l'.sender.accepted == l.sender.accepted +
      (if e.SendPacket? && |e.packet| <= MAX_LENGTH && l.sender.out == [] && e.answer > 0 then [e.packet] else [])
    ensures |l'.sender.wire| == |l.sender.wire| +
      if e.SendPacket? && |e.packet| <= MAX_LENGTH && l.sender.out == [] && e.answer > 0 then e.answer
      else if e.Writable? && e.answer > 0 then e.answer else 0
    ensures l'.receiver.received == l.receiver.received + if e.Readable? then e.data else []
  {
  }

  /** Over every run: accepted is exactly what was offered at a good time and taken in part at least, the wire has
      exactly as many bytes as the socket has taken, and received is exactly what has been handed up. */
  lemma {:induction false} RunExactly(run: Run, n: nat)
    requires run.Valid() && n <= |run.events|
    ensures run.links[n].sender.accepted == Accepted(run, n) && |run.links[n].sender.wire| == Taken(run, n)
    ensures run.links[n].receiver.received == HandedUp(run, n)
    decreases n
  {
    if n > 0 {
      RunExactly(run, n - 1);
      StepExactly(run.links[n - 1], run.events[n - 1], run.links[n]);
    }
  }

  /** So a packet that is offered at a good time arrives: once the socket has taken as many bytes as the frames of all
      accepted packets have, and has handed up as many, all of them have been delivered. */
  lemma AllArrive(run: Run, n: nat)
    requires run.Valid() && n <= |run.events| && Packets(Accepted(run, n))
    requires Taken(run, n) == |Frames(Accepted(run, n))| == |HandedUp(run, n)|
    ensures run.links[n].receiver.delivered == Accepted(run, n)
  {
    RunExactly(run, n);
    RunKeeps(run, n);
    var s, r := run.links[n].sender, run.links[n].receiver;
    assert |s.wire + s.out| == |s.wire| ==> s.out == [];
    assert r.received <= s.wire && |r.received| == |s.wire| ==> r.received == s.wire;
    EndToEnd(run, n);
  }

  lemma DeliveredIsPrefix(s: SenderState, r: ReceiverState)
    requires Sending(s) && Receiving(r) && r.received <= s.wire
    ensures r.delivered <= s.accepted
  {
    var under := s.wire[|r.received|..] + s.out;
    assert r.received + under == Frames(s.accepted) + [];
    ParseFrames(s.accepted, []);
    ParseAppend(r.received, under);
  }

  lemma ArrivedIsDelivered(s: SenderState, r: ReceiverState)
    requires Sending(s) && Receiving(r) && r.received == s.wire
    ensures |s.accepted| - 1 <= |r.delivered|
    ensures s.out == [] ==> r.delivered == s.accepted
  {
    if s.out == [] {
      assert s.wire == Frames(s.accepted) + [];
      ParseFrames(s.accepted, []);
    } else {
      var n := |s.accepted| - 1;
      var whole, last := s.accepted[..n], Frame(s.accepted[n]);
      assert s.accepted == whole + [s.accepted[n]];
      FramesAppend(whole, [s.accepted[n]]);
      FramesOfOne(s.accepted[n]);
      var torn := SameStart(s.wire, s.out, Frames(whole), last);
      assert Frames(whole) + [] == Frames(whole);
      ParseFrames(whole, []);
      ParseAppend(Frames(whole), torn);
    }
  }

  lemma FramesOfOne(p: Bytes)
    requires |p| <= MAX_LENGTH
    ensures Frames([p]) == Frame(p)
  {
    assert Frames([p]) == Frame(p) + Frames([]);
  }

  lemma SameStart(a: Bytes, b: Bytes, c: Bytes, d: Bytes) returns (torn: Bytes)
    requires a + b == c + d && |b| <= |d|
    ensures a == c + torn
  {
    assert a == (a + b)[..|a|] == (c + d)[..|a|];
    torn := a[|c|..];
  }

  /** The buffer always has room for Recv, whatever arrived before and however it was cut. */
  lemma AlwaysRoom(run: Run, n: nat)
    requires run.Valid() && n <= |run.events|
    ensures |run.links[n].receiver.buffered| <= MAX_PACKET_SIZE
    ensures BUF_SIZE - |run.links[n].receiver.buffered| >= PACKET_LEN_SIZE
  {
    RunKeeps(run, n);
  }

  /** Receivers that were handed the same bytes, cut differently, have delivered and buffered the same. */
  lemma CutIndependence(run: Run, n: nat, run': Run, n': nat)
    requires run.Valid() && n <= |run.events| && run'.Valid() && n' <= |run'.events|
    requires run.links[n].receiver.received == run'.links[n'].receiver.received
    ensures run.links[n].receiver == run'.links[n'].receiver
  {
    RunKeeps(run, n);
    RunKeeps(run', n');
  }
}
