/** A message that is on its way arrives: the receiver, called again and again, comes to its end under every schedule of
    reads that wait and of documents that take little or nothing at a time. */
module HttpDelivery {
  import F = FlushData
  import opened CText
  import opened FlushTheorems
  import opened HttpHeaders
  import opened HttpParser
  import opened HttpTransfer
  import opened ReceiveLoop
  import opened SenderState
  import opened Seqs
  import opened Wrappers

  /** What the network is going to give. */
  function Bytes(net: seq<ReadAnswer>): string {
    if net == [] then "" else (if net[0].ReadSuccess? then net[0].data else "") + Bytes(net[1..])
  }

  /** The connection stays open. */
  predicate StaysOpen(net: seq<ReadAnswer>) {
    forall i | 0 <= i < |net| :: net[i].ReadSuccess? || net[i].ReadBlock?
  }

  predicate NeverFails(sinks: seq<Answer>) {
    Fails !in sinks
  }

  /** How many bytes the document takes at least. */
  function Takes(sinks: seq<Answer>): nat {
    if sinks == [] then 0 else (if sinks[0].Moves? && sinks[0].n > 0 then 1 else 0) + Takes(sinks[1..])
  }

  // ----- What a call does with its answers -----

  /** The parser uses an answer of the document only to give it data, or to be told to wait. */
  ghost predicate Gives(c: Client, m: Machine, sinks: seq<Answer>, p: Parsed) {
    && |p.sinks| <= |sinks| && (NeverFails(sinks) ==> NeverFails(p.sinks) && !p.sinkFailed)
    && Takes(sinks) + |m.body| <= Takes(p.sinks) + |p.machine.body|
    && (p.result == Block && !MayBlock(c) ==>
          && p.machine.phase == Data && p.machine.dataSize != 0 && p.rest != ""
          && (p.sinks == [] || |p.sinks| < |sinks|))
  }

  lemma TakenGives(c: Client, m: Machine, s: string, sinks: seq<Answer>)
    requires m.phase == Data && m.dataSize != 0 && s != "" && sinks != [] && sinks[0].Moves?
    requires var n := Taken(m, s, sinks[0]);
      Gives(c, Take(m, s, n), sinks[1..], Parse(c, Take(m, s, n), s[n..], sinks[1..]))
    ensures Gives(c, m, sinks, Parse(c, m, s, sinks))
  {
    var n := Taken(m, s, sinks[0]);
    assert |Take(m, s, n).body| == |m.body| + n;
  }

  lemma LineKeepsBody(c: Client, m: Machine, line: string)
    requires m.phase != Data
    ensures Line(c, m, line).0.body == m.body && (Line(c, m, line).1 == Block ==> MayBlock(c))
  {
    if Line(c, m, line).1 == Block {
      LineMayBlock(c, m, line);
    }
  }

  lemma UnusedGives(c: Client, m: Machine, p: Parsed)
    requires p.machine.body == m.body && !p.sinkFailed && (p.result == Block ==> MayBlock(c))
    ensures Gives(c, m, p.sinks, p)
  {
  }

  lemma LineGives(c: Client, m: Machine, s: string, sinks: seq<Answer>)
    requires m.phase != Data
    requires var end := LineEnd(s); end < |s| && Line(c, m, TrimEnd(s[..end])).1 == Continue ==>
      var m' := Line(c, m, TrimEnd(s[..end])).0; Gives(c, m', sinks, Parse(c, m', s[end + 1..], sinks))
    ensures Gives(c, m, sinks, Parse(c, m, s, sinks))
  {
    var end := LineEnd(s);
    if end == |s| {
      UnusedGives(c, m, Parsed(m, s, Continue, sinks, false));
    } else {
      var (m', result) := Line(c, m, TrimEnd(s[..end]));
      ParseOneLine(c, m, s, sinks);
      LineKeepsBody(c, m, TrimEnd(s[..end]));
      if result != Continue {
        UnusedGives(c, m, Parsed(m', s[end + 1..], result, sinks, false));
      }
    }
  }

  lemma {:induction false} ParseGives(c: Client, m: Machine, s: string, sinks: seq<Answer>)
    ensures Gives(c, m, sinks, Parse(c, m, s, sinks))
    decreases |s| + |sinks|, m.phase == Data
  {
    if m.phase != Data {
      var end := LineEnd(s);
      if end < |s| && Line(c, m, TrimEnd(s[..end])).1 == Continue {
        ParseGives(c, Line(c, m, TrimEnd(s[..end])).0, s[end + 1..], sinks);
      }
      LineGives(c, m, s, sinks);
    } else if m.dataSize == 0 {
      if m.chunked {
        ParseGives(c, m.(phase := ChunkTerm), s, sinks);
      }
    } else if s != [] && sinks != [] && sinks[0].Moves? {
      var n := Taken(m, s, sinks[0]);
      ParseGives(c, Take(m, s, n), s[n..], sinks[1..]);
      TakenGives(c, m, s, sinks);
    }
  }

  /** What a call does: every byte that the network gives is received or still to come, a connection that stays open is
      not closed, and the document gets a byte for every answer that takes one. */
  ghost predicate Flows(c: Client, r: Receiver, w: World, o: Received) {
    && o.receiver.fed + Bytes(o.world.net) == r.fed + Bytes(w.net)
    && Reads(o.world.net) <= Reads(w.net) && |o.world.sinks| <= |w.sinks|
    && (StaysOpen(w.net) ==> StaysOpen(o.world.net) && !o.outcome.Closed?)
    && (NeverFails(w.sinks) ==> NeverFails(o.world.sinks) && !o.outcome.SinkFailed?)
    && Takes(w.sinks) + |r.machine.body| <= Takes(o.world.sinks) + |o.receiver.machine.body|
  }

  /** A call that asks for another one has used an answer, unless there is none left. */
  ghost predicate Progress(c: Client, w: World, o: Received) {
    match o.outcome
    case NotDone(Interrupted) =>
      MayBlock(c) ||
      (o.receiver.machine.phase == Data && o.receiver.machine.dataSize != 0 && o.receiver.buffered != "" &&
       (o.world.sinks == [] || |o.world.sinks| < |w.sinks|))
    case NotDone(Starved) => o.world.net == [] || Reads(o.world.net) < Reads(w.net)
    case _ => true
  }

  /** A read of data. */
  lemma ReadFlows(r: Receiver, net: seq<ReadAnswer>, room: nat)
    requires net != [] && net[0].ReadSuccess? && room > 0
    ensures var r', net' := WithData(r, ReadData(net, room)), AfterRead(net, room);
      && r'.fed + Bytes(net') == r.fed + Bytes(net) && Reads(net') < Reads(net) && (StaysOpen(net) ==> StaysOpen(net'))
  {
    ReadUses(net, room);
    var data, net' := ReadData(net, room), AfterRead(net, room);
    if |net[0].data| > room {
      assert net'[1..] == net[1..];
      assert net[0].data == data + net'[0].data;
      Seqs.Assoc(data, net'[0].data, Bytes(net[1..]));
    }
    Seqs.Assoc(r.fed, data, Bytes(net'));
    assert StaysOpen(net) ==> forall i | 1 <= i < |net| :: net[1..][i - 1] == net[i];
  }

  lemma BlockFlows(net: seq<ReadAnswer>)
    requires net != [] && !net[0].ReadSuccess?
    ensures Bytes(net[1..]) == Bytes(net) && Reads(net[1..]) < Reads(net) && (StaysOpen(net) ==> StaysOpen(net[1..]))
  {
  }

  /** Part of a call leads from `r` and `w` to `r'` and `w'`. */
  ghost predicate Leads(r: Receiver, w: World, r': Receiver, w': World) {
    && r'.fed + Bytes(w'.net) == r.fed + Bytes(w.net)
    && Reads(w'.net) <= Reads(w.net) && |w'.sinks| <= |w.sinks|
    && (StaysOpen(w.net) ==> StaysOpen(w'.net))
    && (NeverFails(w.sinks) ==> NeverFails(w'.sinks))
    && Takes(w.sinks) + |r.machine.body| <= Takes(w'.sinks) + |r'.machine.body|
  }

  /** What happens later is part of all that happens. */
  lemma FlowsLater(c: Client, r: Receiver, w: World, r': Receiver, w': World, o: Received)
    requires Leads(r, w, r', w') && Flows(c, r', w', o) && Progress(c, w', o)
    ensures Flows(c, r, w, o) && Progress(c, w, o)
  {
  }

  lemma ParseLeads(c: Client, r: Receiver, w: World)
    ensures var p := Parse(c, r.machine, r.buffered, w.sinks); Leads(r, w, AfterParse(r, p), w.(sinks := p.sinks))
  {
    ParseGives(c, r.machine, r.buffered, w.sinks);
  }

  lemma {:induction false} ReceiveFromFlows(c: Client, r: Receiver, w: World, count: nat, needsMore: bool)
    requires count <= MAX_READ_COUNT
    ensures var o := ReceiveFrom(c, r, w, count, needsMore); Flows(c, r, w, o) && Progress(c, w, o)
    decreases MAX_READ_COUNT - count, 1
  {
    var room := BUFFER_SIZE - |r.buffered|;
    if room > 0 && w.net != [] {
      match w.net[0]
      case ReadSuccess(_) =>
        var r', w' := WithData(r, ReadData(w.net, room)), w.(net := AfterRead(w.net, room));
        ReadFlows(r, w.net, room);
        ParseThenFlows(c, r', w', count);
        FlowsLater(c, r, w, r', w', ParseThen(c, r', w', count));
      case ReadBlock =>
        var w' := w.(net := w.net[1..]);
        BlockFlows(w.net);
        if !needsMore {
          ParseThenFlows(c, r, w', count);
          FlowsLater(c, r, w, r, w', ParseThen(c, r, w', count));
        }
      case ReadEos =>
        BlockFlows(w.net);
      case ReadError(_) =>
        BlockFlows(w.net);
    } else if !needsMore {
      ParseThenFlows(c, r, w, count);
    }
  }

  lemma {:induction false} ParseThenFlows(c: Client, r: Receiver, w: World, count: nat)
    requires count <= MAX_READ_COUNT
    ensures var o := ParseThen(c, r, w, count); Flows(c, r, w, o) && Progress(c, w, o)
    decreases MAX_READ_COUNT - count, 0
  {
    var p := Parse(c, r.machine, r.buffered, w.sinks);
    if p.result == Continue && count < MAX_READ_COUNT {
      var r', w' := AfterParse(r, p), w.(sinks := p.sinks);
      ParseLeads(c, r, w);
      ReceiveFromFlows(c, r', w', count + 1, true);
      ParseContinues(c, r, w, count);
      FlowsLater(c, r, w, r', w', ReceiveFrom(c, r', w', count + 1, true));
    } else {
      ParseGives(c, r.machine, r.buffered, w.sinks);
      ParseEndsFlows(c, r, w, count);
    }
  }

  lemma ParseEndsFlows(c: Client, r: Receiver, w: World, count: nat)
    requires count <= MAX_READ_COUNT
    requires var p := Parse(c, r.machine, r.buffered, w.sinks);
      Gives(c, r.machine, w.sinks, p) && (p.result == Continue ==> count == MAX_READ_COUNT)
    ensures var o := ParseThen(c, r, w, count); Flows(c, r, w, o) && Progress(c, w, o)
  {
  }

  /** Each round takes one answer of the network at most. */
  lemma {:induction false} RoundsRead(c: Client, r: Receiver, w: World, count: nat, needsMore: bool)
    requires count <= MAX_READ_COUNT
    ensures |w.net| <= |ReceiveFrom(c, r, w, count, needsMore).world.net| + (MAX_READ_COUNT - count) + 1
    decreases MAX_READ_COUNT - count, 1
  {
    var room := BUFFER_SIZE - |r.buffered|;
    if room > 0 && w.net != [] {
      if w.net[0].ReadSuccess? {
        ParsedReads(c, WithData(r, ReadData(w.net, room)), w.(net := AfterRead(w.net, room)), count);
      } else if w.net[0].ReadBlock? && !needsMore {
        ParsedReads(c, r, w.(net := w.net[1..]), count);
      }
    } else if !needsMore {
      ParsedReads(c, r, w, count);
    }
  }

  lemma {:induction false} ParsedReads(c: Client, r: Receiver, w: World, count: nat)
    requires count <= MAX_READ_COUNT
    ensures |w.net| <= |ParseThen(c, r, w, count).world.net| + (MAX_READ_COUNT - count)
    decreases MAX_READ_COUNT - count, 0
  {
    var p := Parse(c, r.machine, r.buffered, w.sinks);
    if p.result == Continue && count < MAX_READ_COUNT {
      ParseContinues(c, r, w, count);
      RoundsRead(c, AfterParse(r, p), w.(sinks := p.sinks), count + 1, true);
    }
  }

  /** A call uses 21 answers of the network at most, and one that stops although there may be more has read at least 20
      times. */
  lemma TwentyReads(c: Client, r: Receiver, w: World)
    ensures var o := Receive(c, r, w);
      && |w.net| <= |o.world.net| + 21
      && (o.outcome == NotDone(TurnOver) ==> Reads(w.net) >= Reads(o.world.net) + 20)
  {
    RoundsRead(c, r, w, 0, false);
    ReceiveBecause(c, r, w);
  }

  // ----- Calling it until something has ended -----

  /** Up to `n` calls of DoReceiveLoop, each with the answers that the one before has left. */
  function Drive(c: Client, r: Receiver, w: World, n: nat): Received
    requires n > 0
    decreases n
  {
    var o := Receive(c, r, w);
    if o.outcome.NotDone? && n > 1 then Drive(c, o.receiver, o.world, n - 1) else o
  }

  /** The body only grows. */
  lemma {:induction false} BodyGrows(c: Client, m: Machine, s: string)
    ensures |m.body| <= |Run(c, m, s).machine.body|
    ensures m.phase == Data && m.dataSize != 0 && s != "" ==> |m.body| < |Run(c, m, s).machine.body|
    decreases |s|, m.phase == Data
  {
    if m.phase != Data {
      var end := LineEnd(s);
      if end < |s| {
        LineKeepsBody(c, m, TrimEnd(s[..end]));
        BodyGrows(c, Line(c, m, TrimEnd(s[..end])).0, s[end + 1..]);
      }
    } else if m.dataSize == 0 {
      if m.chunked {
        BodyGrows(c, m.(phase := ChunkTerm), s);
      }
    } else if s != [] {
      BodyGrows(c, Take(m, s, Available(m, s)), s[Available(m, s)..]);
    }
  }

  /** What has been received of a message is never more than its document. */
  lemma BodyWithin(c: Client, wire: string, m: Message, r: Receiver)
    requires Carries(c, wire, m) && Stands(c, r) && r.fed <= wire
    ensures |r.machine.body| <= |m.document|
    ensures r.machine.phase == Data && r.machine.dataSize != 0 && r.buffered != "" ==> |r.machine.body| < |m.document|
  {
    var more := wire[|r.fed|..];
    assert r.fed + more == wire;
    RunAppend(c, Reset(), r.fed, more);
    BodyGrows(c, r.machine, r.buffered);
    var f := Run(c, Reset(), r.fed);
    if !f.result.Done? {
      BodyGrows(c, f.machine, f.rest + more);
    }
  }

  /** The network gives the rest of the wire and stays open, the document takes as many bytes as it has not yet got, and
      the client never asks to wait. */
  ghost predicate OnTheWay(c: Client, wire: string, m: Message, r: Receiver, w: World) {
    && Stands(c, r) && r.fed + Bytes(w.net) == wire && StaysOpen(w.net) && !MayBlock(c)
    && NeverFails(w.sinks) && Takes(w.sinks) + |r.machine.body| >= |m.document|
  }

  /** The message is over, and the receiver has all of it. */
  ghost predicate Over(o: Received, m: Message) {
    o.outcome == MessageOver && o.error == HE_NONE && Arrived(o.receiver, m)
  }

  /** One call: the message arrives, or it is still on its way and fewer answers are left. */
  lemma OneCall(c: Client, wire: string, m: Message, r: Receiver, w: World)
    requires Carries(c, wire, m) && OnTheWay(c, wire, m, r, w)
    ensures var o := Receive(c, r, w);
      if o.outcome.NotDone?
      then OnTheWay(c, wire, m, o.receiver, o.world) &&
           Reads(o.world.net) + |o.world.sinks| < Reads(w.net) + |w.sinks|
      else Over(o, m)
  {
    var o := Receive(c, r, w);
    ReceiveFromFlows(c, r, w, 0, false);
    ReceiveExplained(c, r, w);
    ReceiveBecause(c, r, w);
    assert Session(c, r, [w]) == o;
    Delivered(c, wire, m, r, [w]);
    if o.outcome.NotDone? {
      ExplainedStands(c, o);
      BodyWithin(c, wire, m, o.receiver);
      if o.world.net == [] {
        assert o.receiver.fed + "" == o.receiver.fed;
      }
    }
  }

  /** Enough calls bring the message, whole and exact. */
  lemma {:induction false} EnoughCalls(c: Client, wire: string, m: Message, r: Receiver, w: World, n: nat)
    requires Carries(c, wire, m) && OnTheWay(c, wire, m, r, w) && n > Reads(w.net) + |w.sinks|
    ensures Over(Drive(c, r, w, n), m)
    decreases n
  {
    OneCall(c, wire, m, r, w);
    var o := Receive(c, r, w);
    if o.outcome.NotDone? {
      EnoughCalls(c, wire, m, o.receiver, o.world, n - 1);
    }
  }

  /** From a sender to a receiver, both new: whatever the sizes of the writes, and of the reads and waits in between,
      the message arrives. */
  lemma Delivery(c: Client, m: Message, out: F.World, w: World, n: nat)
    requires Understands(c, m) && (!m.hasDocument ==> m.document == "") && BothWilling(out)
    requires |out.source| > ToSend(m, Initial(m)) && |out.network| > ToSend(m, Initial(m))
    requires Bytes(w.net) == F.Flush(m, Initial(m), out).state.wire && StaysOpen(w.net) && !MayBlock(c)
    requires NeverFails(w.sinks) && Takes(w.sinks) >= |m.document| && n > Reads(w.net) + |w.sinks|
    ensures F.Flush(m, Initial(m), out).result == F.Complete
    ensures Over(Drive(c, Fresh(), w, n), m)
  {
    SentMessage(c, m, out);
    var wire := F.Flush(m, Initial(m), out).state.wire;
    assert "" + Bytes(w.net) == wire;
    EnoughCalls(c, wire, m, Fresh(), w, n);
  }
}
