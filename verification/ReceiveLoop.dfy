/** DoReceiveLoop as a function of what the network and the document answer, and what its outcomes mean. */
module ReceiveLoop {
  import opened CText
  import opened HttpParser
  import opened Seqs
  import opened Wrappers

  const MAX_READ_COUNT: nat := 20

  /** The network's answer to a read; data that does not fit stays for the next one. */
  datatype ReadAnswer = ReadSuccess(data: string) | ReadBlock | ReadEos | ReadError(error: HttpError)

  /** The parser, the bytes it has not consumed, and everything the network has given. */
  datatype Receiver = Receiver(machine: Machine, buffered: string, fed: string)

  /** The answers that are to come.  A network or a document that has none left blocks. */
  datatype World = World(net: seq<ReadAnswer>, sinks: seq<Answer>)

  /** Why DoReceiveLoop returned true: the parser found the end of the message or an error in it; the document failed;
      the connection closed, with or without an error; or a line does not fit the buffer.  Otherwise it returned
      false. */
  datatype Outcome = NotDone(reason: Reason) | MessageOver | SinkFailed | Closed(clean: bool) | Overflow

  /** Why it returned false: the network has nothing more; the document or the client interrupted the parser; or it
      has read often enough for once. */
  datatype Reason = Starved | Interrupted | TurnOver

  datatype Received = Received(receiver: Receiver, outcome: Outcome, error: HttpError, world: World)

  /** HandleStreamClose in receive mode, where `error` is HE_NONE at a clean close. */
  function StreamClose(m: Machine, error: HttpError): HttpError {
    if error != HE_NONE then error
    else if m.phase == Data && m.dataSize == SIZE_UNKNOWN then HE_NONE
    else HE_DISCONNECTED
  }

  /** The parser has been given what is buffered. */
  function AfterParse(r: Receiver, p: Parsed): Receiver {
    r.(machine := p.machine, buffered := p.rest)
  }

  function WithData(r: Receiver, data: string): Receiver {
    r.(buffered := r.buffered + data, fed := r.fed + data)
  }

  /** What a read into `room` bytes leaves of the network's answers. */
  function AfterRead(net: seq<ReadAnswer>, room: nat): seq<ReadAnswer>
    requires net != [] && net[0].ReadSuccess?
  {
    if |net[0].data| <= room then net[1..] else [ReadSuccess(net[0].data[room..])] + net[1..]
  }

  function ReadData(net: seq<ReadAnswer>, room: nat): (data: string)
    requires net != [] && net[0].ReadSuccess?
    ensures |data| <= room && data <= net[0].data
  {
    if |net[0].data| <= room then net[0].data else net[0].data[..room]
  }

  /** The rounds from number `count` on; `needsMore` says that the parser has consumed what it can. */
  function ReceiveFrom(c: Client, r: Receiver, w: World, count: nat, needsMore: bool): Received
    requires count <= MAX_READ_COUNT
    decreases MAX_READ_COUNT - count, 1
  {
    var room := BUFFER_SIZE - |r.buffered|;
    if room <= 0 then
      if needsMore then Received(r, Overflow, HE_OVERFLOW, w) else ParseThen(c, r, w, count)
    else if w.net == [] then
      if needsMore then Received(r, NotDone(Starved), HE_NONE, w) else ParseThen(c, r, w, count)
    else
      var w' := w.(net := w.net[1..]);
      match w.net[0]
      case ReadSuccess(_) =>
        ParseThen(c, WithData(r, ReadData(w.net, room)), w.(net := AfterRead(w.net, room)), count)
      case ReadBlock =>
        if needsMore then Received(r, NotDone(Starved), HE_NONE, w') else ParseThen(c, r, w', count)
      case ReadEos => Received(r, Closed(true), StreamClose(r.machine, HE_NONE), w')
      case ReadError(e) => Received(r, Closed(e == HE_NONE), StreamClose(r.machine, e), w')
  }

  /** The second half of a round. */
  function ParseThen(c: Client, r: Receiver, w: World, count: nat): Received
    requires count <= MAX_READ_COUNT
    decreases MAX_READ_COUNT - count, 0
  {
    var p := Parse(c, r.machine, r.buffered, w.sinks);
    var r', w' := AfterParse(r, p), w.(sinks := p.sinks);
    match p.result
    case Continue =>
      if count == MAX_READ_COUNT then Received(r', NotDone(TurnOver), HE_NONE, w')
      else ReceiveFrom(c, r', w', count + 1, true)
    case Block => Received(r', NotDone(Interrupted), HE_NONE, w')
    case Done(e) => Received(r', if p.sinkFailed then SinkFailed else MessageOver, e, w')
  }

  /** What the first half of a round comes to: it is over, or the parser is next. */
  ghost predicate AfterReading(c: Client, r: Receiver, w: World, needsMore: bool,
                               r': Receiver, over: Option<Outcome>, error: HttpError, w': World)
  {
    forall count | 0 <= count <= MAX_READ_COUNT ::
      ReceiveFrom(c, r, w, count, needsMore) ==
        if over.Some? then Received(r', over.value, error, w') else ParseThen(c, r', w', count)
  }

  function Receive(c: Client, r: Receiver, w: World): Received {
    ReceiveFrom(c, r, w, 0, false)
  }

  // ----- What holds over every call -----

  /** All the parsing of everything received so far. */
  function Reference(c: Client, r: Receiver): Final {
    Run(c, Reset(), r.fed)
  }

  /** The parser and the bytes it has not consumed stand for everything received so far. */
  ghost predicate Stands(c: Client, r: Receiver) {
    |r.buffered| <= BUFFER_SIZE && Reference(c, r) == Run(c, r.machine, r.buffered)
  }

  /** The parser has consumed all it can. */
  ghost predicate Exhausted(c: Client, r: Receiver) {
    |r.buffered| <= BUFFER_SIZE && Reference(c, r) == Final(r.machine, r.buffered, Continue)
  }

  lemma ExhaustedStands(c: Client, r: Receiver)
    requires Exhausted(c, r)
    ensures Stands(c, r)
  {
    RunQuiescent(c, Reset(), r.fed);
  }

  lemma DataStands(c: Client, r: Receiver, data: string)
    requires Stands(c, r) && |r.buffered| + |data| <= BUFFER_SIZE
    ensures Stands(c, WithData(r, data))
  {
    RunAppend(c, Reset(), r.fed, data);
    RunAppend(c, r.machine, r.buffered, data);
  }

  lemma ParseStands(c: Client, r: Receiver, sinks: seq<Answer>)
    requires Stands(c, r)
    ensures var p := Parse(c, r.machine, r.buffered, sinks); var r' := AfterParse(r, p);
      && |r'.buffered| <= BUFFER_SIZE && r'.fed == r.fed
      && (p.result == Block || p.sinkFailed ==> Stands(c, r'))
      && (p.result == Continue ==> Exhausted(c, r'))
      && (p.result.Done? && !p.sinkFailed ==> Reference(c, r') == Final(r'.machine, r'.buffered, p.result))
      && (p.sinkFailed ==> p.result == Done(HE_STREAM))
  {
    ParseAgrees(c, r.machine, r.buffered, sinks);
    ParseInterrupted(c, r.machine, r.buffered, sinks);
  }

  /** What each outcome says about the parser, its rest and the answers. */
  ghost predicate Explained(c: Client, o: Received) {
    match o.outcome
    case NotDone(Interrupted) => Stands(c, o.receiver)
    case NotDone(_) => Exhausted(c, o.receiver)
    case MessageOver => Reference(c, o.receiver) == Final(o.receiver.machine, o.receiver.buffered, Done(o.error))
    case SinkFailed => Stands(c, o.receiver) && o.error == HE_STREAM
    case Closed(clean) =>
      && Stands(c, o.receiver) && (clean ==> o.error == StreamClose(o.receiver.machine, HE_NONE))
      && (!clean ==> o.error != HE_NONE)
    case Overflow => Exhausted(c, o.receiver) && |o.receiver.buffered| == BUFFER_SIZE && o.error == HE_OVERFLOW
  }

  /** Nothing received is forgotten, and the outcome is what it says. */
  ghost predicate Kept(c: Client, fed: string, o: Received) {
    fed <= o.receiver.fed && Explained(c, o)
  }

  lemma {:induction false} ReceiveFromExplained(c: Client, r: Receiver, w: World, count: nat, needsMore: bool)
    requires count <= MAX_READ_COUNT && Stands(c, r) && (needsMore ==> Exhausted(c, r))
    ensures Kept(c, r.fed, ReceiveFrom(c, r, w, count, needsMore))
    decreases MAX_READ_COUNT - count, 1
  {
    var room := BUFFER_SIZE - |r.buffered|;
    if room > 0 && w.net != [] {
      match w.net[0]
      case ReadSuccess(_) =>
        DataStands(c, r, ReadData(w.net, room));
        ParseThenExplained(c, WithData(r, ReadData(w.net, room)), w.(net := AfterRead(w.net, room)), count);
      case ReadBlock =>
        if !needsMore {
          ParseThenExplained(c, r, w.(net := w.net[1..]), count);
        }
      case ReadEos =>
      case ReadError(_) =>
    } else if !needsMore {
      ParseThenExplained(c, r, w, count);
    }
  }

  lemma ParseContinues(c: Client, r: Receiver, w: World, count: nat)
    requires count < MAX_READ_COUNT && Parse(c, r.machine, r.buffered, w.sinks).result == Continue
    ensures var p := Parse(c, r.machine, r.buffered, w.sinks);
      ParseThen(c, r, w, count) == ReceiveFrom(c, AfterParse(r, p), w.(sinks := p.sinks), count + 1, true)
  {
  }

  lemma ContinueExhausts(c: Client, r: Receiver, sinks: seq<Answer>)
    requires Stands(c, r) && Parse(c, r.machine, r.buffered, sinks).result == Continue
    ensures var r' := AfterParse(r, Parse(c, r.machine, r.buffered, sinks));
      Exhausted(c, r') && Stands(c, r') && r'.fed == r.fed
  {
    ParseStands(c, r, sinks);
    ExhaustedStands(c, AfterParse(r, Parse(c, r.machine, r.buffered, sinks)));
  }

  lemma {:induction false} ParseThenExplained(c: Client, r: Receiver, w: World, count: nat)
    requires count <= MAX_READ_COUNT && Stands(c, r)
    ensures Kept(c, r.fed, ParseThen(c, r, w, count))
    decreases MAX_READ_COUNT - count, 0
  {
    var p := Parse(c, r.machine, r.buffered, w.sinks);
    if p.result == Continue && count < MAX_READ_COUNT {
      ContinueExhausts(c, r, w.sinks);
      ParseContinues(c, r, w, count);
      ReceiveFromExplained(c, AfterParse(r, p), w.(sinks := p.sinks), count + 1, true);
    } else {
      ParseEnds(c, r, w, count);
    }
  }

  lemma ParseEnds(c: Client, r: Receiver, w: World, count: nat)
    requires count <= MAX_READ_COUNT && Stands(c, r)
    requires Parse(c, r.machine, r.buffered, w.sinks).result == Continue ==> count == MAX_READ_COUNT
    ensures Kept(c, r.fed, ParseThen(c, r, w, count))
  {
    ParseStands(c, r, w.sinks);
  }

  /** Whatever is answered, a call keeps the parser and its rest standing for everything received, until the message is
      over; the other outcomes are what they say. */
  lemma ReceiveExplained(c: Client, r: Receiver, w: World)
    requires Stands(c, r)
    ensures var o := Receive(c, r, w); r.fed <= o.receiver.fed && Explained(c, o)
  {
    ReceiveFromExplained(c, r, w, 0, false);
  }

  lemma ExplainedStands(c: Client, o: Received)
    requires Explained(c, o) && o.outcome != MessageOver
    ensures Stands(c, o.receiver)
  {
    if o.outcome == Overflow || (o.outcome.NotDone? && o.outcome.reason != Interrupted) {
      ExhaustedStands(c, o.receiver);
    }
  }

  // ----- Which answers lead to which outcome -----

  /** How often the network can still be read. */
  function Reads(net: seq<ReadAnswer>): nat {
    if net == [] then 0 else (if net[0].ReadSuccess? then |net[0].data| + 1 else 1) + Reads(net[1..])
  }

  /** The last of the network's answers that are used up between `before` and `after`. */
  function LastRead(before: seq<ReadAnswer>, after: seq<ReadAnswer>): Option<ReadAnswer> {
    if |after| < |before| then Some(before[|before| - |after| - 1]) else None
  }

  /** What is left of the network's answers: the last of them, the first perhaps without part of its data. */
  predicate ReadsLeft(before: seq<ReadAnswer>, after: seq<ReadAnswer>) {
    && |after| <= |before|
    && (after != [] ==>
          && after[1..] == before[|before| - |after| + 1..]
          && (after[0] == before[|before| - |after|] ||
              (after[0].ReadSuccess? && before[|before| - |after|].ReadSuccess?)))
  }

  lemma ReadsLeftTransitive(a: seq<ReadAnswer>, b: seq<ReadAnswer>, c: seq<ReadAnswer>)
    requires ReadsLeft(a, b) && ReadsLeft(b, c)
    ensures ReadsLeft(a, c)
    ensures var last := LastRead(b, c); last.Some? && !last.value.ReadSuccess? ==> LastRead(a, c) == last
  {
    forall i | 1 <= i < |b|
      ensures b[i] == a[|a| - |b| + i]
    {
      assert b[i] == b[1..][i - 1];
    }
    forall i | 1 <= i < |c|
      ensures c[i] == b[|b| - |c| + i]
    {
      assert c[i] == c[1..][i - 1];
    }
  }

  ghost predicate Because(c: Client, w: World, o: Received, fewest: int) {
    && ReadsLeft(w.net, o.world.net) && Later(w.sinks, o.world.sinks)
    && match o.outcome
      case NotDone(Starved) => o.world.net == [] || LastRead(w.net, o.world.net) == Some(ReadBlock)
      case NotDone(Interrupted) =>
        || (o.receiver.machine.phase == Data && o.receiver.buffered != "" &&
            (o.world.sinks == [] || LastUsed(w.sinks, o.world.sinks) == Some(Blocks)))
        || MayBlock(c)
      case NotDone(TurnOver) => Reads(w.net) - Reads(o.world.net) >= fewest
      case SinkFailed => LastUsed(w.sinks, o.world.sinks) == Some(Fails)
      case Closed(clean) =>
        var last := LastRead(w.net, o.world.net);
        if clean then last == Some(ReadEos) || last == Some(ReadError(HE_NONE)) else last == Some(ReadError(o.error))
      case _ => true
  }

  /** The reasons of what follows are reasons for all of it. */
  lemma BecauseLater(c: Client, w: World, between: World, o: Received, fewest: int, more: int)
    requires ReadsLeft(w.net, between.net) && Later(w.sinks, between.sinks) && Because(c, between, o, fewest)
    requires Reads(w.net) - Reads(between.net) >= more
    ensures Because(c, w, o, fewest + more)
  {
    ReadsLeftTransitive(w.net, between.net, o.world.net);
    LaterTransitive(w.sinks, between.sinks, o.world.sinks);
  }

  lemma ReadUses(net: seq<ReadAnswer>, room: nat)
    requires net != [] && net[0].ReadSuccess? && room > 0
    ensures Reads(AfterRead(net, room)) < Reads(net) && ReadsLeft(net, AfterRead(net, room))
  {
    if |net[0].data| > room {
      ShortenedHead(net, net[0].data[room..]);
    } else {
      OneUsed(net);
    }
  }

  lemma ShortenedHead(net: seq<ReadAnswer>, data: string)
    requires net != [] && net[0].ReadSuccess? && |data| < |net[0].data|
    ensures var rest := [ReadSuccess(data)] + net[1..]; ReadsLeft(net, rest) && Reads(rest) < Reads(net)
  {
    var rest := [ReadSuccess(data)] + net[1..];
    assert rest[1..] == net[1..];
  }

  lemma OneUsed(net: seq<ReadAnswer>)
    requires net != []
    ensures ReadsLeft(net, net[1..]) && LastRead(net, net[1..]) == Some(net[0]) && Reads(net[1..]) < Reads(net)
  {
    assert net[1..] != [] ==> net[1..][1..] == net[2..];
  }

  lemma NothingUsed(w: World)
    ensures ReadsLeft(w.net, w.net) && Later(w.sinks, w.sinks)
  {
  }

  lemma {:induction false} ReceiveFromBecause(c: Client, r: Receiver, w: World, count: nat, needsMore: bool)
    requires count <= MAX_READ_COUNT
    ensures Because(c, w, ReceiveFrom(c, r, w, count, needsMore), MAX_READ_COUNT - count + if needsMore then 1 else 0)
    decreases MAX_READ_COUNT - count, 1
  {
    var room := BUFFER_SIZE - |r.buffered|;
    NothingUsed(w);
    if room > 0 && w.net != [] {
      OneUsed(w.net);
      match w.net[0]
      case ReadSuccess(_) =>
        var r', w' := WithData(r, ReadData(w.net, room)), w.(net := AfterRead(w.net, room));
        ReadUses(w.net, room);
        ParseThenBecause(c, r', w', count);
        BecauseLater(c, w, w', ParseThen(c, r', w', count), MAX_READ_COUNT - count, if needsMore then 1 else 0);
      case ReadBlock =>
        if !needsMore {
          var w' := w.(net := w.net[1..]);
          ParseThenBecause(c, r, w', count);
          BecauseLater(c, w, w', ParseThen(c, r, w', count), MAX_READ_COUNT - count, 0);
        }
      case ReadEos =>
      case ReadError(_) =>
    } else if !needsMore {
      ParseThenBecause(c, r, w, count);
    }
  }

  lemma {:induction false} ParseThenBecause(c: Client, r: Receiver, w: World, count: nat)
    requires count <= MAX_READ_COUNT
    ensures Because(c, w, ParseThen(c, r, w, count), MAX_READ_COUNT - count)
    decreases MAX_READ_COUNT - count, 0
  {
    var p := Parse(c, r.machine, r.buffered, w.sinks);
    ParseInterrupted(c, r.machine, r.buffered, w.sinks);
    NothingUsed(w);
    if p.result == Continue && count < MAX_READ_COUNT {
      var r', w' := AfterParse(r, p), w.(sinks := p.sinks);
      ReceiveFromBecause(c, r', w', count + 1, true);
      BecauseLater(c, w, w', ReceiveFrom(c, r', w', count + 1, true), MAX_READ_COUNT - count, 0);
    }
  }

  /** A call returns without an outcome only when the network has nothing more or has just blocked, when the document
      has just blocked with data for it at hand or the client may ask to wait, or after reading MAX_READ_COUNT times;
      it closes or fails only when the last answer of network or document was that. */
  lemma ReceiveBecause(c: Client, r: Receiver, w: World)
    ensures Because(c, w, Receive(c, r, w), MAX_READ_COUNT)
  {
    ReceiveFromBecause(c, r, w, 0, false);
  }

  // ----- A clean close -----

  lemma RunUnknown(c: Client, m: Machine, s: string)
    requires m.phase == Data && m.dataSize == SIZE_UNKNOWN
    ensures Run(c, m, s) == Final(m.(body := m.body + s), "", Continue)
  {
    if s == "" {
      assert m.body + s == m.body;
    } else {
      assert s[..|s|] == s && s[|s|..] == "";
    }
  }

  /** At a clean close the message is reported as complete just when the document has no known length, whatever is still
      in the buffer; and then the document is whole if and only if the buffer is empty. */
  lemma CleanClose(c: Client, r: Receiver, w: World)
    requires Stands(c, r) && Receive(c, r, w).outcome == Closed(true)
    ensures var o := Receive(c, r, w); var m := o.receiver.machine;
      && (o.error == HE_NONE <==> m.phase == Data && m.dataSize == SIZE_UNKNOWN)
      && (o.error == HE_NONE ==>
            && Reference(c, o.receiver).machine.body == m.body + o.receiver.buffered
            && (Reference(c, o.receiver).machine.body == m.body <==> o.receiver.buffered == ""))
  {
    ReceiveExplained(c, r, w);
    var o := Receive(c, r, w);
    if o.error == HE_NONE {
      RunUnknown(c, o.receiver.machine, o.receiver.buffered);
      assert o.receiver.buffered == "" ==> o.receiver.machine.body + o.receiver.buffered == o.receiver.machine.body;
    }
  }

  // ----- What a clean close loses -----

  /** Where the parser has consumed what it can and the document goes on, nothing is buffered. */
  lemma NothingWaits(c: Client, r: Receiver)
    requires Exhausted(c, r) && r.machine.phase == Data
    ensures r.buffered == ""
  {
    RunQuiescent(c, Reset(), r.fed);
  }

  /** Once the parser has consumed what it can, a clean close that completes the message finds nothing buffered. */
  lemma {:induction false} LaterCloseWhole(c: Client, r: Receiver, w: World, count: nat)
    requires count <= MAX_READ_COUNT && Exhausted(c, r)
    ensures Whole(ReceiveFrom(c, r, w, count, true))
    decreases MAX_READ_COUNT - count, 1
  {
    var room := BUFFER_SIZE - |r.buffered|;
    if room > 0 && w.net != [] && w.net[0].ReadSuccess? {
      ExhaustedStands(c, r);
      ReadCloseWhole(c, r, ReadData(w.net, room), w.(net := AfterRead(w.net, room)), count);
    } else if r.machine.phase == Data {
      NothingWaits(c, r);
    }
  }

  lemma {:induction false} ReadCloseWhole(c: Client, r: Receiver, data: string, w': World, count: nat)
    requires count <= MAX_READ_COUNT && Stands(c, r) && |data| <= BUFFER_SIZE - |r.buffered|
    ensures Whole(ParseThen(c, WithData(r, data), w', count))
    decreases MAX_READ_COUNT - count, 0, 1
  {
    DataStands(c, r, data);
    ParsedCloseWhole(c, WithData(r, data), w', count);
  }

  lemma {:induction false} ParsedCloseWhole(c: Client, r: Receiver, w: World, count: nat)
    requires count <= MAX_READ_COUNT && Stands(c, r)
    ensures Whole(ParseThen(c, r, w, count))
    decreases MAX_READ_COUNT - count, 0, 0
  {
    var p := Parse(c, r.machine, r.buffered, w.sinks);
    ParseStands(c, r, w.sinks);
    if p.result == Continue && count < MAX_READ_COUNT {
      LaterCloseWhole(c, AfterParse(r, p), w.(sinks := p.sinks), count + 1);
    }
  }

  /** The message has not been completed by a clean close, or nothing is buffered. */
  predicate Whole(o: Received) {
    o.outcome == Closed(true) && o.error == HE_NONE ==> o.receiver.buffered == ""
  }

  /** There is room in the buffer, and the network closes cleanly when it is read. */
  predicate ClosesNow(r: Receiver, net: seq<ReadAnswer>) {
    net != [] && (net[0] == ReadEos || net[0] == ReadError(HE_NONE)) && |r.buffered| < BUFFER_SIZE
  }

  lemma ClosedNow(c: Client, r: Receiver, w: World)
    requires ClosesNow(r, w.net)
    ensures Receive(c, r, w) == Received(r, Closed(true), StreamClose(r.machine, HE_NONE), w.(net := w.net[1..]))
  {
  }

  /** The first thing that a call does, unless the connection closes: it reads, if there is something, and parses. */
  lemma FirstRound(c: Client, r: Receiver, w: World)
    requires w.net != [] && |r.buffered| < BUFFER_SIZE ==> w.net[0].ReadSuccess? || w.net[0].ReadBlock?
    ensures Receive(c, r, w) ==
      if w.net == [] || |r.buffered| >= BUFFER_SIZE then ParseThen(c, r, w, 0)
      else if w.net[0].ReadBlock? then ParseThen(c, r, w.(net := w.net[1..]), 0)
      else
        var room := BUFFER_SIZE - |r.buffered|;
        ParseThen(c, WithData(r, ReadData(w.net, room)), w.(net := AfterRead(w.net, room)), 0)
  {
  }

  lemma ClosedWithError(c: Client, r: Receiver, w: World)
    requires w.net != [] && |r.buffered| < BUFFER_SIZE && w.net[0].ReadError? && w.net[0].error != HE_NONE
    ensures Receive(c, r, w).outcome == Closed(false)
  {
  }

  lemma NotClosedNow(c: Client, r: Receiver, w: World)
    requires Stands(c, r) && !ClosesNow(r, w.net)
    ensures Whole(Receive(c, r, w))
  {
    if w.net != [] && |r.buffered| < BUFFER_SIZE && w.net[0].ReadError? {
      ClosedWithError(c, r, w);
    } else {
      FirstRound(c, r, w);
      if w.net == [] || |r.buffered| >= BUFFER_SIZE {
        ParsedCloseWhole(c, r, w, 0);
      } else if w.net[0].ReadBlock? {
        ParsedCloseWhole(c, r, w.(net := w.net[1..]), 0);
      } else {
        var room := BUFFER_SIZE - |r.buffered|;
        ReadCloseWhole(c, r, ReadData(w.net, room), w.(net := AfterRead(w.net, room)), 0);
      }
    }
  }

  /** Bytes are buffered, the close is the first thing to be read, and the document has no known length. */
  predicate LosesNow(r: Receiver, net: seq<ReadAnswer>) {
    r.buffered != "" && ClosesNow(r, net) && r.machine.phase == Data && r.machine.dataSize == SIZE_UNKNOWN
  }

  /** A call completes the message at a clean close with bytes still in the buffer if and only if there were some before
      the call, the close is the first thing that it reads, and the document has no known length; and it has then done
      nothing else. */
  lemma CloseLosesExactly(c: Client, r: Receiver, w: World)
    requires Stands(c, r)
    ensures var o := Receive(c, r, w); if LosesNow(r, w.net) then !Whole(o) && o.receiver == r else Whole(o)
  {
    if ClosesNow(r, w.net) {
      ClosedNow(c, r, w);
    } else {
      NotClosedNow(c, r, w);
    }
  }

  /** A client that accepts everything. */
  function Anyone(): Client {
    Client(_ => HE_NONE, _ => NoNumber, (_: bool, size: size_t) => Verdict(HE_NONE, size, false))
  }

  function Fresh(): Receiver {
    Receiver(Reset(), "", "")
  }

  /** The parser after a leader and no headers: the document ends where the connection does. */
  function AfterBlankLine(): Machine {
    Machine(Data, false, SIZE_UNKNOWN, ["L"], [], "")
  }

  lemma ParseSmallMessage(d: string)
    requires d != ""
    ensures Parse(Anyone(), Reset(), "L\n\n" + d, [Blocks]) == Parsed(AfterBlankLine(), d, Block, [], false)
  {
    var s, t := "L\n\n" + d, "\n" + d;
    var m := Reset().(phase := Headers, leaders := ["L"]);
    assert LineEnd(s) == 1 && s[..1] == "L" && s[2..] == t;
    assert [] + ["L"] == ["L"];
    assert Line(Anyone(), Reset(), TrimEnd("L")) == (m, Continue);
    ParseOneLine(Anyone(), Reset(), s, [Blocks]);
    assert LineEnd(t) == 0 && t[..0] == "" && t[1..] == d;
    assert Line(Anyone(), m, TrimEnd("")) == (AfterBlankLine(), Continue);
    ParseOneLine(Anyone(), m, t, [Blocks]);
    assert [Blocks][1..] == [];
    assert Parse(Anyone(), AfterBlankLine(), d, [Blocks]) == Parsed(AfterBlankLine(), d, Block, [], false);
  }

  lemma FirstCall(d: string)
    requires 0 < |d| < BUFFER_SIZE - 3
    ensures Receive(Anyone(), Fresh(), World([ReadSuccess("L\n\n" + d)], [Blocks])) ==
      Received(Receiver(AfterBlankLine(), d, "L\n\n" + d), NotDone(Interrupted), HE_NONE, World([], []))
  {
    var s := "L\n\n" + d;
    assert "" + s == s && [ReadSuccess(s)][1..] == [];
    ParseSmallMessage(d);
    assert AfterRead([ReadSuccess(s)], BUFFER_SIZE) == [] && ReadData([ReadSuccess(s)], BUFFER_SIZE) == s;
  }

  /** The second call: the connection closes. */
  lemma SecondCall(r: Receiver)
    requires |r.buffered| < BUFFER_SIZE && r.machine.phase == Data && r.machine.dataSize == SIZE_UNKNOWN
    ensures Receive(Anyone(), r, World([ReadEos], [])) == Received(r, Closed(true), HE_NONE, World([], []))
  {
    ClosedNow(Anyone(), r, World([ReadEos], []));
    assert [ReadEos][1..] == [];
  }

  /** A leader, no headers, and a document that does not take `d` when it arrives: when the network then closes, the
      message is complete and `d` is lost. */
  lemma BufferedDataLost(d: string)
    requires 0 < |d| < BUFFER_SIZE - 3
    ensures var first := Receive(Anyone(), Fresh(), World([ReadSuccess("L\n\n" + d)], [Blocks]));
      var second := Receive(Anyone(), first.receiver, World([ReadEos], []));
      && first.outcome == NotDone(Interrupted)
      && second.outcome == Closed(true) && second.error == HE_NONE
      && second.receiver.buffered == d && second.receiver.machine.body == ""
      && Reference(Anyone(), second.receiver).machine.body == d
  {
    var w, r := World([ReadSuccess("L\n\n" + d)], [Blocks]), Receiver(AfterBlankLine(), d, "L\n\n" + d);
    FirstCall(d);
    assert Stands(Anyone(), r) by {
      ReceiveExplained(Anyone(), Fresh(), w);
    }
    SecondCall(r);
    RunUnknown(Anyone(), r.machine, d);
    assert "" + d == d;
  }
}
