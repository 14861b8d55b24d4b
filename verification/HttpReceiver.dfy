/** The receiving side of HttpBase: DoReceiveLoop reads the network into one buffer and lets the parser consume it. */
module HttpReceiver {
  import opened HttpParser
  import Memory
  import opened ReceiveLoop
  import opened Wrappers

  class HttpReceiver {
    const client: Client
    const parser: HttpParser
    const buffer: array<char>
    var len: nat
    ghost var fed: string     // everything the network has given, in order

    ghost predicate Shape()
      reads this, parser
    {
      parser.client == client && buffer.Length == BUFFER_SIZE && len <= BUFFER_SIZE
    }

    ghost function Now(): Receiver
      requires Shape()
      reads this, parser, buffer
    {
      Receiver(parser.State(), buffer[..len], fed)
    }

    /** Until the message is over, the parser and the bytes it has not consumed stand for everything received. */
    ghost predicate Valid()
      reads this, parser, buffer
    {
      Shape() && Stands(client, Now())
    }

    constructor (client: Client)
      ensures Valid() && fresh(parser) && fresh(buffer) && this.client == client && Now() == Receiver(Reset(), "", "")
    {
      this.client := client;
      parser := new HttpParser(client);
      buffer := new char[BUFFER_SIZE];
      len, fed := 0, "";
    }

    /** HandleStreamClose in receive mode. */
    method HandleStreamClose(readError: HttpError) returns (error: HttpError)
      ensures error == StreamClose(parser.State(), readError)
    {
      if readError == HE_NONE {
        if parser.phase == Data && parser.dataSize == SIZE_UNKNOWN {
          return HE_NONE;
        }
        return HE_DISCONNECTED;
      }
      return readError;
    }

    /** Received bytes go behind the bytes that the parser has left. */
    method Buffer(data: string)
      requires Shape() && len + |data| <= BUFFER_SIZE
      modifies this`len, this`fed, buffer
      ensures Shape() && Now() == WithData(old(Now()), data)
    {
      Memory.Copy(buffer, len, data);
      len := len + |data|;
      fed := fed + data;
    }

    /** Lets the parser consume what it can of the buffer, and moves the rest to the front. */
    method Consume(sinks: seq<Answer>) returns (result: Result, sinks': seq<Answer>, sinkFailed: bool)
      requires Shape()
      modifies this`len, parser, buffer
      ensures Shape()
      ensures var p := Parse(client, old(Now()).machine, old(Now()).buffered, sinks);
        Now() == AfterParse(old(Now()), p) && (result, sinks', sinkFailed) == (p.result, p.sinks, p.sinkFailed)
    {
      var processed;
      result, processed, sinks', sinkFailed := parser.Process(buffer[..len], sinks);
      assert buffer[..len][processed..] == buffer[processed..len];
      len := len - processed;
      Memory.MoveDown(buffer, processed, len);
    }

    /** The second half of a round: parse, and see whether the loop is over. */
    method ParseMore(loopCount: nat, w: World) returns (over: Option<Outcome>, error: HttpError, w': World)
      requires Shape() && loopCount <= MAX_READ_COUNT
      modifies this`len, parser, buffer
      ensures Shape() && (over.None? ==> loopCount < MAX_READ_COUNT)
      ensures ParseThen(client, old(Now()), w, loopCount) ==
        if over.Some? then Received(Now(), over.value, error, w')
        else ReceiveFrom(client, Now(), w', loopCount + 1, true)
    {
      var result, sinks, sinkFailed := Consume(w.sinks);
      over, error, w' := None, HE_NONE, w.(sinks := sinks);
      match result
      case Continue =>
        if loopCount == MAX_READ_COUNT {
          over := Some(NotDone(TurnOver));
        }
      case Block =>
        over := Some(NotDone(Interrupted));
      case Done(e) =>
        over, error := Some(if sinkFailed then SinkFailed else MessageOver), e;
    }

    /** A read; the outcome, if there is one, says that the loop is over. */
    method ReadMore(needsMore: bool, w: World) returns (over: Option<Outcome>, error: HttpError, w': World)
      requires Shape()
      modifies this`len, this`fed, buffer
      ensures Shape() && AfterReading(client, old(Now()), w, needsMore, Now(), over, error, w')
    {
      over, error, w' := None, HE_NONE, w;
      if len < BUFFER_SIZE {
        if w.net == [] {
          over := if needsMore then Some(NotDone(Starved)) else None;
        } else {
          w' := w.(net := w.net[1..]);
          match w.net[0]
          case ReadSuccess(_) =>
            var room := BUFFER_SIZE - len;
            w' := w.(net := AfterRead(w.net, room));
            Buffer(ReadData(w.net, room));
          case ReadBlock =>
            over := if needsMore then Some(NotDone(Starved)) else None;
          case ReadEos =>
            error := HandleStreamClose(HE_NONE);
            over := Some(Closed(true));
          case ReadError(e) =>
            error := HandleStreamClose(e);
            over := Some(Closed(e == HE_NONE));
        }
      } else if needsMore {
        over, error := Some(Overflow), HE_OVERFLOW;
      }
    }

    /** One round of the loop. */
    method Round(loopCount: nat, w: World) returns (over: Option<Outcome>, error: HttpError, w': World)
      requires Shape() && loopCount <= MAX_READ_COUNT
      modifies this`len, this`fed, parser, buffer
      ensures Shape() && (over.None? ==> loopCount < MAX_READ_COUNT)
      ensures ReceiveFrom(client, old(Now()), w, loopCount, loopCount > 0) ==
        if over.Some? then Received(Now(), over.value, error, w')
        else ReceiveFrom(client, Now(), w', loopCount + 1, true)
    {
      over, error, w' := ReadMore(loopCount > 0, w);
      if over.None? {
        over, error, w' := ParseMore(loopCount, w');
      }
    }

    /** The loop itself. */
    method Pump(w: World) returns (outcome: Outcome, error: HttpError, w': World)
      requires Shape()
      modifies this`len, this`fed, parser, buffer
      ensures Shape() && Received(Now(), outcome, error, w') == Receive(client, old(Now()), w)
    {
      var loopCount := 0;
      var over;
      over, error, w' := Round(loopCount, w);
      while over.None?
        invariant Shape() && (over.None? ==> loopCount < MAX_READ_COUNT)
        invariant Receive(client, old(Now()), w) ==
          if over.Some? then Received(Now(), over.value, error, w')
          else ReceiveFrom(client, Now(), w', loopCount + 1, true)
        decreases over.None?, MAX_READ_COUNT - loopCount
      {
        loopCount := loopCount + 1;
        over, error, w' := Round(loopCount, w');
      }
      outcome := over.value;
    }

    /** Pumps the network through the parser, and says how far it has come. */
    method DoReceiveLoop(w: World) returns (outcome: Outcome, error: HttpError, w': World)
      requires Valid()
      modifies this`len, this`fed, parser, buffer
      ensures Shape() && Received(Now(), outcome, error, w') == Receive(client, old(Now()), w)
      ensures old(fed) <= fed && Explained(client, Received(Now(), outcome, error, w'))
      ensures outcome != MessageOver ==> Valid()
    {
      ReceiveExplained(client, Now(), w);
      outcome, error, w' := Pump(w);
      if outcome != MessageOver {
        ExplainedStands(client, Received(Now(), outcome, error, w'));
      }
    }
  }
}
