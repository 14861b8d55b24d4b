/** The sending side of HttpBase: headers and document are queued in one buffer and written to the network whenever
    no more fits. */
module HttpSender {
  import opened Arithmetic
  import opened HttpHeaders
  import opened HttpParser
  import opened ChunkedCoding
  import opened FlushData
  import opened FlushTheorems
  import Memory
  import opened SenderState
  import opened Seqs
  import opened Wrappers

  class HttpSender {
    const message: Message
    const buffer: array<char>
    var len: nat
    var header: nat                 // the headers before this one are done with
    var chunkData: bool
    var remaining: string           // what the document has still to give
    ghost var wire: string          // everything the network has taken
    ghost var pieces: seq<string>   // what the document's reads have returned

    ghost predicate Shape()
      reads this
    {
      buffer.Length == BUFFER_SIZE && len <= BUFFER_SIZE && header <= |message.headers|
    }

    ghost function Now(): State
      reads this, buffer
      requires len <= buffer.Length
    {
      State(wire, buffer[..len], header, chunkData, pieces, remaining)
    }

    ghost predicate Valid()
      reads this, buffer
    {
      Shape() && Inv(message, Now())
    }

    /** HttpBase::send up to its call of flush_data. */
    constructor (leader: string, headers: seq<Header>, hasDocument: bool, document: string)
      requires !hasDocument ==> document == ""
      ensures Valid() && fresh(buffer) && message == MessageOf(leader, headers, hasDocument, document)
      ensures Now() == Initial(message)
    {
      var encoding := FirstValue(headers, TRANSFER_ENCODING);
      message := Message(leader, headers, hasDocument, encoding == Some("chunked"), document);
      remaining, chunkData := document, encoding == Some("chunked");
      buffer := new char[BUFFER_SIZE];
      len, header, wire, pieces := 0, 0, "", [];
      new;
      Append(Start(leader));
      if |headers| == 0 {
        Append(Clip(CRLF, BUFFER_SIZE - len));
      }
      assert Now() == Initial(message);
      InitialInv(message);
    }

    method Append(s: string)
      requires len + |s| <= buffer.Length
      modifies this`len, buffer
      ensures len == old(len) + |s| && buffer[..len] == old(buffer[..len]) + s
    {
      Memory.Copy(buffer, len, s);
      len := len + |s|;
    }

    /** Queues headers while they fit, and the blank line after the last; or a write is required first. */
    method QueueHeaders() returns (sendRequired: bool)
      requires Shape() && header < |message.headers|
      modifies this`len, this`header, buffer
      ensures Shape() && (Now(), sendRequired) == HeadersQueued(message, old(Now()), false)
    {
      QueueFittingHeaders();
      sendRequired := header < |message.headers|;
      Append(if sendRequired then "" else CRLF);
    }

    method QueueFittingHeaders()
      requires Shape() && header < |message.headers|
      modifies this`len, this`header, buffer
      ensures Shape() && header == HeaderStop(message.headers, old(header), old(len))
      ensures header == |message.headers| ==> len < BUFFER_SIZE - 3
      ensures Holds(buffer[..len], old(buffer[..len]), message.headers, old(header), header)
    {
      ghost var start, before := header, buffer[..len];
      var queued := true;
      assert message.headers[header..header] == [];
      while queued && header < |message.headers|
        invariant Queueing(start, before, queued)
        decreases queued, |message.headers| - header
      {
        queued := QueueNextHeader(start, before);
      }
    }

    /** The headers from `start` on have been put behind `before`, and the last one as `queued` says. */
    ghost predicate Queueing(start: nat, before: string, queued: bool)
      reads this, buffer
    {
      && Shape() && start <= header && (header > start ==> len < BUFFER_SIZE - 3)
      && Holds(buffer[..len], before, message.headers, start, header)
      && HeaderStop(message.headers, start, |before|) ==
        (if queued then HeaderStop(message.headers, header, len) else header)
      && (!queued ==> header < |message.headers|)
    }

    method QueueNextHeader(ghost start: nat, ghost before: string) returns (queued: bool)
      requires Queueing(start, before, true) && header < |message.headers|
      modifies this`len, this`header, buffer
      ensures Queueing(start, before, queued) && header == old(header) + (if queued then 1 else 0)
    {
      HoldsOneMore(buffer[..len], before, message.headers, start, header);
      queued := QueueOneHeader();
    }

    /** The next header goes into the buffer if it fits, and is discarded if it does not fit the empty buffer. */
    method QueueOneHeader() returns (queued: bool)
      requires Shape() && header < |message.headers|
      modifies this`len, this`header, buffer
      ensures Shape() && header == old(header) + (if queued then 1 else 0)
      ensures queued ==> len < BUFFER_SIZE - 3
      ensures HeaderStop(message.headers, old(header), old(len)) ==
        if queued then HeaderStop(message.headers, header, len) else header
      ensures buffer[..len] == old(buffer[..len]) +
        if queued && Fits(message.headers[old(header)]) then HeaderText(message.headers[old(header)]) else ""
    {
      var text := HeaderText(message.headers[header]);
      queued := len + |text| < BUFFER_SIZE - 3;
      Append(if queued then text else "");
      queued := queued || len == 0;
      header := if queued then header + 1 else header;
    }

    /** Asks the document for up to `room` bytes. */
    method ReadDocument(room: nat, a: Answer) returns (answer: DocumentAnswer)
      modifies this`remaining
      ensures answer == DocumentRead(old(remaining), room, a)
      ensures answer.Piece? ==> answer.data <= old(remaining) && |answer.data| <= room
      ensures remaining == if answer.Piece? then old(remaining)[|answer.data|..] else old(remaining)
    {
      answer := DocumentRead(remaining, room, a);
      if answer.Piece? {
        remaining := remaining[|answer.data|..];
      }
    }

    /** Puts a chunk into the buffer: its data first, where the document has been read to, then its size and ends. */
    method PutChunk(d: string)
      requires len + CHUNK_DIGITS + 2 + |d| + 2 <= buffer.Length
      modifies this`len, buffer
      ensures len == old(len) + |Chunk(d)| && buffer[..len] == old(buffer[..len]) + Chunk(d)
    {
      var offset := len + CHUNK_DIGITS + 2;
      Memory.Copy(buffer, offset, d);
      Memory.Copy(buffer, len, Hex(|d|, CHUNK_DIGITS));
      Memory.Copy(buffer, len + CHUNK_DIGITS, CRLF);
      Memory.Copy(buffer, offset + |d|, CRLF);
      len := offset + |d| + 2;
      assert buffer[..len] == old(buffer[..len]) + Chunk(d);
    }

    /** A piece of the document goes into the buffer, as a chunk while chunking is on. */
    method PutPiece(d: string, ghost before: State)
      requires len + |d| + (if chunkData then CHUNK_DIGITS + 2 + 2 else 0) <= buffer.Length && d <= before.remaining
      requires Now() == before.(remaining := before.remaining[|d|..])
      modifies this`len, this`pieces, buffer
      ensures len <= buffer.Length && Now() == WithPiece(message, before, d)
    {
      if chunkData {
        PutChunk(d);
      } else {
        Append(d);
      }
      pieces := pieces + if message.chunked && !chunkData then [] else [d];
    }

    /** Reads the document into the buffer: `sendRequired` when no more fits or comes. */
    method QueueDocument(w: World) returns (sendRequired: bool, result: Option<FlushResult>, w': World)
      requires Shape()
      modifies this`len, this`chunkData, this`remaining, this`pieces, buffer
      ensures Shape() && (Flow(Now(), result, w'), sendRequired) == DocumentQueued(message, old(Now()), w)
    {
      result, w' := None, w;
      var reserve := if chunkData then len + CHUNK_DIGITS + 2 + 2 else len;
      if reserve >= BUFFER_SIZE || w.source == [] {
        return true, None, w;
      }
      ghost var before := Now();
      w' := w.(source := w.source[1..]);
      var answer := ReadDocument(BUFFER_SIZE - reserve, w.source[0]);
      match answer
      case Piece(d) =>
        PutPiece(d, before);
        sendRequired := false;
      case Nothing =>
        sendRequired := true;
      case End =>
        sendRequired := true;
        if chunkData {
          Append(LAST_CHUNK);
          chunkData := false;
        } else if len == 0 {
          sendRequired, result := false, Some(Complete);
        }
      case ReadFailed =>
        sendRequired, result := false, Some(Broken);
    }

    /** The first half of a round of flush_data's loop: queue headers, then document data. */
    method Fill(required: bool, w: World) returns (sendRequired: bool, result: Option<FlushResult>, w': World)
      requires Shape()
      modifies this`len, this`header, this`chunkData, this`remaining, this`pieces, buffer
      ensures Shape() && (Flow(Now(), result, w'), sendRequired) == Filled(message, old(Now()), required, w)
    {
      sendRequired, result, w' := required, None, w;
      if !sendRequired && header < |message.headers| {
        sendRequired := QueueHeaders();
      }
      if !sendRequired && message.hasDocument {
        sendRequired, result, w' := QueueDocument(w);
      }
    }

    /** The second half: offer the buffer to the network, keep what it does not take, and see how to go on. */
    method Offer(sendRequired: bool, w: World) returns (result: Option<FlushResult>, w': World)
      requires Shape()
      modifies this`len, this`wire, buffer
      ensures Shape() && Flow(Now(), result, w') == Offered(old(Now()), sendRequired, w)
    {
      if w.network == [] {
        return Some(Running), w;
      }
      result, w' := None, w.(network := w.network[1..]);
      match w.network[0]
      case Moves(n) =>
        RemoveSent(Min(n, len));
      case Blocks =>
        if sendRequired {
          result := Some(Waiting);
        }
      case Fails =>
        result := Some(Broken);
    }

    /** The network has taken the first `n` bytes of the buffer. */
    method RemoveSent(n: nat)
      requires n <= len <= buffer.Length
      modifies this`len, this`wire, buffer
      ensures len == old(len) - n && Now() == Written(old(Now()), n)
    {
      assert buffer[..len][..n] == buffer[..n] && buffer[..len][n..] == buffer[n..len];
      wire := wire + buffer[..n];
      len := len - n;
      Memory.MoveDown(buffer, n, len);
    }

    /** One round of the loop of flush_data: queue what fits, then write. */
    method FlushRound(required: bool, w: World) returns (result: Option<FlushResult>, w': World)
      requires Shape()
      modifies this`len, this`header, this`chunkData, this`remaining, this`pieces, this`wire, buffer
      ensures Shape() && Flow(Now(), result, w') == Round(message, old(Now()), required, w)
    {
      var sendRequired;
      sendRequired, result, w' := Fill(required, w);
      if result.None? {
        if len == 0 {
          result := Some(if message.hasDocument then Waiting else Complete);
        } else {
          result, w' := Offer(sendRequired, w');
        }
      }
    }

    /** Sends as much as the network takes, and says how far it has come. */
    method FlushData(w: World) returns (result: FlushResult, w': World)
      requires Valid()
      modifies this`len, this`header, this`chunkData, this`remaining, this`pieces, this`wire, buffer
      ensures Valid() && Flushed(Now(), result, w') == Flush(message, old(Now()), w)
      ensures old(wire) <= wire && (result == Complete ==> AllSent(message, Now()))
    {
      ghost var start := Now();
      var required, end := len >= BUFFER_SIZE, None;
      w' := w;
      while end == None
        invariant Shape()
        invariant Flush(message, start, w) ==
          if end == None then FlushFrom(message, Now(), required, w') else Flushed(Now(), end.value, w')
        decreases end == None, |w'.network|
      {
        end, w' := FlushRound(required, w');
        required := false;
      }
      result := end.value;
      FlushKeeps(message, start, w);
    }
  }
}
