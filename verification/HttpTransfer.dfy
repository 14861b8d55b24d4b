/** A sender and a receiver: a message that has been sent arrives, however it was cut and held up on the way. */
module HttpTransfer {
  import F = FlushData
  import opened CText
  import opened DecimalText
  import opened FlushTheorems
  import opened HttpHeaders
  import opened HttpLines
  import opened HttpParser
  import opened HttpReceiver
  import opened HttpRoundTrip
  import opened HttpSender
  import opened ReceiveLoop
  import opened SenderState
  import opened Wrappers

  // ----- What a completed sender has put on the wire -----

  /** The receiving client accepts the message, and its headers say where its document ends. */
  ghost predicate Understands(c: Client, m: Message) {
    var a := Arriving(m.headers);
    && Welcome(c, m.leader, m.headers)
    && if m.chunked then m.hasDocument && SaysChunked(a)
       else !SaysChunked(a) && c.headerComplete(false, DeclaredSize(c, a)).dataSize == |m.document| != SIZE_UNKNOWN
  }

  /** The wire holds one whole message: its parse ends at its end, with everything in it, and no line of it is too
      long. */
  ghost predicate Carries(c: Client, wire: string, m: Message) {
    var f := Run(c, Reset(), wire);
    && Short(c, Reset(), wire) && f.result == Done(HE_NONE) && f.rest == ""
    && f.machine.leaders == [m.leader] && f.machine.headers == Arriving(m.headers) && f.machine.body == m.document
  }

  lemma CompleteCarries(c: Client, m: Message, s: State)
    requires Inv(m, s) && AllSent(m, s) && Understands(c, m) && (m.chunked ==> "" !in s.pieces)
    ensures Carries(c, s.wire, m)
  {
    assert s.wire + "" == s.wire;
    CompletedWire(m, s);
    var m' := AtBody(c, m.leader, m.headers);
    if m.chunked {
      ChunkedRoundTrip(c, m, s, "");
      SendablePieces(s.pieces);
      ShortChunks(c, m', s.pieces);
    } else {
      PlainRoundTrip(c, m, s, "");
      ShortData(c, m', m.document);
    }
    ShortHead(c, m.leader, m.headers, Sent(m, s));
  }

  lemma DocumentPieces(m: Message, s: State, w: F.World)
    requires Willing(w.source) && "" !in s.pieces
    ensures var f := F.DocumentQueued(m, s, w).0; Willing(f.world.source) && "" !in f.state.pieces
  {
    if w.source != [] {
      assert w.source[0] in w.source;
    }
  }

  lemma RoundPieces(m: Message, s: State, required: bool, w: F.World)
    requires s.header <= |m.headers| && Willing(w.source) && "" !in s.pieces
    ensures var f := F.Round(m, s, required, w); Willing(f.world.source) && "" !in f.state.pieces
  {
    var (s', sendRequired) := F.HeadersQueued(m, s, required);
    DocumentPieces(m, s', w);
  }

  lemma {:induction false} FlushPieces(m: Message, s: State, required: bool, w: F.World)
    requires s.header <= |m.headers| && Willing(w.source) && "" !in s.pieces
    ensures "" !in F.FlushFrom(m, s, required, w).state.pieces
    decreases |w.network|
  {
    RoundPieces(m, s, required, w);
    var f := F.Round(m, s, required, w);
    if f.result == None {
      FlushPieces(m, f.state, false, f.world);
    }
  }

  /** Given a document and a network that neither block nor fail, one call sends a message that the receiving client
      understands, and the wire then carries it. */
  lemma SentMessage(c: Client, m: Message, w: F.World)
    requires Understands(c, m) && (!m.hasDocument ==> m.document == "") && BothWilling(w)
    requires |w.source| > ToSend(m, Initial(m)) && |w.network| > ToSend(m, Initial(m))
    ensures var f := F.Flush(m, Initial(m), w); f.result == F.Complete && Carries(c, f.state.wire, m)
  {
    InitialInv(m);
    F.FlushKeeps(m, Initial(m), w);
    WillingCompletes(m, Initial(m), |Initial(m).queued| >= BUFFER_SIZE, w);
    FlushPieces(m, Initial(m), |Initial(m).queued| >= BUFFER_SIZE, w);
    CompleteCarries(c, m, F.Flush(m, Initial(m), w).state);
  }

  // ----- Messages that say how long they are -----

  /** A client that accepts every end of the headers and leaves the size as it is. */
  ghost predicate PassesOn(c: Client) {
    forall chunked, size: size_t ::
      c.headerComplete(chunked, size).error == HE_NONE && c.headerComplete(chunked, size).dataSize == size
  }

  /** sscanf with "%u" reads a numeral of a number that fits. */
  ghost predicate ReadsNumerals(c: Client) {
    forall s | IsNumeral(s) && Numeral(s) < 0x1_0000_0000 :: c.scanUnsigned(s) == Number(Numeral(s))
  }

  /** The header that HttpData sets for a document: its length if that is known, and otherwise that there are chunks. */
  function DocumentHeader(known: bool, document: string): Header {
    if known then Header(CONTENT_LENGTH, Decimal(|document|)) else Header(TRANSFER_ENCODING, "chunked")
  }

  /** No other header says how long the document is. */
  predicate OnlyOthers(hs: seq<Header>) {
    NoneNamed(hs, CONTENT_LENGTH) && NoneNamed(hs, TRANSFER_ENCODING)
  }

  lemma DigitsAreClean(name: string, s: string)
    requires NoneOf(name, ":\n\0") && IsNumeral(s)
    ensures Clean(Header(name, s))
  {
    forall i | 0 <= i < |s|
      ensures s[i] !in "\n" && !IsSpace(s[i])
    {
      assert IsDigit(s[i]);
    }
  }

  lemma NamesAreClean()
    ensures NoneOf(CONTENT_LENGTH, ":\n\0") && NoneOf(TRANSFER_ENCODING, ":\n\0")
    ensures Clean(Header(TRANSFER_ENCODING, "chunked"))
  {
  }

  lemma DocumentHeaderIs(c: Client, known: bool, document: string)
    requires ReadsNumerals(c) && |document| < 0x8000_0000
    ensures var h := DocumentHeader(known, document);
      && Clean(h) && IsLegible(c, h) && Named(h, CONTENT_LENGTH) == known && Named(h, TRANSFER_ENCODING) == !known
      && (known ==> c.scanUnsigned(h.value) == Number(|document|))
  {
    TwoNames(DocumentHeader(known, document));
    NamesAreClean();
    DecimalIs(|document|, Decimal(|document|));
    DigitsAreClean(CONTENT_LENGTH, Decimal(|document|));
  }

  lemma OthersLegible(c: Client, hs: seq<Header>)
    requires OnlyOthers(hs)
    ensures Legible(c, Arriving(hs))
  {
    ArrivingNone(hs, CONTENT_LENGTH);
    ArrivingNone(hs, TRANSFER_ENCODING);
  }

  /** A message with that header among any others is understood: what the other theorems assume about sizes and chunks
      is what the headers say.  From 2 GB on the length is printed as a negative number. */
  lemma DocumentUnderstood(c: Client, leader: string, a: seq<Header>, b: seq<Header>, known: bool, document: string)
    requires CleanHead(leader, a + b) && OnlyOthers(a) && OnlyOthers(b) && c.parseLeader(leader) == HE_NONE
    requires PassesOn(c) && ReadsNumerals(c) && |document| < 0x8000_0000
    requires Arrives(DocumentHeader(known, document))
    ensures Understands(c, MessageOf(leader, a + [DocumentHeader(known, document)] + b, true, document))
    ensures MessageOf(leader, a + [DocumentHeader(known, document)] + b, true, document).chunked == !known
  {
    var h := DocumentHeader(known, document);
    var hs := a + [h] + b;
    DocumentHeaderIs(c, known, document);
    OnlyOne(a, h, b, CONTENT_LENGTH);
    OnlyOne(a, h, b, TRANSFER_ENCODING);
    OthersLegible(c, a);
    OthersLegible(c, b);
    forall i | 0 <= i < |Arriving(hs)|
      ensures IsLegible(c, Arriving(hs)[i])
    {
      var n := |Arriving(a)|;
      assert Arriving(hs)[i] == if i < n then Arriving(a)[i] else if i == n then h else Arriving(b)[i - n - 1];
    }
    forall x | x in hs
      ensures Clean(x)
    {
      assert x in a + b || x == h;
    }
  }

  // ----- What the receiver makes of it -----

  /** The receiver has the message, and nothing else. */
  ghost predicate Arrived(r: Receiver, m: Message) {
    && r.buffered == "" && r.machine.leaders == [m.leader]
    && r.machine.headers == Arriving(m.headers) && r.machine.body == m.document
  }

  /** Calls of DoReceiveLoop, one for each world, until one of them says that something has ended. */
  function Session(c: Client, r: Receiver, ws: seq<World>): Received
    requires ws != []
    decreases |ws|
  {
    var o := Receive(c, r, ws[0]);
    if o.outcome.NotDone? && |ws| > 1 then Session(c, o.receiver, ws[1..]) else o
  }

  lemma {:induction false} SessionExplained(c: Client, r: Receiver, ws: seq<World>)
    requires Stands(c, r) && ws != []
    ensures var o := Session(c, r, ws); r.fed <= o.receiver.fed && Explained(c, o)
    decreases |ws|
  {
    ReceiveExplained(c, r, ws[0]);
    var o := Receive(c, r, ws[0]);
    if o.outcome.NotDone? && |ws| > 1 {
      ExplainedStands(c, o);
      SessionExplained(c, o.receiver, ws[1..]);
    }
  }

  /** A run over part of the wire: it ends only where the message does. */
  lemma PartOfWire(c: Client, wire: string, m: Message, fed: string)
    requires Carries(c, wire, m) && fed <= wire
    ensures var f := Run(c, Reset(), fed);
      && (f.result.Done? ==> fed == wire)
      && (f.result == Continue ==> !(f.machine.phase == Data && f.machine.dataSize == SIZE_UNKNOWN))
      && (f.result == Continue ==> |f.rest| < BUFFER_SIZE)
  {
    var more := wire[|fed|..];
    assert fed + more == wire;
    RunAppend(c, Reset(), fed, more);
    ShortRest(c, Reset(), fed, more);
    var f := Run(c, Reset(), fed);
    if f.result.Done? {
      assert |f.rest + more| == 0;
    } else if f.result == Continue && f.machine.phase == Data {
      RunQuiescent(c, Reset(), fed);
      if f.machine.dataSize == SIZE_UNKNOWN {
        RunUnknown(c, f.machine, f.rest + more);
      }
    }
  }

  /** A receiver that has been given part of the wire, in any pieces, with any interruptions, over any number of calls:
      it reports the message only when it has it, whole and exact; with the whole wire it goes on waiting only for the
      document or the client; a connection that closes before the end is never taken for the end; and the buffer never
      overflows. */
  lemma Delivered(c: Client, wire: string, m: Message, r: Receiver, ws: seq<World>)
    requires Carries(c, wire, m) && Stands(c, r) && ws != [] && Session(c, r, ws).receiver.fed <= wire
    ensures var o := Session(c, r, ws);
      && (o.outcome == MessageOver ==> o.error == HE_NONE && o.receiver.fed == wire && Arrived(o.receiver, m))
      && (o.outcome.NotDone? && o.receiver.fed == wire ==> o.outcome.reason == Interrupted)
      && (o.outcome.Closed? ==> o.error != HE_NONE) && o.outcome != Overflow
  {
    SessionExplained(c, r, ws);
    var o := Session(c, r, ws);
    PartOfWire(c, wire, m, o.receiver.fed);
    if o.outcome.Closed? && o.error == HE_NONE {
      RunUnknown(c, o.receiver.machine, o.receiver.buffered);
      assert false;
    }
  }

  /** The document takes all that is offered, the client never asks to wait, and the network is silent. */
  ghost predicate NothingInTheWay(c: Client, r: Receiver, w: World) {
    !MayBlock(c) && Willing(w.sinks) && |w.sinks| >= |r.buffered| && w.net == []
  }

  /** Once the wire has been received, whatever was blocked before, the next call with nothing in the way ends with the
      message. */
  lemma LastCall(c: Client, wire: string, m: Message, r: Receiver, w: World)
    requires Carries(c, wire, m) && Stands(c, r) && r.fed == wire && NothingInTheWay(c, r, w)
    ensures var o := Receive(c, r, w); o.outcome == MessageOver && o.error == HE_NONE && Arrived(o.receiver, m)
  {
    WillingParse(c, r.machine, r.buffered, w.sinks);
  }

  /** The two objects, after any call of DoReceiveLoop, if what it has been given so far is part of what a sender that
      has completed its message has put on the wire: the outcomes are as above; and if it was all of it before the call
      and nothing is in the way, the call ends with the message. */
  lemma Transfer(sender: HttpSender, receiver: HttpReceiver, w: World)
    requires sender.Valid() && AllSent(sender.message, sender.Now())
    requires Understands(receiver.client, sender.message) && (sender.message.chunked ==> "" !in sender.pieces)
    requires receiver.Valid() && Receive(receiver.client, receiver.Now(), w).receiver.fed <= sender.wire
    ensures var o := Receive(receiver.client, receiver.Now(), w);
      && (o.outcome == MessageOver ==>
            o.error == HE_NONE && o.receiver.fed == sender.wire && Arrived(o.receiver, sender.message))
      && (o.outcome.NotDone? && o.receiver.fed == sender.wire ==> o.outcome.reason == Interrupted)
      && (o.outcome.Closed? ==> o.error != HE_NONE) && o.outcome != Overflow
    ensures receiver.fed == sender.wire && NothingInTheWay(receiver.client, receiver.Now(), w) ==>
      Receive(receiver.client, receiver.Now(), w).outcome == MessageOver
  {
    CompleteCarries(receiver.client, sender.message, sender.Now());
    assert Session(receiver.client, receiver.Now(), [w]) == Receive(receiver.client, receiver.Now(), w);
    Delivered(receiver.client, sender.wire, sender.message, receiver.Now(), [w]);
    if receiver.fed == sender.wire && NothingInTheWay(receiver.client, receiver.Now(), w) {
      LastCall(receiver.client, sender.wire, sender.message, receiver.Now(), w);
    }
  }
}
