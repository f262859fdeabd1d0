/** The life of one WebSocket connection: dial, handshake, frame pump. The frame parser and the
    header search of the libraries underneath are parameters, assumed only to be prefix-stable. */
module SocketClient {
  import opened Wrappers

  type Byte = bv8
  type Mask = seq<Byte>

  datatype Message = Close(reason: seq<Byte>) | Data(kind: nat, body: seq<Byte>)

  datatype Parsed = Frame(message: Message, consumed: nat) | NeedMore | Malformed

  /** What the connection uses of the libraries underneath. */
  datatype Codec = Codec(
    parse: seq<Byte> -> Parsed,
    headerEnd: seq<Byte> -> Option<nat>,
    accepts: seq<Byte> -> bool,
    encode: (Message, Mask) -> seq<Byte>)

  /** Once a frame or the end of the headers is seen, more bytes behind it do not change it. */
  ghost predicate PrefixStable(codec: Codec) {
    && (forall b: seq<Byte>, c: seq<Byte> {:trigger codec.parse(b + c)} :: codec.parse(b).Frame? ==>
          0 < codec.parse(b).consumed <= |b| && codec.parse(b + c) == codec.parse(b))
    && (forall b: seq<Byte>, c: seq<Byte> {:trigger codec.headerEnd(b + c)} :: codec.headerEnd(b).Some? ==>
          codec.headerEnd(b).value <= |b| && codec.headerEnd(b + c) == codec.headerEnd(b))
  }

  lemma FrameConsumes(codec: Codec, b: seq<Byte>)
    requires PrefixStable(codec) && codec.parse(b).Frame?
    ensures 0 < codec.parse(b).consumed <= |b|
  {
    assert b + [] == b;
    assert codec.parse(b + []) == codec.parse(b);
  }

  lemma HeaderFits(codec: Codec, b: seq<Byte>)
    requires PrefixStable(codec) && codec.headerEnd(b).Some?
    ensures codec.headerEnd(b).value <= |b|
  {
    assert b + [] == b;
    assert codec.headerEnd(b + []) == codec.headerEnd(b);
  }

  // ---- what a byte stream says --------------------------------------------

  datatype Ending = Waiting | Closed | Broken

  datatype Heard = Heard(messages: seq<Message>, ending: Ending, rest: seq<Byte>)

  /** All frames of a stream up to and including the first Close, or up to where it stops parsing. */
  ghost function ParseAll(codec: Codec, b: seq<Byte>): Heard
    requires PrefixStable(codec)
    decreases |b|
  {
    match codec.parse(b)
    case NeedMore => Heard([], Waiting, b)
    case Malformed => Heard([], Broken, b)
    case Frame(message, consumed) =>
      FrameConsumes(codec, b);
      if message.Close? then Heard([message], Closed, b[consumed..])
      else var more := ParseAll(codec, b[consumed..]); more.(messages := [message] + more.messages)
  }

  /** Bytes that arrive later only ever add messages, and none behind a Close. */
  lemma {:induction false} LaterBytes(codec: Codec, b: seq<Byte>, c: seq<Byte>)
    requires PrefixStable(codec)
    ensures var now, later := ParseAll(codec, b), ParseAll(codec, b + c);
      && (now.ending == Waiting ==>
            var more := ParseAll(codec, now.rest + c);
            later.messages == now.messages + more.messages && later.ending == more.ending && later.rest == more.rest)
      && (now.ending == Closed ==> later.messages == now.messages && later.ending == Closed)
      && now.messages <= later.messages
    decreases |b|
  {
    match codec.parse(b) {
      case NeedMore =>
      case Malformed =>
      case Frame(message, consumed) =>
        FrameConsumes(codec, b);
        assert codec.parse(b + c) == codec.parse(b);
        if !message.Close? {
          assert (b + c)[consumed..] == b[consumed..] + c;
          LaterBytes(codec, b[consumed..], c);
        }
    }
  }

  // ---- the world outside ----------------------------------------------------

  datatype Error =
    | DnsFailed | NoDnsResults | ConnectTimedOut | ConnectFailed | TlsFailed | BadRequest
    | HandshakeWriteFailed | HandshakeFlushFailed | HandshakeReadFailed | HandshakeClosed | HandshakeRejected
    | FrameMalformed | ReadFailed | WriteFailed | FlushFailed

  /** A read of no bytes is the end of the stream. */
  datatype Read = Bytes(bytes: seq<Byte>) | ReadError

  /** How a write of a whole buffer and its flush go. */
  datatype Fate = Goes | WriteBreaks(after: nat) | FlushBreaks

  /** Which side the select takes next, with the random mask of a message to send and its fate. */
  datatype Choice = Reading | Sending(mask: Mask, fate: Fate)

  /** None while the connection is suspended waiting for more. */
  type Outcome = Option<Result<(), Error>>

  function Landed(buffer: seq<Byte>, fate: Fate): seq<Byte> {
    if fate.WriteBreaks? && fate.after < |buffer| then buffer[..fate.after] else buffer
  }

  /** What happened to the pump: a read that came, or a queued message it sent. */
  datatype Event = Got(read: Read) | Sent(message: Message, mask: Mask, fate: Fate)

  /** The bytes the server delivered. */
  function BytesOf(events: seq<Event>): seq<Byte> {
    if events == [] then []
    else
      var last := events[|events| - 1];
      BytesOf(events[..|events| - 1]) + (if last.Got? && last.read.Bytes? then last.read.bytes else [])
  }

  function ReadsOf(events: seq<Event>): seq<Read> {
    if events == [] then []
    else
      var last := events[|events| - 1];
      ReadsOf(events[..|events| - 1]) + (if last.Got? then [last.read] else [])
  }

  function SentOf(events: seq<Event>): seq<Message> {
    if events == [] then []
    else
      var last := events[|events| - 1];
      SentOf(events[..|events| - 1]) + (if last.Sent? then [last.message] else [])
  }

  function FrameBytes(codec: Codec, event: Event): seq<Byte> {
    if event.Sent? then Landed(codec.encode(event.message, event.mask), event.fate) else []
  }

  /** The frames of the messages sent, in order. */
  function WireOf(codec: Codec, events: seq<Event>): seq<Byte> {
    if events == [] then []
    else WireOf(codec, events[..|events| - 1]) + FrameBytes(codec, events[|events| - 1])
  }

  predicate Fits(choice: Choice, event: Event) {
    if choice.Reading? then event.Got? else event.Sent? && event.mask == choice.mask && event.fate == choice.fate
  }

  predicate Follows(events: seq<Event>, choices: seq<Choice>) {
    |events| <= |choices| && forall i :: 0 <= i < |events| ==> Fits(choices[i], events[i])
  }

  class Transport {
    var incoming: seq<Read>
    var wire: seq<Byte>

    constructor (input: seq<Read>)
      ensures incoming == input && wire == []
    {
      incoming, wire := input, [];
    }

    /** Some failure, if the write or the flush behind it fails. */
    method WriteAndFlush(buffer: seq<Byte>, fate: Fate, onWrite: Error, onFlush: Error) returns (failure: Option<Error>)
      modifies this`wire
      ensures wire == old(wire) + Landed(buffer, fate)
      ensures failure == if fate.WriteBreaks? then Some(onWrite) else if fate.FlushBreaks? then Some(onFlush) else None
    {
      match fate {
        case Goes => wire := wire + buffer; failure := None;
        case WriteBreaks(after) =>
          wire := wire + (if after < |buffer| then buffer[..after] else buffer);
          failure := Some(onWrite);
        case FlushBreaks => wire := wire + buffer; failure := Some(onFlush);
      }
    }
  }

  class Outbound {
    var queue: seq<Message>

    constructor (messages: seq<Message>)
      ensures queue == messages
    {
      queue := messages;
    }
  }

  class Inbound {
    var items: seq<Result<Message, Error>>
    var open: bool

    constructor ()
      ensures items == [] && open
    {
      items, open := [], true;
    }

    method Send(item: Result<Message, Error>)
      modifies this`items
      ensures items == old(items) + [item]
    {
      items := items + [item];
    }
  }

  class Reply {
    var answers: seq<Result<(), Error>>

    constructor ()
      ensures answers == []
    {
      answers := [];
    }

    method Send(answer: Result<(), Error>)
      modifies this
      ensures answers == old(answers) + [answer]
    {
      answers := answers + [answer];
    }
  }

  /** The reply while nobody has used it. */
  class Slot {
    var reply: Option<Reply>

    constructor (reply: Reply)
      ensures this.reply == Some(reply)
    {
      this.reply := Some(reply);
    }

    method Take() returns (taken: Option<Reply>)
      modifies this
      ensures taken == old(reply) && reply == None
    {
      taken := reply;
      reply := None;
    }
  }

  ghost function Delivered(messages: seq<Message>): (items: seq<Result<Message, Error>>)
    ensures |items| == |messages|
  {
    seq(|messages|, i requires 0 <= i < |messages| => Ok(messages[i]))
  }

  // ---- the frame pump -------------------------------------------------------

  lemma DeliveredInTwo(a: seq<Message>, b: seq<Message>)
    ensures Delivered(a + b) == Delivered(a) + Delivered(b)
  {
  }

  /** Why a read ends the connection, if it does. */
  function AfterRead(read: Read): Outcome {
    if read.ReadError? then Some(Err(ReadFailed)) else if read.bytes == [] then Some(Ok(())) else None
  }

  /** Why sending a message ends the connection, if it does. */
  function AfterSend(message: Message, fate: Fate): Outcome {
    match fate
    case WriteBreaks(_) => Some(Err(WriteFailed))
    case FlushBreaks => Some(Err(FlushFailed))
    case Goes => if message.Close? then Some(Ok(())) else None
  }

  function AfterParse(ending: Ending): Outcome {
    match ending case Waiting => None case Closed => Some(Ok(())) case Broken => Some(Err(FrameMalformed))
  }

  ghost function HeardAfter(codec: Codec, leftover: seq<Byte>, events: seq<Event>): Heard
    requires PrefixStable(codec)
  {
    ParseAll(codec, leftover + BytesOf(events))
  }

  /** How the connection stands after the last of these events. */
  ghost function Verdict(codec: Codec, leftover: seq<Byte>, events: seq<Event>): Outcome
    requires PrefixStable(codec)
  {
    var parsed := AfterParse(HeardAfter(codec, leftover, events).ending);
    if events == [] then parsed
    else
      match events[|events| - 1]
      case Sent(message, _, fate) => AfterSend(message, fate)
      case Got(read) => if AfterRead(read).Some? then AfterRead(read) else parsed
  }

  /** Events that can happen to a pump: none follows one that ended the connection. */
  ghost predicate Possible(codec: Codec, leftover: seq<Byte>, events: seq<Event>)
    requires PrefixStable(codec)
  {
    events == []
    || (var before := events[..|events| - 1];
        Possible(codec, leftover, before) && Verdict(codec, leftover, before) == None)
  }

  lemma OneMoreDelivered(messages: seq<Message>, message: Message)
    ensures Delivered(messages + [message]) == Delivered(messages) + [Ok(message)]
  {
  }

  /** What was already delivered, in front of what a buffer still says. */
  ghost function Behind(sent: seq<Message>, more: Heard): Heard {
    more.(messages := sent + more.messages)
  }

  lemma {:induction false} OneFrame(codec: Codec, sent: seq<Message>, b: seq<Byte>)
    requires PrefixStable(codec) && codec.parse(b).Frame?
    ensures codec.parse(b).consumed <= |b|
    ensures var frame := codec.parse(b);
      Behind(sent, ParseAll(codec, b))
      == (if frame.message.Close? then Heard(sent + [frame.message], Closed, b[frame.consumed..])
          else Behind(sent + [frame.message], ParseAll(codec, b[frame.consumed..])))
  {
    FrameConsumes(codec, b);
    var frame := codec.parse(b);
    if !frame.message.Close? {
      var more := ParseAll(codec, b[frame.consumed..]).messages;
      assert sent + ([frame.message] + more) == (sent + [frame.message]) + more;
    }
  }

  lemma {:induction false} NothingParsed(codec: Codec, sent: seq<Message>, b: seq<Byte>)
    requires PrefixStable(codec) && !codec.parse(b).Frame?
    ensures Behind(sent, ParseAll(codec, b)) == Heard(sent, if codec.parse(b).Malformed? then Broken else Waiting, b)
  {
    assert sent + [] == sent;
  }

  /** Hands every complete frame of the buffer to the reader. */
  method DrainFrames(codec: Codec, start: seq<Byte>, inbound: Inbound) returns (ending: Ending, buffer: seq<Byte>)
    requires PrefixStable(codec)
    modifies inbound`items
    ensures ending == ParseAll(codec, start).ending && buffer == ParseAll(codec, start).rest
    ensures inbound.items == old(inbound.items) + Delivered(ParseAll(codec, start).messages)
  {
    hide ParseAll;
    buffer := start;
    ghost var sent: seq<Message> := [];
    ghost var all := ParseAll(codec, start);
    while codec.parse(buffer).Frame?
      invariant inbound.items == old(inbound.items) + Delivered(sent)
      invariant all == Behind(sent, ParseAll(codec, buffer))
      decreases |buffer|
    {
      FrameConsumes(codec, buffer);
      OneFrame(codec, sent, buffer);
      var frame := codec.parse(buffer);
      buffer := buffer[frame.consumed..];
      inbound.Send(Ok(frame.message));
      OneMoreDelivered(sent, frame.message);
      sent := sent + [frame.message];
      if frame.message.Close? {
        return Closed, buffer;
      }
    }
    NothingParsed(codec, sent, buffer);
    ending := if codec.parse(buffer).Malformed? then Broken else Waiting;
  }

  /** The pump between two events: what was delivered and what is still buffered are together what its
      bytes say. */
  ghost predicate Pumping(codec: Codec, leftover: seq<Byte>, events: seq<Event>, sent: seq<Message>, buffer: seq<Byte>)
    requires PrefixStable(codec)
  {
    && Possible(codec, leftover, events)
    && HeardAfter(codec, leftover, events) == Behind(sent, ParseAll(codec, buffer))
    && Verdict(codec, leftover, events) == AfterParse(ParseAll(codec, buffer).ending)
  }

  /** The buffer is drained: everything its bytes say was delivered, and no whole frame is left. */
  ghost predicate Drained(codec: Codec, leftover: seq<Byte>, events: seq<Event>, sent: seq<Message>, buffer: seq<Byte>)
    requires PrefixStable(codec)
  {
    && Possible(codec, leftover, events) && Verdict(codec, leftover, events) == None
    && HeardAfter(codec, leftover, events) == Heard(sent, Waiting, buffer)
    && ParseAll(codec, buffer) == Heard([], Waiting, buffer)
  }

  /** The connection has ended, with everything its bytes say delivered. */
  ghost predicate Over(codec: Codec, leftover: seq<Byte>, events: seq<Event>, sent: seq<Message>, ended: Outcome)
    requires PrefixStable(codec)
  {
    && ended.Some?
    && Possible(codec, leftover, events) && Verdict(codec, leftover, events) == ended
    && HeardAfter(codec, leftover, events).messages == sent
  }

  lemma {:induction false} OneMore(codec: Codec, events: seq<Event>, event: Event)
    ensures (events + [event])[..|events|] == events
    ensures BytesOf(events + [event])
            == BytesOf(events) + (if event.Got? && event.read.Bytes? then event.read.bytes else [])
    ensures ReadsOf(events + [event]) == ReadsOf(events) + (if event.Got? then [event.read] else [])
    ensures SentOf(events + [event]) == SentOf(events) + (if event.Sent? then [event.message] else [])
    ensures WireOf(codec, events + [event]) == WireOf(codec, events) + FrameBytes(codec, event)
  {
    assert (events + [event])[..|events|] == events;
  }

  /** A read that goes on: the parser now has the drained rest and the new bytes. */
  lemma ReadGoesOn(codec: Codec, leftover: seq<Byte>, events: seq<Event>, sent: seq<Message>, buffer: seq<Byte>,
                   read: Read)
    requires PrefixStable(codec) && Drained(codec, leftover, events, sent, buffer)
    requires AfterRead(read) == None
    ensures Pumping(codec, leftover, events + [Got(read)], sent, buffer + read.bytes)
  {
    hide ParseAll;
    OneMore(codec, events, Got(read));
    var before := leftover + BytesOf(events);
    assert leftover + (BytesOf(events) + read.bytes) == before + read.bytes;
    LaterBytes(codec, before, read.bytes);
  }

  /** A read that ends the connection brings no bytes. */
  lemma ReadEnds(codec: Codec, leftover: seq<Byte>, events: seq<Event>, sent: seq<Message>, buffer: seq<Byte>,
                 read: Read)
    requires PrefixStable(codec) && Drained(codec, leftover, events, sent, buffer)
    requires AfterRead(read).Some?
    ensures Over(codec, leftover, events + [Got(read)], sent, AfterRead(read))
  {
    OneMore(codec, events, Got(read));
    assert BytesOf(events) + [] == BytesOf(events);
  }

  lemma AfterSending(codec: Codec, leftover: seq<Byte>, events: seq<Event>, sent: seq<Message>, buffer: seq<Byte>,
                     message: Message, mask: Mask, fate: Fate)
    requires PrefixStable(codec) && Drained(codec, leftover, events, sent, buffer)
    ensures var longer := events + [Sent(message, mask, fate)];
      if AfterSend(message, fate).Some? then Over(codec, leftover, longer, sent, AfterSend(message, fate))
      else Pumping(codec, leftover, longer, sent, buffer)
  {
    OneMore(codec, events, Sent(message, mask, fate));
    assert BytesOf(events) + [] == BytesOf(events);
    assert sent + [] == sent;
  }

  /** What is left of a drained buffer holds no further frame. */
  lemma {:induction false} RestWaits(codec: Codec, b: seq<Byte>)
    requires PrefixStable(codec) && ParseAll(codec, b).ending == Waiting
    ensures ParseAll(codec, ParseAll(codec, b).rest) == Heard([], Waiting, ParseAll(codec, b).rest)
    decreases |b|
  {
    if codec.parse(b).Frame? {
      FrameConsumes(codec, b);
      RestWaits(codec, b[codec.parse(b).consumed..]);
    }
  }

  lemma {:induction false} DrainedBuffer(codec: Codec, leftover: seq<Byte>, events: seq<Event>, sent: seq<Message>,
                                         buffer: seq<Byte>)
    requires PrefixStable(codec) && Pumping(codec, leftover, events, sent, buffer)
    ensures var heard := ParseAll(codec, buffer);
      if heard.ending == Waiting then Drained(codec, leftover, events, sent + heard.messages, heard.rest)
      else Over(codec, leftover, events, sent + heard.messages, AfterParse(heard.ending))
  {
    if ParseAll(codec, buffer).ending == Waiting { RestWaits(codec, buffer); }
  }

  /** The transport and the queue are where these events have taken them. */
  ghost predicate Reached(codec: Codec, transport: Transport, outbound: Outbound, base: seq<Byte>,
                          input: seq<Read>, queue: seq<Message>, events: seq<Event>)
    reads transport, outbound
  {
    && input == ReadsOf(events) + transport.incoming
    && queue == SentOf(events) + outbound.queue
    && transport.wire == base + WireOf(codec, events)
  }

  lemma Regroup<T>(a: seq<T>, b: seq<T>, c: seq<T>)
    ensures (a + b) + c == a + (b + c)
  {
  }

  /** The read side of the select: new bytes join the buffer, or the connection ends. */
  method OnRead(codec: Codec, buffer: seq<Byte>, transport: Transport, ghost outbound: Outbound, ghost base: seq<Byte>,
                ghost leftover: seq<Byte>, ghost input: seq<Read>, ghost queue: seq<Message>,
                ghost events: seq<Event>, ghost sent: seq<Message>)
    returns (read: Read, ended: Outcome, longer: seq<Byte>)
    requires PrefixStable(codec) && Drained(codec, leftover, events, sent, buffer)
    requires Reached(codec, transport, outbound, base, input, queue, events) && transport.incoming != []
    modifies transport`incoming
    ensures read == old(transport.incoming[0])
    ensures Reached(codec, transport, outbound, base, input, queue, events + [Got(read)])
    ensures if ended == None then Pumping(codec, leftover, events + [Got(read)], sent, longer)
            else Over(codec, leftover, events + [Got(read)], sent, ended)
  {
    hide ParseAll, HeardAfter, Verdict, Possible;
    read, ended, longer := transport.incoming[0], None, buffer;
    OneMore(codec, events, Got(read));
    ghost var later := transport.incoming[1..];
    assert transport.incoming == [read] + later;
    Regroup(ReadsOf(events), [read], later);
    assert WireOf(codec, events) + [] == WireOf(codec, events);
    transport.incoming := transport.incoming[1..];
    if AfterRead(read).Some? {
      ReadEnds(codec, leftover, events, sent, buffer, read);
      ended := AfterRead(read);
    } else {
      ReadGoesOn(codec, leftover, events, sent, buffer, read);
      longer := buffer + read.bytes;
    }
  }

  /** The send side of the select: the queued message goes out as one frame, or the connection ends. */
  method OnSend(codec: Codec, ghost buffer: seq<Byte>, transport: Transport, outbound: Outbound, mask: Mask, fate: Fate,
                ghost base: seq<Byte>, ghost leftover: seq<Byte>, ghost input: seq<Read>, ghost queue: seq<Message>,
                ghost events: seq<Event>, ghost sent: seq<Message>)
    returns (message: Message, ended: Outcome)
    requires PrefixStable(codec) && Drained(codec, leftover, events, sent, buffer)
    requires Reached(codec, transport, outbound, base, input, queue, events) && outbound.queue != []
    modifies transport`wire, outbound
    ensures message == old(outbound.queue[0])
    ensures Reached(codec, transport, outbound, base, input, queue, events + [Sent(message, mask, fate)])
    ensures if ended == None then Pumping(codec, leftover, events + [Sent(message, mask, fate)], sent, buffer)
            else Over(codec, leftover, events + [Sent(message, mask, fate)], sent, ended)
  {
    hide ParseAll, HeardAfter, Verdict, Possible;
    message, ended := outbound.queue[0], None;
    OneMore(codec, events, Sent(message, mask, fate));
    AfterSending(codec, leftover, events, sent, buffer, message, mask, fate);
    ghost var shorter := outbound.queue[1..];
    assert outbound.queue == [message] + shorter;
    Regroup(SentOf(events), [message], shorter);
    var frame := codec.encode(message, mask);
    Regroup(base, WireOf(codec, events), Landed(frame, fate));
    outbound.queue := outbound.queue[1..];
    var failure := transport.WriteAndFlush(frame, fate, WriteFailed, FlushFailed);
    if failure.Some? {
      ended := Some(Err(failure.value));
    } else if message.Close? {
      ended := Some(Ok(()));
    }
    assert ended == AfterSend(message, fate);
  }

  /** One turn of the select. Nothing happens when the chosen side has nothing ready. */
  method Select(codec: Codec, buffer: seq<Byte>, transport: Transport, outbound: Outbound, choice: Choice,
                ghost base: seq<Byte>, ghost leftover: seq<Byte>, ghost input: seq<Read>, ghost queue: seq<Message>,
                ghost events: seq<Event>, ghost sent: seq<Message>)
    returns (happened: Option<Event>, ended: Outcome, longer: seq<Byte>)
    requires PrefixStable(codec) && Drained(codec, leftover, events, sent, buffer)
    requires Reached(codec, transport, outbound, base, input, queue, events)
    modifies transport, outbound
    ensures happened == None <==> old(if choice.Reading? then transport.incoming == [] else outbound.queue == [])
    ensures match happened
      case None => Reached(codec, transport, outbound, base, input, queue, events)
      case Some(event) =>
        && Fits(choice, event)
        && Reached(codec, transport, outbound, base, input, queue, events + [event])
        && if ended == None then Pumping(codec, leftover, events + [event], sent, longer)
           else Over(codec, leftover, events + [event], sent, ended)
  {
    happened, ended, longer := None, None, buffer;
    match choice {
      case Reading =>
        if transport.incoming != [] {
          var read;
          read, ended, longer := OnRead(codec, buffer, transport, outbound, base, leftover, input, queue, events, sent);
          happened := Some(Got(read));
        }
      case Sending(mask, fate) =>
        if outbound.queue != [] {
          var message;
          message, ended :=
            OnSend(codec, buffer, transport, outbound, mask, fate, base, leftover, input, queue, events, sent);
          happened := Some(Sent(message, mask, fate));
        }
    }
  }

  lemma NothingYet(codec: Codec, leftover: seq<Byte>, transport: Transport, outbound: Outbound)
    requires PrefixStable(codec)
    ensures Pumping(codec, leftover, [], [], leftover)
    ensures Reached(codec, transport, outbound, transport.wire, transport.incoming, outbound.queue, [])
  {
    assert leftover + [] == leftover;
  }

  /** The frame pump: under any chunking of the server's bytes and any interleaving with messages to
      send, it delivers what its bytes say, sends the queue in order, and stops at the first thing that
      ends the connection. */
  method RunDuplex(codec: Codec, leftover: seq<Byte>, transport: Transport, outbound: Outbound, inbound: Inbound,
                   choices: seq<Choice>)
    returns (result: Outcome, ghost events: seq<Event>)
    requires PrefixStable(codec)
    modifies transport, outbound, inbound`items
    ensures Follows(events, choices) && Possible(codec, leftover, events)
    ensures Reached(codec, transport, outbound,
                    old(transport.wire), old(transport.incoming), old(outbound.queue), events)
    ensures result == Verdict(codec, leftover, events)
    ensures result == None && |events| < |choices| ==>
              if choices[|events|].Reading? then transport.incoming == [] else outbound.queue == []
    ensures inbound.items == old(inbound.items) + Delivered(HeardAfter(codec, leftover, events).messages)
  {
    hide ParseAll, HeardAfter, BytesOf, WireOf, ReadsOf, SentOf, Verdict, Possible;
    var buffer := leftover;
    var n := 0;
    events := [];
    ghost var base, input, queue := transport.wire, transport.incoming, outbound.queue;
    ghost var sent: seq<Message> := [];
    NothingYet(codec, leftover, transport, outbound);
    while true
      invariant n == |events| && Follows(events, choices)
      invariant Pumping(codec, leftover, events, sent, buffer)
      invariant inbound.items == old(inbound.items) + Delivered(sent)
      invariant Reached(codec, transport, outbound, base, input, queue, events)
      decreases |choices| - n
    {
      DrainedBuffer(codec, leftover, events, sent, buffer);
      ghost var more := ParseAll(codec, buffer).messages;
      DeliveredInTwo(sent, more);
      var ending;
      ending, buffer := DrainFrames(codec, buffer, inbound);
      sent := sent + more;
      if ending != Waiting { return AfterParse(ending), events; }
      if n == |choices| { return None, events; }
      var happened, ended;
      happened, ended, buffer :=
        Select(codec, buffer, transport, outbound, choices[n], base, leftover, input, queue, events, sent);
      if happened == None { return None, events; }
      events := events + [happened.value];
      n := n + 1;
      if ended.Some? { return ended, events; }
    }
  }

  // ---- handshake and the whole connection ------------------------------------

  function Joined(input: seq<Read>): seq<Byte> {
    if input == [] then [] else (if input[0].Bytes? then input[0].bytes else []) + Joined(input[1..])
  }

  datatype Handshake = Suspended | Failed(error: Error) | Accepted(leftover: seq<Byte>, rest: seq<Read>)

  /** How the handshake goes with what was read so far and what will be read. */
  function Shake(codec: Codec, response: seq<Byte>, input: seq<Read>): Handshake
    requires PrefixStable(codec)
    decreases |input|
  {
    if input == [] then Suspended
    else
      match input[0]
      case ReadError => Failed(HandshakeReadFailed)
      case Bytes(bytes) =>
        if bytes == [] then Failed(HandshakeClosed)
        else
          var longer := response + bytes;
          match codec.headerEnd(longer)
          case None => Shake(codec, longer, input[1..])
          case Some(end) =>
            HeaderFits(codec, longer);
            if codec.accepts(longer[..end]) then Accepted(longer[end..], input[1..]) else Failed(HandshakeRejected)
  }

  /** Reads the response up to the end of its headers and returns the bytes read past it. */
  method ReadHandshakeResponse(codec: Codec, transport: Transport) returns (result: Handshake)
    requires PrefixStable(codec)
    modifies transport`incoming
    ensures result == Shake(codec, [], old(transport.incoming))
    ensures result.Accepted? ==> transport.incoming == result.rest
  {
    var response := [];
    while transport.incoming != []
      invariant Shake(codec, response, transport.incoming) == Shake(codec, [], old(transport.incoming))
      decreases |transport.incoming|
    {
      var read := transport.incoming[0];
      transport.incoming := transport.incoming[1..];
      if read.ReadError? { return Failed(HandshakeReadFailed); }
      if read.bytes == [] { return Failed(HandshakeClosed); }
      response := response + read.bytes;
      var found := codec.headerEnd(response);
      if found.Some? {
        HeaderFits(codec, response);
        if !codec.accepts(response[..found.value]) { return Failed(HandshakeRejected); }
        return Accepted(response[found.value..], transport.incoming);
      }
    }
    return Suspended;
  }

  datatype Lookup = LookupFails | Found(addresses: nat)
  datatype Opening = Opens | TimesOut | Refused

  /** How everything before the handshake response goes. A plain connection opens no TLS session. */
  datatype Dial = Dial(lookup: Lookup, opening: Opening, secure: bool, tlsOpens: bool,
                       request: Option<seq<Byte>>, fate: Fate)
  {
    /** The first step of opening the transport that fails. */
    function Unopened(): Option<Error> {
      if lookup.LookupFails? then Some(DnsFailed)
      else if lookup.addresses == 0 then Some(NoDnsResults)
      else if opening.TimesOut? then Some(ConnectTimedOut)
      else if opening.Refused? then Some(ConnectFailed)
      else if secure && !tlsOpens then Some(TlsFailed)
      else None
    }

    /** The first step of sending the request that fails. */
    function Unasked(): Option<Error> {
      if request == None then Some(BadRequest)
      else if fate.WriteBreaks? then Some(HandshakeWriteFailed)
      else if fate.FlushBreaks? then Some(HandshakeFlushFailed)
      else None
    }
  }

  /** The dial and the handshake together. */
  function Greet(codec: Codec, dial: Dial, input: seq<Read>): Handshake
    requires PrefixStable(codec)
  {
    if dial.Unopened().Some? then Failed(dial.Unopened().value)
    else if dial.Unasked().Some? then Failed(dial.Unasked().value)
    else Shake(codec, [], input)
  }

  /** Sends the upgrade request and reads the response. */
  method ShakeHands(codec: Codec, dial: Dial, transport: Transport) returns (result: Handshake)
    requires PrefixStable(codec) && dial.Unopened() == None && transport.wire == []
    modifies transport
    ensures result == Greet(codec, dial, old(transport.incoming))
    ensures result.Accepted? ==>
              dial.request.Some? && transport.wire == dial.request.value && transport.incoming == result.rest
  {
    if dial.request == None { return Failed(BadRequest); }
    var failure := transport.WriteAndFlush(dial.request.value, dial.fate, HandshakeWriteFailed, HandshakeFlushFailed);
    if failure.Some? { return Failed(failure.value); }
    result := ReadHandshakeResponse(codec, transport);
  }

  /** How a socket over an open transport stands: a handshake that is not accepted leaves the reply
      unused and the reader with nothing, an accepted one uses it and hands over to the pump. */
  ghost predicate Ran(codec: Codec, greeting: Handshake, events: seq<Event>, result: Outcome, answered: bool,
                      messages: seq<Result<Message, Error>>)
    requires PrefixStable(codec)
  {
    match greeting
    case Suspended => result == None && !answered && messages == []
    case Failed(error) => result == Some(Err(error)) && !answered && messages == []
    case Accepted(leftover, rest) =>
      && answered
      && Possible(codec, leftover, events) && ReadsOf(events) <= rest
      && result == Verdict(codec, leftover, events)
      && messages == Delivered(HeardAfter(codec, leftover, events).messages)
  }

  /** The pump took its events from what the transport still had to read and from the queue, one choice after
      the other, and if the connection is still up it stopped where the next choice has nothing ready. */
  ghost predicate PumpedOn(transport: Transport, outbound: Outbound, rest: seq<Read>, queue: seq<Message>,
                           choices: seq<Choice>, events: seq<Event>, result: Outcome)
    reads transport, outbound
  {
    && Follows(events, choices)
    && rest == ReadsOf(events) + transport.incoming
    && queue == SentOf(events) + outbound.queue
    && (result == None && |events| < |choices| ==>
          if choices[|events|].Reading? then transport.incoming == [] else outbound.queue == [])
  }

  /** The handshake, then the pump. The caller is answered the moment the handshake is accepted. */
  method RunSocket(codec: Codec, dial: Dial, transport: Transport, outbound: Outbound, inbound: Inbound, slot: Slot,
                   reply: Reply, choices: seq<Choice>)
    returns (result: Outcome, ghost events: seq<Event>)
    requires PrefixStable(codec) && dial.Unopened() == None
    requires slot.reply == Some(reply) && reply.answers == [] && transport.wire == [] && inbound.items == []
    modifies transport, outbound, inbound`items, slot, reply
    ensures slot.reply == None || slot.reply == Some(reply)
    ensures Ran(codec, Greet(codec, dial, old(transport.incoming)), events, result, slot.reply == None, inbound.items)
    ensures reply.answers == if slot.reply == None then [Ok(())] else []
    ensures slot.reply == None ==>
              dial.request.Some? && transport.wire == dial.request.value + WireOf(codec, events)
    ensures var greeting := Greet(codec, dial, old(transport.incoming));
      if greeting.Accepted?
      then PumpedOn(transport, outbound, greeting.rest, old(outbound.queue), choices, events, result)
      else outbound.queue == old(outbound.queue)
  {
    events := [];
    var greeting := ShakeHands(codec, dial, transport);
    match greeting {
      case Suspended => result := None;
      case Failed(error) => result := Some(Err(error));
      case Accepted(leftover, rest) =>
        var taken := slot.Take();
        if taken.Some? { taken.value.Send(Ok(())); }
        result, events := RunDuplex(codec, leftover, transport, outbound, inbound, choices);
        assert [] + Delivered(HeardAfter(codec, leftover, events).messages)
            == Delivered(HeardAfter(codec, leftover, events).messages);
    }
  }

  /** Opens the transport and runs the socket over it. */
  method HandleConnection(codec: Codec, dial: Dial, transport: Transport, outbound: Outbound, inbound: Inbound,
                          slot: Slot, reply: Reply, choices: seq<Choice>)
    returns (result: Outcome, ghost events: seq<Event>)
    requires PrefixStable(codec)
    requires slot.reply == Some(reply) && reply.answers == [] && transport.wire == [] && inbound.items == []
    modifies transport, outbound, inbound`items, slot, reply
    ensures slot.reply == None || slot.reply == Some(reply)
    ensures Ran(codec, Greet(codec, dial, old(transport.incoming)), events, result, slot.reply == None, inbound.items)
    ensures reply.answers == if slot.reply == None then [Ok(())] else []
    ensures slot.reply == None ==>
              dial.request.Some? && transport.wire == dial.request.value + WireOf(codec, events)
    ensures var greeting := Greet(codec, dial, old(transport.incoming));
      if greeting.Accepted?
      then PumpedOn(transport, outbound, greeting.rest, old(outbound.queue), choices, events, result)
      else outbound.queue == old(outbound.queue)
  {
    events := [];
    match dial.lookup {
      case LookupFails => return Some(Err(DnsFailed)), [];
      case Found(addresses) => if addresses == 0 { return Some(Err(NoDnsResults)), []; }
    }
    match dial.opening {
      case TimesOut => return Some(Err(ConnectTimedOut)), [];
      case Refused => return Some(Err(ConnectFailed)), [];
      case Opens =>
    }
    if dial.secure {
      if !dial.tlsOpens { return Some(Err(TlsFailed)), []; }
    }
    result, events := RunSocket(codec, dial, transport, outbound, inbound, slot, reply, choices);
  }

  /** The life of a connection: the reply is used exactly once, with the outcome of dial and handshake.
      A failure behind that goes to the reader, once, as the last thing it hears. The reader's channel
      closes when the connection is over. */
  method DriveConnection(codec: Codec, dial: Dial, transport: Transport, outbound: Outbound, inbound: Inbound,
                         reply: Reply, choices: seq<Choice>)
    returns (ghost events: seq<Event>)
    requires PrefixStable(codec)
    requires reply.answers == [] && transport.wire == [] && inbound.items == [] && inbound.open
    modifies transport, outbound, inbound, reply
    ensures match Greet(codec, dial, old(transport.incoming))
      case Suspended => reply.answers == [] && inbound.items == [] && inbound.open
      case Failed(error) => reply.answers == [Err(error)] && inbound.items == [] && !inbound.open
      case Accepted(leftover, rest) =>
        && reply.answers == [Ok(())]
        && Possible(codec, leftover, events) && ReadsOf(events) <= rest
        && inbound.items == Delivered(HeardAfter(codec, leftover, events).messages)
                            + LateFailure(Verdict(codec, leftover, events))
        && inbound.open == (Verdict(codec, leftover, events) == None)
        && dial.request.Some? && transport.wire == dial.request.value + WireOf(codec, events)
        && PumpedOn(transport, outbound, rest, old(outbound.queue), choices, events, Verdict(codec, leftover, events))
    ensures !Greet(codec, dial, old(transport.incoming)).Accepted? ==> outbound.queue == old(outbound.queue)
  {
    var slot := new Slot(reply);
    var result;
    result, events := HandleConnection(codec, dial, transport, outbound, inbound, slot, reply, choices);
    if result == None { return; }
    var unused := slot.Take();
    if unused.Some? {
      if result.value.Err? {
        unused.value.Send(Err(result.value.error));
      } else {
        assert false;
      }
    } else if result.value.Err? {
      inbound.Send(Err(result.value.error));
    }
    inbound.open := false;
  }

  ghost function LateFailure(verdict: Outcome): seq<Result<Message, Error>> {
    if verdict.Some? && verdict.value.Err? then [Err(verdict.value.error)] else []
  }
}
