/** How a WebSocket connection ends: which read, which write or which frame ends it, and with what result. */
module ConnectionEnds {
  import opened Wrappers
  import opened SocketClient
  import opened SocketStream

  // ---- the frames of a stream ---------------------------------------------

  /** The stream is the frames of these messages, one after another, and then `rest`. */
  ghost predicate Yields(codec: Codec, b: seq<Byte>, messages: seq<Message>, rest: seq<Byte>)
    decreases |messages|
  {
    if messages == [] then rest == b
    else
      && codec.parse(b).Frame? && codec.parse(b).message == messages[0] && codec.parse(b).consumed <= |b|
      && Yields(codec, b[codec.parse(b).consumed..], messages[1..], rest)
  }

  ghost predicate NoneCloses(messages: seq<Message>) {
    forall i :: 0 <= i < |messages| ==> !messages[i].Close?
  }

  /** Why reading stops where it does: at a Close, the first and last, or where the parser wants more or fails. */
  ghost predicate StopsFor(codec: Codec, ending: Ending, messages: seq<Message>, rest: seq<Byte>) {
    match ending
    case Closed => messages != [] && messages[|messages| - 1].Close? && NoneCloses(messages[..|messages| - 1])
    case Waiting => NoneCloses(messages) && codec.parse(rest).NeedMore?
    case Broken => NoneCloses(messages) && codec.parse(rest).Malformed?
  }

  lemma {:induction false} ParseYields(codec: Codec, b: seq<Byte>)
    requires PrefixStable(codec)
    ensures var heard := ParseAll(codec, b);
      Yields(codec, b, heard.messages, heard.rest) && StopsFor(codec, heard.ending, heard.messages, heard.rest)
    decreases |b|
  {
    if codec.parse(b).Frame? {
      FrameConsumes(codec, b);
      var (message, rest) := (codec.parse(b).message, b[codec.parse(b).consumed..]);
      if message.Close? {
        assert [message][1..] == [] && [message][..0] == [];
      } else {
        ParseYields(codec, rest);
        OneInFront(codec, b, ParseAll(codec, rest));
      }
    }
  }

  lemma {:induction false} OneInFront(codec: Codec, b: seq<Byte>, more: Heard)
    requires codec.parse(b).Frame? && !codec.parse(b).message.Close? && codec.parse(b).consumed <= |b|
    requires Yields(codec, b[codec.parse(b).consumed..], more.messages, more.rest)
    requires StopsFor(codec, more.ending, more.messages, more.rest)
    ensures var all := [codec.parse(b).message] + more.messages;
      Yields(codec, b, all, more.rest) && StopsFor(codec, more.ending, all, more.rest)
  {
    var all := [codec.parse(b).message] + more.messages;
    assert all[1..] == more.messages;
    if more.ending == Closed {
      assert all[..|all| - 1] == [all[0]] + more.messages[..|more.messages| - 1];
    }
  }

  lemma {:induction false} YieldsIsParse(codec: Codec, b: seq<Byte>, messages: seq<Message>, ending: Ending,
                                         rest: seq<Byte>)
    requires PrefixStable(codec) && Yields(codec, b, messages, rest) && StopsFor(codec, ending, messages, rest)
    ensures ParseAll(codec, b) == Heard(messages, ending, rest)
    decreases |messages|
  {
    if messages != [] {
      FrameConsumes(codec, b);
      var later := messages[1..];
      assert messages == [messages[0]] + later;
      if messages[0].Close? {
        NothingBehindClose(codec, ending, messages, rest);
      } else {
        FewerStop(codec, ending, messages, rest);
        YieldsIsParse(codec, b[codec.parse(b).consumed..], later, ending, rest);
      }
    }
  }

  lemma NothingBehindClose(codec: Codec, ending: Ending, messages: seq<Message>, rest: seq<Byte>)
    requires messages != [] && messages[0].Close? && StopsFor(codec, ending, messages, rest)
    ensures messages == [messages[0]] && ending == Closed
  {
    FirstOfFront(messages);
  }

  lemma FirstOfFront(messages: seq<Message>)
    ensures |messages| > 1 ==> messages[..|messages| - 1][0] == messages[0]
  {
  }

  lemma FewerStop(codec: Codec, ending: Ending, messages: seq<Message>, rest: seq<Byte>)
    requires messages != [] && !messages[0].Close? && StopsFor(codec, ending, messages, rest)
    ensures StopsFor(codec, ending, messages[1..], rest)
  {
    if ending == Closed {
      assert messages[1..][..|messages| - 2] == messages[..|messages| - 1][1..];
    }
  }

  /** What a stream delivers: these messages, this ending and this rest if and only if it is the frames of the
      messages and the rest, with no Close but perhaps a last one, and stops there for that reason. */
  lemma {:induction false} ParseExactly(codec: Codec, b: seq<Byte>, messages: seq<Message>, ending: Ending,
                                        rest: seq<Byte>)
    requires PrefixStable(codec)
    ensures ParseAll(codec, b) == Heard(messages, ending, rest) <==>
            Yields(codec, b, messages, rest) && StopsFor(codec, ending, messages, rest)
  {
    ParseYields(codec, b);
    if Yields(codec, b, messages, rest) && StopsFor(codec, ending, messages, rest) {
      YieldsIsParse(codec, b, messages, ending, rest);
    }
  }

  // ---- results --------------------------------------------------------------

  /** The stream was waiting before the last event, so what ends the connection is that event alone. */
  lemma {:induction false} OnlyBytesChangeTheStream(codec: Codec, leftover: seq<Byte>, events: seq<Event>)
    requires PrefixStable(codec) && Possible(codec, leftover, events) && events != []
    requires var last := events[|events| - 1]; last.Sent? || last.read.ReadError? || last.read.bytes == []
    ensures HeardAfter(codec, leftover, events).ending == Waiting
  {
    hide ParseAll, Verdict, Possible;
    var before := events[..|events| - 1];
    NothingFollowsTheEnd(codec, leftover, events, |events| - 1);
    assert events[..|events| - 1] == before;
    assert BytesOf(before) + [] == BytesOf(before);
  }

  /** Every possible result, by what happened last and what was delivered: the connection ends well on an empty
      read, on a Close sent whole and flushed, and on a Close delivered; with an error on exactly the read, write,
      flush or frame that failed; and goes on otherwise. */
  lemma {:induction false} ResultExactly(codec: Codec, leftover: seq<Byte>, events: seq<Event>)
    requires PrefixStable(codec) && Possible(codec, leftover, events)
    ensures var result, heard := Verdict(codec, leftover, events), HeardAfter(codec, leftover, events);
      var n := |events| - 1;
      && (result == Some(Ok(())) <==>
            || (n >= 0 && events[n] == Got(Bytes([])))
            || (n >= 0 && events[n].Sent? && events[n].message.Close? && events[n].fate == Goes)
            || (exists i :: 0 <= i < |heard.messages| && heard.messages[i].Close?))
      && (result == Some(Err(ReadFailed)) <==> n >= 0 && events[n] == Got(ReadError))
      && (result == Some(Err(WriteFailed)) <==> n >= 0 && events[n].Sent? && events[n].fate.WriteBreaks?)
      && (result == Some(Err(FlushFailed)) <==> n >= 0 && events[n].Sent? && events[n].fate.FlushBreaks?)
      && (result == Some(Err(FrameMalformed)) <==>
            NoneCloses(heard.messages) && codec.parse(heard.rest).Malformed?)
      && (result.Some? && result.value.Err? ==>
            result.value.error in {ReadFailed, WriteFailed, FlushFailed, FrameMalformed})
  {
    hide ParseAll, BytesOf;
    var heard := HeardAfter(codec, leftover, events);
    ParseYields(codec, leftover + BytesOf(events));
    ClosedHoldsClose(codec, heard);
    if events != [] {
      var last := events[|events| - 1];
      if last.Sent? || last.read.ReadError? || last.read.bytes == [] {
        OnlyBytesChangeTheStream(codec, leftover, events);
      }
    }
  }

  /** The error item behind the messages: none unless the last event failed or a frame was malformed. So a server
      that only hangs up leaves no error item. */
  lemma {:induction false} ErrorItemExactly(codec: Codec, leftover: seq<Byte>, events: seq<Event>)
    requires PrefixStable(codec) && Possible(codec, leftover, events)
    ensures var items, heard := LateFailure(Verdict(codec, leftover, events)), HeardAfter(codec, leftover, events);
      var n := |events| - 1;
      && (n >= 0 && events[n] == Got(Bytes([])) ==> items == [])
      && (n >= 0 && events[n] == Got(ReadError) ==> items == [Err(ReadFailed)])
      && (n >= 0 && events[n].Sent? ==>
            items == match events[n].fate
                     case Goes => []
                     case WriteBreaks(_) => [Err(WriteFailed)]
                     case FlushBreaks => [Err(FlushFailed)])
      && (n < 0 || (events[n].Got? && events[n].read.Bytes? && events[n].read.bytes != []) ==>
            items == if NoneCloses(heard.messages) && codec.parse(heard.rest).Malformed? then [Err(FrameMalformed)]
                     else [])
  {
    hide ParseAll, BytesOf;
    ParseYields(codec, leftover + BytesOf(events));
    if events != [] {
      var last := events[|events| - 1];
      if last.Sent? || last.read.ReadError? || last.read.bytes == [] {
        OnlyBytesChangeTheStream(codec, leftover, events);
      }
    }
    ClosedHoldsClose(codec, HeardAfter(codec, leftover, events));
  }

  lemma ClosedHoldsClose(codec: Codec, heard: Heard)
    requires StopsFor(codec, heard.ending, heard.messages, heard.rest)
    ensures heard.ending == Closed <==> !NoneCloses(heard.messages)
  {
    if heard.ending == Closed {
      assert heard.messages[|heard.messages| - 1].Close?;
    }
  }

  // ---- the handshake --------------------------------------------------------

  /** The first `n` reads bring bytes, and the headers do not end in them. */
  ghost predicate Quiet(codec: Codec, response: seq<Byte>, input: seq<Read>, n: nat)
    requires n <= |input|
  {
    forall i :: 0 <= i < n ==>
      input[i].Bytes? && input[i].bytes != [] && codec.headerEnd(response + Joined(input[..i + 1])) == None
  }

  lemma {:induction false} JoinedSnoc(input: seq<Read>, i: nat)
    requires i < |input| && input[i].Bytes?
    ensures Joined(input[..i + 1]) == Joined(input[..i]) + input[i].bytes
  {
    assert input[..i + 1] == input[..i] + [input[i]];
    JoinedConcat(input[..i], [input[i]]);
    assert Joined([input[i]]) == input[i].bytes + Joined([input[i]][1..]) == input[i].bytes;
  }

  lemma {:induction false} QuietReads(codec: Codec, response: seq<Byte>, input: seq<Read>, n: nat)
    requires PrefixStable(codec) && n <= |input| && Quiet(codec, response, input, n)
    ensures Shake(codec, response, input) == Shake(codec, response + Joined(input[..n]), input[n..])
  {
    if n == 0 {
      assert response + Joined(input[..0]) == response && input[0..] == input;
    } else {
      QuietReads(codec, response, input, n - 1);
      JoinedSnoc(input, n - 1);
      var sofar := response + Joined(input[..n - 1]);
      assert sofar + input[n - 1].bytes == response + Joined(input[..n]);
      assert input[n - 1..][1..] == input[n..];
    }
  }

  /** The handshake by its reads: it waits while they bring bytes without the end of the headers, and the first
      read that fails, is empty or completes the headers decides. */
  lemma {:induction false} HandshakeExactly(codec: Codec, response: seq<Byte>, input: seq<Read>, n: nat)
    requires PrefixStable(codec) && n <= |input| && Quiet(codec, response, input, n)
    ensures n == |input| ==> Shake(codec, response, input) == Suspended
    ensures n < |input| && input[n] == ReadError ==> Shake(codec, response, input) == Failed(HandshakeReadFailed)
    ensures n < |input| && input[n] == Bytes([]) ==> Shake(codec, response, input) == Failed(HandshakeClosed)
    ensures n < |input| && input[n].Bytes? && input[n].bytes != [] ==>
              var all := response + Joined(input[..n + 1]);
              codec.headerEnd(all).Some? ==>
                var end := codec.headerEnd(all).value;
                && end <= |all|
                && Shake(codec, response, input)
                   == if codec.accepts(all[..end]) then Accepted(all[end..], input[n + 1..])
                      else Failed(HandshakeRejected)
  {
    QuietReads(codec, response, input, n);
    if n < |input| && input[n].Bytes? && input[n].bytes != [] {
      JoinedSnoc(input, n);
      var sofar := response + Joined(input[..n]);
      assert sofar + input[n].bytes == response + Joined(input[..n + 1]);
      assert input[n..][1..] == input[n + 1..];
      if codec.headerEnd(sofar + input[n].bytes).Some? {
        HeaderFits(codec, sofar + input[n].bytes);
      }
    }
  }

  /** Before that, each step of the dial and of the request fails with its own error, the first one that fails
      deciding. */
  lemma {:induction false} DialExactly(codec: Codec, dial: Dial, input: seq<Read>)
    requires PrefixStable(codec)
    ensures var greeting := Greet(codec, dial, input);
      match dial.lookup
      case LookupFails => greeting == Failed(DnsFailed)
      case Found(addresses) =>
        if addresses == 0 then greeting == Failed(NoDnsResults)
        else if dial.opening == TimesOut then greeting == Failed(ConnectTimedOut)
        else if dial.opening == Refused then greeting == Failed(ConnectFailed)
        else if dial.secure && !dial.tlsOpens then greeting == Failed(TlsFailed)
        else if dial.request == None then greeting == Failed(BadRequest)
        else if dial.fate.WriteBreaks? then greeting == Failed(HandshakeWriteFailed)
        else if dial.fate.FlushBreaks? then greeting == Failed(HandshakeFlushFailed)
        else greeting == Shake(codec, [], input)
  {
  }

  // ---- the wire ---------------------------------------------------------------

  /** The bytes on the wire: every message sent before the last event as its whole frame, and of the last one
      all of it, or the part that was taken before its write broke. */
  lemma {:induction false} WireExactly(codec: Codec, leftover: seq<Byte>, events: seq<Event>)
    requires PrefixStable(codec) && Possible(codec, leftover, events) && events != []
    ensures var n := |events| - 1;
      WireOf(codec, events)
      == WholeFrames(codec, events[..n])
         + (match events[n]
            case Got(_) => []
            case Sent(message, mask, fate) =>
              var frame := codec.encode(message, mask);
              if fate.WriteBreaks? && fate.after < |frame| then frame[..fate.after] else frame)
  {
    FramesKeepQueueOrder(codec, leftover, events[..|events| - 1]);
  }
}
