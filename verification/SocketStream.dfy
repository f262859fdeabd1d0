/** What a whole WebSocket connection tells its two ends, in terms of the server's byte stream alone. */
module SocketStream {
  import opened Wrappers
  import opened SocketClient

  lemma {:induction false} JoinedOneMore(first: Read, later: seq<Read>)
    ensures Joined([first] + later) == (if first.Bytes? then first.bytes else []) + Joined(later)
  {
    assert ([first] + later)[1..] == later;
  }

  lemma {:induction false} JoinedConcat(a: seq<Read>, b: seq<Read>)
    ensures Joined(a + b) == Joined(a) + Joined(b)
  {
    if a == [] {
      assert a + b == b;
    } else {
      assert (a + b)[1..] == a[1..] + b;
      JoinedConcat(a[1..], b);
    }
  }

  /** How the handshake goes depends on the bytes of the stream and not on how they are cut into reads:
      it waits for the end of the headers, judges exactly them, and hands every byte behind them on. */
  lemma {:induction false} HandshakeIgnoresChunking(codec: Codec, response: seq<Byte>, input: seq<Read>)
    requires PrefixStable(codec) && input != []
    requires forall i :: 0 <= i < |input| ==> input[i].Bytes? && input[i].bytes != []
    ensures var stream := response + Joined(input);
      match codec.headerEnd(stream)
      case None => Shake(codec, response, input) == Suspended
      case Some(end) =>
        end <= |stream|
        && match Shake(codec, response, input)
           case Accepted(leftover, rest) => codec.accepts(stream[..end]) && leftover + Joined(rest) == stream[end..]
           case Failed(error) => !codec.accepts(stream[..end]) && error == HandshakeRejected
           case Suspended => false
    decreases |input|
  {
    var longer := response + input[0].bytes;
    var behind := Joined(input[1..]);
    assert response + Joined(input) == longer + behind;
    if codec.headerEnd(longer).Some? {
      HeaderFits(codec, longer);
      var end := codec.headerEnd(longer).value;
      assert (longer + behind)[..end] == longer[..end];
      assert (longer + behind)[end..] == longer[end..] + behind;
    } else if |input| == 1 {
      assert longer + behind == longer;
    } else {
      HandshakeIgnoresChunking(codec, longer, input[1..]);
    }
  }

  /** An accepted handshake neither loses nor repeats a byte, whatever comes after it. */
  lemma {:induction false} HandshakeSplitsTheStream(codec: Codec, response: seq<Byte>, input: seq<Read>)
    requires PrefixStable(codec) && Shake(codec, response, input).Accepted?
    ensures var stream, shaken := response + Joined(input), Shake(codec, response, input);
      && codec.headerEnd(stream).Some?
      && var end := codec.headerEnd(stream).value;
         end <= |stream| && codec.accepts(stream[..end]) && shaken.leftover + Joined(shaken.rest) == stream[end..]
    decreases |input|
  {
    var longer := response + input[0].bytes;
    var behind := Joined(input[1..]);
    assert response + Joined(input) == longer + behind;
    if codec.headerEnd(longer).Some? {
      HeaderFits(codec, longer);
      var end := codec.headerEnd(longer).value;
      assert codec.headerEnd(longer + behind) == Some(end);
      assert (longer + behind)[..end] == longer[..end];
      assert (longer + behind)[end..] == longer[end..] + behind;
    } else {
      HandshakeSplitsTheStream(codec, longer, input[1..]);
    }
  }

  lemma {:induction false} BytesAreTheReads(events: seq<Event>)
    ensures BytesOf(events) == Joined(ReadsOf(events))
  {
    if events != [] {
      var before, last := events[..|events| - 1], events[|events| - 1];
      BytesAreTheReads(before);
      if last.Got? {
        JoinedOneMore(last.read, []);
        assert [last.read] + [] == [last.read];
        JoinedConcat(ReadsOf(before), [last.read]);
        assert Joined([last.read]) == (if last.read.Bytes? then last.read.bytes else []) + [];
      } else {
        assert BytesOf(before) + [] == BytesOf(before);
        assert ReadsOf(before) + [] == ReadsOf(before);
      }
    }
  }

  /** The reader hears exactly the frames of the stream behind the first end of headers, up to and
      including the first Close: all of them once the Close is heard or every read was taken, and a
      prefix of them before. */
  lemma {:induction false} ReaderHearsTheStream(codec: Codec, input: seq<Read>, events: seq<Event>)
    requires PrefixStable(codec)
    requires Shake(codec, [], input).Accepted?
    requires ReadsOf(events) <= Shake(codec, [], input).rest
    ensures var shaken, end := Shake(codec, [], input), codec.headerEnd(Joined(input));
      && end.Some? && end.value <= |Joined(input)|
      && var heard, all := HeardAfter(codec, shaken.leftover, events), ParseAll(codec, Joined(input)[end.value..]);
         && heard.messages <= all.messages
         && (heard.ending == Closed || ReadsOf(events) == shaken.rest ==> heard.messages == all.messages)
  {
    hide ParseAll, Joined, BytesOf, ReadsOf, Shake;
    var shaken := Shake(codec, [], input);
    assert [] + Joined(input) == Joined(input);
    HandshakeSplitsTheStream(codec, [], input);
    var taken := ReadsOf(events);
    var untaken := shaken.rest[|taken|..];
    assert shaken.rest == taken + untaken;
    JoinedConcat(taken, untaken);
    BytesAreTheReads(events);
    var now := shaken.leftover + BytesOf(events);
    assert now + Joined(untaken) == shaken.leftover + (Joined(taken) + Joined(untaken));
    LaterBytes(codec, now, Joined(untaken));
    if taken == shaken.rest {
      assert now + Joined(untaken) == now;
    }
  }

  /** A Close is the last thing a parse delivers, and delivering one is what closing means. */
  lemma {:induction false} CloseIsLast(codec: Codec, b: seq<Byte>)
    requires PrefixStable(codec)
    ensures var heard := ParseAll(codec, b);
      && (forall i :: 0 <= i < |heard.messages| - 1 ==> !heard.messages[i].Close?)
      && (heard.ending == Closed <==> heard.messages != [] && heard.messages[|heard.messages| - 1].Close?)
    decreases |b|
  {
    match codec.parse(b) {
      case NeedMore =>
      case Malformed =>
      case Frame(message, consumed) =>
        FrameConsumes(codec, b);
        if !message.Close? {
          CloseIsLast(codec, b[consumed..]);
        }
    }
  }

  /** Whatever ends a connection is the last thing that happens to it: a Close sent or received, the end
      of the stream, an error. */
  lemma {:induction false} NothingFollowsTheEnd(codec: Codec, leftover: seq<Byte>, events: seq<Event>, i: nat)
    requires PrefixStable(codec) && Possible(codec, leftover, events) && i < |events|
    ensures HeardAfter(codec, leftover, events[..i]).ending == Waiting
    ensures i < |events| - 1 ==>
      match events[i]
      case Got(read) => read.Bytes? && read.bytes != []
      case Sent(message, _, fate) => !message.Close? && fate.Goes?
  {
    hide ParseAll, WireOf, ReadsOf, SentOf, FrameBytes;
    var before := events[..|events| - 1];
    if i < |events| - 1 {
      NothingFollowsTheEnd(codec, leftover, before, i);
      assert before[..i] == events[..i];
      assert before[i] == events[i];
    } else if before != [] {
      var last := before[|before| - 1];
      if last.Sent? {
        NothingFollowsTheEnd(codec, leftover, before, |before| - 1);
        OneMore(codec, before[..|before| - 1], last);
        assert before == before[..|before| - 1] + [last];
        assert BytesOf(before[..|before| - 1]) + [] == BytesOf(before[..|before| - 1]);
      }
    }
  }

  /** The frames of the messages sent, each of them whole. */
  function WholeFrames(codec: Codec, events: seq<Event>): seq<Byte> {
    if events == [] then []
    else
      var last := events[|events| - 1];
      WholeFrames(codec, events[..|events| - 1]) + (if last.Sent? then codec.encode(last.message, last.mask) else [])
  }

  /** The wire carries the queued messages' frames in queue order. Only the last of them can be cut
      short, and then the connection ends with a write failure. */
  lemma {:induction false} FramesKeepQueueOrder(codec: Codec, leftover: seq<Byte>, events: seq<Event>)
    requires PrefixStable(codec) && Possible(codec, leftover, events)
    ensures WireOf(codec, events) <= WholeFrames(codec, events)
    ensures Verdict(codec, leftover, events) != Some(Err(WriteFailed)) ==>
              WireOf(codec, events) == WholeFrames(codec, events)
  {
    if events != [] {
      FramesKeepQueueOrder(codec, leftover, events[..|events| - 1]);
    }
  }
}
