/** Streams of encoded commands: the decoder recovers exactly what was sent, through any
    noise that holds no START byte, and different commands never look alike on the wire. */
module CommandStream {
  import opened Crc
  import opened UcPack
  import opened Resync
  import opened Protocol

  /** A command and the line noise in front of it. */
  datatype Sent = Sent(noise: seq<u8>, command: Command)

  ghost predicate StartFree(noise: seq<u8>) {
    forall k :: 0 <= k < |noise| ==> noise[k] != START
  }

  function OnTheWire(sent: seq<Sent>): seq<u8> {
    if sent == [] then [] else sent[0].noise + Encode(sent[0].command) + OnTheWire(sent[1..])
  }

  function FramesOf(sent: seq<Sent>): seq<Frame> {
    if sent == [] then [] else [CommandFrame(sent[0].command)] + FramesOf(sent[1..])
  }

  lemma {:induction false} NoiseIsDropped(noise: seq<u8>, s: seq<u8>)
    requires StartFree(noise)
    ensures Scan(noise + s) == Scan(s)
    decreases |noise|
  {
    if noise == [] {
      assert noise + s == s;
    } else {
      assert Head(noise + s) == Drop;
      assert (noise + s)[1..] == noise[1..] + s;
      NoiseIsDropped(noise[1..], s);
    }
  }

  lemma {:induction false} EncodedIsScanned(c: Command, rest: seq<u8>)
    ensures Scan(Encode(c) + rest) == ([CommandFrame(c)] + Scan(rest).0, Scan(rest).1)
  {
    hide Payload, Code, Checksum, EncodeFrame;
    EncodedFrameIsValid(Code(c), Payload(c), rest);
    EncodedFields(Code(c), Payload(c));
    assert (Encode(c) + rest)[|Payload(c)| + 5..] == rest;
  }

  /** The decoder pops exactly the frames that were sent, in order, and ends with an empty buffer. */
  lemma {:induction false} StreamIsDecoded(sent: seq<Sent>, trailing: seq<u8>)
    requires StartFree(trailing) && forall k :: 0 <= k < |sent| ==> StartFree(sent[k].noise)
    ensures Scan(OnTheWire(sent) + trailing) == (FramesOf(sent), [])
    decreases |sent|
  {
    hide Encode, CommandFrame;
    if sent == [] {
      NoiseIsDropped(trailing, []);
      assert trailing + [] == trailing == OnTheWire(sent) + trailing;
    } else {
      var first, rest := sent[0], OnTheWire(sent[1..]) + trailing;
      StreamIsDecoded(sent[1..], trailing);
      EncodedIsScanned(first.command, rest);
      NoiseIsDropped(first.noise, Encode(first.command) + rest);
      assert OnTheWire(sent) + trailing == first.noise + (Encode(first.command) + rest);
    }
  }

  lemma {:induction false} FramesDetermineCommands(a: seq<Sent>, b: seq<Sent>)
    requires FramesOf(a) == FramesOf(b)
    ensures |a| == |b| && forall k :: 0 <= k < |a| ==> a[k].command == b[k].command
    decreases |a|
  {
    if a == [] || b == [] {
      assert |FramesOf(a)| == 0;
    } else {
      assert FramesOf(a)[0] == FramesOf(b)[0];
      CommandReadsBack(a[0].command);
      CommandReadsBack(b[0].command);
      assert FramesOf(a)[1..] == FramesOf(a[1..]) && FramesOf(b)[1..] == FramesOf(b[1..]);
      FramesDetermineCommands(a[1..], b[1..]);
      assert forall k :: 1 <= k < |a| ==> a[k] == a[1..][k - 1] && b[k] == b[1..][k - 1];
    }
  }

  /** Two command sequences that put the same bytes on the wire, noise included, are the same commands. */
  lemma {:induction false} WireDeterminesCommands(a: seq<Sent>, b: seq<Sent>, x: seq<u8>, y: seq<u8>)
    requires StartFree(x) && forall k :: 0 <= k < |a| ==> StartFree(a[k].noise)
    requires StartFree(y) && forall k :: 0 <= k < |b| ==> StartFree(b[k].noise)
    requires OnTheWire(a) + x == OnTheWire(b) + y
    ensures |a| == |b| && forall k :: 0 <= k < |a| ==> a[k].command == b[k].command
  {
    StreamIsDecoded(a, x);
    StreamIsDecoded(b, y);
    FramesDetermineCommands(a, b);
  }
}
