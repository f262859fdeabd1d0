/** Streams of status frames: what the robot says is heard, through noise that holds no START byte. */
module StatusStream {
  import opened Crc
  import opened UcPack
  import R = Resync
  import opened Protocol
  import opened StatusLayout
  import opened Driver

  /** The bytes of one status. */
  function StatusBytes(s: Status): seq<u8> {
    FrameFits(s);
    EncodeFrame(StatusFrame(s).code, StatusFrame(s).Payload())
  }

  /** The frame of a status is the one its code and payload make. */
  lemma FrameFits(s: Status)
    ensures var f := StatusFrame(s);
      |f.payload| == PAYLOAD_MAX && f.len <= PAYLOAD_MAX && MakeFrame(f.code, f.Payload()) == f
  {
    hide FloatBytes, CountBytes;
  }

  function Spoken(statuses: seq<Status>): seq<u8> {
    if statuses == [] then [] else StatusBytes(statuses[0]) + Spoken(statuses[1..])
  }

  lemma {:induction false} FirstStatus(s: Status, rest: seq<u8>)
    requires Sayable(s)
    ensures Heard(StatusBytes(s) + rest) == [s] + Heard(rest)
    ensures Scan(StatusBytes(s) + rest).1 == Scan(rest).1
  {
    hide StatusFrame, Decode, Checksum;
    var f, bytes := StatusFrame(s), StatusBytes(s);
    FrameFits(s);
    R.EncodedFrameIsValid(f.code, f.Payload(), rest);
    EncodedFields(f.code, f.Payload());
    assert (bytes + rest)[|bytes|..] == rest;
    assert Scan(bytes + rest) == ([f] + Scan(rest).0, Scan(rest).1);
    ScannedPayloads(rest);
    OneFrame(f);
    StatusesConcat([f], Scan(rest).0);
    StatusReadsBack(s);
  }

  /** Every list of statuses a robot can say is heard exactly, in order, with nothing left over. */
  lemma {:induction false} StatusesAreHeard(statuses: seq<Status>)
    requires forall k :: 0 <= k < |statuses| ==> Sayable(statuses[k])
    ensures Heard(Spoken(statuses)) == statuses && Scan(Spoken(statuses)).1 == []
  {
    if statuses != [] {
      StatusesAreHeard(statuses[1..]);
      FirstStatus(statuses[0], Spoken(statuses[1..]));
    }
  }
}
