/** What scanning a byte stream finds: every split of the stream gives the same frames,
    and exactly which valid frames a stream with garbage in it yields. */
module Resync {
  import opened Crc
  import opened UcPack

  // ---- chunk independence -------------------------------------------------

  lemma SliceBeforeJoin(s: seq<u8>, t: seq<u8>, from: nat, to: nat)
    requires from <= to <= |s|
    ensures (s + t)[from..to] == s[from..to]
  {
  }

  lemma HeadIsStable(s: seq<u8>, t: seq<u8>)
    requires Head(s) != Wait
    ensures Head(s + t) == Head(s)
  {
    hide Checksum, Value, MakeFrame;
    if s[0] == START {
      var length := Value(s[1]);
      if 1 <= length <= PAYLOAD_MAX + 1 {
        SliceBeforeJoin(s, t, 2, length + 4);
        SliceBeforeJoin(s, t, 3, 2 + length);
      }
    }
  }

  /** Scanning in two parts, carrying the residue over, is scanning the whole. */
  lemma {:induction false} ScanConcat(s: seq<u8>, t: seq<u8>)
    ensures Scan(s + t).0 == Scan(s).0 + Scan(Scan(s).1 + t).0
    ensures Scan(s + t).1 == Scan(Scan(s).1 + t).1
    decreases |s|
  {
    hide Head;
    match Head(s) {
      case Wait =>
      case Drop =>
        HeadIsStable(s, t);
        assert (s + t)[1..] == s[1..] + t;
        ScanConcat(s[1..], t);
      case Emit(frame, total) =>
        HeadIsStable(s, t);
        assert (s + t)[total..] == s[total..] + t;
        ScanConcat(s[total..], t);
    }
  }

  /** The residue is a suffix of the stream that the decoder is waiting on. */
  lemma {:induction false} ResidueWaits(s: seq<u8>)
    ensures var r := Scan(s).1; Head(r) == Wait && s[|s| - |r|..] == r
    decreases |s|
  {
    hide Head;
    match Head(s) {
      case Wait =>
      case Drop => ResidueWaits(s[1..]);
      case Emit(_, total) => ResidueWaits(s[total..]);
    }
  }

  function Join(chunks: seq<seq<u8>>): seq<u8> {
    if chunks == [] then [] else Join(chunks[..|chunks| - 1]) + chunks[|chunks| - 1]
  }

  // ---- which frames a stream yields ---------------------------------------

  /** A complete frame with a good trailer starts at `p`. */
  ghost predicate ValidAt(s: seq<u8>, p: nat) {
    p <= |s| && Head(s[p..]).Emit?
  }

  ghost function FrameAt(s: seq<u8>, p: nat): Frame
    requires ValidAt(s, p)
  {
    Head(s[p..]).frame
  }

  ghost function EndAt(s: seq<u8>, p: nat): nat
    requires ValidAt(s, p)
  {
    p + Head(s[p..]).total
  }

  /** Where, from `p` on, the scanner pops frames. */
  ghost function Starts(s: seq<u8>, p: nat): (r: seq<nat>)
    requires p <= |s|
    ensures forall i :: 0 <= i < |r| ==> p <= r[i] && ValidAt(s, r[i])
    ensures forall i, j :: 0 <= i < j < |r| ==> EndAt(s, r[i]) <= r[j]
    decreases |s| - p
  {
    match Head(s[p..])
    case Wait => []
    case Drop => Starts(s, p + 1)
    case Emit(_, total) => [p] + Starts(s, p + total)
  }

  /** Where, from `p` on, the scanner gives up and waits. */
  ghost function StopsAt(s: seq<u8>, p: nat): (stop: nat)
    requires p <= |s|
    ensures p <= stop <= |s| && stop == |s| - |Scan(s[p..]).1|
    decreases |s| - p
  {
    match Head(s[p..])
    case Wait => p
    case Drop => assert s[p..][1..] == s[p + 1..]; StopsAt(s, p + 1)
    case Emit(_, total) => assert s[p..][total..] == s[p + total..]; StopsAt(s, p + total)
  }

  /** The scanner's frames are the frames at `Starts`, in order. */
  lemma {:induction false} FramesAtStarts(s: seq<u8>, p: nat)
    requires p <= |s|
    ensures |Scan(s[p..]).0| == |Starts(s, p)|
    ensures forall i :: 0 <= i < |Starts(s, p)| ==> Scan(s[p..]).0[i] == FrameAt(s, Starts(s, p)[i])
    decreases |s| - p
  {
    hide Head;
    match Head(s[p..]) {
      case Wait =>
      case Drop =>
        assert s[p..][1..] == s[p + 1..];
        FramesAtStarts(s, p + 1);
      case Emit(frame, total) =>
        assert s[p..][total..] == s[p + total..];
        FramesAtStarts(s, p + total);
    }
  }

  /** Position `q` lies strictly inside the frame at `start`. */
  ghost predicate Swallows(s: seq<u8>, start: nat, q: nat) {
    ValidAt(s, start) && start < q < EndAt(s, start)
  }

  ghost predicate Inside(s: seq<u8>, starts: seq<nat>, q: nat) {
    exists i :: 0 <= i < |starts| && Swallows(s, starts[i], q)
  }

  lemma InsideOneMore(s: seq<u8>, first: nat, rest: seq<nat>, q: nat)
    ensures Inside(s, [first] + rest, q) <==> Swallows(s, first, q) || Inside(s, rest, q)
  {
    var all := [first] + rest;
    assert all[0] == first && forall i :: 0 <= i < |rest| ==> all[i + 1] == rest[i];
    if Inside(s, all, q) && !Swallows(s, first, q) {
      var i :| 0 <= i < |all| && Swallows(s, all[i], q);
      assert Swallows(s, rest[i - 1], q);
    }
  }

  /** Position `q` lies strictly inside a frame popped from `p` on. */
  ghost predicate Covered(s: seq<u8>, p: nat, q: nat)
    requires p <= |s|
  {
    Inside(s, Starts(s, p), q)
  }

  lemma CoveredUnfolds(s: seq<u8>, p: nat, q: nat)
    requires p <= q <= |s| && ValidAt(s, p)
    ensures Covered(s, p, q) <==> p < q < EndAt(s, p) || (EndAt(s, p) <= q && Covered(s, EndAt(s, p), q))
  {
    hide Head;
    InsideOneMore(s, p, Starts(s, EndAt(s, p)), q);
  }

  lemma {:induction false} PoppedIff(s: seq<u8>, p: nat, q: nat)
    requires p <= q <= |s|
    ensures q in Starts(s, p) <==> ValidAt(s, q) && q < StopsAt(s, p) && !Covered(s, p, q)
    decreases |s| - p
  {
    hide Head;
    match Head(s[p..]) {
      case Wait =>
      case Drop =>
        if q == p {
          assert !ValidAt(s, q);
        } else {
          PoppedIff(s, p + 1, q);
        }
      case Emit(_, total) =>
        CoveredUnfolds(s, p, q);
        if p + total <= q {
          PoppedIff(s, p + total, q);
        }
    }
  }

  /** Exactly which positions the decoder pops a frame at. */
  lemma {:induction false} PoppedExactly(s: seq<u8>, q: nat)
    requires q <= |s|
    ensures q in Starts(s, 0) <==> ValidAt(s, q) && q < |s| - |Scan(s).1| && !Covered(s, 0, q)
  {
    hide Head;
    assert s[0..] == s;
    PoppedIff(s, 0, q);
  }

  /** No valid frame is hidden for longer than FRAME_MAX bytes from its start, whatever
      precedes it, except inside an earlier frame that was itself popped. */
  lemma {:induction false} ResyncIsComplete(s: seq<u8>, q: nat)
    requires ValidAt(s, q) && q + FRAME_MAX <= |s|
    ensures q in Starts(s, 0) || Covered(s, 0, q)
  {
    hide Head;
    PoppedExactly(s, q);
  }

  /** An encoded frame is a valid frame for the code and payload it was made from. */
  lemma EncodedFrameIsValid(code: u8, payload: seq<u8>, after: seq<u8>)
    requires |payload| <= PAYLOAD_MAX
    ensures Head(EncodeFrame(code, payload) + after) == Emit(MakeFrame(code, payload), |payload| + 5)
  {
    hide Checksum, Value;
    var f, s, length := EncodeFrame(code, payload), EncodeFrame(code, payload) + after, 1 + |payload|;
    EncodedFields(code, payload);
    SliceBeforeJoin(f, after, 2, 2 + length);
    SliceBeforeJoin(f, after, 2, length + 4);
    assert f[2..] == f[2..length + 4];
    SliceBeforeJoin(f, after, 3, 2 + length);
    WindowParts(f, length);
    assert ([code] + payload)[1..] == payload;
  }

  lemma SliceOfPrefix(s: seq<u8>, end: nat, from: nat, to: nat)
    requires from <= to <= end <= |s|
    ensures s[..end][from..to] == s[from..to]
  {
  }

  /** What the decoder accepts at the front is, byte for byte, the encoding of the frame it pops. */
  lemma AcceptedIsEncoded(s: seq<u8>)
    requires Head(s).Emit?
    ensures var (frame, total) := (Head(s).frame, Head(s).total);
      && |frame.Payload()| <= PAYLOAD_MAX && total == |frame.Payload()| + 5 <= |s|
      && frame == MakeFrame(frame.code, frame.Payload())
      && s[..total] == EncodeFrame(frame.code, frame.Payload())
  {
    hide Checksum, Value;
    var length := Value(s[1]);
    var payload, front := s[3..2 + length], s[..length + 4];
    WindowParts(s, length);
    LengthByteBack(s[1], 1 + |payload|);
    assert [s[2]] + payload == s[2..2 + length];
    SliceOfPrefix(s, length + 4, 3, 2 + length);
    EncodedBytes(s[2], payload, front);
  }

  /** The decoder accepts exactly what the encoder makes. */
  lemma AcceptsExactlyEncoded(s: seq<u8>, p: nat)
    ensures ValidAt(s, p) <==>
      p <= |s| && exists code: u8, payload: seq<u8> ::
        |payload| <= PAYLOAD_MAX && EncodeFrame(code, payload) <= s[p..]
  {
    if ValidAt(s, p) {
      AcceptedIsEncoded(s[p..]);
    }
    if p <= |s| {
      forall code: u8, payload: seq<u8> | |payload| <= PAYLOAD_MAX && EncodeFrame(code, payload) <= s[p..]
        ensures ValidAt(s, p)
      {
        var sent := EncodeFrame(code, payload);
        EncodedFrameIsValid(code, payload, s[p..][|sent|..]);
        assert sent + s[p..][|sent|..] == s[p..];
      }
    }
  }

  /** A frame sent after any bytes at all is popped, unless an earlier popped frame swallows its start. */
  lemma SentFrameArrives(before: seq<u8>, code: u8, payload: seq<u8>, after: seq<u8>)
    requires |payload| <= PAYLOAD_MAX && |payload| + 5 + |after| >= FRAME_MAX
    ensures var s := before + EncodeFrame(code, payload) + after;
            MakeFrame(code, payload) in Scan(s).0 || Covered(s, 0, |before|)
  {
    var s := before + EncodeFrame(code, payload) + after;
    assert s[|before|..] == EncodeFrame(code, payload) + after;
    EncodedFrameIsValid(code, payload, after);
    ResyncIsComplete(s, |before|);
    assert s[0..] == s;
    FramesAtStarts(s, 0);
  }
}
