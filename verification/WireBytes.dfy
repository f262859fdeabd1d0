/** The wire byte by byte: the numbers a frame is made of, and what the decoder makes of any bytes in terms of
    those numbers alone. */
module WireBytes {
  import opened Crc
  import opened ShiftRegister
  import opened UcPack
  import opened Resync

  // ---- the checksum -------------------------------------------------------

  /** One more byte, in closed form: it is added to the register, which then clocks eight times. */
  lemma {:induction false} ByteMore(data: seq<u8>, was: u8, b: u8, now: u8)
    requires Checksum(data) == was && Shift8(Plus(Load(was), Load(b))) == Load(now)
    ensures Checksum(data + [b]) == now
  {
    var r := Feed(ZERO, WireBits(data));
    StoreThenLoad(r);
    WireBitsConcat(data, [b]);
    assert WireBits([b]) == ByteBits(b) + WireBits([b][1..]) == ByteBits(b);
    FeedConcat(ZERO, WireBits(data), ByteBits(b));
    SpelledCells(Load(b));
    FeedSpelled(r, ByteBits(b));
    ShiftNAdd(Plus(r, Load(b)), 4, 4);
    FourShifts(Plus(r, Load(b)));
    FourShifts(ShiftN(Plus(r, Load(b)), 4));
    LoadThenStore(now);
  }

  lemma FirstByteSum(a: u8, sum: u8)
    requires Shift8(Load(a)) == Load(sum)
    ensures Checksum([a]) == sum
  {
    ChecksumOfNothing();
    assert Plus(Load(0), Load(a)) == Load(a);
    ByteMore([], 0, a, sum);
    assert [] + [a] == [a];
  }

  lemma TwoByteSum(a: u8, first: u8, b: u8, second: u8)
    requires Shift8(Load(a)) == Load(first) && Shift8(Plus(Load(first), Load(b))) == Load(second)
    ensures Checksum([a, b]) == second
  {
    hide Checksum, Load, Shift8, Plus;
    FirstByteSum(a, first);
    ByteMore([a], first, b, second);
    assert [a] + [b] == [a, b];
  }

  /** The checksums of the startup ack and of the four init commands. */
  lemma KnownSums()
    ensures Checksum([0x78, 0x00]) == 0xC0
    ensures Checksum([0x4C, 0x02]) == 0x6A && Checksum([0x42, 0x01]) == 0x54 && Checksum([0x42, 0x02]) == 0xB6
    ensures Checksum([0x53, 0x5A, 0x5A]) == 0xAA
  {
    hide Checksum, Shift8, Load, Plus;
    AckSum();
    LedSum();
    BehaviorSums();
    ServoSum();
  }

  lemma AckSum()
    ensures Checksum([0x78, 0x00]) == 0xC0
  {
    hide Checksum;
    TwoByteSum(0x78, 0x3A, 0x00, 0xC0);
  }

  lemma LedSum()
    ensures Checksum([0x4C, 0x02]) == 0x6A
  {
    hide Checksum;
    TwoByteSum(0x4C, 0xE5, 0x02, 0x6A);
  }

  lemma BehaviorSums()
    ensures Checksum([0x42, 0x01]) == 0x54 && Checksum([0x42, 0x02]) == 0xB6
  {
    hide Checksum;
    TwoByteSum(0x42, 0xFA, 0x01, 0x54);
    TwoByteSum(0x42, 0xFA, 0x02, 0xB6);
  }

  lemma ServoSum()
    ensures Checksum([0x53, 0x5A, 0x5A]) == 0xAA
  {
    hide Checksum;
    TwoByteSum(0x53, 0x39, 0x5A, 0x87);
    ByteMore([0x53, 0x5A], 0x87, 0x5A, 0xAA);
    assert [0x53 as u8, 0x5A] + [0x5A] == [0x53, 0x5A, 0x5A];
  }

  /** The check value the CRC catalogue gives for CRC-8/MAXIM: the checksum of the digits 1 to 9. */
  lemma CheckValue()
    ensures Checksum([0x31, 0x32, 0x33, 0x34, 0x35, 0x36, 0x37, 0x38, 0x39]) == 0xA1
  {
    hide Checksum;
    TwoByteSum(0x31, 0xE0, 0x32, 0xEB);
    ByteMore([0x31, 0x32], 0xEB, 0x33, 0x95);
    assert [0x31 as u8, 0x32] + [0x33] == [0x31, 0x32, 0x33];
    ByteMore([0x31, 0x32, 0x33], 0x95, 0x34, 0xF1);
    assert [0x31 as u8, 0x32, 0x33] + [0x34] == [0x31, 0x32, 0x33, 0x34];
    ByteMore([0x31, 0x32, 0x33, 0x34], 0xF1, 0x35, 0xAB);
    assert [0x31 as u8, 0x32, 0x33, 0x34] + [0x35] == [0x31, 0x32, 0x33, 0x34, 0x35];
    ByteMore([0x31, 0x32, 0x33, 0x34, 0x35], 0xAB, 0x36, 0xEC);
    assert [0x31 as u8, 0x32, 0x33, 0x34, 0x35] + [0x36] == [0x31, 0x32, 0x33, 0x34, 0x35, 0x36];
    CheckValueEnds([0x31, 0x32, 0x33, 0x34, 0x35, 0x36]);
    assert [0x31 as u8, 0x32, 0x33, 0x34, 0x35, 0x36] + [0x37, 0x38, 0x39]
        == [0x31, 0x32, 0x33, 0x34, 0x35, 0x36, 0x37, 0x38, 0x39];
  }

  lemma CheckValueEnds(front: seq<u8>)
    requires Checksum(front) == 0xEC
    ensures Checksum(front + [0x37, 0x38, 0x39]) == 0xA1
  {
    hide Checksum;
    ByteMore(front, 0xEC, 0x37, 0x77);
    ByteMore(front + [0x37], 0x77, 0x38, 0x07);
    ByteMore(front + [0x37] + [0x38], 0x07, 0x39, 0xA1);
    assert front + [0x37] + [0x38] + [0x39] == front + [0x37, 0x38, 0x39];
  }

  // ---- frames -------------------------------------------------------------

  /** The bytes of a frame. */
  lemma FrameBytes(code: u8, payload: seq<u8>)
    requires |payload| <= 24
    ensures var f, n := EncodeFrame(code, payload), |payload|;
      && |f| == n + 5
      && f[0] == 0x41 && f[1] as int == 1 + n && f[2] == code && f[3..3 + n] == payload
      && f[3 + n] == 0x23 && f[4 + n] == Checksum([code] + payload)
  {
    hide Checksum;
    var f, n := EncodeFrame(code, payload), |payload|;
    LengthIs(1 + n);
    assert f[3..3 + n] == payload;
  }

  lemma LengthIs(n: nat)
    requires n < 32
    ensures (n as u8) as int == n
  {
    hide Value;
    LengthByte(n);
    ValueIsTheNumber(n as u8);
  }

  /** 41, a length of 1 to 25, that many bytes, 23 and their checksum stand at `p`. */
  ghost predicate FrameStandsAt(s: seq<u8>, p: nat) {
    && p + 5 <= |s| && s[p] == 0x41
    && var n := s[p + 1] as int;
       && 1 <= n <= 25 && p + n + 4 <= |s|
       && s[p + n + 2] == 0x23 && s[p + n + 3] == Checksum(s[p + 2..p + n + 2])
  }

  /** A frame that is not all there yet stands at the end. */
  ghost predicate BeginningStandsAt(s: seq<u8>, p: nat) {
    p == |s| || (p + 1 == |s| && s[p] == 0x41)
    || (p + 1 < |s| && s[p] == 0x41 && 1 <= s[p + 1] as int <= 25 && |s| < p + s[p + 1] as int + 4)
  }

  lemma FrontDecides(s: seq<u8>)
    ensures Head(s).Emit? <==> FrameStandsAt(s, 0)
    ensures Head(s) == Wait <==> BeginningStandsAt(s, 0)
    ensures FrameStandsAt(s, 0) ==>
              var n := s[1] as int;
              Head(s) == Emit(Frame(s[2], s[3..n + 2] + seq(25 - n, _ => 0), n - 1), n + 4)
  {
    hide Checksum;
    if |s| >= 2 {
      ValueIsTheNumber(s[1]);
      var n := Value(s[1]);
      if s[0] == START && 1 <= n <= 25 && n + 4 <= |s| {
        JudgeFrame(s, n, s[2..n + 2]);
        WindowParts(s, n);
      }
    }
  }

  lemma StandsAt(s: seq<u8>, p: nat)
    requires p <= |s|
    ensures Head(s[p..]).Emit? <==> FrameStandsAt(s, p)
    ensures Head(s[p..]) == Wait <==> BeginningStandsAt(s, p)
    ensures FrameStandsAt(s, p) ==> Head(s[p..]) == Emit(StandingFrame(s, p), EndOfStanding(s, p) - p)
  {
    hide Head, Checksum;
    var t := s[p..];
    FrontDecides(t);
    if |t| >= 2 && 1 <= t[1] as int <= 25 && |t| >= t[1] as int + 4 {
      var n := t[1] as int;
      assert t[2..n + 2] == s[p + 2..p + n + 2] && t[3..n + 2] == s[p + 3..p + n + 2];
    }
  }

  /** The frame that stands at `p`: code, payload, and zeros up to 24 bytes. */
  ghost function StandingFrame(s: seq<u8>, p: nat): Frame
    requires FrameStandsAt(s, p)
  {
    var n := s[p + 1] as int;
    Frame(s[p + 2], s[p + 3..p + n + 2] + seq(25 - n, _ => 0), n - 1)
  }

  ghost function EndOfStanding(s: seq<u8>, p: nat): (end: nat)
    requires FrameStandsAt(s, p)
    ensures p + 5 <= end <= |s|
  {
    p + s[p + 1] as int + 4
  }

  /** From `p` to `q` every byte is garbage: neither a frame nor a beginning of one stands there. */
  ghost predicate Garbage(s: seq<u8>, p: nat, q: nat) {
    forall k :: p <= k < q ==> !FrameStandsAt(s, k) && !BeginningStandsAt(s, k)
  }

  /** From `p` on the stream is garbage and these frames, and then, from `stop` on, a beginning. */
  ghost predicate ReadsAs(s: seq<u8>, p: nat, frames: seq<Frame>, stop: nat)
    decreases |frames|
  {
    if frames == [] then p <= stop <= |s| && Garbage(s, p, stop) && BeginningStandsAt(s, stop)
    else
      exists q: nat ::
        && p <= q && Garbage(s, p, q) && FrameStandsAt(s, q) && frames[0] == StandingFrame(s, q)
        && ReadsAs(s, EndOfStanding(s, q), frames[1..], stop)
  }

  lemma {:induction false} GarbageIsDropped(s: seq<u8>, p: nat, q: nat)
    requires p <= q <= |s| && Garbage(s, p, q)
    ensures Scan(s[p..]) == Scan(s[q..])
    decreases q - p
  {
    hide Head, FrameStandsAt, BeginningStandsAt, StandingFrame, EndOfStanding;
    if p < q {
      StandsAt(s, p);
      assert s[p..][1..] == s[p + 1..];
      GarbageIsDropped(s, p + 1, q);
    }
  }

  lemma {:induction false} ReadingIsScanning(s: seq<u8>, p: nat, frames: seq<Frame>, stop: nat)
    requires p <= |s| && ReadsAs(s, p, frames, stop)
    ensures stop <= |s| && Scan(s[p..]) == (frames, s[stop..])
    decreases |frames|
  {
    hide Head, FrameStandsAt, BeginningStandsAt, Garbage, StandingFrame, EndOfStanding;
    if frames == [] {
      GarbageIsDropped(s, p, stop);
      StandsAt(s, stop);
    } else {
      var q: nat :| p <= q && Garbage(s, p, q) && FrameStandsAt(s, q) && frames[0] == StandingFrame(s, q)
                    && ReadsAs(s, EndOfStanding(s, q), frames[1..], stop);
      GarbageIsDropped(s, p, q);
      StandsAt(s, q);
      var end := EndOfStanding(s, q);
      assert s[q..][end - q..] == s[end..];
      assert frames == [frames[0]] + frames[1..];
      ReadingIsScanning(s, end, frames[1..], stop);
    }
  }

  lemma {:induction false} ScanningIsReading(s: seq<u8>, p: nat)
    requires p <= |s|
    ensures ReadsAs(s, p, Scan(s[p..]).0, |s| - |Scan(s[p..]).1|)
    decreases |s| - p
  {
    hide Head, FrameStandsAt, BeginningStandsAt, StandingFrame, EndOfStanding, ReadsAs;
    StandsAt(s, p);
    match Head(s[p..]) {
      case Wait => BeginningFirst(s, p);
      case Drop =>
        assert s[p..][1..] == s[p + 1..];
        ScanningIsReading(s, p + 1);
        GarbageInFront(s, p, Scan(s[p + 1..]).0, |s| - |Scan(s[p + 1..]).1|);
      case Emit(frame, total) =>
        assert s[p..][total..] == s[p + total..];
        ScanningIsReading(s, p + total);
        FrameFirst(s, p, Scan(s[p + total..]).0, |s| - |Scan(s[p + total..]).1|);
    }
  }

  lemma {:induction false} BeginningFirst(s: seq<u8>, p: nat)
    requires p <= |s| && BeginningStandsAt(s, p)
    ensures ReadsAs(s, p, [], p)
  {
    assert Garbage(s, p, p);
  }

  lemma {:induction false} FrameFirst(s: seq<u8>, p: nat, rest: seq<Frame>, stop: nat)
    requires FrameStandsAt(s, p) && ReadsAs(s, EndOfStanding(s, p), rest, stop)
    ensures ReadsAs(s, p, [StandingFrame(s, p)] + rest, stop)
  {
    hide FrameStandsAt, BeginningStandsAt, StandingFrame, EndOfStanding;
    assert ([StandingFrame(s, p)] + rest)[1..] == rest;
    assert Garbage(s, p, p);
  }

  lemma {:induction false} GarbageInFront(s: seq<u8>, p: nat, frames: seq<Frame>, stop: nat)
    requires p < |s| && !FrameStandsAt(s, p) && !BeginningStandsAt(s, p) && ReadsAs(s, p + 1, frames, stop)
    ensures ReadsAs(s, p, frames, stop)
  {
    hide FrameStandsAt, BeginningStandsAt, StandingFrame, EndOfStanding;
    if frames != [] {
      var q: nat :| p + 1 <= q && Garbage(s, p + 1, q) && FrameStandsAt(s, q) && frames[0] == StandingFrame(s, q)
                    && ReadsAs(s, EndOfStanding(s, q), frames[1..], stop);
      assert Garbage(s, p, q);
    } else {
      assert Garbage(s, p, stop);
    }
  }

  /** What the decoder makes of any bytes: these frames and this residue if and only if the stream is garbage
      and those frames, in order, and the residue is the beginning of one. */
  lemma {:induction false} ScanExactly(s: seq<u8>, frames: seq<Frame>, residue: seq<u8>)
    ensures Scan(s) == (frames, residue) <==>
            |residue| <= |s| && residue == s[|s| - |residue|..] && ReadsAs(s, 0, frames, |s| - |residue|)
  {
    assert s[0..] == s;
    if Scan(s) == (frames, residue) {
      ScanningIsReading(s, 0);
      ResidueWaits(s);
    }
    if |residue| <= |s| && residue == s[|s| - |residue|..] && ReadsAs(s, 0, frames, |s| - |residue|) {
      ReadingIsScanning(s, 0, frames, |s| - |residue|);
    }
  }

  /** A byte other than 41 in front is dropped. */
  lemma {:induction false} OtherByteIsDropped(s: seq<u8>)
    requires s != [] && s[0] != 0x41
    ensures Scan(s) == Scan(s[1..])
  {
    FrontDecides(s);
  }

  lemma NothingToScan()
    ensures Scan([]) == ([], [])
  {
  }
}
