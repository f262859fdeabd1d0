/** Commands and statuses byte by byte: the numbers the other end has to see. */
module MessageBytes {
  import opened Crc
  import opened UcPack
  import opened Resync
  import opened Protocol
  import opened Driver
  import CommandRuns
  import opened WireBytes

  /** The startup ack of the robot, as it comes over the wire. */
  lemma AckIsHeard()
    ensures var wire: seq<u8> := [0x41, 0x02, 0x78, 0x00, 0x23, 0xC0];
      && Scan(wire) == ([Frame(0x78, seq(24, _ => 0), 1)], [])
      && Heard(wire) == [Ack(0)]
  {
    hide Scan;
    AckIsScanned();
    OneFrame(Frame(0x78, seq(24, _ => 0), 1));
  }

  lemma AckIsScanned()
    ensures Scan([0x41, 0x02, 0x78, 0x00, 0x23, 0xC0]) == ([Frame(0x78, seq(24, _ => 0), 1)], [])
  {
    hide Checksum, Head;
    var wire: seq<u8> := [0x41, 0x02, 0x78, 0x00, 0x23, 0xC0];
    var frame := Frame(0x78, seq(24, _ => 0), 1);
    KnownSums();
    assert wire[2..4] == [0x78, 0x00];
    FrontDecides(wire);
    assert wire[3..4] + seq(23, _ => 0) == frame.payload;
    NothingToScan();
    assert wire[6..] == [];
    assert [frame] + [] == [frame];
  }

  // ---- commands -----------------------------------------------------------

  /** These are the bytes of a frame with this code and payload. */
  ghost predicate IsFrameOf(bytes: seq<u8>, code: u8, payload: seq<u8>) {
    |payload| < 255 && bytes == [0x41, (1 + |payload|) as u8, code] + payload + [0x23, Checksum([code] + payload)]
  }

  lemma SentAs(c: Command, code: u8, payload: seq<u8>)
    requires Code(c) == code && Payload(c) == payload
    ensures IsFrameOf(Encode(c), code, payload)
  {
  }

  /** Commands of one or two bytes. */
  lemma ByteCommands(a: u8, b: u8)
    ensures IsFrameOf(Encode(SetBehavior(a)), 0x42, [a])
    ensures IsFrameOf(Encode(SetLeds(a)), 0x4C, [a])
    ensures IsFrameOf(Encode(Acknowledge(a)), 0x58, [a])
    ensures IsFrameOf(Encode(SetServo(a, b)), 0x53, [a, b])
  {
    hide Checksum, EncodeFrame, Encode;
    SentAs(SetBehavior(a), 0x42, [a]);
    SentAs(SetLeds(a), 0x4C, [a]);
    SentAs(Acknowledge(a), 0x58, [a]);
    SentAs(SetServo(a, b), 0x53, [a, b]);
  }

  /** Commands of one, two or three floats. */
  lemma FloatCommands(x: F32, y: F32, z: F32)
    ensures IsFrameOf(Encode(Rotate(x)), 0x52, [x.b0, x.b1, x.b2, x.b3])
    ensures IsFrameOf(Encode(Move(x)), 0x47, [x.b0, x.b1, x.b2, x.b3])
    ensures IsFrameOf(Encode(SetWheelSpeeds(x, y)), 0x4A, [x.b0, x.b1, x.b2, x.b3, y.b0, y.b1, y.b2, y.b3])
    ensures IsFrameOf(Encode(SetWheelAngles(x, y)), 0x41, [x.b0, x.b1, x.b2, x.b3, y.b0, y.b1, y.b2, y.b3])
    ensures IsFrameOf(Encode(Drive(x, y)), 0x56, [x.b0, x.b1, x.b2, x.b3, y.b0, y.b1, y.b2, y.b3])
    ensures IsFrameOf(Encode(ResetPose(x, y, z)), 0x5A,
                      [x.b0, x.b1, x.b2, x.b3, y.b0, y.b1, y.b2, y.b3, z.b0, z.b1, z.b2, z.b3])
  {
    hide Checksum, EncodeFrame, Encode, IsFrameOf;
    var one, two := [x.b0, x.b1, x.b2, x.b3], [x.b0, x.b1, x.b2, x.b3, y.b0, y.b1, y.b2, y.b3];
    assert x.Bytes() + y.Bytes() == two;
    SentAs(Rotate(x), 0x52, one);
    SentAs(Move(x), 0x47, one);
    SentAs(SetWheelSpeeds(x, y), 0x4A, two);
    SentAs(SetWheelAngles(x, y), 0x41, two);
    SentAs(Drive(x, y), 0x56, two);
    SentAs(ResetPose(x, y, z), 0x5A, [x.b0, x.b1, x.b2, x.b3, y.b0, y.b1, y.b2, y.b3, z.b0, z.b1, z.b2, z.b3]);
  }

  /** Commands to one wheel: L is 4C, R is 52; Z resets, V sets a speed, P a position. */
  lemma WheelCommands(w: Side, x: F32)
    ensures var side: u8 := match w case Left => 0x4C case Right => 0x52;
      && IsFrameOf(Encode(WheelReset(w, x)), 0x57, [side, 0x5A, x.b0, x.b1, x.b2, x.b3])
      && IsFrameOf(Encode(WheelSpeed(w, x)), 0x57, [side, 0x56, x.b0, x.b1, x.b2, x.b3])
      && IsFrameOf(Encode(WheelPosition(w, x)), 0x57, [side, 0x50, x.b0, x.b1, x.b2, x.b3])
  {
    hide Checksum, EncodeFrame, Encode, IsFrameOf;
    var side := w.Label();
    assert side == match w case Left => 0x4C case Right => 0x52;
    assert forall sub: u8 :: [side, sub] + x.Bytes() == [side, sub, x.b0, x.b1, x.b2, x.b3];
    SentAs(WheelReset(w, x), 0x57, [side, 0x5A] + x.Bytes());
    SentAs(WheelSpeed(w, x), 0x57, [side, 0x56] + x.Bytes());
    SentAs(WheelPosition(w, x), 0x57, [side, 0x50] + x.Bytes());
  }

  /** And its gains. */
  lemma GainsCommand(w: Side, p: F32, i: F32, d: F32)
    ensures var side: u8 := match w case Left => 0x4C case Right => 0x52;
      IsFrameOf(Encode(SetPidGains(w, p, i, d)), 0x50,
                [side, p.b0, p.b1, p.b2, p.b3, i.b0, i.b1, i.b2, i.b3, d.b0, d.b1, d.b2, d.b3])
  {
    hide Checksum, EncodeFrame, Encode, IsFrameOf;
    var side := w.Label();
    assert side == match w case Left => 0x4C case Right => 0x52;
    SentAs(SetPidGains(w, p, i, d), 0x50, [side] + p.Bytes() + i.Bytes() + d.Bytes());
    GainsPayload(side, p, i, d);
  }

  lemma GainsPayload(side: u8, p: F32, i: F32, d: F32)
    ensures [side] + p.Bytes() + i.Bytes() + d.Bytes()
         == [side, p.b0, p.b1, p.b2, p.b3, i.b0, i.b1, i.b2, i.b3, d.b0, d.b1, d.b2, d.b3]
  {
    var one := [side, p.b0, p.b1, p.b2, p.b3];
    assert [side] + p.Bytes() == one;
    assert one + i.Bytes() == [side, p.b0, p.b1, p.b2, p.b3, i.b0, i.b1, i.b2, i.b3];
  }

  /** What bring-up writes: illuminator on, behaviours 1 and 2, both servos at 90 degrees. */
  lemma InitBytes(rooms: (nat, nat, nat, nat))
    requires CommandRuns.WholeInit(rooms)
    ensures WithInit([], rooms) == [0x41, 0x02, 0x4C, 0x02, 0x23, 0x6A] + [0x41, 0x02, 0x42, 0x01, 0x23, 0x54]
                                 + [0x41, 0x02, 0x42, 0x02, 0x23, 0xB6] + [0x41, 0x03, 0x53, 0x5A, 0x5A, 0x23, 0xAA]
  {
    hide Checksum, Encode, Taken;
    KnownSums();
    CommandRuns.WholeIsTaken(SetLeds(2), rooms.0);
    CommandRuns.WholeIsTaken(SetBehavior(1), rooms.1);
    CommandRuns.WholeIsTaken(SetBehavior(2), rooms.2);
    CommandRuns.WholeIsTaken(SetServo(90, 90), rooms.3);
    ByteCommands(2, 0);
    ByteCommands(1, 0);
    ByteCommands(90, 90);
    assert [0x4C as u8] + [0x02] == [0x4C, 0x02] && [0x42 as u8] + [0x01] == [0x42, 0x01];
    assert [0x42 as u8] + [0x02] == [0x42, 0x02] && [0x53 as u8] + [0x5A, 0x5A] == [0x53, 0x5A, 0x5A];
    assert Encode(SetLeds(2)) == [0x41, 0x02, 0x4C, 0x02, 0x23, 0x6A];
    assert Encode(SetBehavior(1)) == [0x41, 0x02, 0x42, 0x01, 0x23, 0x54];
    assert Encode(SetBehavior(2)) == [0x41, 0x02, 0x42, 0x02, 0x23, 0xB6];
    assert Encode(SetServo(90, 90)) == [0x41, 0x03, 0x53, 0x5A, 0x5A, 0x23, 0xAA];
  }

  // ---- statuses -----------------------------------------------------------

  /** A payload of `n` bytes and the zeros behind it. */
  ghost predicate Padded(p: seq<u8>, n: nat) {
    |p| == 24 && n <= 24 && forall k :: n <= k < 24 ==> p[k] == 0
  }

  /** What the frame with this code and these `n` bytes of payload says on the wire. */
  ghost function Saying(code: u8, p: seq<u8>, n: nat): seq<Status>
    requires Padded(p, n)
  {
    Heard([0x41, (1 + n) as u8, code] + p[..n] + [0x23, Checksum([code] + p[..n])])
  }

  lemma OneFrameSays(code: u8, p: seq<u8>, n: nat)
    requires Padded(p, n)
    ensures Saying(code, p, n) == Listed(Decode(Frame(code, p, n)))
  {
    hide Checksum, Head, Decode;
    var f, bytes := MakeFrame(code, p[..n]), EncodeFrame(code, p[..n]);
    assert f.payload == p;
    EncodedFrameIsValid(code, p[..n], []);
    assert bytes + [] == bytes && bytes[n + 5..] == [];
    NothingToScan();
    assert Scan(bytes) == ([f] + [], []);
    OneFrame(f);
    assert [f] + [] == [f];
  }

  /** Wheel speeds, wheel positions, velocity, orientation and pose. What a short payload lacks reads as zeros. */
  lemma FloatStatuses(p: seq<u8>, n: nat)
    requires Padded(p, n)
    ensures var (x, y, z) := (F32(p[0], p[1], p[2], p[3]), F32(p[4], p[5], p[6], p[7]), F32(p[8], p[9], p[10], p[11]));
      && Saying(0x6A, p, n) == [WheelSpeeds(x, y)] && Saying(0x77, p, n) == [WheelPositions(x, y)]
      && Saying(0x76, p, n) == [Velocity(x, y)]
      && Saying(0x71, p, n) == [Orientation(x, y, z)] && Saying(0x7A, p, n) == [Pose(x, y, z)]
  {
    hide Saying;
    OneFrameSays(0x6A, p, n);
    OneFrameSays(0x77, p, n);
    OneFrameSays(0x76, p, n);
    OneFrameSays(0x71, p, n);
    OneFrameSays(0x7A, p, n);
  }

  /** Acceleration and turn rates. */
  lemma ImuStatus(p: seq<u8>, n: nat)
    requires Padded(p, n)
    ensures Saying(0x69, p, n)
         == [Imu(F32(p[0], p[1], p[2], p[3]), F32(p[4], p[5], p[6], p[7]), F32(p[8], p[9], p[10], p[11]),
                 F32(p[12], p[13], p[14], p[15]), F32(p[16], p[17], p[18], p[19]), F32(p[20], p[21], p[22], p[23]))]
  {
    hide Saying;
    OneFrameSays(0x69, p, n);
  }

  /** Line, colour and the two range messages: 16 bits each, low byte first. */
  lemma CountStatuses(p: seq<u8>, n: nat)
    requires Padded(p, n)
    ensures var (a, b, c, d) := (I16(p[0], p[1]), I16(p[2], p[3]), I16(p[4], p[5]), I16(p[6], p[7]));
      && Saying(0x6C, p, n) == [Line(a, b, c)] && Saying(0x63, p, n) == [Color(a, b, c)]
      && Saying(0x64, p, n) == [Tof(a, b, c)]
      && Saying(0x66, p, n) == [TofMatrix(a, b, c, d, I16(p[8], p[9]), I16(p[10], p[11]), I16(p[12], p[13]))]
  {
    hide Saying;
    OneFrameSays(0x6C, p, n);
    OneFrameSays(0x63, p, n);
    OneFrameSays(0x64, p, n);
    OneFrameSays(0x66, p, n);
  }

  /** The discrete messages. */
  lemma ByteStatuses(p: seq<u8>, n: nat)
    requires Padded(p, n)
    ensures Saying(0x74, p, n) == [Touch(p[0])] && Saying(0x6D, p, n) == [Motion(p[0])]
    ensures Saying(0x62, p, n) == [Behavior(p[0])] && Saying(0x78, p, n) == [Ack(p[0])]
    ensures Saying(0x7E, p, n) == [FwVersion(p[0], p[1], p[2])]
  {
    hide Saying;
    OneFrameSays(0x74, p, n);
    OneFrameSays(0x6D, p, n);
    OneFrameSays(0x62, p, n);
    OneFrameSays(0x78, p, n);
    OneFrameSays(0x7E, p, n);
  }

  /** The battery: zeros and what is not a number stay as they are and do not charge; any other level loses its
      sign bit, the top bit of its last byte, and charges if that bit was clear. */
  lemma BatteryStatus(p: seq<u8>, n: nat)
    requires Padded(p, n)
    ensures var zero := p[0] == 0 && p[1] == 0 && p[2] == 0 && (p[3] == 0x00 || p[3] == 0x80);
      var noNumber := (p[3] == 0x7F || p[3] == 0xFF) && (p[2] > 0x80 || (p[2] == 0x80 && (p[0] != 0 || p[1] != 0)));
      Saying(0x70, p, n)
      == [if zero || noNumber then Battery(F32(p[0], p[1], p[2], p[3]), false)
          else if p[3] < 0x80 then Battery(F32(p[0], p[1], p[2], p[3]), true)
          else Battery(F32(p[0], p[1], p[2], p[3] - 0x80), false)]
  {
    hide Saying;
    OneFrameSays(0x70, p, n);
    LastByte(p[2], p[3]);
  }

  lemma LastByte(b2: u8, b3: u8)
    ensures b3 & 0x80 == 0 <==> b3 < 0x80
    ensures b3 & 0x7F == 0 <==> b3 == 0x00 || b3 == 0x80
    ensures b3 & 0x7F == 0x7F <==> b3 == 0x7F || b3 == 0xFF
    ensures b3 >= 0x80 ==> b3 ^ 0x80 == b3 - 0x80
    ensures b2 & 0x80 != 0 <==> b2 >= 0x80
    ensures b2 >= 0x80 ==> (b2 & 0x7F == 0 <==> b2 == 0x80)
  {
  }

  /** A frame says nothing if and only if its code is none of j w l c i q p d f t m b v z x and 7E. */
  lemma UnknownCodesSayNothing(code: u8, p: seq<u8>, n: nat)
    requires Padded(p, n)
    ensures Saying(code, p, n) == [] <==>
            code !in {0x6A, 0x77, 0x6C, 0x63, 0x69, 0x71, 0x70, 0x64, 0x66, 0x74, 0x6D, 0x62, 0x76, 0x7A, 0x78, 0x7E}
  {
    hide Saying;
    OneFrameSays(code, p, n);
  }
}
