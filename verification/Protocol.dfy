/** The Alvik messages and their ucPack frames. Quantities are the wire's own values:
    the unit conversions in front of them are not part of this model. */
module Protocol {
  import opened Wrappers
  import opened Crc
  import opened UcPack

  datatype Side = Left | Right
  {
    /** 'L' or 'R'. */
    function Label(): u8 { if this == Left then 0x4C else 0x52 }
  }

  // ---- commands -----------------------------------------------------------

  datatype Command =
    | SetBehavior(behavior: u8)
    | Rotate(angle: F32)
    | Move(distance: F32)
    | SetWheelSpeeds(left: F32, right: F32)
    | SetWheelAngles(left: F32, right: F32)
    | Drive(linear: F32, angular: F32)
    | SetServo(a: u8, b: u8)
    | SetLeds(state: u8)
    | ResetPose(x: F32, y: F32, theta: F32)
    | WheelReset(wheel: Side, position: F32)
    | WheelSpeed(wheel: Side, speed: F32)
    | WheelPosition(wheel: Side, position: F32)
    | SetPidGains(wheel: Side, kp: F32, ki: F32, kd: F32)
    | Acknowledge(byte: u8)

  /** The code byte: B R G J A V S L Z W W W P X. */
  function Code(c: Command): u8 {
    match c
    case SetBehavior(_) => 0x42
    case Rotate(_) => 0x52
    case Move(_) => 0x47
    case SetWheelSpeeds(_, _) => 0x4A
    case SetWheelAngles(_, _) => 0x41
    case Drive(_, _) => 0x56
    case SetServo(_, _) => 0x53
    case SetLeds(_) => 0x4C
    case ResetPose(_, _, _) => 0x5A
    case WheelReset(_, _) => 0x57
    case WheelSpeed(_, _) => 0x57
    case WheelPosition(_, _) => 0x57
    case SetPidGains(_, _, _, _) => 0x50
    case Acknowledge(_) => 0x58
  }

  /** The payload bytes; the three wheel commands carry the sub-command Z, V or P behind the label. */
  function Payload(c: Command): (p: seq<u8>)
    ensures 1 <= |p| <= 13
  {
    match c
    case SetBehavior(b) => [b]
    case Rotate(a) => a.Bytes()
    case Move(d) => d.Bytes()
    case SetWheelSpeeds(l, r) => l.Bytes() + r.Bytes()
    case SetWheelAngles(l, r) => l.Bytes() + r.Bytes()
    case Drive(l, a) => l.Bytes() + a.Bytes()
    case SetServo(a, b) => [a, b]
    case SetLeds(s) => [s]
    case ResetPose(x, y, t) => x.Bytes() + y.Bytes() + t.Bytes()
    case WheelReset(w, p) => [w.Label(), 0x5A] + p.Bytes()
    case WheelSpeed(w, v) => [w.Label(), 0x56] + v.Bytes()
    case WheelPosition(w, p) => [w.Label(), 0x50] + p.Bytes()
    case SetPidGains(w, p, i, d) => [w.Label()] + p.Bytes() + i.Bytes() + d.Bytes()
    case Acknowledge(b) => [b]
  }

  /** The bytes a command puts on the wire. */
  function Encode(c: Command): seq<u8> {
    EncodeFrame(Code(c), Payload(c))
  }

  /** The commands to a single wheel. */
  method EncodeWheelCommand(c: Command, enc: Encoder) returns (bytes: seq<u8>)
    requires enc.Valid() && (c.WheelReset? || c.WheelSpeed? || c.WheelPosition? || c.SetPidGains?)
    modifies enc.buf
    ensures bytes == Encode(c)
  {
    hide EncodeFrame;
    match c {
      case WheelReset(w, p) => bytes := enc.C2B1F(0x57, w.Label(), 0x5A, p);
      case WheelSpeed(w, v) => bytes := enc.C2B1F(0x57, w.Label(), 0x56, v);
      case WheelPosition(w, p) => bytes := enc.C2B1F(0x57, w.Label(), 0x50, p);
      case SetPidGains(w, p, i, d) => bytes := enc.C1B3F(0x50, w.Label(), p, i, d);
    }
  }

  method EncodeCommand(c: Command, enc: Encoder) returns (bytes: seq<u8>)
    requires enc.Valid()
    modifies enc.buf
    ensures bytes == Encode(c)
  {
    hide EncodeFrame;
    match c {
      case SetBehavior(b) => bytes := enc.C1B(0x42, b);
      case Rotate(a) => bytes := enc.C1F(0x52, a);
      case Move(d) => bytes := enc.C1F(0x47, d);
      case SetWheelSpeeds(l, r) => bytes := enc.C2F(0x4A, l, r);
      case SetWheelAngles(l, r) => bytes := enc.C2F(0x41, l, r);
      case Drive(l, a) => bytes := enc.C2F(0x56, l, a);
      case SetServo(a, b) => bytes := enc.C2B(0x53, a, b);
      case SetLeds(s) => bytes := enc.C1B(0x4C, s);
      case ResetPose(x, y, t) => bytes := enc.C3F(0x5A, x, y, t);
      case Acknowledge(b) => bytes := enc.C1B(0x58, b);
      case _ => bytes := EncodeWheelCommand(c, enc);
    }
  }

  // ---- reading a command back ---------------------------------------------

  function SideOf(b: u8): Side { if b == 0x4C then Left else Right }

  /** The command a frame came from: what the robot's end has to be able to tell. */
  function ReadCommand(f: Frame): Option<Command>
    requires |f.payload| == PAYLOAD_MAX
  {
    match f.code
    case 0x42 => Some(SetBehavior(f.U8(0)))
    case 0x52 => Some(Rotate(f.Float(0)))
    case 0x47 => Some(Move(f.Float(0)))
    case 0x4A => Some(SetWheelSpeeds(f.Float(0), f.Float(4)))
    case 0x41 => Some(SetWheelAngles(f.Float(0), f.Float(4)))
    case 0x56 => Some(Drive(f.Float(0), f.Float(4)))
    case 0x53 => Some(SetServo(f.U8(0), f.U8(1)))
    case 0x4C => Some(SetLeds(f.U8(0)))
    case 0x5A => Some(ResetPose(f.Float(0), f.Float(4), f.Float(8)))
    case 0x57 =>
      if f.U8(1) == 0x5A then Some(WheelReset(SideOf(f.U8(0)), f.Float(2)))
      else if f.U8(1) == 0x56 then Some(WheelSpeed(SideOf(f.U8(0)), f.Float(2)))
      else Some(WheelPosition(SideOf(f.U8(0)), f.Float(2)))
    case 0x50 => Some(SetPidGains(SideOf(f.U8(0)), f.Float(1), f.Float(5), f.Float(9)))
    case 0x58 => Some(Acknowledge(f.U8(0)))
    case _ => None
  }

  function CommandFrame(c: Command): Frame {
    MakeFrame(Code(c), Payload(c))
  }

  /** A float packed behind `before` is read back at that offset. */
  lemma FloatAt(code: u8, before: seq<u8>, x: F32, after: seq<u8>)
    requires |before| + 4 + |after| <= PAYLOAD_MAX
    ensures MakeFrame(code, before + x.Bytes() + after).Float(|before|) == x
  {
    var p := before + x.Bytes() + after;
    assert p[|before|..|before| + 4] == x.Bytes();
    assert p[|before|] == x.Bytes()[0] && p[|before| + 1] == x.Bytes()[1];
    assert p[|before| + 2] == x.Bytes()[2] && p[|before| + 3] == x.Bytes()[3];
  }

  lemma WheelCommandReadsBack(c: Command, sub: u8, x: F32, w: Side)
    requires Code(c) == 0x57 && Payload(c) == [w.Label(), sub] + x.Bytes()
    ensures var f := CommandFrame(c); f.U8(0) == w.Label() && f.U8(1) == sub && f.Float(2) == x
  {
    assert [w.Label(), sub] + x.Bytes() + [] == Payload(c);
    FloatAt(0x57, [w.Label(), sub], x, []);
  }

  lemma PairReadsBack(code: u8, x: F32, y: F32)
    ensures var f := MakeFrame(code, x.Bytes() + y.Bytes()); f.Float(0) == x && f.Float(4) == y
  {
    FloatAt(code, [], x, y.Bytes());
    FloatAt(code, x.Bytes(), y, []);
    assert [] + x.Bytes() + y.Bytes() == x.Bytes() + y.Bytes() == x.Bytes() + y.Bytes() + [];
  }

  lemma TripleReadsBack(code: u8, before: seq<u8>, x: F32, y: F32, z: F32)
    requires |before| <= 1
    ensures var f := MakeFrame(code, before + x.Bytes() + y.Bytes() + z.Bytes());
            f.Float(|before|) == x && f.Float(|before| + 4) == y && f.Float(|before| + 8) == z
  {
    var p := before + x.Bytes() + y.Bytes() + z.Bytes();
    FloatAt(code, before, x, y.Bytes() + z.Bytes());
    assert before + x.Bytes() + (y.Bytes() + z.Bytes()) == p;
    FloatAt(code, before + x.Bytes(), y, z.Bytes());
    FloatAt(code, before + x.Bytes() + y.Bytes(), z, []);
    assert p + [] == p;
  }

  lemma ByteCommandReadsBack(c: Command)
    requires c.SetBehavior? || c.SetServo? || c.SetLeds? || c.Acknowledge?
    ensures ReadCommand(CommandFrame(c)) == Some(c)
  {
  }

  lemma OneFloatReadsBack(code: u8, x: F32)
    ensures MakeFrame(code, x.Bytes()).Float(0) == x
  {
    FloatAt(code, [], x, []);
    assert [] + x.Bytes() + [] == x.Bytes();
  }

  lemma FloatCommandReadsBack(c: Command)
    requires c.Rotate? || c.Move?
    ensures ReadCommand(CommandFrame(c)) == Some(c)
  {
    hide MakeFrame;
    match c {
      case Rotate(a) => OneFloatReadsBack(0x52, a);
      case Move(d) => OneFloatReadsBack(0x47, d);
    }
  }

  lemma PoseCommandReadsBack(c: Command)
    requires c.ResetPose?
    ensures ReadCommand(CommandFrame(c)) == Some(c)
  {
    TripleReadsBack(0x5A, [], c.x, c.y, c.theta);
    assert [] + c.x.Bytes() == c.x.Bytes();
  }

  lemma PairCommandReadsBack(c: Command)
    requires c.SetWheelSpeeds? || c.SetWheelAngles? || c.Drive?
    ensures ReadCommand(CommandFrame(c)) == Some(c)
  {
    hide MakeFrame;
    match c {
      case SetWheelSpeeds(l, r) => PairReadsBack(0x4A, l, r);
      case SetWheelAngles(l, r) => PairReadsBack(0x41, l, r);
      case Drive(l, a) => PairReadsBack(0x56, l, a);
    }
  }

  lemma WheelsReadBack(c: Command)
    requires c.WheelReset? || c.WheelSpeed? || c.WheelPosition?
    ensures ReadCommand(CommandFrame(c)) == Some(c)
  {
    hide MakeFrame;
    match c {
      case WheelReset(w, p) => WheelCommandReadsBack(c, 0x5A, p, w);
      case WheelSpeed(w, v) => WheelCommandReadsBack(c, 0x56, v, w);
      case WheelPosition(w, p) => WheelCommandReadsBack(c, 0x50, p, w);
    }
  }

  /** No two commands share a frame: variant, wheel and every wire value can be read back. */
  lemma CommandReadsBack(c: Command)
    ensures ReadCommand(CommandFrame(c)) == Some(c)
  {
    if c.SetBehavior? || c.SetServo? || c.SetLeds? || c.Acknowledge? {
      ByteCommandReadsBack(c);
    } else if c.Rotate? || c.Move? {
      FloatCommandReadsBack(c);
    } else if c.ResetPose? {
      PoseCommandReadsBack(c);
    } else if c.SetWheelSpeeds? || c.SetWheelAngles? || c.Drive? {
      PairCommandReadsBack(c);
    } else if c.SetPidGains? {
      TripleReadsBack(0x50, [c.wheel.Label()], c.kp, c.ki, c.kd);
    } else {
      WheelsReadBack(c);
    }
  }

  // ---- status -------------------------------------------------------------

  datatype Status =
    | WheelSpeeds(left: F32, right: F32)
    | WheelPositions(left: F32, right: F32)
    | Line(l: I16, c: I16, r: I16)
    | Color(red: I16, green: I16, blue: I16)
    | Imu(ax: F32, ay: F32, az: F32, gx: F32, gy: F32, gz: F32)
    | Orientation(roll: F32, pitch: F32, yaw: F32)
    | Battery(percent: F32, charging: bool)
    | Tof(tofLeft: I16, tofCenter: I16, tofRight: I16)
    | TofMatrix(mLeft: I16, mCenterLeft: I16, mCenter: I16, mCenterRight: I16, mRight: I16, mTop: I16, mBottom: I16)
    | Touch(bits: u8)
    | Motion(bits: u8)
    | Behavior(behavior: u8)
    | Velocity(linear: F32, angular: F32)
    | Pose(x: F32, y: F32, theta: F32)
    | Ack(byte: u8)
    | FwVersion(major: u8, minor: u8, patch: u8)

  /** Comparison with 0.0 as IEEE 754 has it: false for both zeros and for every NaN. */
  predicate IsZero(f: F32) { f.b0 == 0 && f.b1 == 0 && f.b2 == 0 && f.b3 & 0x7F == 0 }

  predicate IsNaN(f: F32) {
    f.b3 & 0x7F == 0x7F && f.b2 & 0x80 != 0 && !(f.b0 == 0 && f.b1 == 0 && f.b2 & 0x7F == 0)
  }

  predicate Below(f: F32) { f.b3 & 0x80 != 0 && !IsZero(f) && !IsNaN(f) }

  predicate Above(f: F32) { f.b3 & 0x80 == 0 && !IsZero(f) && !IsNaN(f) }

  function Negate(f: F32): F32 { f.(b3 := f.b3 ^ 0x80) }

  /** Codes j w l c i q p d f t m b v z x 0x7E. */
  function Decode(f: Frame): Option<Status>
    requires |f.payload| == PAYLOAD_MAX
  {
    match f.code
    case 0x6A => Some(WheelSpeeds(f.Float(0), f.Float(4)))
    case 0x77 => Some(WheelPositions(f.Float(0), f.Float(4)))
    case 0x6C => Some(Line(f.Int16(0), f.Int16(2), f.Int16(4)))
    case 0x63 => Some(Color(f.Int16(0), f.Int16(2), f.Int16(4)))
    case 0x69 => Some(Imu(f.Float(0), f.Float(4), f.Float(8), f.Float(12), f.Float(16), f.Float(20)))
    case 0x71 => Some(Orientation(f.Float(0), f.Float(4), f.Float(8)))
    case 0x70 =>
      var raw := f.Float(0);
      Some(Battery(if Below(raw) then Negate(raw) else raw, Above(raw)))
    case 0x64 => Some(Tof(f.Int16(0), f.Int16(2), f.Int16(4)))
    case 0x66 => Some(TofMatrix(f.Int16(0), f.Int16(2), f.Int16(4), f.Int16(6), f.Int16(8), f.Int16(10), f.Int16(12)))
    case 0x74 => Some(Touch(f.U8(0)))
    case 0x6D => Some(Motion(f.U8(0)))
    case 0x62 => Some(Behavior(f.U8(0)))
    case 0x76 => Some(Velocity(f.Float(0), f.Float(4)))
    case 0x7A => Some(Pose(f.Float(0), f.Float(4), f.Float(8)))
    case 0x78 => Some(Ack(f.U8(0)))
    case 0x7E => Some(FwVersion(f.U8(0), f.U8(1), f.U8(2)))
    case _ => None
  }

  /** The battery reading is never below zero, and the sign of the wire value is recoverable
      from `charging` whenever the wire value was a number other than zero. */
  lemma BatterySign(f: Frame)
    requires |f.payload| == PAYLOAD_MAX && f.code == 0x70
    ensures var raw := f.Float(0);
            && Decode(f).Some? && Decode(f).value.Battery? && !Below(Decode(f).value.percent)
            && (Decode(f).value.charging <==> Above(raw))
            && (Below(raw) ==> raw == Negate(Decode(f).value.percent))
            && (!Below(raw) ==> raw == Decode(f).value.percent)
  {
    var raw := f.Float(0);
    NegateTwice(raw);
  }

  lemma NegateTwice(f: F32)
    ensures Negate(Negate(f)) == f && (Below(f) <==> Above(Negate(f)))
  {
    SignBit(f.b3);
  }

  lemma SignBit(b: u8)
    ensures (b ^ 0x80) ^ 0x80 == b && (b ^ 0x80) & 0x7F == b & 0x7F && ((b ^ 0x80) & 0x80 == 0 <==> b & 0x80 != 0)
  {
  }
}
