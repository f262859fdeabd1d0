/** The layout of the status frames, written the other way round: the bytes a status is made of. */
module StatusLayout {
  import opened Wrappers
  import opened Crc
  import opened UcPack
  import opened Protocol

  function FloatBytes(xs: seq<F32>): (s: seq<u8>)
    ensures |s| == 4 * |xs|
  {
    if xs == [] then [] else xs[0].Bytes() + FloatBytes(xs[1..])
  }

  function CountBytes(xs: seq<I16>): (s: seq<u8>)
    ensures |s| == 2 * |xs|
  {
    if xs == [] then [] else [xs[0].lo, xs[0].hi] + CountBytes(xs[1..])
  }

  lemma {:induction false} FloatsInOrder(xs: seq<F32>, k: nat)
    requires k < |xs|
    ensures var s := FloatBytes(xs); F32(s[4 * k], s[4 * k + 1], s[4 * k + 2], s[4 * k + 3]) == xs[k]
  {
    if k > 0 {
      FloatsInOrder(xs[1..], k - 1);
      var rest := FloatBytes(xs[1..]);
      var s := xs[0].Bytes() + rest;
      assert s[4 * k] == rest[4 * (k - 1)] && s[4 * k + 1] == rest[4 * (k - 1) + 1];
      assert s[4 * k + 2] == rest[4 * (k - 1) + 2] && s[4 * k + 3] == rest[4 * (k - 1) + 3];
    }
  }

  lemma {:induction false} CountsInOrder(xs: seq<I16>, k: nat)
    requires k < |xs|
    ensures var s := CountBytes(xs); I16(s[2 * k], s[2 * k + 1]) == xs[k]
  {
    if k > 0 {
      CountsInOrder(xs[1..], k - 1);
      var rest := CountBytes(xs[1..]);
      var s := [xs[0].lo, xs[0].hi] + rest;
      assert s[2 * k] == rest[2 * (k - 1)] && s[2 * k + 1] == rest[2 * (k - 1) + 1];
    }
  }

  lemma {:induction false} FloatField(code: u8, xs: seq<F32>, k: nat)
    requires k < |xs| <= 6
    ensures MakeFrame(code, FloatBytes(xs)).Float(4 * k) == xs[k]
  {
    FloatsInOrder(xs, k);
  }

  lemma {:induction false} CountField(code: u8, xs: seq<I16>, k: nat)
    requires k < |xs| <= 12
    ensures MakeFrame(code, CountBytes(xs)).Int16(2 * k) == xs[k]
  {
    CountsInOrder(xs, k);
  }

  /** A battery on its charger sends its level as a positive number, one that drains as a negative one. */
  function Signed(percent: F32, charging: bool): F32 {
    if Above(percent) && !charging then Negate(percent) else percent
  }

  /** The frame a status is sent in. */
  function StatusFrame(s: Status): Frame {
    match s
    case WheelSpeeds(l, r) => MakeFrame(0x6A, FloatBytes([l, r]))
    case WheelPositions(l, r) => MakeFrame(0x77, FloatBytes([l, r]))
    case Line(l, c, r) => MakeFrame(0x6C, CountBytes([l, c, r]))
    case Color(r, g, b) => MakeFrame(0x63, CountBytes([r, g, b]))
    case Imu(ax, ay, az, gx, gy, gz) => MakeFrame(0x69, FloatBytes([ax, ay, az, gx, gy, gz]))
    case Orientation(roll, pitch, yaw) => MakeFrame(0x71, FloatBytes([roll, pitch, yaw]))
    case Battery(percent, charging) => MakeFrame(0x70, FloatBytes([Signed(percent, charging)]))
    case Tof(l, c, r) => MakeFrame(0x64, CountBytes([l, c, r]))
    case TofMatrix(l, cl, c, cr, r, t, b) => MakeFrame(0x66, CountBytes([l, cl, c, cr, r, t, b]))
    case Touch(bits) => MakeFrame(0x74, [bits])
    case Motion(bits) => MakeFrame(0x6D, [bits])
    case Behavior(behavior) => MakeFrame(0x62, [behavior])
    case Velocity(linear, angular) => MakeFrame(0x76, FloatBytes([linear, angular]))
    case Pose(x, y, theta) => MakeFrame(0x7A, FloatBytes([x, y, theta]))
    case Ack(byte) => MakeFrame(0x78, [byte])
    case FwVersion(major, minor, patch) => MakeFrame(0x7E, [major, minor, patch])
  }

  /** The statuses some frame says: all of them, except that a level is never negative and only a positive
      one is charging. */
  predicate Sayable(s: Status) {
    s.Battery? ==> !Below(s.percent) && (s.charging ==> Above(s.percent))
  }

  lemma {:induction false} Floats(code: u8, xs: seq<F32>)
    requires 2 <= |xs| <= 6
    ensures var f := MakeFrame(code, FloatBytes(xs));
      && f.Float(0) == xs[0] && f.Float(4) == xs[1] && (|xs| > 2 ==> f.Float(8) == xs[2])
      && (|xs| > 3 ==> f.Float(12) == xs[3]) && (|xs| > 4 ==> f.Float(16) == xs[4])
      && (|xs| > 5 ==> f.Float(20) == xs[5])
  {
    FloatField(code, xs, 0);
    FloatField(code, xs, 1);
    if |xs| > 2 { FloatField(code, xs, 2); }
    if |xs| > 3 { FloatField(code, xs, 3); }
    if |xs| > 4 { FloatField(code, xs, 4); }
    if |xs| > 5 { FloatField(code, xs, 5); }
  }

  lemma PairStatusReadsBack(s: Status)
    requires s.WheelSpeeds? || s.WheelPositions? || s.Velocity?
    ensures Decode(StatusFrame(s)) == Some(s)
  {
    hide MakeFrame, FloatBytes, CountBytes;
    match s {
      case WheelSpeeds(l, r) => Floats(0x6A, [l, r]);
      case WheelPositions(l, r) => Floats(0x77, [l, r]);
      case Velocity(l, a) => Floats(0x76, [l, a]);
    }
  }

  lemma TripleStatusReadsBack(s: Status)
    requires s.Orientation? || s.Pose?
    ensures Decode(StatusFrame(s)) == Some(s)
  {
    hide MakeFrame, FloatBytes, CountBytes;
    match s {
      case Orientation(x, y, z) => Floats(0x71, [x, y, z]);
      case Pose(x, y, z) => Floats(0x7A, [x, y, z]);
    }
  }

  lemma ImuReadsBack(s: Status)
    requires s.Imu?
    ensures Decode(StatusFrame(s)) == Some(s)
  {
    hide MakeFrame, FloatBytes, CountBytes;
    Floats(0x69, [s.ax, s.ay, s.az, s.gx, s.gy, s.gz]);
  }

  lemma {:induction false} Counts(code: u8, xs: seq<I16>)
    requires 3 <= |xs| <= 7
    ensures var f := MakeFrame(code, CountBytes(xs));
      && f.Int16(0) == xs[0] && f.Int16(2) == xs[1] && f.Int16(4) == xs[2]
      && (|xs| == 7 ==> f.Int16(6) == xs[3] && f.Int16(8) == xs[4] && f.Int16(10) == xs[5] && f.Int16(12) == xs[6])
  {
    CountField(code, xs, 0);
    CountField(code, xs, 1);
    CountField(code, xs, 2);
    if |xs| == 7 {
      CountField(code, xs, 3);
      CountField(code, xs, 4);
      CountField(code, xs, 5);
      CountField(code, xs, 6);
    }
  }

  lemma CountStatusReadsBack(s: Status)
    requires s.Line? || s.Color? || s.Tof?
    ensures Decode(StatusFrame(s)) == Some(s)
  {
    hide MakeFrame, FloatBytes, CountBytes;
    match s {
      case Line(l, c, r) => Counts(0x6C, [l, c, r]);
      case Color(r, g, b) => Counts(0x63, [r, g, b]);
      case Tof(l, c, r) => Counts(0x64, [l, c, r]);
    }
  }

  lemma MatrixReadsBack(s: Status)
    requires s.TofMatrix?
    ensures Decode(StatusFrame(s)) == Some(s)
  {
    hide MakeFrame, FloatBytes, CountBytes;
    Counts(0x66, [s.mLeft, s.mCenterLeft, s.mCenter, s.mCenterRight, s.mRight, s.mTop, s.mBottom]);
  }

  lemma BatteryReadsBack(percent: F32, charging: bool)
    requires Sayable(Battery(percent, charging))
    ensures Decode(StatusFrame(Battery(percent, charging))) == Some(Battery(percent, charging))
  {
    hide MakeFrame, FloatBytes, CountBytes;
    var raw := Signed(percent, charging);
    FloatField(0x70, [raw], 0);
    NegateTwice(percent);
    NegateTwice(Negate(percent));
  }

  /** Decoding undoes the layout: every status a frame can say comes back field for field. */
  lemma StatusReadsBack(s: Status)
    requires Sayable(s)
    ensures Decode(StatusFrame(s)) == Some(s)
  {
    hide FloatBytes, CountBytes;
    if s.Battery? {
      BatteryReadsBack(s.percent, s.charging);
    } else if s.Line? || s.Color? || s.Tof? {
      CountStatusReadsBack(s);
    } else if s.TofMatrix? {
      MatrixReadsBack(s);
    } else if s.Imu? {
      ImuReadsBack(s);
    } else if s.Orientation? || s.Pose? {
      TripleStatusReadsBack(s);
    } else if s.WheelSpeeds? || s.WheelPositions? || s.Velocity? {
      PairStatusReadsBack(s);
    }
  }

  /** Exactly those statuses are ever decoded. */
  lemma SayableExactly(s: Status)
    ensures (exists f: Frame :: f.Valid() && Decode(f) == Some(s)) <==> Sayable(s)
  {
    if Sayable(s) {
      StatusReadsBack(s);
      assert StatusFrame(s).Valid();
    }
    forall f: Frame | f.Valid() && Decode(f) == Some(s) ensures Sayable(s) {
      if s.Battery? {
        BatterySign(f);
        NegateTwice(f.Float(0));
      }
    }
  }
}
