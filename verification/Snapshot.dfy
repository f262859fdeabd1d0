/** The coalesced sensor snapshot: an imperative fold over status messages, and the
    proof that every field always holds the latest reading of its kind. */
module Snapshot {
  import opened Wrappers
  import opened UcPack
  import opened Protocol

  const ZERO_F32: F32 := F32(0, 0, 0, 0)
  const ZERO_I16: I16 := I16(0, 0)

  datatype Snap = Snap(
    wheels: Wheels, line: (I16, I16, I16), color: (I16, I16, I16), imu: (F32, F32, F32, F32, F32, F32),
    orientation: (F32, F32, F32), battery: (F32, bool), tof: Ranges, velocity: (F32, F32), pose: (F32, F32, F32))

  datatype Wheels = Wheels(leftSpeed: F32, rightSpeed: F32, leftPosition: F32, rightPosition: F32)

  datatype Ranges = Ranges(
    left: I16, centerLeft: I16, center: I16, centerRight: I16, right: I16, top: I16, bottom: I16)

  const DEFAULT: Snap := Snap(
    Wheels(ZERO_F32, ZERO_F32, ZERO_F32, ZERO_F32), (ZERO_I16, ZERO_I16, ZERO_I16), (ZERO_I16, ZERO_I16, ZERO_I16),
    (ZERO_F32, ZERO_F32, ZERO_F32, ZERO_F32, ZERO_F32, ZERO_F32),
    (ZERO_F32, ZERO_F32, ZERO_F32), (ZERO_F32, false),
    Ranges(ZERO_I16, ZERO_I16, ZERO_I16, ZERO_I16, ZERO_I16, ZERO_I16, ZERO_I16),
    (ZERO_F32, ZERO_F32), (ZERO_F32, ZERO_F32, ZERO_F32))

  predicate Discrete(s: Status) { s.Touch? || s.Motion? || s.Behavior? || s.Ack? || s.FwVersion? }

  function Fold(snap: Snap, s: Status): Snap {
    match s
    case WheelSpeeds(l, r) => snap.(wheels := snap.wheels.(leftSpeed := l, rightSpeed := r))
    case WheelPositions(l, r) => snap.(wheels := snap.wheels.(leftPosition := l, rightPosition := r))
    case Line(l, c, r) => snap.(line := (l, c, r))
    case Color(r, g, b) => snap.(color := (r, g, b))
    case Imu(ax, ay, az, gx, gy, gz) => snap.(imu := (ax, ay, az, gx, gy, gz))
    case Orientation(r, p, y) => snap.(orientation := (r, p, y))
    case Battery(p, c) => snap.(battery := (p, c))
    case Tof(l, c, r) => snap.(tof := snap.tof.(left := l, center := c, right := r))
    case TofMatrix(l, cl, c, cr, r, t, b) => snap.(tof := Ranges(l, cl, c, cr, r, t, b))
    case Velocity(l, a) => snap.(velocity := (l, a))
    case Pose(x, y, t) => snap.(pose := (x, y, t))
    case _ => snap
  }

  function FoldAll(snap: Snap, history: seq<Status>): Snap {
    if history == [] then snap else Fold(FoldAll(snap, history[..|history| - 1]), history[|history| - 1])
  }

  class StatusSnapshot {
    var wheelLeftSpeed: F32
    var wheelRightSpeed: F32
    var wheelLeftPosition: F32
    var wheelRightPosition: F32
    var line: (I16, I16, I16)
    var color: (I16, I16, I16)
    var imu: (F32, F32, F32, F32, F32, F32)
    var orientation: (F32, F32, F32)
    var battery: (F32, bool)
    var tofLeft: I16
    var tofCenterLeft: I16
    var tofCenter: I16
    var tofCenterRight: I16
    var tofRight: I16
    var tofTop: I16
    var tofBottom: I16
    var velocity: (F32, F32)
    var pose: (F32, F32, F32)

    /** A copy of the fields, as published. */
    function View(): Snap
      reads this
    {
      Snap(Wheels(wheelLeftSpeed, wheelRightSpeed, wheelLeftPosition, wheelRightPosition),
           line, color, imu, orientation, battery,
           Ranges(tofLeft, tofCenterLeft, tofCenter, tofCenterRight, tofRight, tofTop, tofBottom), velocity, pose)
    }

    constructor ()
      ensures View() == DEFAULT
    {
      wheelLeftSpeed, wheelRightSpeed := ZERO_F32, ZERO_F32;
      wheelLeftPosition, wheelRightPosition := ZERO_F32, ZERO_F32;
      line, color := (ZERO_I16, ZERO_I16, ZERO_I16), (ZERO_I16, ZERO_I16, ZERO_I16);
      imu := (ZERO_F32, ZERO_F32, ZERO_F32, ZERO_F32, ZERO_F32, ZERO_F32);
      orientation, battery := (ZERO_F32, ZERO_F32, ZERO_F32), (ZERO_F32, false);
      tofLeft, tofCenterLeft, tofCenter, tofCenterRight := ZERO_I16, ZERO_I16, ZERO_I16, ZERO_I16;
      tofRight, tofTop, tofBottom := ZERO_I16, ZERO_I16, ZERO_I16;
      velocity, pose := (ZERO_F32, ZERO_F32), (ZERO_F32, ZERO_F32, ZERO_F32);
    }

    /** The short range message leaves the matrix-only fields alone. */
    method TakeTof(l: I16, c: I16, r: I16)
      modifies `tofLeft, `tofCenter, `tofRight
      ensures tofLeft == l && tofCenter == c && tofRight == r
    {
      tofLeft, tofCenter, tofRight := l, c, r;
    }

    method TakeMatrix(l: I16, cl: I16, c: I16, cr: I16, r: I16, t: I16, b: I16)
      modifies `tofLeft, `tofCenterLeft, `tofCenter, `tofCenterRight, `tofRight, `tofTop, `tofBottom
      ensures tofLeft == l && tofCenterLeft == cl && tofCenter == c && tofCenterRight == cr
      ensures tofRight == r && tofTop == t && tofBottom == b
    {
      tofLeft, tofCenterLeft, tofCenter, tofCenterRight := l, cl, c, cr;
      tofRight, tofTop, tofBottom := r, t, b;
    }

    /** The two range messages. */
    method ApplyRange(status: Status)
      requires status.Tof? || status.TofMatrix?
      modifies this
      ensures View() == Fold(old(View()), status)
    {
      match status {
        case Tof(l, c, r) => TakeTof(l, c, r);
        case TofMatrix(l, cl, c, cr, r, t, b) => TakeMatrix(l, cl, c, cr, r, t, b);
      }
    }

    /** What the robot reports of itself: attitude, battery and movement. */
    method ApplyMovement(status: Status)
      requires status.Imu? || status.Orientation? || status.Battery? || status.Velocity? || status.Pose?
      modifies this
      ensures View() == Fold(old(View()), status)
    {
      match status {
        case Imu(ax, ay, az, gx, gy, gz) => imu := (ax, ay, az, gx, gy, gz);
        case Orientation(r, p, y) => orientation := (r, p, y);
        case Battery(p, c) => battery := (p, c);
        case Velocity(l, a) => velocity := (l, a);
        case Pose(x, y, t) => pose := (x, y, t);
      }
    }

    /** Fold a continuous status in; hand a discrete one back. */
    method Apply(status: Status) returns (discrete: Option<Status>)
      modifies this
      ensures View() == Fold(old(View()), status)
      ensures discrete == if Discrete(status) then Some(status) else None
      ensures discrete.Some? <==>
              status.Touch? || status.Motion? || status.Behavior? || status.Ack? || status.FwVersion?
    {
      if Discrete(status) {
        return Some(status);
      }
      if status.Tof? || status.TofMatrix? {
        ApplyRange(status);
        return None;
      }
      if status.Imu? || status.Orientation? || status.Battery? || status.Velocity? || status.Pose? {
        ApplyMovement(status);
        return None;
      }
      match status {
        case WheelSpeeds(l, r) => wheelLeftSpeed, wheelRightSpeed := l, r;
        case WheelPositions(l, r) => wheelLeftPosition, wheelRightPosition := l, r;
        case Line(l, c, r) => line := (l, c, r);
        case Color(r, g, b) => color := (r, g, b);
      }
      return None;
    }
  }

  // ---- the snapshot is the latest reading of every kind --------------------

  datatype Kind =
    | KWheelSpeeds | KWheelPositions | KLine | KColor | KImu | KOrientation | KBattery
    | KTof | KTofMatrix | KVelocity | KPose | KTouch | KMotion | KBehavior | KAck | KFwVersion

  function KindOf(s: Status): Kind {
    match s
    case WheelSpeeds(_, _) => KWheelSpeeds
    case WheelPositions(_, _) => KWheelPositions
    case Line(_, _, _) => KLine
    case Color(_, _, _) => KColor
    case Imu(_, _, _, _, _, _) => KImu
    case Orientation(_, _, _) => KOrientation
    case Battery(_, _) => KBattery
    case Tof(_, _, _) => KTof
    case TofMatrix(_, _, _, _, _, _, _) => KTofMatrix
    case Velocity(_, _) => KVelocity
    case Pose(_, _, _) => KPose
    case Touch(_) => KTouch
    case Motion(_) => KMotion
    case Behavior(_) => KBehavior
    case Ack(_) => KAck
    case FwVersion(_, _, _) => KFwVersion
  }

  /** The last message of the history of one of these kinds. */
  ghost function Latest(history: seq<Status>, kinds: set<Kind>): (r: Option<Status>)
    ensures r.Some? ==> KindOf(r.value) in kinds
  {
    if history == [] then None
    else if KindOf(history[|history| - 1]) in kinds then Some(history[|history| - 1])
    else Latest(history[..|history| - 1], kinds)
  }

  ghost predicate IsLatestAt(history: seq<Status>, kinds: set<Kind>, i: nat) {
    i < |history| && KindOf(history[i]) in kinds && forall j :: i < j < |history| ==> KindOf(history[j]) !in kinds
  }

  /** `Latest` by positions: nothing of these kinds comes after the message it names. */
  lemma {:induction false} LatestIsLast(history: seq<Status>, kinds: set<Kind>, s: Status)
    ensures Latest(history, kinds) == Some(s) <==> exists i: nat :: IsLatestAt(history, kinds, i) && history[i] == s
  {
    if history != [] {
      var n := |history| - 1;
      if KindOf(history[n]) in kinds {
        assert IsLatestAt(history, kinds, n);
      } else {
        LatestIsLast(history[..n], kinds, s);
        assert forall i: nat :: IsLatestAt(history, kinds, i) <==> IsLatestAt(history[..n], kinds, i);
      }
    }
  }

  ghost predicate ShowsWheels(f: Snap, h: seq<Status>) {
    && (match Latest(h, {KWheelSpeeds})
        case None => f.wheels.leftSpeed == f.wheels.rightSpeed == ZERO_F32
        case Some(s) => f.wheels.leftSpeed == s.left && f.wheels.rightSpeed == s.right)
    && (match Latest(h, {KWheelPositions})
        case None => f.wheels.leftPosition == f.wheels.rightPosition == ZERO_F32
        case Some(s) => f.wheels.leftPosition == s.left && f.wheels.rightPosition == s.right)
  }

  ghost predicate ShowsSurface(f: Snap, h: seq<Status>) {
    && (match Latest(h, {KLine})
        case None => f.line == DEFAULT.line
        case Some(s) => f.line == (s.l, s.c, s.r))
    && (match Latest(h, {KColor})
        case None => f.color == DEFAULT.color
        case Some(s) => f.color == (s.red, s.green, s.blue))
  }

  ghost predicate ShowsAttitude(f: Snap, h: seq<Status>) {
    && (match Latest(h, {KImu})
        case None => f.imu == DEFAULT.imu
        case Some(s) => f.imu == (s.ax, s.ay, s.az, s.gx, s.gy, s.gz))
    && (match Latest(h, {KOrientation})
        case None => f.orientation == DEFAULT.orientation
        case Some(s) => f.orientation == (s.roll, s.pitch, s.yaw))
    && (match Latest(h, {KBattery})
        case None => f.battery == DEFAULT.battery
        case Some(s) => f.battery == (s.percent, s.charging))
  }

  ghost predicate ShowsRange(f: Snap, h: seq<Status>) {
    && (match Latest(h, {KTof, KTofMatrix})
        case None => f.tof.left == f.tof.center == f.tof.right == ZERO_I16
        case Some(s) =>
          if s.Tof? then (f.tof.left, f.tof.center, f.tof.right) == (s.tofLeft, s.tofCenter, s.tofRight)
          else (f.tof.left, f.tof.center, f.tof.right) == (s.mLeft, s.mCenter, s.mRight))
    && (match Latest(h, {KTofMatrix})
        case None => f.tof.centerLeft == f.tof.centerRight == f.tof.top == f.tof.bottom == ZERO_I16
        case Some(s) => (f.tof.centerLeft, f.tof.centerRight, f.tof.top, f.tof.bottom)
                        == (s.mCenterLeft, s.mCenterRight, s.mTop, s.mBottom))
  }

  ghost predicate ShowsMovement(f: Snap, h: seq<Status>) {
    && (match Latest(h, {KVelocity})
        case None => f.velocity == DEFAULT.velocity
        case Some(s) => f.velocity == (s.linear, s.angular))
    && (match Latest(h, {KPose})
        case None => f.pose == DEFAULT.pose
        case Some(s) => f.pose == (s.x, s.y, s.theta))
  }

  /** Field by field: a snapshot shows the latest reading of each kind, or the default. A short
      `Tof` read leaves what only the matrix sets as the last matrix had it. */
  ghost predicate ShowsLatest(f: Snap, h: seq<Status>) {
    ShowsWheels(f, h) && ShowsSurface(f, h) && ShowsAttitude(f, h) && ShowsRange(f, h) && ShowsMovement(f, h)
  }

  lemma {:induction false} LatestSnoc(h: seq<Status>, s: Status, kinds: set<Kind>)
    ensures Latest(h + [s], kinds) == if KindOf(s) in kinds then Some(s) else Latest(h, kinds)
  {
    assert (h + [s])[..|h + [s]| - 1] == h;
  }

  lemma FoldShowsWheels(f: Snap, h: seq<Status>, s: Status)
    requires ShowsWheels(f, h)
    ensures ShowsWheels(Fold(f, s), h + [s])
  {
    LatestSnoc(h, s, {KWheelSpeeds});
    LatestSnoc(h, s, {KWheelPositions});
  }

  lemma FoldShowsSurface(f: Snap, h: seq<Status>, s: Status)
    requires ShowsSurface(f, h)
    ensures ShowsSurface(Fold(f, s), h + [s])
  {
    LatestSnoc(h, s, {KLine});
    LatestSnoc(h, s, {KColor});
  }

  lemma FoldShowsAttitude(f: Snap, h: seq<Status>, s: Status)
    requires ShowsAttitude(f, h)
    ensures ShowsAttitude(Fold(f, s), h + [s])
  {
    LatestSnoc(h, s, {KImu});
    LatestSnoc(h, s, {KOrientation});
    LatestSnoc(h, s, {KBattery});
  }

  lemma FoldShowsRange(f: Snap, h: seq<Status>, s: Status)
    requires ShowsRange(f, h)
    ensures ShowsRange(Fold(f, s), h + [s])
  {
    LatestSnoc(h, s, {KTof, KTofMatrix});
    LatestSnoc(h, s, {KTofMatrix});
  }

  lemma FoldShowsMovement(f: Snap, h: seq<Status>, s: Status)
    requires ShowsMovement(f, h)
    ensures ShowsMovement(Fold(f, s), h + [s])
  {
    LatestSnoc(h, s, {KVelocity});
    LatestSnoc(h, s, {KPose});
  }

  /** Folding a whole history leaves every field at its latest reading. */
  lemma {:induction false} FoldShowsLatest(h: seq<Status>)
    ensures ShowsLatest(FoldAll(DEFAULT, h), h)
  {
    if h != [] {
      var before, s := h[..|h| - 1], h[|h| - 1];
      var f := FoldAll(DEFAULT, before);
      FoldShowsLatest(before);
      FoldShowsWheels(f, before, s);
      FoldShowsSurface(f, before, s);
      FoldShowsAttitude(f, before, s);
      FoldShowsRange(f, before, s);
      FoldShowsMovement(f, before, s);
      assert before + [s] == h;
    }
  }

  lemma {:induction false} FoldAllConcat(snap: Snap, a: seq<Status>, b: seq<Status>)
    ensures FoldAll(snap, a + b) == FoldAll(FoldAll(snap, a), b)
    decreases |b|
  {
    if b == [] {
      assert a + b == a;
    } else {
      assert (a + b)[..|a + b| - 1] == a + b[..|b| - 1];
      FoldAllConcat(snap, a, b[..|b| - 1]);
    }
  }

  lemma DiscreteLeavesSnapshot(snap: Snap, s: Status)
    requires Discrete(s)
    ensures Fold(snap, s) == snap
  {
  }
}
