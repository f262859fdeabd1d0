/** What the robot's components hold after a run, field by field, in terms of the messages heard. */
module ComponentRuns {
  import opened Wrappers
  import opened Crc
  import opened UcPack
  import opened Protocol
  import S = Snapshot
  import opened Driver
  import opened Systems
  import opened SensorRuns

  lemma {:induction false} LatestHere(log: seq<Status>, kinds: set<S.Kind>, i: nat)
    requires i < |log| && S.KindOf(log[i]) in kinds && forall j :: i < j < |log| ==> S.KindOf(log[j]) !in kinds
    ensures S.Latest(log, kinds) == Some(log[i])
  {
    assert S.IsLatestAt(log, kinds, i);
    S.LatestIsLast(log, kinds, log[i]);
  }

  lemma {:induction false} NoneHere(log: seq<Status>, kinds: set<S.Kind>)
    requires forall j :: 0 <= j < |log| ==> S.KindOf(log[j]) !in kinds
    ensures S.Latest(log, kinds) == None
  {
    if s :| S.Latest(log, kinds) == Some(s) {
      S.LatestIsLast(log, kinds, s);
    }
  }

  /** After any run that ends in a frame, some snapshot is shown that holds the latest readings. */
  lemma ShownSnapshot(start: Sys, steps: seq<Step>) returns (snap: S.Snap)
    requires AtBringUp(start) && steps != [] && steps[|steps| - 1] == EcsFrame
    requires AnyContinuous(Run(start, steps).heard)
    ensures Shows(Run(start, steps), start, snap) && S.ShowsLatest(snap, Run(start, steps).heard)
  {
    LatestIsShown(start, steps);
    snap :| Shows(Run(start, steps), start, snap) && S.ShowsLatest(snap, Run(start, steps).heard);
  }

  /** Speeds and positions: every wheel shows its own side of the last message heard of the kind. */
  lemma {:induction false} WheelsShowTheLast(start: Sys, steps: seq<Step>, i: nat)
    requires AtBringUp(start) && steps != [] && steps[|steps| - 1] == EcsFrame && i < |Run(start, steps).heard|
    ensures var (heard, wheels) := (Run(start, steps).heard, Run(start, steps).wheels);
      && |wheels| == |start.wheels|
      && match heard[i]
         case WheelSpeeds(left, right) =>
           (forall j :: i < j < |heard| ==> !heard[j].WheelSpeeds?) ==>
             forall k :: 0 <= k < |wheels| ==>
               wheels[k].speed == if start.wheels[k].side == Left then left else right
         case WheelPositions(left, right) =>
           (forall j :: i < j < |heard| ==> !heard[j].WheelPositions?) ==>
             forall k :: 0 <= k < |wheels| ==>
               wheels[k].position == if start.wheels[k].side == Left then left else right
         case _ => true
  {
    hide Run, S.ShowsSurface, S.ShowsAttitude, S.ShowsRange, S.ShowsMovement;
    var heard := Run(start, steps).heard;
    RunKeepsCoalesced(start, steps);
    if heard[i].WheelSpeeds? && (forall j :: i < j < |heard| ==> !heard[j].WheelSpeeds?) {
      assert !S.Discrete(heard[i]);
      var snap := ShownSnapshot(start, steps);
      LatestHere(heard, {S.KWheelSpeeds}, i);
    } else if heard[i].WheelPositions? && (forall j :: i < j < |heard| ==> !heard[j].WheelPositions?) {
      assert !S.Discrete(heard[i]);
      var snap := ShownSnapshot(start, steps);
      LatestHere(heard, {S.KWheelPositions}, i);
    }
  }

  /** A slot that is there takes the value, one that is not stays away. */
  lemma RootShowsSnapshot(start: Sys, steps: seq<Step>) returns (snap: S.Snap)
    requires AtBringUp(start) && steps != [] && steps[|steps| - 1] == EcsFrame
    requires AnyContinuous(Run(start, steps).heard)
    ensures S.ShowsLatest(snap, Run(start, steps).heard)
    ensures var (now, was) := (Run(start, steps).sensors, start.sensors);
      && now.pose == (if was.pose.Some? then Some(snap.pose) else None)
      && now.imu == (if was.imu.Some? then Some(snap.imu) else None)
      && now.orientation == (if was.orientation.Some? then Some(snap.orientation) else None)
      && now.line == (if was.line.Some? then Some(snap.line) else None)
      && now.color == (if was.color.Some? then Some(snap.color) else None)
      && now.tof == (if was.tof.Some? then Some(snap.tof) else None)
      && now.battery == (if was.battery.Some? then Some(snap.battery) else None)
  {
    hide Run, S.ShowsLatest, ShowWheels;
    snap := ShownSnapshot(start, steps);
  }

  lemma IsContinuous(heard: seq<Status>, i: nat)
    requires i < |heard|
    requires S.KindOf(heard[i]) !in {S.KTouch, S.KMotion, S.KBehavior, S.KAck, S.KFwVersion}
    ensures AnyContinuous(heard)
  {
    assert !S.Discrete(heard[i]);
  }

  /** No reading is lost to coalescing. After any interleaving of reads, commands and frames that ends in a
      frame, every component that exists shows the last message heard of its kind, however many snapshots
      were overwritten unread, and one that does not exist stays away. */
  lemma {:induction false} NoReadingIsLost(start: Sys, steps: seq<Step>, i: nat)
    requires AtBringUp(start) && steps != [] && steps[|steps| - 1] == EcsFrame && i < |Run(start, steps).heard|
    ensures var (heard, now, was) := (Run(start, steps).heard, Run(start, steps).sensors, start.sensors);
      match heard[i]
      case Pose(x, y, theta) =>
        (forall j :: i < j < |heard| ==> !heard[j].Pose?) ==>
          now.pose == if was.pose.Some? then Some((x, y, theta)) else None
      case Imu(ax, ay, az, gx, gy, gz) =>
        (forall j :: i < j < |heard| ==> !heard[j].Imu?) ==>
          now.imu == if was.imu.Some? then Some((ax, ay, az, gx, gy, gz)) else None
      case Orientation(roll, pitch, yaw) =>
        (forall j :: i < j < |heard| ==> !heard[j].Orientation?) ==>
          now.orientation == if was.orientation.Some? then Some((roll, pitch, yaw)) else None
      case Line(l, c, r) =>
        (forall j :: i < j < |heard| ==> !heard[j].Line?) ==>
          now.line == if was.line.Some? then Some((l, c, r)) else None
      case Color(red, green, blue) =>
        (forall j :: i < j < |heard| ==> !heard[j].Color?) ==>
          now.color == if was.color.Some? then Some((red, green, blue)) else None
      case Battery(percent, charging) =>
        (forall j :: i < j < |heard| ==> !heard[j].Battery?) ==>
          now.battery == if was.battery.Some? then Some((percent, charging)) else None
      case _ => true
  {
    hide Run, S.ShowsWheels, S.ShowsRange, ShowSensors, ShowWheels, S.Discrete;
    var heard := Run(start, steps).heard;
    var kind := S.KindOf(heard[i]);
    if kind in {S.KPose, S.KImu, S.KOrientation, S.KLine, S.KColor, S.KBattery} {
      IsContinuous(heard, i);
      var snap := RootShowsSnapshot(start, steps);
      if forall j :: i < j < |heard| ==> S.KindOf(heard[j]) != kind {
        LatestHere(heard, {kind}, i);
      }
    }
  }

  /** The range component: the left, centre and right distances come from the last range message of either
      form, the other four from the last matrix. */
  lemma {:induction false} RangesAreTheLast(start: Sys, steps: seq<Step>, i: nat)
    requires AtBringUp(start) && steps != [] && steps[|steps| - 1] == EcsFrame && i < |Run(start, steps).heard|
    requires start.sensors.tof.Some?
    ensures Run(start, steps).sensors.tof.Some?
    ensures var (heard, tof) := (Run(start, steps).heard, Run(start, steps).sensors.tof.value);
      match heard[i]
      case Tof(l, c, r) =>
        (forall j :: i < j < |heard| ==> !heard[j].Tof? && !heard[j].TofMatrix?) ==>
          tof.left == l && tof.center == c && tof.right == r
      case TofMatrix(l, cl, c, cr, r, top, bottom) =>
        && ((forall j :: i < j < |heard| ==> !heard[j].Tof? && !heard[j].TofMatrix?) ==>
              tof.left == l && tof.center == c && tof.right == r)
        && ((forall j :: i < j < |heard| ==> !heard[j].TofMatrix?) ==>
              tof.centerLeft == cl && tof.centerRight == cr && tof.top == top && tof.bottom == bottom)
      case _ => true
  {
    hide Run, S.ShowsWheels, S.ShowsSurface, S.ShowsAttitude, S.ShowsMovement, ShowSensors, ShowWheels;
    var heard := Run(start, steps).heard;
    ShapeIsKept(start, steps);
    if heard[i].Tof? || heard[i].TofMatrix? {
      assert !S.Discrete(heard[i]);
      var snap := RootShowsSnapshot(start, steps);
      if forall j :: i < j < |heard| ==> !heard[j].Tof? && !heard[j].TofMatrix? {
        LatestHere(heard, {S.KTof, S.KTofMatrix}, i);
      }
      if heard[i].TofMatrix? && forall j :: i < j < |heard| ==> !heard[j].TofMatrix? {
        LatestHere(heard, {S.KTofMatrix}, i);
      }
    }
  }

  /** No run adds or removes a component or turns a wheel round. */
  lemma {:induction false} ShapeIsKept(start: Sys, steps: seq<Step>)
    requires AtBringUp(start)
    ensures var (now, was) := (Run(start, steps).sensors, start.sensors);
      && now.pose.Some? == was.pose.Some? && now.imu.Some? == was.imu.Some?
      && now.orientation.Some? == was.orientation.Some? && now.line.Some? == was.line.Some?
      && now.color.Some? == was.color.Some? && now.tof.Some? == was.tof.Some?
      && now.battery.Some? == was.battery.Some?
    ensures var (now, was) := (Run(start, steps).wheels, start.wheels);
      |now| == |was| && forall k :: 0 <= k < |now| ==> now[k].side == was[k].side
  {
    hide Run;
    RunKeepsCoalesced(start, steps);
    var now := ShowSensors(Run(start, steps).sensors, S.DEFAULT);
    assert now == ShowSensors(start.sensors, S.DEFAULT);
  }

  /** Before the first continuous message the components are as they were; from then on a reading that never
      came shows as zeros. */
  lemma {:induction false} UnheardIsZero(start: Sys, steps: seq<Step>)
    requires AtBringUp(start) && steps != [] && steps[|steps| - 1] == EcsFrame
    ensures var (heard, now, was) := (Run(start, steps).heard, Run(start, steps).sensors, start.sensors);
      var (f, n) := (F32(0, 0, 0, 0), I16(0, 0));
      if forall i :: 0 <= i < |heard| ==>
           heard[i].Touch? || heard[i].Motion? || heard[i].Behavior? || heard[i].Ack? || heard[i].FwVersion?
      then now == was && Run(start, steps).wheels == start.wheels
      else
        && ((forall i :: 0 <= i < |heard| ==> !heard[i].Pose?) ==>
              now.pose == if was.pose.Some? then Some((f, f, f)) else None)
        && ((forall i :: 0 <= i < |heard| ==> !heard[i].Imu?) ==>
              now.imu == if was.imu.Some? then Some((f, f, f, f, f, f)) else None)
        && ((forall i :: 0 <= i < |heard| ==> !heard[i].Orientation?) ==>
              now.orientation == if was.orientation.Some? then Some((f, f, f)) else None)
        && ((forall i :: 0 <= i < |heard| ==> !heard[i].Line?) ==>
              now.line == if was.line.Some? then Some((n, n, n)) else None)
        && ((forall i :: 0 <= i < |heard| ==> !heard[i].Color?) ==>
              now.color == if was.color.Some? then Some((n, n, n)) else None)
        && ((forall i :: 0 <= i < |heard| ==> !heard[i].Battery?) ==>
              now.battery == if was.battery.Some? then Some((f, false)) else None)
  {
    hide Run;
    var heard := Run(start, steps).heard;
    LatestIsShown(start, steps);
    if AnyContinuous(heard) {
      var snap := RootShowsSnapshot(start, steps);
      NeverHeardOnRoot(heard);
    }
  }

  lemma {:induction false} NeverHeardOnRoot(heard: seq<Status>)
    ensures (forall i :: 0 <= i < |heard| ==> !heard[i].Pose?) ==> S.Latest(heard, {S.KPose}) == None
    ensures (forall i :: 0 <= i < |heard| ==> !heard[i].Imu?) ==> S.Latest(heard, {S.KImu}) == None
    ensures (forall i :: 0 <= i < |heard| ==> !heard[i].Orientation?) ==> S.Latest(heard, {S.KOrientation}) == None
    ensures (forall i :: 0 <= i < |heard| ==> !heard[i].Line?) ==> S.Latest(heard, {S.KLine}) == None
    ensures (forall i :: 0 <= i < |heard| ==> !heard[i].Color?) ==> S.Latest(heard, {S.KColor}) == None
    ensures (forall i :: 0 <= i < |heard| ==> !heard[i].Battery?) ==> S.Latest(heard, {S.KBattery}) == None
  {
    hide S.Latest;
    if forall i :: 0 <= i < |heard| ==> !heard[i].Pose? { NoneHere(heard, {S.KPose}); }
    if forall i :: 0 <= i < |heard| ==> !heard[i].Imu? { NoneHere(heard, {S.KImu}); }
    if forall i :: 0 <= i < |heard| ==> !heard[i].Orientation? { NoneHere(heard, {S.KOrientation}); }
    if forall i :: 0 <= i < |heard| ==> !heard[i].Line? { NoneHere(heard, {S.KLine}); }
    if forall i :: 0 <= i < |heard| ==> !heard[i].Color? { NoneHere(heard, {S.KColor}); }
    if forall i :: 0 <= i < |heard| ==> !heard[i].Battery? { NoneHere(heard, {S.KBattery}); }
  }

  lemma {:induction false} NeverHeardElsewhere(heard: seq<Status>)
    ensures (forall i :: 0 <= i < |heard| ==> !heard[i].WheelSpeeds?) ==> S.Latest(heard, {S.KWheelSpeeds}) == None
    ensures (forall i :: 0 <= i < |heard| ==> !heard[i].WheelPositions?) ==>
              S.Latest(heard, {S.KWheelPositions}) == None
    ensures (forall i :: 0 <= i < |heard| ==> !heard[i].Tof? && !heard[i].TofMatrix?) ==>
              S.Latest(heard, {S.KTof, S.KTofMatrix}) == None
    ensures (forall i :: 0 <= i < |heard| ==> !heard[i].TofMatrix?) ==> S.Latest(heard, {S.KTofMatrix}) == None
  {
    hide S.Latest;
    if forall i :: 0 <= i < |heard| ==> !heard[i].WheelSpeeds? { NoneHere(heard, {S.KWheelSpeeds}); }
    if forall i :: 0 <= i < |heard| ==> !heard[i].WheelPositions? { NoneHere(heard, {S.KWheelPositions}); }
    if forall i :: 0 <= i < |heard| ==> !heard[i].Tof? && !heard[i].TofMatrix? {
      NoneHere(heard, {S.KTof, S.KTofMatrix});
    }
    if forall i :: 0 <= i < |heard| ==> !heard[i].TofMatrix? { NoneHere(heard, {S.KTofMatrix}); }
  }

  /** Wheels and ranges of which nothing was heard, likewise. */
  lemma {:induction false} UnheardWheelsAndRanges(start: Sys, steps: seq<Step>)
    requires AtBringUp(start) && steps != [] && steps[|steps| - 1] == EcsFrame
    requires AnyContinuous(Run(start, steps).heard)
    ensures var (heard, wheels, f) := (Run(start, steps).heard, Run(start, steps).wheels, F32(0, 0, 0, 0));
      && ((forall i :: 0 <= i < |heard| ==> !heard[i].WheelSpeeds?) ==>
            forall k :: 0 <= k < |wheels| ==> wheels[k].speed == f)
      && ((forall i :: 0 <= i < |heard| ==> !heard[i].WheelPositions?) ==>
            forall k :: 0 <= k < |wheels| ==> wheels[k].position == f)
    ensures var (heard, tof, n) := (Run(start, steps).heard, Run(start, steps).sensors.tof, I16(0, 0));
      tof.Some? ==>
        && ((forall i :: 0 <= i < |heard| ==> !heard[i].Tof? && !heard[i].TofMatrix?) ==>
              tof.value.left == n && tof.value.center == n && tof.value.right == n)
        && ((forall i :: 0 <= i < |heard| ==> !heard[i].TofMatrix?) ==>
              tof.value.centerLeft == n && tof.value.centerRight == n && tof.value.top == n && tof.value.bottom == n)
  {
    hide Run, S.ShowsSurface, S.ShowsAttitude, S.ShowsMovement;
    var heard := Run(start, steps).heard;
    NeverHeardElsewhere(heard);
    var snap := ShownSnapshot(start, steps);
  }

  // ---- the discrete components --------------------------------------------

  /** After each frame, touch, motion, behaviour and firmware, where they exist, hold the last message of their
      kind that the queue accepted. */
  lemma {:induction false} LastAcceptedIsShown(start: Sys, steps: seq<Step>, i: nat)
    requires AtBringUp(start) && steps != [] && steps[|steps| - 1] == EcsFrame && i < |Run(start, steps).accepted|
    ensures var (accepted, now, was) := (Run(start, steps).accepted, Run(start, steps).link, start.link);
      match accepted[i]
      case Touch(bits) =>
        (forall j :: i < j < |accepted| ==> !accepted[j].Touch?) ==>
          now.touch == if was.touch.Some? then Some(bits) else None
      case Motion(bits) =>
        (forall j :: i < j < |accepted| ==> !accepted[j].Motion?) ==>
          now.motion == if was.motion.Some? then Some(bits) else None
      case Behavior(code) =>
        (forall j :: i < j < |accepted| ==> !accepted[j].Behavior?) ==>
          now.behavior == if was.behavior.Some? then Some(code) else None
      case FwVersion(a, b, c) =>
        (forall j :: i < j < |accepted| ==> !accepted[j].FwVersion?) ==>
          now.firmware == if was.firmware.Some? then Some((a, b, c)) else None
      case _ => true
  {
    hide Run, S.Latest;
    var accepted := Run(start, steps).accepted;
    AcceptedIsHandled(start, steps);
    var kind := S.KindOf(accepted[i]);
    if forall j :: i < j < |accepted| ==> S.KindOf(accepted[j]) != kind {
      LatestHere(accepted, {kind}, i);
    }
  }

  /** And what they held before, if no message of the kind was accepted. */
  lemma {:induction false} UnacceptedIsKept(start: Sys, steps: seq<Step>)
    requires AtBringUp(start) && steps != [] && steps[|steps| - 1] == EcsFrame
    ensures var (accepted, now, was) := (Run(start, steps).accepted, Run(start, steps).link, start.link);
      && ((forall i :: 0 <= i < |accepted| ==> !accepted[i].Touch?) ==> now.touch == was.touch)
      && ((forall i :: 0 <= i < |accepted| ==> !accepted[i].Motion?) ==> now.motion == was.motion)
      && ((forall i :: 0 <= i < |accepted| ==> !accepted[i].Behavior?) ==> now.behavior == was.behavior)
      && ((forall i :: 0 <= i < |accepted| ==> !accepted[i].FwVersion?) ==> now.firmware == was.firmware)
  {
    hide Run, S.Latest;
    var accepted := Run(start, steps).accepted;
    AcceptedIsHandled(start, steps);
    if forall i :: 0 <= i < |accepted| ==> !accepted[i].Touch? { NoneHere(accepted, {S.KTouch}); }
    if forall i :: 0 <= i < |accepted| ==> !accepted[i].Motion? { NoneHere(accepted, {S.KMotion}); }
    if forall i :: 0 <= i < |accepted| ==> !accepted[i].Behavior? { NoneHere(accepted, {S.KBehavior}); }
    if forall i :: 0 <= i < |accepted| ==> !accepted[i].FwVersion? { NoneHere(accepted, {S.KFwVersion}); }
  }

  // ---- when every discrete message gets through ----------------------------

  lemma {:induction false} DiscreteConcat(a: seq<Status>, b: seq<Status>)
    ensures DiscreteOf(a + b) == DiscreteOf(a) + DiscreteOf(b)
    decreases |b|
  {
    if b == [] {
      assert a + b == a;
    } else {
      assert (a + b)[..|a + b| - 1] == a + b[..|b| - 1];
      DiscreteConcat(a, b[..|b| - 1]);
    }
  }

  lemma RoomForAll(s: Sys, bytes: seq<u8>)
    requires |s.outlet.events| <= EVENT_DEPTH && |OnRead(s, bytes).outlet.events| < 32
    ensures OnRead(s, bytes).accepted == s.accepted + DiscreteOf(Heard(s.residue + bytes))
  {
    hide Heard, Scan;
    var now := Heard(s.residue + bytes);
    AbsorbAllIs(s.outlet, now);
    OfferAllExactly(s.outlet.events, now);
    assert (s.outlet.events + DiscreteOf(now))[|s.outlet.events|..] == DiscreteOf(now);
  }

  /** As long as the queue stays below 32, every touch, motion, behaviour, ack and version message heard is
      accepted, in order. */
  lemma {:induction false} NothingIsDropped(start: Sys, steps: seq<Step>)
    requires AtBringUp(start)
    requires forall n :: 0 <= n <= |steps| ==> |Run(start, steps[..n]).outlet.events| < 32
    ensures Run(start, steps).accepted == start.accepted + DiscreteOf(Run(start, steps).heard)
  {
    hide OnRead, OnFrame, OnQueued, OnWritten;
    assert steps[..|steps|] == steps;
    if steps == [] {
      assert start.accepted + [] == start.accepted;
    } else {
      var earlier, now := steps[..|steps| - 1], steps[|steps| - 1];
      var before := Run(start, earlier);
      forall n | 0 <= n <= |earlier| ensures |Run(start, earlier[..n]).outlet.events| < 32 {
        assert earlier[..n] == steps[..n];
      }
      NothingIsDropped(start, earlier);
      match now {
        case Read(bytes) =>
          RoomForAll(before, bytes);
          ReadAppends(before, bytes);
          DiscreteConcat(before.heard, Heard(before.residue + bytes));
        case EcsFrame => FrameKeepsLogs(before);
        case Queued(_) => CommandsLeaveTheRest(before, now);
        case Written(_) => CommandsLeaveTheRest(before, now);
      }
    }
  }

  lemma ReadAppends(s: Sys, bytes: seq<u8>)
    requires |s.outlet.events| <= EVENT_DEPTH
    ensures OnRead(s, bytes).heard == s.heard + Heard(s.residue + bytes)
  {
  }

  lemma FrameKeepsLogs(s: Sys)
    ensures OnFrame(s).heard == s.heard && OnFrame(s).accepted == s.accepted
  {
  }

  // ---- connected ----------------------------------------------------------

  ghost predicate Announced(log: seq<Status>) {
    S.Latest(log, {S.KFwVersion}).Some?
  }

  /** What the messages a frame has handled leave of the queue's log. */
  ghost function Handled(s: Sys): seq<Status> {
    if |s.outlet.events| <= |s.accepted| then s.accepted[..|s.accepted| - |s.outlet.events|] else []
  }

  ghost predicate ConnectedSoFar(s: Sys, start: Sys) {
    && s.link.connected.Some? == start.link.connected.Some?
    && (s.link.connected.Some? ==>
          && (s.link.connected.value ==>
                start.link.connected.value || Announced(Handled(s)) || AnyContinuous(s.heard))
          && ((start.link.connected.value || Announced(Handled(s))
               || (AnyContinuous(s.heard) && s.outlet.cell == None)) ==> s.link.connected.value))
  }

  lemma ReadKeepsConnected(s: Sys, start: Sys, bytes: seq<u8>)
    requires ConnectedSoFar(s, start) && Delivered(s, start) && |s.outlet.events| <= EVENT_DEPTH
    ensures ConnectedSoFar(OnRead(s, bytes), start)
  {
    hide S.Latest, Heard, AbsorbAll, OfferAll, LinkIs;
    var now := Heard(s.residue + bytes);
    AbsorbAllIs(s.outlet, now);
    OfferAllExactly(s.outlet.events, now);
    QueueGrows(s.accepted, s.outlet.events, OfferAll(s.outlet.events, now));
    assert Handled(OnRead(s, bytes)) == Handled(s);
    ContinuousConcat(s.heard, now);
  }

  lemma {:induction false} AnnouncedConcat(a: seq<Status>, b: seq<Status>)
    ensures Announced(a + b) <==> Announced(a) || Announced(b)
    decreases |b|
  {
    if b == [] {
      assert a + b == a;
    } else {
      var front, last := b[..|b| - 1], b[|b| - 1];
      assert a + b == (a + front) + [last] && b == front + [last];
      S.LatestSnoc(a + front, last, {S.KFwVersion});
      S.LatestSnoc(front, last, {S.KFwVersion});
      AnnouncedConcat(a, front);
    }
  }

  lemma FrameKeepsConnectedSoFar(s: Sys, start: Sys)
    requires ConnectedSoFar(s, start) && Delivered(s, start)
    requires s.outlet.cell.Some? ==> AnyContinuous(s.heard)
    ensures ConnectedSoFar(OnFrame(s), start)
    ensures Handled(OnFrame(s)) == s.accepted && OnFrame(s).outlet.cell == None
  {
    hide S.Latest, HandleAll, ShowSensors, ShowWheels, LinkIs;
    FrameConnects(s);
    AnnouncedConcat(Handled(s), s.outlet.events);
    assert Handled(s) + s.outlet.events == s.accepted;
    assert s.accepted[..|s.accepted|] == s.accepted;
  }

  lemma {:induction false} RunKeepsConnectedSoFar(start: Sys, steps: seq<Step>)
    requires AtBringUp(start)
    ensures ConnectedSoFar(Run(start, steps), start)
  {
    hide OnRead, OnFrame, OnQueued, OnWritten, ConnectedSoFar, Delivered, Coalesced;
    if steps == [] {
      NotConnectedYet(start);
    } else {
      var before, now := Run(start, steps[..|steps| - 1]), steps[|steps| - 1];
      RunKeepsConnectedSoFar(start, steps[..|steps| - 1]);
      RunKeepsDelivered(start, steps[..|steps| - 1]);
      RunKeepsCoalesced(start, steps[..|steps| - 1]);
      match now {
        case Read(bytes) => ReadKeepsConnected(before, start, bytes);
        case EcsFrame =>
          CellHoldsReadings(before, start);
          FrameKeepsConnectedSoFar(before, start);
        case Queued(_) => CommandsKeepConnected(before, start, now);
        case Written(_) => CommandsKeepConnected(before, start, now);
      }
    }
  }

  lemma NotConnectedYet(start: Sys)
    requires AtBringUp(start)
    ensures ConnectedSoFar(start, start)
  {
    assert Handled(start) == [];
  }

  lemma CellHoldsReadings(s: Sys, start: Sys)
    requires Coalesced(s, start)
    ensures s.outlet.cell.Some? ==> AnyContinuous(s.heard)
  {
  }

  lemma CommandsKeepConnected(s: Sys, start: Sys, step: Step)
    requires ConnectedSoFar(s, start) && |s.outlet.events| <= EVENT_DEPTH && (step.Queued? || step.Written?)
    ensures ConnectedSoFar(SensorRuns.Next(s, step), start)
  {
    CommandsLeaveTheRest(s, step);
  }

  /** After a frame the robot counts as connected if and only if it did before, or a firmware version was
      accepted, or any sensor reading was heard. */
  lemma {:induction false} ConnectedExactly(start: Sys, steps: seq<Step>)
    requires AtBringUp(start) && steps != [] && steps[|steps| - 1] == EcsFrame
    requires start.link.connected.Some?
    ensures var s := Run(start, steps);
      && s.link.connected.Some?
      && (s.link.connected.value <==>
          || start.link.connected.value
          || (exists i :: 0 <= i < |s.accepted| && s.accepted[i].FwVersion?)
          || (exists i :: 0 <= i < |s.heard| && !s.heard[i].Touch? && !s.heard[i].Motion? && !s.heard[i].Behavior?
                          && !s.heard[i].Ack? && !s.heard[i].FwVersion?))
  {
    hide OnFrame, Run, Coalesced;
    var before, s := Run(start, steps[..|steps| - 1]), Run(start, steps);
    RunEndsInFrame(start, steps);
    RunKeepsConnectedSoFar(start, steps);
    RunKeepsConnectedSoFar(start, steps[..|steps| - 1]);
    RunKeepsDelivered(start, steps[..|steps| - 1]);
    RunKeepsCoalesced(start, steps[..|steps| - 1]);
    CellHoldsReadings(before, start);
    FrameKeepsConnectedSoFar(before, start);
    AnnouncedByPosition(s.accepted);
  }

  lemma {:induction false} RunEndsInFrame(start: Sys, steps: seq<Step>)
    requires |start.outlet.events| <= EVENT_DEPTH && steps != [] && steps[|steps| - 1] == EcsFrame
    ensures Run(start, steps) == OnFrame(Run(start, steps[..|steps| - 1]))
    ensures Run(start, steps).accepted == Run(start, steps[..|steps| - 1]).accepted
  {
  }

  lemma {:induction false} AnnouncedByPosition(log: seq<Status>)
    ensures Announced(log) <==> exists i :: 0 <= i < |log| && log[i].FwVersion?
  {
    if s :| S.Latest(log, {S.KFwVersion}) == Some(s) {
      S.LatestIsLast(log, {S.KFwVersion}, s);
    } else {
      if i :| 0 <= i < |log| && log[i].FwVersion? {
        NotAnnounced(log, i);
      }
    }
  }

  lemma {:induction false} NotAnnounced(log: seq<Status>, i: nat)
    requires i < |log| && log[i].FwVersion?
    ensures Announced(log)
  {
    if !S.KindOf(log[|log| - 1]).KFwVersion? {
      assert log[..|log| - 1][i] == log[i];
      NotAnnounced(log[..|log| - 1], i);
    }
  }
}
