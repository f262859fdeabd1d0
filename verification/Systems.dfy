/** The per-frame system that moves the snapshot and the queued messages onto the robot's
    components. Poses, attitudes and colours are kept as the wire values they are computed from. */
module Systems {
  import opened Wrappers
  import opened Crc
  import opened UcPack
  import opened Protocol
  import opened Snapshot
  import opened AsyncBridge

  /** The continuous components of the robot root; an app spawns only those it reads. */
  datatype Sensors = Sensors(
    pose: Option<(F32, F32, F32)>, imu: Option<(F32, F32, F32, F32, F32, F32)>, orientation: Option<(F32, F32, F32)>,
    line: Option<(I16, I16, I16)>, color: Option<(I16, I16, I16)>, tof: Option<Ranges>, battery: Option<(F32, bool)>)

  /** The discrete components. */
  datatype Link = Link(
    touch: Option<u8>, motion: Option<u8>, behavior: Option<u8>, connected: Option<bool>,
    firmware: Option<(u8, u8, u8)>)

  datatype Wheel = Wheel(side: Side, speed: F32, position: F32)

  function Put<T>(slot: Option<T>, value: T): Option<T> {
    if slot.Some? then Some(value) else None
  }

  function ShowSensors(c: Sensors, snap: Snap): Sensors {
    Sensors(Put(c.pose, snap.pose), Put(c.imu, snap.imu), Put(c.orientation, snap.orientation), Put(c.line, snap.line),
            Put(c.color, snap.color), Put(c.tof, snap.tof), Put(c.battery, snap.battery))
  }

  function ShowWheel(w: Wheel, snap: Snap): Wheel {
    if w.side == Left then w.(speed := snap.wheels.leftSpeed, position := snap.wheels.leftPosition)
    else w.(speed := snap.wheels.rightSpeed, position := snap.wheels.rightPosition)
  }

  function ShowWheels(wheels: seq<Wheel>, snap: Snap): (r: seq<Wheel>)
    ensures |r| == |wheels|
  {
    seq(|wheels|, i requires 0 <= i < |wheels| => ShowWheel(wheels[i], snap))
  }

  function Handle(l: Link, s: Status): Link {
    match s
    case Touch(bits) => l.(touch := Put(l.touch, bits))
    case Motion(bits) => l.(motion := Put(l.motion, bits))
    case Behavior(code) => l.(behavior := Put(l.behavior, code))
    case FwVersion(a, b, c) => l.(firmware := Put(l.firmware, (a, b, c)), connected := Put(l.connected, true))
    case _ => l
  }

  /** The link counts as up once any reading came through it. */
  function Connect(l: Link): Link { l.(connected := Put(l.connected, true)) }

  function HandleAll(l: Link, statuses: seq<Status>): Link {
    if statuses == [] then l else Handle(HandleAll(l, statuses[..|statuses| - 1]), statuses[|statuses| - 1])
  }

  class Robot {
    var sensors: Sensors
    var link: Link
    var wheels: seq<Wheel>

    /** Every continuous component the robot root has takes its reading. */
    method ShowOnRoot(snap: Snap)
      modifies `sensors
      ensures sensors == ShowSensors(old(sensors), snap)
    {
      if sensors.pose.Some? { sensors := sensors.(pose := Some(snap.pose)); }
      if sensors.imu.Some? { sensors := sensors.(imu := Some(snap.imu)); }
      if sensors.orientation.Some? { sensors := sensors.(orientation := Some(snap.orientation)); }
      if sensors.line.Some? { sensors := sensors.(line := Some(snap.line)); }
      if sensors.color.Some? { sensors := sensors.(color := Some(snap.color)); }
      if sensors.tof.Some? { sensors := sensors.(tof := Some(snap.tof)); }
      if sensors.battery.Some? { sensors := sensors.(battery := Some(snap.battery)); }
    }

    /** Every wheel takes the readings of its side. */
    method ShowOnWheels(snap: Snap)
      modifies `wheels
      ensures wheels == ShowWheels(old(wheels), snap)
    {
      ghost var before := wheels;
      for i := 0 to |wheels|
        invariant |wheels| == |before|
        invariant forall k :: 0 <= k < |wheels| ==> wheels[k] == if k < i then ShowWheel(before[k], snap) else before[k]
      {
        var w := wheels[i];
        match w.side {
          case Left => w := w.(speed := snap.wheels.leftSpeed, position := snap.wheels.leftPosition);
          case Right => w := w.(speed := snap.wheels.rightSpeed, position := snap.wheels.rightPosition);
        }
        wheels := wheels[i := w];
      }
    }

    method HandleOne(status: Status)
      modifies `link
      ensures link == Handle(old(link), status)
    {
      match status {
        case Touch(bits) => if link.touch.Some? { link := link.(touch := Some(bits)); }
        case Motion(bits) => if link.motion.Some? { link := link.(motion := Some(bits)); }
        case Behavior(code) => if link.behavior.Some? { link := link.(behavior := Some(code)); }
        case FwVersion(a, b, c) =>
          if link.firmware.Some? { link := link.(firmware := Some((a, b, c))); }
          if link.connected.Some? { link := link.(connected := Some(true)); }
        case _ =>
      }
    }

    /** The event loop of a frame: every queued message, in order. */
    method DrainEvents(events: Queue<Status>)
      requires events.Valid()
      modifies `link, events
      ensures events.Valid() && events.items == [] && link == HandleAll(old(link), old(events.items))
    {
      ghost var queued, done := events.items, 0;
      var status := events.TryRecv();
      while status.Some?
        invariant events.Valid() && done <= |queued|
        invariant status == (if done < |queued| then Some(queued[done]) else None)
        invariant events.items == (if done < |queued| then queued[done + 1..] else [])
        invariant link == HandleAll(old(link), queued[..done])
        decreases |queued| - done
      {
        HandleOne(status.value);
        assert queued[..done + 1][..done] == queued[..done];
        status := events.TryRecv();
        done := done + 1;
      }
      assert queued[..done] == queued;
    }

    /** One frame: the pending snapshot if there is one, then every queued message in order. */
    method ApplyStatus(state: Latest<Snap>, events: Queue<Status>)
      requires events.Valid()
      modifies this, state.inner, events
      ensures events.Valid() && events.items == [] && state.inner.value == None
      ensures var cell := old(state.inner.value);
        && sensors == (if cell.Some? then ShowSensors(old(sensors), cell.value) else old(sensors))
        && wheels == (if cell.Some? then ShowWheels(old(wheels), cell.value) else old(wheels))
        && link == HandleAll(if cell.Some? then Connect(old(link)) else old(link), old(events.items))
    {
      var snapshot := state.TryRecv();
      if snapshot.Some? {
        if link.connected.Some? {
          link := link.(connected := Some(true));
        }
        ShowOnRoot(snapshot.value);
        ShowOnWheels(snapshot.value);
      }
      DrainEvents(events);
    }
  }
}
