/** Whole runs of the driver and the ECS side by side: reads, commands and frames in any interleaving. */
module SensorRuns {
  import opened Wrappers
  import opened Crc
  import opened UcPack
  import opened Protocol
  import S = Snapshot
  import opened AsyncBridge
  import opened Driver
  import opened Systems
  import Events

  /** What happens, one thing at a time: a read completes, the ECS receives and detects, an ECS system queues
      a command, the driver takes a queued command and writes it to a UART that takes `room` bytes of it. */
  datatype Step = Read(bytes: seq<u8>) | EcsFrame | Queued(command: Command) | Written(room: nat)

  /** The way of the commands: still queued, everything the queue accepted, everything the driver took, and
      the bytes on the wire. */
  datatype Outgoing = Outgoing(queue: seq<Command>, accepted: seq<Command>, sent: seq<Command>, tx: seq<u8>)

  /** Decoder residue, published state, components; then logs of everything heard, everything the
      queue accepted, and every pair of masks the edge detector compared; then the commands. */
  datatype Sys = Sys(
    residue: seq<u8>, outlet: Outlet, sensors: Sensors, wheels: seq<Wheel>, link: Link,
    heard: seq<Status>, accepted: seq<Status>, masks: seq<Events.Masks>, out: Outgoing)

  /** The system when bring-up ends: a default snapshot, an empty cell, and in the queue at most the
      firmware version the driver announces. The ECS has been running: masks were compared and commands may
      be waiting, of which none was sent. */
  ghost predicate AtBringUp(s: Sys) {
    && Waiting(s.residue)
    && s.outlet.snapshot == S.DEFAULT && s.outlet.cell == None
    && |s.outlet.events| <= 1 && s.accepted == s.outlet.events
    && (forall i :: 0 <= i < |s.outlet.events| ==> s.outlet.events[i].FwVersion?)
    && s.heard == []
    && |s.out.queue| <= COMMAND_DEPTH && s.out.accepted == s.out.queue && s.out.sent == []
  }

  function OnRead(s: Sys, bytes: seq<u8>): Sys
    requires |s.outlet.events| <= EVENT_DEPTH
  {
    var now := Heard(s.residue + bytes);
    OfferAllExactly(s.outlet.events, now);
    s.(residue := Scan(s.residue + bytes).1,
       outlet := AbsorbAll(s.outlet, now),
       heard := s.heard + now,
       accepted := s.accepted + OfferAll(s.outlet.events, now)[|s.outlet.events|..])
  }

  function OnFrame(s: Sys): Sys {
    var cell := s.outlet.cell;
    var link := HandleAll(if cell.Some? then Connect(s.link) else s.link, s.outlet.events);
    s.(outlet := s.outlet.(cell := None, events := []),
       sensors := if cell.Some? then ShowSensors(s.sensors, cell.value) else s.sensors,
       wheels := if cell.Some? then ShowWheels(s.wheels, cell.value) else s.wheels,
       link := link,
       masks := if link.touch.Some? && link.motion.Some?
                then s.masks + [Events.Masks(link.touch.value, link.motion.value)] else s.masks)
  }

  function OnQueued(s: Sys, command: Command): Sys {
    var fits := |s.out.queue| < COMMAND_DEPTH;
    s.(out := s.out.(queue := Offer(s.out.queue, COMMAND_DEPTH, command),
                     accepted := if fits then s.out.accepted + [command] else s.out.accepted))
  }

  /** Nothing happens while no command is queued. */
  function OnWritten(s: Sys, room: nat): Sys {
    if s.out.queue == [] then s
    else
      var command := s.out.queue[0];
      s.(out := s.out.(queue := s.out.queue[1..], sent := s.out.sent + [command],
                       tx := s.out.tx + Taken(Encode(command), room)))
  }

  function Next(s: Sys, step: Step): Sys
    requires |s.outlet.events| <= EVENT_DEPTH
  {
    match step
    case Read(bytes) => OnRead(s, bytes)
    case EcsFrame => OnFrame(s)
    case Queued(command) => OnQueued(s, command)
    case Written(room) => OnWritten(s, room)
  }

  /** The two ways through the driver do not touch each other. */
  lemma CommandsLeaveTheRest(s: Sys, step: Step)
    requires |s.outlet.events| <= EVENT_DEPTH && (step.Queued? || step.Written?)
    ensures Next(s, step).(out := s.out) == s
  {
  }

  lemma NextKeepsDepth(s: Sys, step: Step)
    requires |s.outlet.events| <= EVENT_DEPTH
    ensures |Next(s, step).outlet.events| <= EVENT_DEPTH
  {
    if step.Read? {
      AbsorbAllIs(s.outlet, Heard(s.residue + step.bytes));
    }
  }

  function Run(s: Sys, steps: seq<Step>): (r: Sys)
    requires |s.outlet.events| <= EVENT_DEPTH
    ensures |r.outlet.events| <= EVENT_DEPTH
  {
    if steps == [] then s
    else
      var before := Run(s, steps[..|steps| - 1]);
      var now := steps[|steps| - 1];
      NextKeepsDepth(before, now);
      Next(before, now)
  }

  // ---- continuous readings ------------------------------------------------

  /** The components show what `snap` holds, on top of whatever they started as. */
  ghost predicate Shows(s: Sys, start: Sys, snap: S.Snap) {
    s.sensors == ShowSensors(start.sensors, snap) && s.wheels == ShowWheels(start.wheels, snap)
  }

  ghost predicate Coalesced(s: Sys, start: Sys) {
    && s.outlet.snapshot == S.FoldAll(S.DEFAULT, s.heard)
    && (s.outlet.cell.Some? ==> s.outlet.cell.value == s.outlet.snapshot && AnyContinuous(s.heard))
    && (if AnyContinuous(s.heard) then s.outlet.cell.Some? || Shows(s, start, s.outlet.snapshot)
        else s.sensors == start.sensors && s.wheels == start.wheels)
    && SameShape(s, start)
  }

  /** No component appears or disappears. */
  ghost predicate SameShape(s: Sys, start: Sys) {
    && (forall snap: S.Snap :: ShowSensors(s.sensors, snap) == ShowSensors(start.sensors, snap))
    && |s.wheels| == |start.wheels| && (forall i :: 0 <= i < |s.wheels| ==> s.wheels[i].side == start.wheels[i].side)
  }

  lemma ShowWheelsAgain(s: Sys, start: Sys, snap: S.Snap)
    requires SameShape(s, start)
    ensures ShowWheels(s.wheels, snap) == ShowWheels(start.wheels, snap)
  {
  }

  lemma ReadKeepsCoalesced(s: Sys, start: Sys, bytes: seq<u8>)
    requires Coalesced(s, start) && |s.outlet.events| <= EVENT_DEPTH
    ensures Coalesced(OnRead(s, bytes), start)
  {
    var now := Heard(s.residue + bytes);
    AbsorbAllIs(s.outlet, now);
    S.FoldAllConcat(S.DEFAULT, s.heard, now);
    ContinuousConcat(s.heard, now);
    if !AnyContinuous(now) {
      OnlyDiscreteKeeps(s.outlet.snapshot, now);
    }
  }

  lemma ContinuousConcat(a: seq<Status>, b: seq<Status>)
    ensures AnyContinuous(a + b) <==> AnyContinuous(a) || AnyContinuous(b)
  {
    if AnyContinuous(a) {
      var k :| 0 <= k < |a| && !S.Discrete(a[k]);
      assert (a + b)[k] == a[k];
    }
    if AnyContinuous(b) {
      var k :| 0 <= k < |b| && !S.Discrete(b[k]);
      assert (a + b)[|a| + k] == b[k];
    }
  }

  lemma {:induction false} OnlyDiscreteKeeps(snap: S.Snap, h: seq<Status>)
    requires !AnyContinuous(h)
    ensures S.FoldAll(snap, h) == snap
  {
    if h != [] {
      assert S.Discrete(h[|h| - 1]);
      ContinuousSnoc(h[..|h| - 1], h[|h| - 1]);
      assert h == h[..|h| - 1] + [h[|h| - 1]];
      OnlyDiscreteKeeps(snap, h[..|h| - 1]);
    }
  }

  lemma FrameKeepsCoalesced(s: Sys, start: Sys)
    requires Coalesced(s, start)
    ensures Coalesced(OnFrame(s), start)
    ensures AnyContinuous(s.heard) ==> Shows(OnFrame(s), start, s.outlet.snapshot)
  {
    if s.outlet.cell.Some? {
      ShowWheelsAgain(s, start, s.outlet.cell.value);
    }
  }

  lemma {:induction false} RunKeepsCoalesced(start: Sys, steps: seq<Step>)
    requires AtBringUp(start)
    ensures Coalesced(Run(start, steps), start)
  {
    hide OnRead, OnFrame;
    if steps != [] {
      var before, now := Run(start, steps[..|steps| - 1]), steps[|steps| - 1];
      RunKeepsCoalesced(start, steps[..|steps| - 1]);
      match now {
        case Read(bytes) => ReadKeepsCoalesced(before, start, bytes);
        case EcsFrame => FrameKeepsCoalesced(before, start);
        case Queued(_) => CommandsLeaveTheRest(before, now);
        case Written(_) => CommandsLeaveTheRest(before, now);
      }
    }
  }

  /** After any run that ends in a frame, once a continuous message was heard since bring-up, the components
      show a snapshot with the latest reading of every kind. Before that they are untouched. */
  lemma {:induction false} LatestIsShown(start: Sys, steps: seq<Step>)
    requires AtBringUp(start) && steps != [] && steps[|steps| - 1] == EcsFrame
    ensures var s := Run(start, steps);
      if AnyContinuous(s.heard) then
        exists snap :: Shows(s, start, snap) && S.ShowsLatest(snap, s.heard)
      else s.sensors == start.sensors && s.wheels == start.wheels
  {
    var before := Run(start, steps[..|steps| - 1]);
    RunKeepsCoalesced(start, steps[..|steps| - 1]);
    FrameKeepsCoalesced(before, start);
    S.FoldShowsLatest(before.heard);
    assert Run(start, steps) == OnFrame(before);
    if AnyContinuous(before.heard) {
      assert Shows(OnFrame(before), start, before.outlet.snapshot);
    }
  }

  // ---- only the bytes matter ----------------------------------------------

  /** The residue of bring-up and every byte read since, in order. */
  function Stream(residue: seq<u8>, steps: seq<Step>): seq<u8> {
    if steps == [] then residue
    else
      var before, now := Stream(residue, steps[..|steps| - 1]), steps[|steps| - 1];
      if now.Read? then before + now.bytes else before
  }

  /** What was heard depends on the bytes alone, not on how reads cut them or frames fell between. */
  lemma {:induction false} HeardIsOfTheBytes(start: Sys, steps: seq<Step>)
    requires AtBringUp(start)
    ensures Run(start, steps).heard == Heard(Stream(start.residue, steps))
    ensures Run(start, steps).residue == Scan(Stream(start.residue, steps)).1
  {
    if steps == [] {
      WaitingSaysNothing(start.residue);
    } else {
      var before, now := Run(start, steps[..|steps| - 1]), steps[|steps| - 1];
      HeardIsOfTheBytes(start, steps[..|steps| - 1]);
      if now.Read? {
        ReadHears(before, Stream(start.residue, steps[..|steps| - 1]), now.bytes);
      }
    }
  }

  lemma {:induction false} ReadHears(s: Sys, sofar: seq<u8>, bytes: seq<u8>)
    requires s.heard == Heard(sofar) && s.residue == Scan(sofar).1 && |s.outlet.events| <= EVENT_DEPTH
    ensures OnRead(s, bytes).heard == Heard(sofar + bytes) && OnRead(s, bytes).residue == Scan(sofar + bytes).1
  {
    HeardConcat(sofar, bytes);
  }

  lemma {:induction false} StreamOfResidue(residue: seq<u8>, steps: seq<Step>)
    ensures Stream(residue, steps) == residue + Stream([], steps)
  {
    if steps == [] {
      assert residue + [] == residue;
    } else {
      StreamOfResidue(residue, steps[..|steps| - 1]);
    }
  }

  // ---- discrete messages --------------------------------------------------

  /** The byte a component ends on: the latest message of the kind, or what it started with. */
  ghost function BitsAfter(start: Option<u8>, log: seq<Status>, kind: S.Kind): Option<u8>
    requires kind in {S.KTouch, S.KMotion, S.KBehavior}
  {
    var latest := S.Latest(log, {kind});
    if start == None || latest == None then start
    else Some(if kind == S.KBehavior then latest.value.behavior else latest.value.bits)
  }

  ghost function FirmwareAfter(start: Option<(u8, u8, u8)>, log: seq<Status>): Option<(u8, u8, u8)> {
    var latest := S.Latest(log, {S.KFwVersion});
    if start == None || latest == None then start
    else Some((latest.value.major, latest.value.minor, latest.value.patch))
  }

  /** A link that has handled this log since it was `start`. */
  ghost predicate LinkIs(l: Link, start: Link, log: seq<Status>) {
    && l.touch == BitsAfter(start.touch, log, S.KTouch)
    && l.motion == BitsAfter(start.motion, log, S.KMotion)
    && l.behavior == BitsAfter(start.behavior, log, S.KBehavior)
    && l.firmware == FirmwareAfter(start.firmware, log)
  }

  lemma HandleOneMore(l: Link, start: Link, log: seq<Status>, s: Status)
    requires LinkIs(l, start, log)
    ensures LinkIs(Handle(l, s), start, log + [s])
  {
    S.LatestSnoc(log, s, {S.KTouch});
    S.LatestSnoc(log, s, {S.KMotion});
    S.LatestSnoc(log, s, {S.KBehavior});
    S.LatestSnoc(log, s, {S.KFwVersion});
  }

  lemma {:induction false} HandleMore(l: Link, start: Link, log: seq<Status>, more: seq<Status>)
    requires LinkIs(l, start, log)
    ensures LinkIs(HandleAll(l, more), start, log + more)
    decreases |more|
  {
    if more == [] {
      assert log + more == log;
    } else {
      var n := |more| - 1;
      HandleMore(l, start, log, more[..n]);
      HandleOneMore(HandleAll(l, more[..n]), start, log + more[..n], more[n]);
      assert log + more[..n] + [more[n]] == log + more;
    }
  }

  /** What was accepted is what the components have handled plus what is still queued. */
  ghost predicate Delivered(s: Sys, start: Sys) {
    && |s.outlet.events| <= |s.accepted|
    && s.accepted[|s.accepted| - |s.outlet.events|..] == s.outlet.events
    && LinkIs(s.link, start.link, s.accepted[..|s.accepted| - |s.outlet.events|])
  }

  lemma ReadKeepsDelivered(s: Sys, start: Sys, bytes: seq<u8>)
    requires Delivered(s, start) && |s.outlet.events| <= EVENT_DEPTH
    ensures Delivered(OnRead(s, bytes), start)
  {
    hide Heard, AbsorbAll, OfferAll, Scan, LinkIs;
    var t, now := OnRead(s, bytes), Heard(s.residue + bytes);
    var offered := OfferAll(s.outlet.events, now);
    AbsorbAllIs(s.outlet, now);
    OfferAllExactly(s.outlet.events, now);
    QueueGrows(s.accepted, s.outlet.events, offered);
    assert t.outlet.events == offered && t.accepted == s.accepted + offered[|s.outlet.events|..];
  }

  lemma QueueGrows(accepted: seq<Status>, queue: seq<Status>, offered: seq<Status>)
    requires |queue| <= |accepted| && accepted[|accepted| - |queue|..] == queue
    requires |queue| <= |offered| && offered[..|queue|] == queue
    ensures var all := accepted + offered[|queue|..];
      |offered| <= |all| && all[|all| - |offered|..] == offered
      && all[..|all| - |offered|] == accepted[..|accepted| - |queue|]
  {
    var all, k := accepted + offered[|queue|..], |accepted| - |queue|;
    assert all[k..] == accepted[k..] + offered[|queue|..];
    assert offered == offered[..|queue|] + offered[|queue|..];
  }

  lemma ConnectKeepsLink(l: Link, start: Link, log: seq<Status>)
    requires LinkIs(l, start, log)
    ensures LinkIs(Connect(l), start, log)
  {
  }

  lemma FrameKeepsDelivered(s: Sys, start: Sys)
    requires Delivered(s, start)
    ensures Delivered(OnFrame(s), start) && LinkIs(OnFrame(s).link, start.link, s.accepted)
  {
    hide HandleAll, ShowSensors, ShowWheels, LinkIs, Connect;
    var handled := |s.accepted| - |s.outlet.events|;
    var link := if s.outlet.cell.Some? then Connect(s.link) else s.link;
    ConnectKeepsLink(s.link, start.link, s.accepted[..handled]);
    HandleMore(link, start.link, s.accepted[..handled], s.outlet.events);
    assert s.accepted[..handled] + s.outlet.events == s.accepted;
    assert s.accepted[..|s.accepted|] == s.accepted;
  }

  lemma NothingHandled(start: Sys)
    requires AtBringUp(start)
    ensures Delivered(start, start)
  {
    assert start.accepted[..0] == [];
  }

  lemma {:induction false} RunKeepsDelivered(start: Sys, steps: seq<Step>)
    requires AtBringUp(start)
    ensures Delivered(Run(start, steps), start)
  {
    hide OnRead, OnFrame, OnQueued, OnWritten, LinkIs;
    if steps == [] {
      NothingHandled(start);
    } else {
      var before, now := Run(start, steps[..|steps| - 1]), steps[|steps| - 1];
      RunKeepsDelivered(start, steps[..|steps| - 1]);
      match now {
        case Read(bytes) => ReadKeepsDelivered(before, start, bytes);
        case EcsFrame => FrameKeepsDelivered(before, start);
        case Queued(_) => CommandsLeaveTheRest(before, now);
        case Written(_) => CommandsLeaveTheRest(before, now);
      }
    }
  }

  /** After each frame the link is what handling all the messages that the queue accepted makes of it. */
  lemma {:induction false} AcceptedIsHandled(start: Sys, steps: seq<Step>)
    requires AtBringUp(start) && steps != [] && steps[|steps| - 1] == EcsFrame
    ensures LinkIs(Run(start, steps).link, start.link, Run(start, steps).accepted)
  {
    var before := Run(start, steps[..|steps| - 1]);
    RunKeepsDelivered(start, steps[..|steps| - 1]);
    FrameKeepsDelivered(before, start);
  }

  lemma {:induction false} HandleKeepsConnected(l: Link, log: seq<Status>)
    ensures HandleAll(l, log).connected ==
            if l.connected.Some? && S.Latest(log, {S.KFwVersion}).Some? then Some(true) else l.connected
  {
    if log != [] {
      HandleKeepsConnected(l, log[..|log| - 1]);
    }
  }

  /** A frame connects the robot exactly when it finds a snapshot or a firmware version; nothing disconnects it. */
  lemma FrameConnects(s: Sys)
    ensures OnFrame(s).link.connected ==
      if s.link.connected.Some? && (s.outlet.cell.Some? || S.Latest(s.outlet.events, {S.KFwVersion}).Some?)
      then Some(true) else s.link.connected
  {
    HandleKeepsConnected(if s.outlet.cell.Some? then Connect(s.link) else s.link, s.outlet.events);
  }

  lemma NextKeepsConnected(s: Sys, step: Step)
    requires |s.outlet.events| <= EVENT_DEPTH && s.link.connected == Some(true)
    ensures Next(s, step).link.connected == Some(true)
  {
    if step == EcsFrame {
      FrameConnects(s);
    }
  }

  /** Once connected, connected after any further run. */
  lemma {:induction false} ConnectedForever(s: Sys, steps: seq<Step>)
    requires |s.outlet.events| <= EVENT_DEPTH && s.link.connected == Some(true)
    ensures Run(s, steps).link.connected == Some(true)
  {
    if steps != [] {
      ConnectedForever(s, steps[..|steps| - 1]);
      NextKeepsConnected(Run(s, steps[..|steps| - 1]), steps[|steps| - 1]);
    }
  }

  // ---- edges --------------------------------------------------------------

  /** The last masks the detector compared. */
  function LastMasks(masks: seq<Events.Masks>): Events.Masks {
    if masks == [] then Events.START_MASKS else masks[|masks| - 1]
  }

  /** A press fires exactly when the button's bit is set in the last touch message of the frame (or, with
      none, in the component) and was clear in the frame before. So a press and its release that are
      queued between two frames fire nothing, although both messages were accepted and delivered. */
  lemma PressNeedsTheLastTouch(s: Sys, b: Events.TouchButton)
    requires s.link.touch.Some? && s.link.motion.Some?
    ensures var (latest, masks) := (S.Latest(s.outlet.events, {S.KTouch}), OnFrame(s).masks);
      var touch := if latest.Some? then latest.value.bits else s.link.touch.value;
      && |masks| == |s.masks| + 1 && masks[..|s.masks|] == s.masks
      && (Events.Due(Events.TouchPressed(b), LastMasks(s.masks), masks[|s.masks|]) <==>
          !Events.IsSet(LastMasks(s.masks).touch, Events.ButtonMask(b)) && Events.IsSet(touch, Events.ButtonMask(b)))
  {
    hide HandleAll, ShowSensors, ShowWheels;
    HandleShape(if s.outlet.cell.Some? then Connect(s.link) else s.link, s.outlet.events);
  }

  lemma {:induction false} HandleShape(l: Link, log: seq<Status>)
    ensures HandleAll(l, log).touch == BitsAfter(l.touch, log, S.KTouch)
    ensures HandleAll(l, log).motion == BitsAfter(l.motion, log, S.KMotion)
  {
    assert LinkIs(l, l, []);
    HandleMore(l, l, [], log);
    assert [] + log == log;
  }

  // ---- the running system -------------------------------------------------

  /** The objects hold what the state says. */
  ghost predicate Mirrors(driver: AlvikDriver, robot: Robot, s: Sys)
    reads driver, driver.decoder, driver.decoder.buf, driver.snapshot, driver.state.inner, driver.events
    reads driver.commands, robot
  {
    && driver.Valid()
    && driver.decoder.Bytes() == s.residue && driver.View() == s.outlet
    && robot.sensors == s.sensors && robot.wheels == s.wheels && robot.link == s.link
    && driver.commands.items == s.out.queue && driver.tx == s.out.tx
  }

  method ExecuteRead(driver: AlvikDriver, robot: Robot, bytes: seq<u8>, ghost s: Sys)
    requires Mirrors(driver, robot, s) && Waiting(s.residue) && |bytes| <= READ_MAX
    modifies driver.decoder, driver.decoder.buf, driver.snapshot, driver.state.inner, driver.events
    ensures Mirrors(driver, robot, OnRead(s, bytes)) && Waiting(OnRead(s, bytes).residue)
  {
    driver.OnRead(bytes);
  }

  method ExecuteFrame(driver: AlvikDriver, robot: Robot, edge: Events.EdgeState, ghost s: Sys)
    returns (fired: seq<Events.Event>)
    requires Mirrors(driver, robot, s)
    requires edge.View() == LastMasks(s.masks)
    modifies robot, edge, driver.state.inner, driver.events
    ensures Mirrors(driver, robot, OnFrame(s))
    ensures edge.View() == LastMasks(OnFrame(s).masks)
    ensures Events.Triggered(OnFrame(s).masks) == Events.Triggered(s.masks) + fired
  {
    robot.ApplyStatus(driver.state, driver.events);
    fired := [];
    if robot.link.touch.Some? && robot.link.motion.Some? {
      fired := edge.DetectEvents(Events.Masks(robot.link.touch.value, robot.link.motion.value));
    }
    TriggeredSnoc(s.masks, OnFrame(s).masks, LastMasks(s.masks), fired);
  }

  method ExecuteCommand(driver: AlvikDriver, robot: Robot, step: Step, ghost s: Sys)
    requires Mirrors(driver, robot, s) && (step.Queued? || step.Written?)
    modifies driver.commands, driver.encoder.buf, driver`tx
    ensures step.Queued? ==> Mirrors(driver, robot, OnQueued(s, step.command))
    ensures step.Written? ==> Mirrors(driver, robot, OnWritten(s, step.room))
  {
    match step {
      case Queued(command) => var _ := driver.commands.Send(command);
      case Written(room) =>
        var _ := driver.SendNext(room);
        assert s.out.queue == [] ==> driver.tx == s.out.tx + [] == s.out.tx;
    }
  }

  /** One step of the objects is one step of the state, and fires what the step adds to the events. */
  method ExecuteStep(driver: AlvikDriver, robot: Robot, edge: Events.EdgeState, step: Step, ghost s: Sys)
    returns (fired: seq<Events.Event>)
    requires Mirrors(driver, robot, s) && Waiting(s.residue)
    requires edge.View() == LastMasks(s.masks) && (step.Read? ==> |step.bytes| <= READ_MAX)
    modifies robot, edge, driver.decoder, driver.decoder.buf, driver.snapshot, driver.state.inner, driver.events
    modifies driver.commands, driver.encoder.buf, driver`tx
    ensures Mirrors(driver, robot, Next(s, step)) && Waiting(Next(s, step).residue)
    ensures edge.View() == LastMasks(Next(s, step).masks)
    ensures Events.Triggered(Next(s, step).masks) == Events.Triggered(s.masks) + fired
  {
    hide Heard, AbsorbAll, Scan, HandleAll, ShowSensors, ShowWheels, Events.Triggered;
    fired := [];
    assert Events.Triggered(s.masks) + [] == Events.Triggered(s.masks);
    match step {
      case Read(bytes) => ExecuteRead(driver, robot, bytes, s);
      case EcsFrame => fired := ExecuteFrame(driver, robot, edge, s);
      case Queued(_) => ExecuteCommand(driver, robot, step, s);
      case Written(_) => ExecuteCommand(driver, robot, step, s);
    }
  }

  /** The driver, the ECS systems and the edge detector, run over any interleaving, stay in step with the
      model, and trigger exactly the events of the masks they saw, wherever the detector stood before. */
  method Execute(driver: AlvikDriver, robot: Robot, edge: Events.EdgeState, steps: seq<Step>, ghost start: Sys)
    returns (fired: seq<Events.Event>)
    requires Mirrors(driver, robot, start) && Waiting(start.residue) && edge.View() == LastMasks(start.masks)
    requires forall i :: 0 <= i < |steps| && steps[i].Read? ==> |steps[i].bytes| <= READ_MAX
    modifies robot, edge, driver.decoder, driver.decoder.buf, driver.snapshot, driver.state.inner, driver.events
    modifies driver.commands, driver.encoder.buf, driver`tx
    ensures Mirrors(driver, robot, Run(start, steps)) && edge.View() == LastMasks(Run(start, steps).masks)
    ensures Events.Triggered(Run(start, steps).masks) == Events.Triggered(start.masks) + fired
  {
    hide Next, Events.Triggered, LastMasks;
    fired := [];
    ghost var s := start;
    assert Events.Triggered(start.masks) + [] == Events.Triggered(start.masks);
    for i := 0 to |steps|
      invariant s == Run(start, steps[..i]) && Mirrors(driver, robot, s) && Waiting(s.residue)
      invariant edge.View() == LastMasks(s.masks)
      invariant Events.Triggered(s.masks) == Events.Triggered(start.masks) + fired
    {
      RunSnoc(start, steps, i);
      var now := ExecuteStep(driver, robot, edge, steps[i], s);
      Regroup(Events.Triggered(start.masks), fired, now);
      fired := fired + now;
      s := Next(s, steps[i]);
    }
    assert steps[..|steps|] == steps;
  }

  lemma Regroup<T>(a: seq<T>, b: seq<T>, c: seq<T>)
    ensures (a + b) + c == a + (b + c)
  {
  }

  lemma {:induction false} RunSnoc(start: Sys, steps: seq<Step>, i: nat)
    requires |start.outlet.events| <= EVENT_DEPTH && i < |steps|
    ensures Run(start, steps[..i + 1]) == Next(Run(start, steps[..i]), steps[i])
  {
    assert steps[..i + 1][..i] == steps[..i];
  }

  lemma {:induction false} TriggeredSnoc(before: seq<Events.Masks>, after: seq<Events.Masks>, prev: Events.Masks,
                                         fired: seq<Events.Event>)
    requires prev == LastMasks(before)
    requires (after == before && fired == [])
          || (|after| == |before| + 1 && after[..|before|] == before
              && fired == Events.DueUpTo(16, prev, after[|before|]))
    ensures Events.Triggered(after) == Events.Triggered(before) + fired
  {
    if after == before {
      assert Events.Triggered(before) + [] == Events.Triggered(before);
    }
  }
}
