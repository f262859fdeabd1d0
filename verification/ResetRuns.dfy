/** Runs from reset on. The ECS does not wait for bring-up: frames run and commands are queued while the driver
    still awaits the robot's first words. */
module ResetRuns {
  import opened Wrappers
  import opened Crc
  import opened UcPack
  import R = Resync
  import opened Protocol
  import S = Snapshot
  import opened AsyncBridge
  import opened Driver
  import opened Systems
  import Events
  import opened SensorRuns
  import C = CommandStream
  import opened CommandRuns

  const QUIET: Outlet := Outlet(S.DEFAULT, None, [])

  /** Nothing was heard, shown, compared, queued or sent. */
  ghost predicate AtReset(s: Sys) {
    && s.residue == [] && s.outlet == QUIET && s.heard == [] && s.accepted == [] && s.masks == []
    && s.out == Outgoing([], [], [], [])
  }

  /** One thing that happens while bring-up waits. What it reads it keeps to itself, and it sends nothing. */
  function Early(s: Sys, step: Step): Sys {
    match step
    case Read(bytes) => s.(residue := Scan(s.residue + bytes).1)
    case EcsFrame => OnFrame(s)
    case Queued(command) => OnQueued(s, command)
    case Written(_) => s
  }

  function EarlyRun(s: Sys, steps: seq<Step>): Sys {
    if steps == [] then s else Early(EarlyRun(s, steps[..|steps| - 1]), steps[|steps| - 1])
  }

  /** The masks that frames see as long as no status is shown. */
  function Seen(link: Link, steps: seq<Step>): seq<Events.Masks> {
    if steps == [] then []
    else
      var before := Seen(link, steps[..|steps| - 1]);
      if steps[|steps| - 1].EcsFrame? && link.touch.Some? && link.motion.Some?
      then before + [Events.Masks(link.touch.value, link.motion.value)] else before
  }

  /** Until bring-up ends the frames show nothing and change nothing: they only compare the masks the robot
      was spawned with. The bytes read so far are all accounted for by the residue. */
  lemma {:induction false} BringUpIsQuiet(reset: Sys, steps: seq<Step>)
    requires AtReset(reset)
    ensures var s := EarlyRun(reset, steps);
      && s.outlet == QUIET && s.heard == [] && s.accepted == []
      && s.sensors == reset.sensors && s.wheels == reset.wheels && s.link == reset.link
      && s.masks == Seen(reset.link, steps)
      && s.residue == Scan(Stream([], steps)).1 && Waiting(s.residue)
      && |s.out.queue| <= COMMAND_DEPTH && s.out == Outgoing(s.out.queue, s.out.queue, [], [])
  {
    hide Scan, Heard;
    if steps == [] {
      R.ResidueWaits([]);
      NothingScanned();
    } else {
      var before, now := steps[..|steps| - 1], steps[|steps| - 1];
      BringUpIsQuiet(reset, before);
      if now.Read? {
        HeardConcat(Stream([], before), now.bytes);
        R.ResidueWaits(Stream([], before) + now.bytes);
      }
    }
  }

  lemma NothingScanned()
    ensures Scan([]) == ([], []) && Heard([]) == []
  {
  }

  /** What the end of bring-up adds: the init commands on the wire and the version in the queue. */
  function BroughtUp(s: Sys, firmware: Option<Status>, rooms: (nat, nat, nat, nat)): Sys {
    var events := if firmware.Some? then Offer(s.outlet.events, EVENT_DEPTH, firmware.value) else s.outlet.events;
    s.(outlet := s.outlet.(events := events), accepted := events, out := s.out.(tx := WithInit(s.out.tx, rooms)))
  }

  lemma {:induction false} EarlySnoc(reset: Sys, steps: seq<Step>, n: nat)
    requires n < |steps|
    ensures EarlyRun(reset, steps[..n + 1]) == Early(EarlyRun(reset, steps[..n]), steps[n])
    ensures Stream([], steps[..n + 1]) == Stream([], steps[..n]) + (if steps[n].Read? then steps[n].bytes else [])
  {
    hide Early;
    assert steps[..n + 1][..n] == steps[..n];
    assert Stream([], steps[..n]) + [] == Stream([], steps[..n]);
  }

  /** One step while bring-up waits, on the objects. */
  method ExecuteEarly(driver: AlvikDriver, robot: Robot, edge: Events.EdgeState, step: Step, ack: bool,
                      version: Option<Status>, ghost s: Sys, ghost before: seq<Status>)
    returns (gotAck: bool, firmware: Option<Status>, fired: seq<Events.Event>)
    requires Mirrors(driver, robot, s) && Waiting(s.residue) && edge.View() == LastMasks(s.masks)
    requires !step.Written? && (step.Read? ==> |step.bytes| <= READ_MAX)
    requires StartupFacts(before, ack, version)
    modifies robot, edge, driver.decoder, driver.decoder.buf, driver.state.inner, driver.events
    modifies driver.commands, driver.encoder.buf, driver`tx
    ensures Mirrors(driver, robot, Early(s, step)) && Waiting(Early(s, step).residue)
    ensures edge.View() == LastMasks(Early(s, step).masks)
    ensures Events.Triggered(Early(s, step).masks) == Events.Triggered(s.masks) + fired
    ensures if step.Read? then StartupFacts(before + Heard(s.residue + step.bytes), gotAck, firmware)
            else gotAck == ack && firmware == version
  {
    hide Heard, Scan, HandleAll, ShowSensors, ShowWheels, Events.Triggered, StartupFacts;
    gotAck, firmware, fired := ack, version, [];
    assert Events.Triggered(s.masks) + [] == Events.Triggered(s.masks);
    match step {
      case Read(bytes) => gotAck, firmware := driver.HearStartup(bytes, before, ack, version);
      case EcsFrame => fired := ExecuteFrame(driver, robot, edge, s);
      case Queued(_) => ExecuteCommand(driver, robot, step, s);
    }
  }

  lemma {:induction false} BringUpEndsHere(reset: Sys, steps: seq<Step>, firmware: Option<Status>,
                                           rooms: (nat, nat, nat, nat))
    requires AtReset(reset) && (firmware.Some? ==> firmware.value.FwVersion?)
    ensures var start := BroughtUp(EarlyRun(reset, steps), firmware, rooms);
      && AtBringUp(start) && start.masks == EarlyRun(reset, steps).masks == Seen(reset.link, steps)
      && start.residue == Scan(Stream([], steps)).1
      && start.link == reset.link && start.sensors == reset.sensors && start.wheels == reset.wheels
      && start.outlet.events == (if firmware.Some? then [firmware.value] else [])
      && start.out.tx == WithInit([], rooms)
  {
    hide Scan, EarlyRun, Stream, Seen, WithInit;
    BringUpIsQuiet(reset, steps);
  }

  lemma VersionIsVersion(heard: seq<Status>, ack: bool, version: Option<Status>)
    requires StartupFacts(heard, ack, version) && version.Some?
    ensures version.value.FwVersion?
  {
  }

  method BeginBringUp(driver: AlvikDriver, robot: Robot, buffered: seq<u8>, failsAt: Option<nat>, ghost reset: Sys)
    requires AtReset(reset) && driver.Valid() && Mirrors(driver, robot, reset.(residue := driver.decoder.Bytes()))
    modifies driver`decoder
    ensures fresh(driver.decoder) && fresh(driver.decoder.buf) && Mirrors(driver, robot, reset)
  {
    var _ := driver.FlushUart(buffered, failsAt);
  }

  method EndBringUp(driver: AlvikDriver, robot: Robot, firmware: Option<Status>, rooms: (nat, nat, nat, nat),
                    ghost s: Sys)
    requires Mirrors(driver, robot, s)
    modifies driver.encoder.buf, driver.events, driver`tx
    ensures Mirrors(driver, robot, BroughtUp(s, firmware, rooms))
  {
    driver.FinishBringUp(firmware, rooms);
  }

  /** Bring-up among frames. It is over when both the ack and the version were heard and the next step is one
      that only the main loop takes, or when its deadline has passed: at the given step, at a write, which
      only the main loop makes, or where the list ends. */
  method BringUpAmongFrames(driver: AlvikDriver, robot: Robot, edge: Events.EdgeState, buffered: seq<u8>,
                            failsAt: Option<nat>, steps: seq<Step>, deadline: nat, rooms: (nat, nat, nat, nat),
                            ghost reset: Sys)
    returns (gotAck: bool, firmware: Option<Status>, fired: seq<Events.Event>, used: nat, ghost start: Sys)
    requires AtReset(reset) && driver.Valid() && Mirrors(driver, robot, reset.(residue := driver.decoder.Bytes()))
    requires edge.View() == Events.START_MASKS
    requires forall i :: 0 <= i < |steps| && steps[i].Read? ==> |steps[i].bytes| <= READ_MAX
    modifies robot, edge, driver.state.inner, driver.events
    modifies driver.commands, driver.encoder.buf, driver`tx, driver`decoder
    ensures fresh(driver.decoder) && fresh(driver.decoder.buf)
    ensures used <= |steps| && (firmware.Some? ==> firmware.value.FwVersion?)
    ensures used < |steps| ==>
              used >= deadline || steps[used].Written? || (gotAck && firmware.Some? && steps[used].Read?)
    ensures StartupFacts(Heard(Stream([], steps[..used])), gotAck, firmware)
    ensures start == BroughtUp(EarlyRun(reset, steps[..used]), firmware, rooms)
    ensures AtBringUp(start) && Mirrors(driver, robot, start) && edge.View() == LastMasks(start.masks)
    ensures fired == Events.Triggered(start.masks)
  {
    hide Heard, Scan, Early, EarlyRun, Stream, Events.Triggered, StartupFacts, WithInit, Mirrors, BroughtUp, AtBringUp;
    hide Seen, LastMasks, Waiting;
    BeginBringUp(driver, robot, buffered, failsAt, reset);
    gotAck, firmware, fired, used := false, None, [], 0;
    ghost var s := reset;
    NothingYet(reset, steps);
    while used < |steps| && used < deadline && !steps[used].Written?
          && !(gotAck && firmware.Some? && steps[used].Read?)
      invariant used <= |steps| && s == EarlyRun(reset, steps[..used])
      invariant fresh(driver.decoder) && fresh(driver.decoder.buf)
      invariant Mirrors(driver, robot, s) && Waiting(s.residue)
      invariant edge.View() == LastMasks(s.masks)
      invariant Events.Triggered(s.masks) == fired
      invariant StartupFacts(Heard(Stream([], steps[..used])), gotAck, firmware)
      decreases |steps| - used
    {
      ghost var sofar := Stream([], steps[..used]);
      EarlySnoc(reset, steps, used);
      BringUpIsQuiet(reset, steps[..used]);
      if steps[used].Read? {
        HeardConcat(sofar, steps[used].bytes);
      } else {
        assert sofar + [] == sofar;
      }
      var now;
      gotAck, firmware, now := ExecuteEarly(driver, robot, edge, steps[used], gotAck, firmware, s, Heard(sofar));
      s := Early(s, steps[used]);
      fired := fired + now;
      used := used + 1;
    }
    if firmware.Some? {
      VersionIsVersion(Heard(Stream([], steps[..used])), gotAck, firmware);
    }
    BringUpEndsHere(reset, steps[..used], firmware, rooms);
    EndBringUp(driver, robot, firmware, rooms, s);
    start := BroughtUp(s, firmware, rooms);
  }

  lemma {:induction false} NothingYet(reset: Sys, steps: seq<Step>)
    requires AtReset(reset)
    ensures EarlyRun(reset, steps[..0]) == reset && Waiting(reset.residue)
    ensures Events.Triggered(reset.masks) == [] && LastMasks(reset.masks) == Events.START_MASKS
    ensures StartupFacts(Heard(Stream([], steps[..0])), false, None)
  {
    assert steps[..0] == [];
    NothingScanned();
  }

  lemma {:induction false} StreamConcat(residue: seq<u8>, a: seq<Step>, b: seq<Step>)
    ensures Stream(residue, a + b) == Stream(Stream(residue, a), b)
    decreases |b|
  {
    if b == [] {
      assert a + b == a;
    } else {
      assert (a + b)[..|a + b| - 1] == a + b[..|b| - 1];
      StreamConcat(residue, a, b[..|b| - 1]);
    }
  }

  /** What bring-up heard and what the run behind it heard are together what all the bytes say. */
  lemma {:induction false} NothingFallsBetween(start: Sys, early: seq<Step>, late: seq<Step>)
    requires AtBringUp(start) && start.residue == Scan(Stream([], early)).1
    ensures Heard(Stream([], early + late)) == Heard(Stream([], early)) + Run(start, late).heard
  {
    hide Heard, Scan, Run, Stream;
    StreamConcat([], early, late);
    StreamOfResidue(Stream([], early), late);
    HeardConcat(Stream([], early), Stream([], late));
    HeardIsOfTheBytes(start, late);
    StreamOfResidue(start.residue, late);
  }

  lemma {:induction false} WholeFromReset(start: Sys, steps: seq<Step>, used: nat, rooms: (nat, nat, nat, nat))
    requires used <= |steps| && AtBringUp(start) && start.out.tx == WithInit([], rooms)
    ensures Whole(steps) && WholeInit(rooms) ==>
              Scan(Run(start, steps[used..]).out.tx)
              == (C.FramesOf(Plain(INIT + Run(start, steps[used..]).out.sent)), [])
  {
    hide Scan, Run, C.FramesOf, Plain, WithInit;
    if Whole(steps) && WholeInit(rooms) {
      CommandsReachTheRobot(start, steps[used..], rooms);
    }
  }

  /** From reset on: a new driver, a robot and an edge detector, over any interleaving of reads, frames and
      commands. The system ends where the run of steps ends, every frame since reset counts for the events
      triggered, no byte goes unheard, also across a frame that the end of bring-up cuts in two, and
      with whole writes the wire carries the init commands and then the sent ones. */
  method RunFromReset(robot: Robot, edge: Events.EdgeState, buffered: seq<u8>, failsAt: Option<nat>,
                      steps: seq<Step>, deadline: nat, rooms: (nat, nat, nat, nat))
    returns (driver: AlvikDriver, gotAck: bool, firmware: Option<Status>, fired: seq<Events.Event>, used: nat,
             ghost start: Sys)
    requires edge.View() == Events.START_MASKS
    requires forall i :: 0 <= i < |steps| && steps[i].Read? ==> |steps[i].bytes| <= READ_MAX
    modifies robot, edge
    ensures used <= |steps|
    ensures used < |steps| ==>
              used >= deadline || steps[used].Written? || (gotAck && firmware.Some? && steps[used].Read?)
    ensures StartupFacts(Heard(Stream([], steps[..used])), gotAck, firmware)
    ensures AtBringUp(start) && start.outlet.events == (if firmware.Some? then [firmware.value] else [])
    ensures start.link == old(robot.link) && start.sensors == old(robot.sensors) && start.wheels == old(robot.wheels)
    ensures start.masks == Seen(start.link, steps[..used]) && start.residue == Scan(Stream([], steps[..used])).1
    ensures Mirrors(driver, robot, Run(start, steps[used..]))
    ensures fired == Events.Triggered(Run(start, steps[used..]).masks)
    ensures Heard(Stream([], steps)) == Heard(Stream([], steps[..used])) + Run(start, steps[used..]).heard
    ensures start.out.tx == WithInit([], rooms)
    ensures Whole(steps) && WholeInit(rooms) ==>
              Scan(driver.tx) == (C.FramesOf(Plain(INIT + Run(start, steps[used..]).out.sent)), [])
  {
    hide Heard, Scan, Run, EarlyRun, Stream, Events.Triggered, C.FramesOf, Plain, WithInit, StartupFacts;
    hide Seen, LastMasks, BroughtUp, Whole, WholeInit, Waiting;
    driver := new AlvikDriver();
    ghost var reset :=
      Sys([], QUIET, robot.sensors, robot.wheels, robot.link, [], [], [], Outgoing([], [], [], []));
    gotAck, firmware, fired, used, start :=
      BringUpAmongFrames(driver, robot, edge, buffered, failsAt, steps, deadline, rooms, reset);
    BringUpEndsHere(reset, steps[..used], firmware, rooms);
    var late := steps[used..];
    var more := Execute(driver, robot, edge, late, start);
    fired := fired + more;
    assert steps[..used] + late == steps;
    NothingFallsBetween(start, steps[..used], late);
    WholeFromReset(start, steps, used, rooms);
  }
}
