/** What becomes of the commands over whole runs: they leave in the order the queue took them, and the
    robot's end reads back exactly those the driver sent. */
module CommandRuns {
  import opened Crc
  import opened UcPack
  import opened Protocol
  import opened Driver
  import opened SensorRuns
  import C = CommandStream

  /** Commands without noise between them. */
  function Plain(commands: seq<Command>): (sent: seq<C.Sent>)
    ensures |sent| == |commands|
  {
    seq(|commands|, i requires 0 <= i < |commands| => C.Sent([], commands[i]))
  }

  function Wire(commands: seq<Command>): seq<u8> {
    C.OnTheWire(Plain(commands))
  }

  /** The commands that bring-up sends. */
  const INIT: seq<Command> := [SetLeds(0x02), SetBehavior(1), SetBehavior(2), SetServo(90, 90)]

  /** No accepted command is lost, repeated or overtaken: those sent and those queued are together the
      accepted ones. */
  lemma {:induction false} CommandsKeepOrder(start: Sys, steps: seq<Step>)
    requires AtBringUp(start)
    ensures var out := Run(start, steps).out; out.accepted == out.sent + out.queue && |out.queue| <= 16
  {
    hide OnRead, OnFrame;
    if steps == [] {
      assert [] + start.out.queue == start.out.queue;
    } else {
      var before, now := Run(start, steps[..|steps| - 1]), steps[|steps| - 1];
      CommandsKeepOrder(start, steps[..|steps| - 1]);
      OneStepOfCommands(before, now);
    }
  }

  /** What one step does to the commands. */
  lemma {:induction false} OneStepOfCommands(s: Sys, step: Step)
    requires |s.outlet.events| <= EVENT_DEPTH
    requires s.out.accepted == s.out.sent + s.out.queue && |s.out.queue| <= COMMAND_DEPTH
    ensures var out := SensorRuns.Next(s, step).out;
      out.accepted == out.sent + out.queue && |out.queue| <= COMMAND_DEPTH
    ensures step.Read? || step.EcsFrame? ==> SensorRuns.Next(s, step).out == s.out
    ensures step.Queued? && |s.out.queue| < 16 ==>
              SensorRuns.Next(s, step).out.accepted == s.out.accepted + [step.command]
    ensures step.Queued? && |s.out.queue| >= 16 ==> SensorRuns.Next(s, step).out == s.out
  {
    if step.Queued? {
      Regroup(s.out.sent, s.out.queue, [step.command]);
    } else if step.Written? && s.out.queue != [] {
      Regroup(s.out.sent, s.out.queue[..1], s.out.queue[1..]);
      assert s.out.queue == s.out.queue[..1] + s.out.queue[1..] && s.out.queue[..1] == [s.out.queue[0]];
    }
  }

  /** Every write is taken whole. */
  ghost predicate Whole(steps: seq<Step>) {
    forall i :: 0 <= i < |steps| && steps[i].Written? ==> steps[i].room >= FRAME_MAX
  }

  lemma OneMoreOnTheWire(commands: seq<Command>, c: Command)
    ensures Wire(commands + [c]) == Wire(commands) + Encode(c)
  {
    hide Encode;
    WireConcat(commands, [c]);
    assert Plain([c]) == [C.Sent([], c)] && Plain([c])[1..] == [];
    assert C.OnTheWire(Plain([c])[1..]) == [];
    assert Wire([c]) == [] + Encode(c) + [];
  }

  lemma {:induction false} WireConcat(a: seq<Command>, b: seq<Command>)
    ensures Wire(a + b) == Wire(a) + Wire(b)
  {
    hide Encode;
    if a == [] {
      assert a + b == b && Plain(a) == [];
    } else {
      WireConcat(a[1..], b);
      assert Plain(a + b)[1..] == Plain(a[1..] + b) && Plain(a)[1..] == Plain(a[1..]);
      assert (a + b)[1..] == a[1..] + b;
    }
  }

  lemma WholeIsTaken(c: Command, room: nat)
    requires room >= FRAME_MAX
    ensures Taken(Encode(c), room) == Encode(c)
  {
    EncodedFields(Code(c), Payload(c));
  }

  /** With every write taken whole, the wire carries the sent commands and nothing else. */
  lemma {:induction false} WireCarriesTheSent(start: Sys, steps: seq<Step>)
    requires AtBringUp(start) && Whole(steps)
    ensures Run(start, steps).out.tx == start.out.tx + Wire(Run(start, steps).out.sent)
  {
    hide OnRead, OnFrame, Encode, Wire, Taken;
    if steps == [] {
      assert Plain([]) == [] && start.out.tx + [] == start.out.tx;
      NothingOnTheWire();
    } else {
      var before, now := Run(start, steps[..|steps| - 1]), steps[|steps| - 1];
      WireCarriesTheSent(start, steps[..|steps| - 1]);
      CommandsKeepOrder(start, steps[..|steps| - 1]);
      OneStepOfCommands(before, now);
      if now.Written? && before.out.queue != [] {
        var c := before.out.queue[0];
        WholeIsTaken(c, now.room);
        OneMoreOnTheWire(before.out.sent, c);
        Regroup(start.out.tx, Wire(before.out.sent), Encode(c));
      }
    }
  }

  predicate WholeInit(rooms: (nat, nat, nat, nat)) {
    rooms.0 >= FRAME_MAX && rooms.1 >= FRAME_MAX && rooms.2 >= FRAME_MAX && rooms.3 >= FRAME_MAX
  }

  lemma NothingOnTheWire()
    ensures Wire([]) == []
  {
  }

  /** A decoder at the other end of the wire pops exactly the frames of these commands, in order. */
  lemma {:induction false} WireIsDecoded(commands: seq<Command>)
    ensures Scan(Wire(commands)) == (C.FramesOf(Plain(commands)), [])
  {
    assert Wire(commands) + [] == Wire(commands);
    C.StreamIsDecoded(Plain(commands), []);
  }

  lemma InitIsWire(rooms: (nat, nat, nat, nat))
    requires WholeInit(rooms)
    ensures WithInit([], rooms) == Wire(INIT)
  {
    hide Encode, Taken, Wire;
    var (a, b, c, d) := (INIT[0], INIT[1], INIT[2], INIT[3]);
    WholeIsTaken(a, rooms.0);
    WholeIsTaken(b, rooms.1);
    WholeIsTaken(c, rooms.2);
    WholeIsTaken(d, rooms.3);
    NothingOnTheWire();
    OneMoreOnTheWire([], a);
    OneMoreOnTheWire([a], b);
    OneMoreOnTheWire([a, b], c);
    OneMoreOnTheWire([a, b, c], d);
    assert [] + [a] == [a] && [a] + [b] == [a, b] && [a, b] + [c] == [a, b, c] && [a, b, c] + [d] == INIT;
  }

  /** From bring-up on, whatever happens in between: the robot's end hears the init commands and then the
      sent ones, in order and nothing else, if the UART takes every write whole. */
  lemma {:induction false} CommandsReachTheRobot(start: Sys, steps: seq<Step>, rooms: (nat, nat, nat, nat))
    requires AtBringUp(start) && start.out.tx == WithInit([], rooms) && Whole(steps)
    requires WholeInit(rooms)
    ensures var out := Run(start, steps).out;
      Scan(out.tx) == (C.FramesOf(Plain(INIT + out.sent)), [])
  {
    hide Run, Wire, Scan, Plain, C.FramesOf;
    InitIsWire(rooms);
    WireCarriesTheSent(start, steps);
    WireConcat(INIT, Run(start, steps).out.sent);
    WireIsDecoded(INIT + Run(start, steps).out.sent);
  }
}
