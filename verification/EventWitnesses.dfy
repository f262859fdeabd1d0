/** Runs of bytes the robot can send in which the app sees less than it was told, or more. */
module EventWitnesses {
  import opened Wrappers
  import opened Crc
  import opened UcPack
  import opened Protocol
  import S = Snapshot
  import opened StatusStream
  import opened Driver
  import opened Systems
  import Events
  import opened SensorRuns

  /** Touch and motion messages only. */
  ghost predicate AllMasks(statuses: seq<Status>) {
    forall k :: 0 <= k < |statuses| ==> statuses[k].Touch? || statuses[k].Motion?
  }

  lemma {:induction false} MasksAreShort(statuses: seq<Status>)
    requires AllMasks(statuses)
    ensures |Spoken(statuses)| == 6 * |statuses|
  {
    hide Checksum;
    if statuses != [] {
      MasksAreShort(statuses[1..]);
      assert |StatusBytes(statuses[0])| == 6;
    }
  }

  lemma {:induction false} MasksAreDiscrete(statuses: seq<Status>)
    requires AllMasks(statuses)
    ensures DiscreteOf(statuses) == statuses && !AnyContinuous(statuses)
  {
    if statuses != [] {
      var before := statuses[..|statuses| - 1];
      MasksAreDiscrete(before);
      assert statuses == before + [statuses[|statuses| - 1]];
    }
  }

  /** One read of such messages, by a decoder that waits for nothing: all are heard, and the queue takes
      those that fit. */
  lemma {:induction false} MasksRead(s: Sys, touches: seq<Status>)
    requires s.residue == [] && |s.outlet.events| <= EVENT_DEPTH && AllMasks(touches)
    ensures var t, all := OnRead(s, Spoken(touches)), s.outlet.events + touches;
      && t.residue == [] && t.heard == s.heard + touches
      && t.outlet.events == (if |all| <= EVENT_DEPTH then all else all[..EVENT_DEPTH])
      && t.outlet.cell == s.outlet.cell
      && t.accepted == s.accepted + t.outlet.events[|s.outlet.events|..]
      && t.link == s.link && t.masks == s.masks
  {
    assert [] + Spoken(touches) == Spoken(touches);
    StatusesAreHeard(touches);
    MasksAreDiscrete(touches);
    OfferAllExactly(s.outlet.events, touches);
    AbsorbAllIs(s.outlet, touches);
  }

  /** After a frame the touch component holds the last touch of the queue. */
  lemma LastTouchShown(s: Sys, b: u8)
    requires s.link.touch.Some? && s.outlet.events != [] && s.outlet.events[|s.outlet.events| - 1] == Touch(b)
    ensures OnFrame(s).link.touch == Some(b)
  {
    HandleShape(if s.outlet.cell.Some? then Connect(s.link) else s.link, s.outlet.events);
    assert S.Latest(s.outlet.events, {S.KTouch}) == Some(Touch(b));
  }

  lemma {:induction false} TwoReadsAndAFrame(start: Sys, a: seq<u8>, b: seq<u8>)
    requires |start.outlet.events| <= EVENT_DEPTH
    ensures |OnRead(start, a).outlet.events| <= EVENT_DEPTH
    ensures |OnRead(OnRead(start, a), b).outlet.events| <= EVENT_DEPTH
    ensures Run(start, [Read(a), Read(b), EcsFrame]) == OnFrame(OnRead(OnRead(start, a), b))
  {
    var steps := [Read(a), Read(b), EcsFrame];
    assert steps[..0] == [] && steps[..1] == [Read(a)] && steps[..2] == [Read(a), Read(b)] && steps[..3] == steps;
    RunSnoc(start, steps, 0);
    RunSnoc(start, steps, 1);
    RunSnoc(start, steps, 2);
    NextKeepsDepth(start, Read(a));
    NextKeepsDepth(OnRead(start, a), Read(b));
  }

  lemma {:induction false} AReadAndAFrame(start: Sys, a: seq<u8>)
    requires |start.outlet.events| <= EVENT_DEPTH
    ensures |OnRead(start, a).outlet.events| <= EVENT_DEPTH
    ensures Run(start, [Read(a), EcsFrame]) == OnFrame(OnRead(start, a))
  {
    var steps := [Read(a), EcsFrame];
    assert steps[..0] == [] && steps[..1] == [Read(a)] && steps[..2] == steps;
    RunSnoc(start, steps, 0);
    RunSnoc(start, steps, 1);
    NextKeepsDepth(start, Read(a));
  }

  /** Thirty-two touches with no button down, then one with OK down. */
  function Burst(): (touches: seq<Status>)
    ensures |touches| == 33 && AllMasks(touches)
  {
    seq(33, i => Touch(if i < 32 then 0 else Events.ButtonMask(Events.TouchButton.Ok)))
  }

  lemma Regroup(start: seq<Status>, a: seq<Status>, b: seq<Status>)
    ensures (start + a) + b == start + (a + b)
  {
  }

  /** Two reads of such messages, the first of which fits the queue. */
  lemma {:induction false} TwoMaskReads(start: Sys, a: seq<Status>, b: seq<Status>)
    requires start.residue == [] && AllMasks(a) && AllMasks(b)
    requires |start.outlet.events| + |a| <= EVENT_DEPTH
    ensures |OnRead(start, Spoken(a)).outlet.events| <= EVENT_DEPTH
    ensures var t, all := OnRead(OnRead(start, Spoken(a)), Spoken(b)), start.outlet.events + (a + b);
      && t.heard == start.heard + (a + b) && t.link == start.link
      && t.outlet.events == if |all| <= EVENT_DEPTH then all else all[..EVENT_DEPTH]
  {
    hide OnRead, Spoken;
    MasksRead(start, a);
    MasksRead(OnRead(start, Spoken(a)), b);
    Regroup(start.outlet.events, a, b);
    Regroup(start.heard, a, b);
  }

  /** The burst arrives in two reads that fit the buffer of the driver. */
  lemma {:induction false} BurstRead(start: Sys, a: seq<Status>, b: seq<Status>)
    requires start.residue == [] && |start.outlet.events| <= 1
    requires a == Burst()[..20] && b == Burst()[20..]
    ensures |Spoken(a)| <= READ_MAX && |Spoken(b)| <= READ_MAX
    ensures |OnRead(start, Spoken(a)).outlet.events| <= EVENT_DEPTH
    ensures var t := OnRead(OnRead(start, Spoken(a)), Spoken(b));
      && t.heard == start.heard + Burst() && t.link == start.link
      && t.outlet.events == (start.outlet.events + Burst())[..EVENT_DEPTH]
  {
    hide OnRead, Spoken;
    assert a + b == Burst();
    MasksAreShort(a);
    MasksAreShort(b);
    TwoMaskReads(start, a, b);
  }

  /** Thirty-three discrete messages between two frames: the last, a press that is still down, was heard and
      is gone. The component shows no button until the robot says so again. */
  lemma {:induction false} TheThirtyThirdIsDropped(start: Sys)
    requires AtBringUp(start) && start.residue == [] && start.link.touch.Some?
    ensures var first, second := Spoken(Burst()[..20]), Spoken(Burst()[20..]);
      var end := Run(start, [Read(first), Read(second), EcsFrame]);
      && |first| <= READ_MAX && |second| <= READ_MAX
      && end.heard == Burst() && end.outlet.events == []
      && end.link.touch == Some(0)
  {
    hide Run, OnRead, Spoken, Scan, HandleAll;
    var a, b := Burst()[..20], Burst()[20..];
    TwoReadsAndAFrame(start, Spoken(a), Spoken(b));
    BurstRead(start, a, b);
    LastTouchShown(OnRead(OnRead(start, Spoken(a)), Spoken(b)), 0);
  }

  /** A button pressed and released in one read between two frames: both messages are heard and accepted,
      and no press is triggered. */
  lemma {:induction false} QuickPressIsMissed(start: Sys, b: Events.TouchButton)
    requires AtBringUp(start) && start.residue == [] && start.link.touch.Some? && start.link.motion.Some?
    ensures var quick := [Touch(Events.ButtonMask(b)), Touch(0)];
      var end := Run(start, [Read(Spoken(quick)), EcsFrame]);
      && |Spoken(quick)| <= READ_MAX
      && end.heard == quick && end.accepted == start.accepted + quick
      && |end.masks| == |start.masks| + 1
      && Presses(end, b) == Presses(start, b)
  {
    hide Run, OnRead, Spoken, Scan, HandleAll, Events.Triggered;
    var quick := [Touch(Events.ButtonMask(b)), Touch(0)];
    assert AllMasks(quick);
    MasksAreShort(quick);
    AReadAndAFrame(start, Spoken(quick));
    MasksRead(start, quick);
    var t := OnRead(start, Spoken(quick));
    LastTouchShown(t, 0);
    HandleShape(if t.outlet.cell.Some? then Connect(t.link) else t.link, t.outlet.events);
    OneMoreFrameCounts(start.masks, OnFrame(t).masks, Events.TouchPressed(b));
  }

  function Presses(s: Sys, b: Events.TouchButton): nat {
    Events.Count(Events.Triggered(s.masks), Events.TouchPressed(b))
  }

  function UprightReports(s: Sys): nat {
    Events.Count(Events.Triggered(s.masks), Events.Tilted(Events.NegZ))
  }

  lemma {:induction false} OneMoreFrameCounts(before: seq<Events.Masks>, after: seq<Events.Masks>, e: Events.Event)
    requires |after| == |before| + 1 && after[..|before|] == before
    ensures Events.Count(Events.Triggered(after), e)
            == Events.Count(Events.Triggered(before), e)
               + (if Events.Due(e, LastMasks(before), after[|before|]) then 1 else 0)
  {
    Events.CountUpTo(16, LastMasks(before), after[|before|], e);
    Events.CountConcat(Events.Triggered(before), Events.DueUpTo(16, LastMasks(before), after[|before|]), e);
  }

  /** After a frame the motion component holds the last motion of the queue. */
  lemma LastMotionShown(s: Sys, m: u8)
    requires s.link.motion.Some? && s.outlet.events != [] && s.outlet.events[|s.outlet.events| - 1] == Motion(m)
    ensures OnFrame(s).link.motion == Some(m)
  {
    HandleShape(if s.outlet.cell.Some? then Connect(s.link) else s.link, s.outlet.events);
    assert S.Latest(s.outlet.events, {S.KMotion}) == Some(Motion(m));
  }

  lemma FrameAddsItsMasks(s: Sys)
    requires s.link.touch.Some? && s.link.motion.Some?
    ensures var t := OnFrame(s);
      && t.link.touch.Some? && t.link.motion.Some?
      && t.masks == s.masks + [Events.Masks(t.link.touch.value, t.link.motion.value)]
      && t.residue == s.residue && t.outlet.events == [] && t.heard == s.heard
  {
    HandleShape(if s.outlet.cell.Some? then Connect(s.link) else s.link, s.outlet.events);
  }

  lemma {:induction false} FrameReadFrame(start: Sys, a: seq<u8>)
    requires |start.outlet.events| <= EVENT_DEPTH
    ensures |OnRead(OnFrame(start), a).outlet.events| <= EVENT_DEPTH
    ensures Run(start, [EcsFrame, Read(a), EcsFrame]) == OnFrame(OnRead(OnFrame(start), a))
  {
    var steps := [EcsFrame, Read(a), EcsFrame];
    assert steps[..0] == [] && steps[..1] == [EcsFrame] && steps[..2] == [EcsFrame, Read(a)] && steps[..3] == steps;
    RunSnoc(start, steps, 0);
    RunSnoc(start, steps, 1);
    RunSnoc(start, steps, 2);
    NextKeepsDepth(OnFrame(start), Read(a));
  }

  /** A robot that was upright all the time. It is spawned with a clear motion mask, so the detector's starting
      bit is gone after the first frame, and its first motion message reports the upright tilt. */
  lemma {:induction false} LevelStartIsReported(start: Sys)
    requires AtBringUp(start) && start.residue == [] && start.link.touch.Some? && start.link.motion == Some(0)
    ensures var upright := [Motion(Events.TILT_NEG_Z)];
      var end := Run(start, [EcsFrame, Read(Spoken(upright)), EcsFrame]);
      && |Spoken(upright)| <= READ_MAX && end.heard == upright
      && UprightReports(end) == UprightReports(start) + 1
  {
    hide Run, OnRead, OnFrame, Spoken, Scan, HandleAll, Events.Triggered;
    var upright := [Motion(Events.TILT_NEG_Z)];
    assert AllMasks(upright);
    MasksAreShort(upright);
    FrameReadFrame(start, Spoken(upright));
    FirstFrameIsFlat(start);
    var first := OnFrame(start);
    FrameAddsItsMasks(start);
    OneMoreFrameCounts(start.masks, first.masks, Events.Tilted(Events.NegZ));
    MasksRead(first, upright);
    var t := OnRead(first, Spoken(upright));
    LastMotionShown(t, Events.TILT_NEG_Z);
    FrameAddsItsMasks(t);
    OneMoreFrameCounts(first.masks, OnFrame(t).masks, Events.Tilted(Events.NegZ));
  }

  lemma FirstFrameIsFlat(start: Sys)
    requires AtBringUp(start) && start.link.motion.Some?
    ensures OnFrame(start).link.motion == start.link.motion && OnFrame(start).heard == []
  {
    var events := start.outlet.events;
    HandleShape(start.link, events);
    if events != [] {
      assert events[..|events| - 1] == [] && !S.KindOf(events[0]).KMotion?;
    }
    assert S.Latest(events, {S.KMotion}) == None;
  }
}
