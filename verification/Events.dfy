/** Touch and motion edge events, and what they add up to over any run of frames. */
module Events {
  import opened Crc

  datatype TouchButton = Ok | Cancel | Center | Up | Left | Down | Right

  datatype TiltAxis = X | NegX | Y | NegY | Z | NegZ

  datatype Event = TouchPressed(button: TouchButton) | Shaken | Lifted | Dropped | Tilted(axis: TiltAxis)

  const SHAKE: u8 := 0x01
  const LIFT: u8 := 0x02
  const TILT_NEG_Z: u8 := 0x80

  function ButtonMask(b: TouchButton): u8 {
    match b
    case Ok => 0x02
    case Cancel => 0x04
    case Center => 0x08
    case Up => 0x10
    case Left => 0x20
    case Down => 0x40
    case Right => 0x80
  }

  function AxisMask(a: TiltAxis): u8 {
    match a
    case X => 0x04
    case NegX => 0x08
    case Y => 0x10
    case NegY => 0x20
    case Z => 0x40
    case NegZ => 0x80
  }

  const BUTTONS: seq<TouchButton> := [Ok, Cancel, Center, Up, Left, Down, Right]
  const AXES: seq<TiltAxis> := [X, NegX, Y, NegY, Z, NegZ]

  predicate IsSet(bits: u8, mask: u8) { bits & mask != 0 }

  predicate Rising(prev: u8, next: u8, mask: u8) { prev & mask == 0 && next & mask != 0 }

  predicate Falling(prev: u8, next: u8, mask: u8) { prev & mask != 0 && next & mask == 0 }

  /** The two bitmasks one frame sees. */
  datatype Masks = Masks(touch: u8, motion: u8)

  /** What the detector holds before its first frame: nothing touched, upright. */
  const START_MASKS: Masks := Masks(0, TILT_NEG_Z)

  /** When an event belongs to the frame that goes from `prev` to `next`. */
  predicate Due(e: Event, prev: Masks, next: Masks) {
    match e
    case TouchPressed(b) => Rising(prev.touch, next.touch, ButtonMask(b))
    case Shaken => Rising(prev.motion, next.motion, SHAKE)
    case Lifted => Rising(prev.motion, next.motion, LIFT)
    case Dropped => Falling(prev.motion, next.motion, LIFT)
    case Tilted(a) => Rising(prev.motion, next.motion, AxisMask(a))
  }

  /** All sixteen events, in the order one frame triggers them. */
  function EventAt(i: nat): Event
    requires i < 16
  {
    if i < 7 then TouchPressed(BUTTONS[i])
    else if i == 7 then Shaken
    else if i == 8 then Lifted
    else if i == 9 then Dropped
    else Tilted(AXES[i - 10])
  }

  /** The due ones among the first `n` events. */
  function DueUpTo(n: nat, prev: Masks, next: Masks): seq<Event>
    requires n <= 16
  {
    if n == 0 then []
    else DueUpTo(n - 1, prev, next) + (if Due(EventAt(n - 1), prev, next) then [EventAt(n - 1)] else [])
  }

  class EdgeState {
    var touch: u8
    var motion: u8

    function View(): Masks
      reads this
    {
      Masks(touch, motion)
    }

    constructor ()
      ensures View() == START_MASKS && touch == 0x00 && motion == 0x80
    {
      touch, motion := 0, TILT_NEG_Z;
    }

    /** Compare this frame's masks with the last frame's and trigger the edges. */
    method DetectEvents(now: Masks) returns (triggered: seq<Event>)
      modifies this
      ensures View() == now && triggered == DueUpTo(16, old(View()), now)
    {
      triggered := [];
      for i := 0 to 7
        invariant View() == old(View()) && triggered == DueUpTo(i, View(), now)
      {
        if Rising(touch, now.touch, ButtonMask(BUTTONS[i])) {
          triggered := triggered + [TouchPressed(BUTTONS[i])];
        }
      }
      if Rising(motion, now.motion, SHAKE) {
        triggered := triggered + [Shaken];
      }
      assert triggered == DueUpTo(8, View(), now);
      if Rising(motion, now.motion, LIFT) {
        triggered := triggered + [Lifted];
      }
      assert triggered == DueUpTo(9, View(), now);
      if Falling(motion, now.motion, LIFT) {
        triggered := triggered + [Dropped];
      }
      assert triggered == DueUpTo(10, View(), now);
      for i := 0 to 6
        invariant View() == old(View()) && triggered == DueUpTo(10 + i, View(), now)
      {
        if Rising(motion, now.motion, AxisMask(AXES[i])) {
          triggered := triggered + [Tilted(AXES[i])];
        }
      }
      touch, motion := now.touch, now.motion;
    }
  }

  // ---- which bit means what ------------------------------------------------

  /** An event, if it is due. */
  function If(due: bool, e: Event): seq<Event> {
    if due then [e] else []
  }

  lemma {:induction false} DueStep(n: nat, prev: Masks, next: Masks, e: Event)
    requires n < 16 && e == EventAt(n)
    ensures DueUpTo(n + 1, prev, next) == DueUpTo(n, prev, next) + If(Due(e, prev, next), e)
  {
  }

  lemma {:induction false} PressStep(n: nat, b: TouchButton, mask: u8, prev: Masks, next: Masks)
    requires n < 16 && EventAt(n) == TouchPressed(b) && ButtonMask(b) == mask
    ensures DueUpTo(n + 1, prev, next)
         == DueUpTo(n, prev, next) + If(prev.touch & mask == 0 && next.touch & mask != 0, TouchPressed(b))
  {
  }

  lemma {:induction false} TiltStep(n: nat, a: TiltAxis, mask: u8, prev: Masks, next: Masks)
    requires n < 16 && EventAt(n) == Tilted(a) && AxisMask(a) == mask
    ensures DueUpTo(n + 1, prev, next)
         == DueUpTo(n, prev, next) + If(prev.motion & mask == 0 && next.motion & mask != 0, Tilted(a))
  {
  }

  lemma {:induction false} LiftSteps(prev: Masks, next: Masks)
    ensures DueUpTo(10, prev, next) == DueUpTo(7, prev, next)
      + If(prev.motion & 0x01 == 0 && next.motion & 0x01 != 0, Shaken)
      + If(prev.motion & 0x02 == 0 && next.motion & 0x02 != 0, Lifted)
      + If(prev.motion & 0x02 != 0 && next.motion & 0x02 == 0, Dropped)
  {
    hide DueUpTo;
    DueStep(7, prev, next, Shaken);
    DueStep(8, prev, next, Lifted);
    DueStep(9, prev, next, Dropped);
  }

  /** The presses of a frame, by the bits of the touch mask that newly rise, in the order they are triggered. */
  lemma {:induction false} PressesOfAFrame(prev: Masks, next: Masks)
    ensures DueUpTo(7, prev, next) ==
      If(prev.touch & 0x02 == 0 && next.touch & 0x02 != 0, TouchPressed(Ok))
      + If(prev.touch & 0x04 == 0 && next.touch & 0x04 != 0, TouchPressed(Cancel))
      + If(prev.touch & 0x08 == 0 && next.touch & 0x08 != 0, TouchPressed(Center))
      + If(prev.touch & 0x10 == 0 && next.touch & 0x10 != 0, TouchPressed(Up))
      + If(prev.touch & 0x20 == 0 && next.touch & 0x20 != 0, TouchPressed(Left))
      + If(prev.touch & 0x40 == 0 && next.touch & 0x40 != 0, TouchPressed(Down))
      + If(prev.touch & 0x80 == 0 && next.touch & 0x80 != 0, TouchPressed(Right))
  {
    hide DueUpTo, If;
    FirstPress(prev, next);
    PressStep(1, Cancel, 0x04, prev, next);
    PressStep(2, Center, 0x08, prev, next);
    PressStep(3, Up, 0x10, prev, next);
    PressStep(4, Left, 0x20, prev, next);
    PressStep(5, Down, 0x40, prev, next);
    PressStep(6, Right, 0x80, prev, next);
  }

  lemma {:induction false} FirstPress(prev: Masks, next: Masks)
    ensures DueUpTo(1, prev, next) == If(prev.touch & 0x02 == 0 && next.touch & 0x02 != 0, TouchPressed(Ok))
  {
    PressStep(0, Ok, 0x02, prev, next);
    assert DueUpTo(0, prev, next) == [];
  }

  /** Everything a frame triggers, by the bits of the two masks and in this order. Bit 0 of the touch mask
      triggers nothing. */
  lemma {:induction false} EventsOfAFrame(prev: Masks, next: Masks)
    ensures DueUpTo(16, prev, next) ==
      If(prev.touch & 0x02 == 0 && next.touch & 0x02 != 0, TouchPressed(Ok))
      + If(prev.touch & 0x04 == 0 && next.touch & 0x04 != 0, TouchPressed(Cancel))
      + If(prev.touch & 0x08 == 0 && next.touch & 0x08 != 0, TouchPressed(Center))
      + If(prev.touch & 0x10 == 0 && next.touch & 0x10 != 0, TouchPressed(Up))
      + If(prev.touch & 0x20 == 0 && next.touch & 0x20 != 0, TouchPressed(Left))
      + If(prev.touch & 0x40 == 0 && next.touch & 0x40 != 0, TouchPressed(Down))
      + If(prev.touch & 0x80 == 0 && next.touch & 0x80 != 0, TouchPressed(Right))
      + If(prev.motion & 0x01 == 0 && next.motion & 0x01 != 0, Shaken)
      + If(prev.motion & 0x02 == 0 && next.motion & 0x02 != 0, Lifted)
      + If(prev.motion & 0x02 != 0 && next.motion & 0x02 == 0, Dropped)
      + If(prev.motion & 0x04 == 0 && next.motion & 0x04 != 0, Tilted(X))
      + If(prev.motion & 0x08 == 0 && next.motion & 0x08 != 0, Tilted(NegX))
      + If(prev.motion & 0x10 == 0 && next.motion & 0x10 != 0, Tilted(Y))
      + If(prev.motion & 0x20 == 0 && next.motion & 0x20 != 0, Tilted(NegY))
      + If(prev.motion & 0x40 == 0 && next.motion & 0x40 != 0, Tilted(Z))
      + If(prev.motion & 0x80 == 0 && next.motion & 0x80 != 0, Tilted(NegZ))
  {
    hide DueUpTo, If;
    PressesOfAFrame(prev, next);
    LiftSteps(prev, next);
    TiltStep(10, X, 0x04, prev, next);
    TiltStep(11, NegX, 0x08, prev, next);
    TiltStep(12, Y, 0x10, prev, next);
    TiltStep(13, NegY, 0x20, prev, next);
    TiltStep(14, Z, 0x40, prev, next);
    TiltStep(15, NegZ, 0x80, prev, next);
  }

  // ---- over a run of frames -----------------------------------------------

  function Before(frames: seq<Masks>, k: nat): Masks
    requires k < |frames|
  {
    if k == 0 then START_MASKS else frames[k - 1]
  }

  /** Everything triggered over a run, frame after frame. */
  function Triggered(frames: seq<Masks>): seq<Event> {
    if frames == [] then []
    else
      var k := |frames| - 1;
      Triggered(frames[..k]) + DueUpTo(16, Before(frames, k), frames[k])
  }

  /** How often an event occurs. */
  function Count(events: seq<Event>, e: Event): nat {
    if events == [] then 0 else Count(events[..|events| - 1], e) + (if events[|events| - 1] == e then 1 else 0)
  }

  lemma {:induction false} CountIsMultiplicity(events: seq<Event>, e: Event)
    ensures Count(events, e) == multiset(events)[e]
  {
    if events != [] {
      var front, last := events[..|events| - 1], events[|events| - 1];
      assert events == front + [last];
      CountIsMultiplicity(front, e);
    }
  }

  lemma {:induction false} CountConcat(a: seq<Event>, b: seq<Event>, e: Event)
    ensures Count(a + b, e) == Count(a, e) + Count(b, e)
    decreases |b|
  {
    if b == [] {
      assert a + b == a;
    } else {
      assert (a + b)[..|a + b| - 1] == a + b[..|b| - 1];
      CountConcat(a, b[..|b| - 1], e);
    }
  }

  /** Where an event stands in the order of one frame. */
  function Place(e: Event): (i: nat)
    ensures i < 16 && EventAt(i) == e
  {
    match e
    case TouchPressed(b) =>
      (match b
       case Ok => 0 case Cancel => 1 case Center => 2 case Up => 3 case Left => 4 case Down => 5 case Right => 6)
    case Shaken => 7
    case Lifted => 8
    case Dropped => 9
    case Tilted(a) => (match a case X => 10 case NegX => 11 case Y => 12 case NegY => 13 case Z => 14 case NegZ => 15)
  }

  lemma PlaceIsUnique(i: nat)
    requires i < 16
    ensures Place(EventAt(i)) == i
  {
  }

  lemma {:induction false} CountUpTo(n: nat, prev: Masks, next: Masks, e: Event)
    requires n <= 16
    ensures Count(DueUpTo(n, prev, next), e) == if Place(e) < n && Due(e, prev, next) then 1 else 0
    decreases n
  {
    if n != 0 {
      CountUpTo(n - 1, prev, next, e);
      PlaceIsUnique(n - 1);
      var last := EventAt(n - 1);
      assert DueUpTo(n - 1, prev, next) + [] == DueUpTo(n - 1, prev, next);
      CountConcat(DueUpTo(n - 1, prev, next), [last], e);
      assert [last][..0] == [];
      assert Count([last], e) == if last == e then 1 else 0;
    }
  }

  /** In how many of the first `k` frames an event was due. */
  function DueFrames(frames: seq<Masks>, e: Event): nat {
    if frames == [] then 0
    else
      var k := |frames| - 1;
      DueFrames(frames[..k], e) + (if Due(e, Before(frames, k), frames[k]) then 1 else 0)
  }

  /** No event is lost, repeated or invented: it fires once for every frame it is due in. */
  lemma {:induction false} FiresOncePerDueFrame(frames: seq<Masks>, e: Event)
    ensures Count(Triggered(frames), e) == DueFrames(frames, e)
  {
    if frames != [] {
      var k := |frames| - 1;
      FiresOncePerDueFrame(frames[..k], e);
      CountUpTo(16, Before(frames, k), frames[k], e);
      CountConcat(Triggered(frames[..k]), DueUpTo(16, Before(frames, k), frames[k]), e);
    }
  }

  // ---- a press is a maximal block of frames with the bit set ---------------

  function SkipSet(bits: seq<bool>): (r: seq<bool>)
    ensures |r| <= |bits|
  {
    if bits == [] || !bits[0] then bits else SkipSet(bits[1..])
  }

  /** The number of maximal blocks of consecutive `true`s. */
  function Blocks(bits: seq<bool>): nat
    decreases |bits|
  {
    if bits == [] then 0
    else if !bits[0] then Blocks(bits[1..])
    else 1 + Blocks(SkipSet(bits[1..]))
  }

  lemma {:induction false} SkipSetSnoc(bits: seq<bool>, x: bool)
    ensures SkipSet(bits + [x]) == if SkipSet(bits) == [] then (if x then [] else [x]) else SkipSet(bits) + [x]
    ensures SkipSet(bits) != [] ==> SkipSet(bits)[|SkipSet(bits)| - 1] == bits[|bits| - 1]
    ensures SkipSet(bits) == [] ==> forall k :: 0 <= k < |bits| ==> bits[k]
  {
    if bits == [] {
      assert [x][1..] == [];
    } else if bits[0] {
      assert (bits + [x])[1..] == bits[1..] + [x];
      SkipSetSnoc(bits[1..], x);
      assert forall k :: 1 <= k < |bits| ==> bits[k] == bits[1..][k - 1];
    }
  }

  /** A new block begins exactly with a set bit behind a clear one. */
  lemma {:induction false} BlocksSnoc(bits: seq<bool>, x: bool)
    ensures Blocks(bits + [x]) == Blocks(bits) + (if x && (bits == [] || !bits[|bits| - 1]) then 1 else 0)
    decreases |bits|
  {
    var all := bits + [x];
    if bits == [] {
      assert all[1..] == [];
    } else {
      assert all[1..] == bits[1..] + [x];
      if !bits[0] {
        BlocksSnoc(bits[1..], x);
      } else {
        var rest := SkipSet(bits[1..]);
        SkipSetSnoc(bits[1..], x);
        if rest != [] {
          BlocksSnoc(rest, x);
        } else {
          assert bits[|bits| - 1];
          assert !x ==> [x][1..] == [];
        }
      }
    }
  }

  function ButtonBits(frames: seq<Masks>, b: TouchButton): (r: seq<bool>)
    ensures |r| == |frames|
  {
    seq(|frames|, k requires 0 <= k < |frames| => IsSet(frames[k].touch, ButtonMask(b)))
  }

  lemma {:induction false} DuePressesAreBlocks(frames: seq<Masks>, b: TouchButton)
    ensures DueFrames(frames, TouchPressed(b)) == Blocks(ButtonBits(frames, b))
  {
    if frames != [] {
      var k := |frames| - 1;
      var bits := ButtonBits(frames[..k], b);
      DuePressesAreBlocks(frames[..k], b);
      BlocksSnoc(bits, IsSet(frames[k].touch, ButtonMask(b)));
      assert ButtonBits(frames, b) == bits + [IsSet(frames[k].touch, ButtonMask(b))];
      NothingTouchedAtStart(b);
    }
  }

  lemma NothingTouchedAtStart(b: TouchButton)
    ensures !IsSet(START_MASKS.touch, ButtonMask(b))
  {
  }

  /** Over any run, a button's press events number the maximal blocks of frames with its bit set. */
  lemma {:induction false} PressesAreBlocks(frames: seq<Masks>, b: TouchButton)
    ensures Count(Triggered(frames), TouchPressed(b)) == Blocks(ButtonBits(frames, b))
  {
    FiresOncePerDueFrame(frames, TouchPressed(b));
    DuePressesAreBlocks(frames, b);
  }

  /** Where a motion bit is set. */
  function MotionBits(frames: seq<Masks>, mask: u8): (r: seq<bool>)
    ensures |r| == |frames|
  {
    seq(|frames|, k requires 0 <= k < |frames| => IsSet(frames[k].motion, mask))
  }

  /** The first frame already sees the bit the detector starts with. */
  predicate StartsWith(frames: seq<Masks>, mask: u8) {
    frames != [] && IsSet(frames[0].motion, mask) && IsSet(START_MASKS.motion, mask)
  }

  lemma {:induction false} DueRisesAreBlocks(frames: seq<Masks>, e: Event, mask: u8)
    requires forall prev, next: Masks :: Due(e, prev, next) <==> Rising(prev.motion, next.motion, mask)
    ensures DueFrames(frames, e) + (if StartsWith(frames, mask) then 1 else 0) == Blocks(MotionBits(frames, mask))
  {
    if frames != [] {
      var k := |frames| - 1;
      var bits, last := MotionBits(frames[..k], mask), IsSet(frames[k].motion, mask);
      DueRisesAreBlocks(frames[..k], e, mask);
      BlocksSnoc(bits, last);
      assert MotionBits(frames, mask) == bits + [last];
      assert Due(e, Before(frames, k), frames[k]) <==> Rising(Before(frames, k).motion, frames[k].motion, mask);
    }
  }

  /** Over any run, an axis is reported once for every maximal block of frames tilted onto it, but for a first
      block of the upright axis that the very first frame is in. */
  lemma {:induction false} TiltsAreBlocks(frames: seq<Masks>, a: TiltAxis)
    ensures Count(Triggered(frames), Tilted(a))
            + (if a == NegZ && frames != [] && IsSet(frames[0].motion, TILT_NEG_Z) then 1 else 0)
            == Blocks(MotionBits(frames, AxisMask(a)))
  {
    FiresOncePerDueFrame(frames, Tilted(a));
    DueRisesAreBlocks(frames, Tilted(a), AxisMask(a));
    OnlyUprightAtStart(a);
  }

  lemma OnlyUprightAtStart(a: TiltAxis)
    ensures IsSet(START_MASKS.motion, AxisMask(a)) <==> a == NegZ
  {
  }

  /** And shaking once for every block of shaken frames. */
  lemma {:induction false} ShakesAreBlocks(frames: seq<Masks>)
    ensures Count(Triggered(frames), Shaken) == Blocks(MotionBits(frames, SHAKE))
  {
    FiresOncePerDueFrame(frames, Shaken);
    DueRisesAreBlocks(frames, Shaken, SHAKE);
    assert START_MASKS.motion & SHAKE == 0;
  }

  // ---- lifts and drops alternate ------------------------------------------

  predicate LiftOrDrop(e: Event) { e == Lifted || e == Dropped }

  function Lifts(events: seq<Event>): seq<Event> {
    if events == [] then []
    else Lifts(events[..|events| - 1]) + (if LiftOrDrop(events[|events| - 1]) then [events[|events| - 1]] else [])
  }

  lemma {:induction false} LiftsConcat(a: seq<Event>, b: seq<Event>)
    ensures Lifts(a + b) == Lifts(a) + Lifts(b)
    decreases |b|
  {
    if b == [] {
      assert a + b == a;
    } else {
      assert (a + b)[..|a + b| - 1] == a + b[..|b| - 1];
      LiftsConcat(a, b[..|b| - 1]);
    }
  }

  function LiftPart(up: bool, down: bool): seq<Event> {
    if up then [Lifted] else if down then [Dropped] else []
  }

  lemma {:induction false} LiftsSnoc(events: seq<Event>, e: Event)
    ensures Lifts(events + [e]) == if LiftOrDrop(e) then Lifts(events) + [e] else Lifts(events)
  {
    assert (events + [e])[..|events + [e]| - 1] == events;
    assert Lifts(events) + [] == Lifts(events);
  }

  lemma {:induction false} LiftsUpTo(n: nat, prev: Masks, next: Masks)
    requires n <= 16
    ensures Lifts(DueUpTo(n, prev, next))
            == LiftPart(n > 8 && Due(Lifted, prev, next), n > 9 && Due(Dropped, prev, next))
    decreases n
  {
    if n != 0 {
      var last, before := EventAt(n - 1), DueUpTo(n - 1, prev, next);
      LiftsUpTo(n - 1, prev, next);
      LiftsSnoc(before, last);
      assert before + [] == before;
      NotBothEdges(prev, next);
    }
  }

  lemma NotBothEdges(prev: Masks, next: Masks)
    ensures !(Due(Lifted, prev, next) && Due(Dropped, prev, next))
  {
  }

  /** Whether the robot is off the ground after these frames. */
  predicate Aloft(frames: seq<Masks>) {
    frames != [] && IsSet(frames[|frames| - 1].motion, LIFT)
  }

  ghost predicate Alternating(lifts: seq<Event>) {
    forall i :: 0 <= i < |lifts| ==> lifts[i] == if i % 2 == 0 then Lifted else Dropped
  }

  /** What the last frame adds, in terms of being aloft before and after it. */
  lemma {:induction false} LastFrameLifts(frames: seq<Masks>, before: bool, now: bool)
    requires frames != [] && before == Aloft(frames[..|frames| - 1]) && now == Aloft(frames)
    ensures Lifts(Triggered(frames))
            == Lifts(Triggered(frames[..|frames| - 1])) + LiftPart(!before && now, before && !now)
  {
    var k := |frames| - 1;
    LiftsConcat(Triggered(frames[..k]), DueUpTo(16, Before(frames, k), frames[k]));
    LiftsUpTo(16, Before(frames, k), frames[k]);
    LiftEdge(frames, Before(frames, k), frames[k]);
  }

  /** The lifts and drops a run should show, from when it is aloft. */
  function LiftTrace(frames: seq<Masks>): seq<Event> {
    if frames == [] then []
    else
      var before, now := Aloft(frames[..|frames| - 1]), Aloft(frames);
      LiftTrace(frames[..|frames| - 1]) + LiftPart(!before && now, before && !now)
  }

  lemma {:induction false} LiftsAreTraced(frames: seq<Masks>)
    ensures Lifts(Triggered(frames)) == LiftTrace(frames)
  {
    if frames != [] {
      LiftsAreTraced(frames[..|frames| - 1]);
      LastFrameLifts(frames, Aloft(frames[..|frames| - 1]), Aloft(frames));
    }
  }

  lemma {:induction false} TraceAlternates(frames: seq<Masks>)
    ensures Alternating(LiftTrace(frames)) && |LiftTrace(frames)| % 2 == if Aloft(frames) then 1 else 0
  {
    if frames != [] {
      var before, now := Aloft(frames[..|frames| - 1]), Aloft(frames);
      TraceAlternates(frames[..|frames| - 1]);
      NextLift(LiftTrace(frames[..|frames| - 1]), LiftTrace(frames), !before && now, before && !now);
    }
  }

  /** Lifts and drops strictly alternate, a lift first, and an odd one out means it is aloft now. */
  lemma {:induction false} LiftsAlternate(frames: seq<Masks>)
    ensures Alternating(Lifts(Triggered(frames)))
    ensures |Lifts(Triggered(frames))| % 2 == if Aloft(frames) then 1 else 0
  {
    LiftsAreTraced(frames);
    TraceAlternates(frames);
  }

  lemma NextLift(before: seq<Event>, after: seq<Event>, up: bool, down: bool)
    requires Alternating(before) && !(up && down)
    requires (up ==> |before| % 2 == 0) && (down ==> |before| % 2 == 1)
    requires after == before + LiftPart(up, down)
    ensures Alternating(after) && |after| == |before| + (if up || down then 1 else 0)
  {
  }

  lemma LiftEdge(frames: seq<Masks>, prev: Masks, next: Masks)
    requires frames != [] && prev == Before(frames, |frames| - 1) && next == frames[|frames| - 1]
    ensures var before, now := Aloft(frames[..|frames| - 1]), Aloft(frames);
      (Due(Lifted, prev, next) <==> !before && now) && (Due(Dropped, prev, next) <==> before && !now)
  {
    assert !IsSet(START_MASKS.motion, LIFT);
  }

  /** Lifts minus drops is the lift bit. */
  lemma {:induction false} LiftBalance(frames: seq<Masks>)
    ensures Count(Triggered(frames), Lifted) == Count(Triggered(frames), Dropped) + (if Aloft(frames) then 1 else 0)
  {
    FiresOncePerDueFrame(frames, Lifted);
    FiresOncePerDueFrame(frames, Dropped);
    DueBalance(frames);
  }

  lemma {:induction false} DueBalance(frames: seq<Masks>)
    ensures DueFrames(frames, Lifted) == DueFrames(frames, Dropped) + (if Aloft(frames) then 1 else 0)
  {
    if frames != [] {
      var k := |frames| - 1;
      DueBalance(frames[..k]);
      LiftEdge(frames, Before(frames, k), frames[k]);
    }
  }

  /** One frame by itself never reports the upright tilt, and nothing at all if it sees a robot upright and
      untouched; every other tilt it sees is reported. A robot whose motion mask is still clear in that
      frame is another matter: its first upright reading is reported later. */
  lemma LevelStartIsQuiet(first: Masks)
    ensures Count(Triggered([first]), Tilted(NegZ)) == 0
    ensures forall a: TiltAxis :: a != NegZ ==>
              Count(Triggered([first]), Tilted(a)) == if IsSet(first.motion, AxisMask(a)) then 1 else 0
    ensures forall e: Event :: Count(Triggered([START_MASKS]), e) == 0
  {
    OneFrameCounts(first, Tilted(NegZ));
    forall a: TiltAxis | a != NegZ
      ensures Count(Triggered([first]), Tilted(a)) == if IsSet(first.motion, AxisMask(a)) then 1 else 0
    {
      OneFrameCounts(first, Tilted(a));
      assert START_MASKS.motion & AxisMask(a) == 0;
    }
    forall e: Event ensures Count(Triggered([START_MASKS]), e) == 0 {
      OneFrameCounts(START_MASKS, e);
    }
  }

  lemma {:induction false} OneFrameCounts(first: Masks, e: Event)
    ensures Count(Triggered([first]), e) == if Due(e, START_MASKS, first) then 1 else 0
  {
    FiresOncePerDueFrame([first], e);
    assert [first][..0] == [];
    assert DueFrames([first], e) == DueFrames([], e) + (if Due(e, START_MASKS, first) then 1 else 0);
  }
}
