/** The Alvik driver: bring-up, then pumping UART reads through the decoder into the
    snapshot cell and the event queue. */
module Driver {
  import opened Wrappers
  import opened Crc
  import opened UcPack
  import opened Resync
  import opened Protocol
  import opened Snapshot
  import opened AsyncBridge

  const READ_MAX: nat := 128
  const EVENT_DEPTH: nat := 32
  const COMMAND_DEPTH: nat := 16

  /** The status a frame carries, as a list of none or one. */
  function Said(f: Frame): seq<Status>
    requires |f.payload| == PAYLOAD_MAX
  {
    Listed(Decode(f))
  }

  function Listed(status: Option<Status>): seq<Status> {
    if status.Some? then [status.value] else []
  }

  /** The status messages among the frames, in order. */
  function Statuses(frames: seq<Frame>): seq<Status>
    requires forall k :: 0 <= k < |frames| ==> |frames[k].payload| == PAYLOAD_MAX
  {
    if frames == [] then []
    else Statuses(frames[..|frames| - 1]) + Said(frames[|frames| - 1])
  }

  lemma {:induction false} ScannedPayloads(s: seq<u8>)
    ensures forall k :: 0 <= k < |Scan(s).0| ==> |Scan(s).0[k].payload| == PAYLOAD_MAX
    decreases |s|
  {
    match Head(s) {
      case Wait =>
      case Drop => ScannedPayloads(s[1..]);
      case Emit(frame, total) => ScannedPayloads(s[total..]);
    }
  }

  /** Everything a byte stream says. */
  function Heard(s: seq<u8>): seq<Status> {
    ScannedPayloads(s);
    Statuses(Scan(s).0)
  }

  /** The discrete messages offered to a queue one after another. */
  function OfferAll(queue: seq<Status>, statuses: seq<Status>): (r: seq<Status>)
    requires |queue| <= EVENT_DEPTH
    ensures |r| <= EVENT_DEPTH
  {
    if statuses == [] then queue
    else
      var before, last := OfferAll(queue, statuses[..|statuses| - 1]), statuses[|statuses| - 1];
      if Discrete(last) then Offer(before, EVENT_DEPTH, last) else before
  }

  function DiscreteOf(statuses: seq<Status>): seq<Status> {
    if statuses == [] then []
    else
      var last := statuses[|statuses| - 1];
      DiscreteOf(statuses[..|statuses| - 1]) + (if Discrete(last) then [last] else [])
  }

  /** Exactly what a burst leaves in the queue: its discrete messages in order, cut off where the
      queue is full. What does not fit is lost from the new end. */
  lemma {:induction false} OfferAllExactly(queue: seq<Status>, statuses: seq<Status>)
    requires |queue| <= EVENT_DEPTH
    ensures var all := queue + DiscreteOf(statuses);
            OfferAll(queue, statuses) == if |all| <= EVENT_DEPTH then all else all[..EVENT_DEPTH]
    ensures |queue| <= |OfferAll(queue, statuses)| && OfferAll(queue, statuses)[..|queue|] == queue
  {
    if statuses != [] {
      var before, last := statuses[..|statuses| - 1], statuses[|statuses| - 1];
      OfferAllExactly(queue, before);
      var all := queue + DiscreteOf(before);
      if Discrete(last) {
        assert queue + DiscreteOf(statuses) == all + [last];
      } else {
        assert DiscreteOf(statuses) == DiscreteOf(before);
      }
    }
  }

  ghost predicate AnyContinuous(statuses: seq<Status>) {
    exists k :: 0 <= k < |statuses| && !Discrete(statuses[k])
  }

  ghost predicate Waiting(s: seq<u8>) { Head(s) == Wait }

  // ---- hearing in parts ---------------------------------------------------

  /** One more frame adds the same status behind any two lists. */
  lemma OneMoreFrame(a: seq<Frame>, b: seq<Frame>, f: Frame) returns (said: seq<Status>)
    requires forall k :: 0 <= k < |a| ==> |a[k].payload| == PAYLOAD_MAX
    requires forall k :: 0 <= k < |b| ==> |b[k].payload| == PAYLOAD_MAX
    requires |f.payload| == PAYLOAD_MAX
    ensures Statuses(a + [f]) == Statuses(a) + said && Statuses(b + [f]) == Statuses(b) + said
  {
    said := Said(f);
    assert (a + [f])[..|a|] == a && (b + [f])[..|b|] == b;
  }

  lemma {:induction false} StatusesConcat(a: seq<Frame>, b: seq<Frame>)
    requires forall k :: 0 <= k < |a| ==> |a[k].payload| == PAYLOAD_MAX
    requires forall k :: 0 <= k < |b| ==> |b[k].payload| == PAYLOAD_MAX
    ensures Statuses(a + b) == Statuses(a) + Statuses(b)
    decreases |b|
  {
    if b == [] {
      assert a + b == a;
    } else {
      var front, last := b[..|b| - 1], b[|b| - 1];
      assert b == front + [last] && a + b == (a + front) + [last];
      StatusesConcat(a, front);
      var said := OneMoreFrame(front, a + front, last);
      AppendTwice(Statuses(a), Statuses(front), said);
    }
  }

  /** What a stream says does not depend on where it is cut. */
  lemma {:induction false} HeardConcat(s: seq<u8>, t: seq<u8>)
    ensures Heard(s + t) == Heard(s) + Heard(Scan(s).1 + t)
    ensures Scan(s + t).1 == Scan(Scan(s).1 + t).1
  {
    ScanConcat(s, t);
    ScannedPayloads(s);
    ScannedPayloads(Scan(s).1 + t);
    StatusesConcat(Scan(s).0, Scan(Scan(s).1 + t).0);
  }

  /** Popping one frame hears at most one status and leaves the rest to be heard. */
  lemma {:induction false} PopHears(s: seq<u8>)
    ensures var n := Next(s);
      && Scan(s).1 == Scan(n.1).1
      && (n.0 == None ==> Heard(s) == [] && Scan(s).1 == n.1)
      && (n.0.Some? ==> |n.0.value.payload| == PAYLOAD_MAX && Heard(s) == Statuses([n.0.value]) + Heard(n.1))
  {
    var n := Next(s);
    ScanIsRepeatedNext(s);
    ScannedPayloads(s);
    ResidueWaits(s);
    if n.0.Some? {
      var f := n.0.value;
      ScannedPayloads(n.1);
      assert Scan(s).0[0] == f;
      StatusesConcat([f], Scan(n.1).0);
    } else {
      assert Scan(n.1).0 == [];
    }
  }

  lemma OneFrame(f: Frame)
    requires |f.payload| == PAYLOAD_MAX
    ensures Statuses([f]) == Said(f)
  {
    assert [f][..0] == [];
    assert Statuses([f]) == Statuses([f][..0]) + Said(f);
  }

  lemma AppendTwice(a: seq<Status>, b: seq<Status>, c: seq<Status>)
    ensures a + (b + c) == (a + b) + c
  {
  }

  lemma {:induction false} WaitingSaysNothing(s: seq<u8>)
    requires Waiting(s)
    ensures Heard(s) == [] && Scan(s).1 == s
  {
  }

  /** What the driver keeps between reads besides the decoder: its snapshot, and what it has published. */
  datatype Outlet = Outlet(snapshot: Snap, cell: Option<Snap>, events: seq<Status>)

  function Absorb(o: Outlet, s: Status): Outlet {
    if Discrete(s) then o.(events := Offer(o.events, EVENT_DEPTH, s))
    else var snap := Fold(o.snapshot, s); Outlet(snap, Some(snap), o.events)
  }

  function AbsorbAll(o: Outlet, heard: seq<Status>): Outlet {
    if heard == [] then o else Absorb(AbsorbAll(o, heard[..|heard| - 1]), heard[|heard| - 1])
  }

  lemma {:induction false} AbsorbAllConcat(o: Outlet, a: seq<Status>, b: seq<Status>)
    ensures AbsorbAll(o, a + b) == AbsorbAll(AbsorbAll(o, a), b)
    decreases |b|
  {
    if b == [] {
      assert a + b == a;
    } else {
      assert (a + b)[..|a + b| - 1] == a + b[..|b| - 1];
      AbsorbAllConcat(o, a, b[..|b| - 1]);
    }
  }

  /** The startup facts: whether the 0x00 ack was heard, and the last firmware version. */
  ghost predicate StartupFacts(heard: seq<Status>, ack: bool, version: Option<Status>) {
    (ack <==> Ack(0) in heard) && version == Snapshot.Latest(heard, {KFwVersion})
  }

  /** By positions: the ack is any ack message with byte 00, the version the last version message. */
  lemma {:induction false} StartupExactly(heard: seq<Status>, ack: bool, version: Option<Status>)
    ensures StartupFacts(heard, ack, version) <==>
      && (ack <==> exists i :: 0 <= i < |heard| && heard[i] == Ack(0x00))
      && match version
         case None => forall i :: 0 <= i < |heard| ==> !heard[i].FwVersion?
         case Some(v) => exists i :: 0 <= i < |heard| && heard[i] == v && v.FwVersion?
                                     && forall j :: i < j < |heard| ==> !heard[j].FwVersion?
  {
    forall s ensures Snapshot.Latest(heard, {KFwVersion}) == Some(s) <==>
                     exists i: nat :: IsLatestAt(heard, {KFwVersion}, i) && heard[i] == s
    {
      LatestIsLast(heard, {KFwVersion}, s);
    }
    if Snapshot.Latest(heard, {KFwVersion}) == None {
      NoVersion(heard);
    }
  }

  lemma {:induction false} NoVersion(heard: seq<Status>)
    requires Snapshot.Latest(heard, {KFwVersion}) == None
    ensures forall i :: 0 <= i < |heard| ==> !heard[i].FwVersion?
  {
    if heard != [] {
      NoVersion(heard[..|heard| - 1]);
      assert forall i :: 0 <= i < |heard| - 1 ==> heard[i] == heard[..|heard| - 1][i];
    }
  }

  lemma StartupOneMore(heard: seq<Status>, s: Status, ack: bool, version: Option<Status>)
    requires StartupFacts(heard, ack, version)
    ensures StartupFacts(heard + [s], ack || s == Ack(0), if s.FwVersion? then Some(s) else version)
  {
    LatestSnoc(heard, s, {KFwVersion});
  }

  /** Absorbing a burst of messages: the snapshot folds them all, the cell holds that very snapshot
      as soon as one was continuous, the queue was offered the discrete ones in order. */
  lemma {:induction false} AbsorbAllIs(o: Outlet, heard: seq<Status>)
    requires |o.events| <= EVENT_DEPTH
    ensures AbsorbAll(o, heard) == Outlet(
      FoldAll(o.snapshot, heard),
      if AnyContinuous(heard) then Some(FoldAll(o.snapshot, heard)) else o.cell,
      OfferAll(o.events, heard))
  {
    if heard != [] {
      var before, s := heard[..|heard| - 1], heard[|heard| - 1];
      AbsorbAllIs(o, before);
      assert before + [s] == heard;
      ContinuousSnoc(before, s);
      if Discrete(s) {
        DiscreteLeavesSnapshot(FoldAll(o.snapshot, before), s);
      }
    }
  }

  lemma ContinuousSnoc(heard: seq<Status>, s: Status)
    ensures AnyContinuous(heard + [s]) <==> AnyContinuous(heard) || !Discrete(s)
  {
    var all := heard + [s];
    if AnyContinuous(heard) {
      var k :| 0 <= k < |heard| && !Discrete(heard[k]);
      assert all[k] == heard[k];
    }
    assert all[|heard|] == s;
  }

  /** What a UART that takes `room` bytes puts on the wire of a buffer: all of it, or a first part. */
  function Taken(bytes: seq<u8>, room: nat): seq<u8> {
    if room < |bytes| then bytes[..room] else bytes
  }

  /** Illuminator on, behaviours 1 and 2, servos centred, behind what was already written. */
  function WithInit(tx: seq<u8>, rooms: (nat, nat, nat, nat)): seq<u8> {
    tx + Taken(Encode(SetLeds(0x02)), rooms.0) + Taken(Encode(SetBehavior(1)), rooms.1)
    + Taken(Encode(SetBehavior(2)), rooms.2) + Taken(Encode(SetServo(90, 90)), rooms.3)
  }

  // ---- the driver ---------------------------------------------------------

  class AlvikDriver {
    var decoder: Decoder
    const encoder: Encoder
    const snapshot: StatusSnapshot
    const state: Latest<Snap>
    const events: Queue<Status>
    /** What the ECS systems want sent. */
    const commands: Queue<Command>
    /** Everything written to the UART. */
    var tx: seq<u8>

    ghost predicate Valid()
      reads this, decoder, events, commands
    {
      && decoder.Valid() && encoder.Valid() && events.Valid() && events.capacity == EVENT_DEPTH
      && commands.Valid() && commands.capacity == COMMAND_DEPTH && commands as object != events
      && encoder.buf != decoder.buf
    }

    constructor ()
      ensures Valid() && fresh({decoder, decoder.buf, encoder.buf, snapshot, state.inner, events, commands})
      ensures decoder.Bytes() == [] && snapshot.View() == DEFAULT && state.inner.value == None
      ensures events.items == [] && commands.items == [] && tx == []
      ensures events.capacity == 32 && commands.capacity == 16
    {
      decoder := new Decoder();
      encoder := new Encoder();
      snapshot := new StatusSnapshot();
      state := new Latest();
      events := new Queue(EVENT_DEPTH);
      commands := new Queue(COMMAND_DEPTH);
      tx := [];
    }

    ghost function View(): Outlet
      reads snapshot, state.inner, events
    {
      Outlet(snapshot.View(), state.inner.value, events.items)
    }

    /** One status: into the snapshot and published, or on to the event queue. */
    method Dispatch(status: Status)
      requires Valid()
      modifies snapshot, state.inner, events
      ensures Valid() && View() == Absorb(old(View()), status)
    {
      var discrete := snapshot.Apply(status);
      match discrete {
        case None => state.Send(snapshot.View());
        case Some(d) =>
          DiscreteLeavesSnapshot(old(snapshot.View()), status);
          var _ := events.Send(d);
      }
    }

    /** Pop one frame, if there is one, and decode it. */
    method NextStatus() returns (popped: bool, status: Option<Status>)
      requires Valid()
      modifies decoder, decoder.buf
      ensures Valid() && Scan(old(decoder.Bytes())).1 == Scan(decoder.Bytes()).1
      ensures Heard(old(decoder.Bytes())) == Listed(status) + Heard(decoder.Bytes())
      ensures if popped then |decoder.Bytes()| < |old(decoder.Bytes())| else status == None && Waiting(decoder.Bytes())
    {
      status := None;
      PopHears(decoder.Bytes());
      ResidueWaits(decoder.Bytes());
      var frame := decoder.Pop();
      popped := frame.Some?;
      if popped {
        OneFrame(frame.value);
        status := Decode(frame.value);
      }
    }

    /** One turn of the decode loop: pop, decode, dispatch. `said` is what the popped frame said. */
    method PopAndDispatch() returns (popped: bool, ghost said: seq<Status>)
      requires Valid()
      modifies decoder, decoder.buf, snapshot, state.inner, events
      ensures Valid() && Scan(old(decoder.Bytes())).1 == Scan(decoder.Bytes()).1
      ensures View() == AbsorbAll(old(View()), said)
      ensures Heard(old(decoder.Bytes())) == said + Heard(decoder.Bytes())
      ensures if popped then |decoder.Bytes()| < |old(decoder.Bytes())| else Waiting(decoder.Bytes())
    {
      var status;
      popped, status := NextStatus();
      said := Listed(status);
      if status.Some? {
        Dispatch(status.value);
        assert said[..0] == [];
      }
    }

    /** One completed UART read of the main loop: extend, then pop and dispatch until dry. At most
        28 bytes wait between reads, so the buffer never has to drop one. */
    method OnRead(bytes: seq<u8>)
      requires Valid() && Waiting(decoder.Bytes()) && |bytes| <= 128
      modifies decoder, decoder.buf, snapshot, state.inner, events
      ensures Valid() && Waiting(decoder.Bytes())
      ensures decoder.Bytes() == Scan(old(decoder.Bytes()) + bytes).1
      ensures View() == AbsorbAll(old(View()), Heard(old(decoder.Bytes()) + bytes))
    {
      hide Scan, Heard;
      ghost var stream, start := decoder.Bytes() + bytes, View();
      assert |stream| < FRAME_MAX + READ_MAX && FRAME_MAX + READ_MAX <= CAP;
      decoder.Extend(bytes);
      ghost var heard: seq<Status> := [];
      var popped := true;
      while popped
        invariant Valid()
        invariant Scan(stream).1 == Scan(decoder.Bytes()).1
        invariant Heard(stream) == heard + Heard(decoder.Bytes())
        invariant View() == AbsorbAll(start, heard)
        invariant !popped ==> Waiting(decoder.Bytes())
        decreases popped, decoder.len
      {
        ghost var said;
        popped, said := PopAndDispatch();
        AbsorbAllConcat(start, heard, said);
        AppendTwice(heard, said, Heard(decoder.Bytes()));
        heard := heard + said;
      }
      WaitingSaysNothing(decoder.Bytes());
      assert heard + [] == heard;
    }

    /** Many reads, whatever their sizes: the outcome depends only on the bytes joined together. */
    method Pump(chunks: seq<seq<u8>>)
      requires Valid() && Waiting(decoder.Bytes()) && forall k :: 0 <= k < |chunks| ==> |chunks[k]| <= READ_MAX
      modifies decoder, decoder.buf, snapshot, state.inner, events
      ensures Valid() && Waiting(decoder.Bytes())
      ensures decoder.Bytes() == Scan(old(decoder.Bytes()) + Join(chunks)).1
      ensures View() == AbsorbAll(old(View()), Heard(old(decoder.Bytes()) + Join(chunks)))
    {
      hide Scan, Heard;
      ghost var first, start := decoder.Bytes(), View();
      assert first + Join([]) == first;
      WaitingSaysNothing(first);
      for n := 0 to |chunks|
        invariant Valid() && Waiting(decoder.Bytes())
        invariant decoder.Bytes() == Scan(first + Join(chunks[..n])).1
        invariant View() == AbsorbAll(start, Heard(first + Join(chunks[..n])))
      {
        ghost var sofar := first + Join(chunks[..n]);
        assert chunks[..n + 1][..n] == chunks[..n];
        assert first + Join(chunks[..n + 1]) == sofar + chunks[n];
        HeardConcat(sofar, chunks[n]);
        AbsorbAllConcat(start, Heard(sofar), Heard(Scan(sofar).1 + chunks[n]));
        OnRead(chunks[n]);
      }
      assert chunks[..|chunks|] == chunks;
    }

    /** Encode and write. The UART takes `room` bytes of it; a write that fails or stops early is only logged. */
    method Transmit(command: Command, room: nat)
      requires Valid()
      modifies encoder.buf, `tx
      ensures Valid() && tx == old(tx) + Taken(Encode(command), room) && decoder.Bytes() == old(decoder.Bytes())
    {
      var bytes := EncodeCommand(command, encoder);
      tx := tx + (if room < |bytes| then bytes[..room] else bytes);
    }

    method TransmitInit(rooms: (nat, nat, nat, nat))
      requires Valid()
      modifies encoder.buf, `tx
      ensures Valid() && tx == WithInit(old(tx), rooms) && decoder.Bytes() == old(decoder.Bytes())
    {
      Transmit(SetLeds(0x02), rooms.0);
      Transmit(SetBehavior(1), rooms.1);
      Transmit(SetBehavior(2), rooms.2);
      Transmit(SetServo(90, 90), rooms.3);
    }

    /** Read whatever the UART has buffered, up to a read that fails, and start with a fresh decoder. */
    method FlushUart(buffered: seq<u8>, failsAt: Option<nat>) returns (left: seq<u8>)
      requires Valid()
      modifies `decoder
      ensures Valid() && fresh(decoder) && fresh(decoder.buf) && decoder.Bytes() == []
      ensures left == if failsAt == None || |buffered| <= 64 * failsAt.value then []
                      else buffered[64 * failsAt.value..]
    {
      left := buffered;
      var done := 0;
      while failsAt != Some(done)
        invariant failsAt.Some? ==> done <= failsAt.value
        invariant left == if 64 * done < |buffered| then buffered[64 * done..] else []
        decreases |left|
      {
        var read := if |left| < 64 then |left| else 64;
        if read == 0 {
          break;
        }
        left := left[read..];
        done := done + 1;
      }
      decoder := new Decoder();
    }

    /** The handshake: flush, read until both the 0x00 ack and a firmware version were heard or the reads run
        out, send the init commands, announce the version. Reads that time out or fail are not in the list;
        what a failed flush left behind is for the reads to come. */
    method BringUp(buffered: seq<u8>, failsAt: Option<nat>, inbox: seq<seq<u8>>, rooms: (nat, nat, nat, nat))
      returns (gotAck: bool, firmware: Option<Status>, ghost used: nat)
      requires Valid() && forall k :: 0 <= k < |inbox| ==> |inbox[k]| <= READ_MAX
      modifies `decoder, encoder.buf, events, `tx
      ensures Valid() && used <= |inbox| && fresh(decoder) && fresh(decoder.buf)
      ensures decoder.Bytes() == Scan(Join(inbox[..used])).1 && Waiting(decoder.Bytes())
      ensures StartupFacts(Heard(Join(inbox[..used])), gotAck, firmware)
      ensures used < |inbox| ==> gotAck && firmware.Some?
      ensures tx == WithInit(old(tx), rooms)
      ensures events.items
              == if firmware.Some? then Offer(old(events.items), EVENT_DEPTH, firmware.value) else old(events.items)
    {
      hide Encode, Scan, Heard, Join, Taken, StartupFacts;
      var _ := FlushUart(buffered, failsAt);
      gotAck, firmware, used := AwaitStartup(inbox);
      FinishBringUp(firmware, rooms);
    }

    /** The init commands, and the version for the ECS. */
    method FinishBringUp(firmware: Option<Status>, rooms: (nat, nat, nat, nat))
      requires Valid()
      modifies encoder.buf, events, `tx
      ensures Valid() && decoder.Bytes() == old(decoder.Bytes())
      ensures tx == WithInit(old(tx), rooms)
      ensures events.items
              == if firmware.Some? then Offer(old(events.items), EVENT_DEPTH, firmware.value) else old(events.items)
    {
      ghost var residue := decoder.Bytes();
      TransmitInit(rooms);
      assert decoder.Bytes() == residue;
      if firmware.Some? {
        var _ := events.Send(firmware.value);
      }
    }

    /** The other side of the main select: the oldest queued command, if there is one, goes out. */
    method SendNext(room: nat) returns (sent: Option<Command>)
      requires Valid()
      modifies commands, encoder.buf, `tx
      ensures Valid() && decoder.Bytes() == old(decoder.Bytes())
      ensures sent == if old(commands.items) == [] then None else Some(old(commands.items)[0])
      ensures commands.items == if sent == None then [] else old(commands.items)[1..]
      ensures tx == old(tx) + (if sent == None then [] else Taken(Encode(sent.value), room))
    {
      sent := commands.TryRecv();
      if sent.Some? {
        Transmit(sent.value, room);
      }
    }

    /** The waiting loop of the handshake. */
    method AwaitStartup(inbox: seq<seq<u8>>) returns (gotAck: bool, firmware: Option<Status>, ghost used: nat)
      requires Valid() && decoder.Bytes() == [] && forall k :: 0 <= k < |inbox| ==> |inbox[k]| <= READ_MAX
      modifies decoder, decoder.buf
      ensures Valid() && used <= |inbox|
      ensures decoder.Bytes() == Scan(Join(inbox[..used])).1 && Waiting(decoder.Bytes())
      ensures StartupFacts(Heard(Join(inbox[..used])), gotAck, firmware)
      ensures used < |inbox| ==> gotAck && firmware.Some?
    {
      gotAck, firmware := false, None;
      var n := 0;
      assert inbox[..0] == [];
      while !(gotAck && firmware.Some?) && n < |inbox|
        invariant Valid() && Waiting(decoder.Bytes()) && n <= |inbox|
        invariant decoder.Bytes() == Scan(Join(inbox[..n])).1
        invariant StartupFacts(Heard(Join(inbox[..n])), gotAck, firmware)
      {
        ghost var sofar := Join(inbox[..n]);
        assert inbox[..n + 1][..n] == inbox[..n];
        assert Join(inbox[..n + 1]) == sofar + inbox[n];
        HeardConcat(sofar, inbox[n]);
        gotAck, firmware := HearStartup(inbox[n], Heard(sofar), gotAck, firmware);
        n := n + 1;
      }
      used := n;
    }

    /** One bring-up read: note the ack and the version, drop everything else. */
    method HearStartup(bytes: seq<u8>, ghost before: seq<Status>, ack: bool, version: Option<Status>)
      returns (gotAck: bool, firmware: Option<Status>)
      requires Valid() && Waiting(decoder.Bytes()) && |bytes| <= READ_MAX
      requires StartupFacts(before, ack, version)
      modifies decoder, decoder.buf
      ensures Valid() && Waiting(decoder.Bytes())
      ensures decoder.Bytes() == Scan(old(decoder.Bytes()) + bytes).1
      ensures StartupFacts(before + Heard(old(decoder.Bytes()) + bytes), gotAck, firmware)
    {
      gotAck, firmware := ack, version;
      ghost var stream, all := decoder.Bytes() + bytes, before;
      decoder.Extend(bytes);
      var popped := true;
      while popped
        invariant Valid()
        invariant Scan(stream).1 == Scan(decoder.Bytes()).1
        invariant before + Heard(stream) == all + Heard(decoder.Bytes())
        invariant StartupFacts(all, gotAck, firmware)
        invariant !popped ==> Waiting(decoder.Bytes())
        decreases popped, decoder.len
      {
        var status;
        popped, status := NextStatus();
        AppendTwice(all, Listed(status), Heard(decoder.Bytes()));
        if status.Some? {
          StartupOneMore(all, status.value, gotAck, firmware);
          match status.value {
            case Ack(byte) => if byte == 0 { gotAck := true; }
            case FwVersion(_, _, _) => firmware := status;
            case _ =>
          }
        } else {
          assert all + Listed(status) == all;
        }
        all := all + Listed(status);
      }
      WaitingSaysNothing(decoder.Bytes());
      assert all + [] == all;
    }
  }
}
