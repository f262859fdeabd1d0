/** The bridge's own objects executing the steps of a run: what the state machine of `BridgeRuns`
    says about runs holds of the queue and the reply cells on the heap. */
module BridgeWorld {
  import opened Wrappers
  import A = AsyncBridge
  import B = BridgeRuns

  /** Callers, their reply cells and the responder's tasks around one bridge. */
  class World<In(!new, ==), Out(!new, ==)> {
    const bridge: A.AsyncBridge<In, Out>
    var callers: seq<B.Caller<In, Out>>
    var cells: seq<A.Signal<Out>>
    var tasks: seq<A.Exchange<In, Out>>

    /** The exchanges on the heap are the exchanges of the state. */
    ghost predicate Carry(exchanges: seq<A.Exchange<In, Out>>, q: seq<B.Exchange<In>>)
      reads this
    {
      && |exchanges| == |q|
      && forall i :: 0 <= i < |q| ==>
           q[i].signal < |cells| && exchanges[i] == A.Exchange(q[i].input, cells[q[i].signal])
    }

    ghost predicate Mirrors(s: B.State<In, Out>)
      reads this, bridge.queue, cells
    {
      && bridge.queue.Valid()
      && callers == s.callers
      && |cells| == |s.signals| == |callers|
      && (forall k :: 0 <= k < |cells| ==> cells[k].value == s.signals[k] && cells[k] as object != bridge.queue)
      && (forall j, k :: 0 <= j < k < |cells| ==> cells[j] != cells[k])
      && Carry(bridge.queue.items, s.queue)
      && Carry(tasks, s.serving)
    }

    constructor (capacity: nat)
      ensures Mirrors(B.Initial()) && bridge.queue.capacity == capacity
      ensures fresh(bridge.queue) && cells == []
    {
      bridge := new A.AsyncBridge(capacity);
      callers, cells, tasks := [], [], [];
    }

    /** A caller submits its input and waits, or has it handed back. */
    method Call(input: In, ghost s: B.State<In, Out>, ghost produced: (In, Out) -> bool)
      returns (ghost t: B.State<In, Out>)
      requires Mirrors(s)
      modifies this, bridge.queue
      ensures B.Next(s, B.Call(input), t, bridge.queue.capacity, produced) && Mirrors(t)
      ensures |cells| == |old(cells)| + 1 && cells[..|old(cells)|] == old(cells) && fresh(cells[|old(cells)|])
    {
      var submitted := bridge.Submit(input);
      match submitted {
        case Ok(signal) =>
          callers, cells := callers + [B.Caller(input, B.Waiting)], cells + [signal];
          t := s.(callers := callers, signals := s.signals + [None],
                  queue := s.queue + [B.Exchange(input, |s.callers|)]);
        case Err(back) =>
          var unused := new A.Signal<Out>();
          callers, cells := callers + [B.Caller(input, B.HandedBack(back))], cells + [unused];
          t := s.(callers := callers, signals := s.signals + [None]);
      }
    }

    /** The responder takes the oldest call. */
    method Receive(ghost s: B.State<In, Out>, ghost produced: (In, Out) -> bool)
      returns (done: bool, ghost t: B.State<In, Out>)
      requires Mirrors(s)
      modifies this, bridge.queue
      ensures cells == old(cells)
      ensures Mirrors(t)
      ensures done <==> s.queue != []
      ensures if done then B.Next(s, B.Receive, t, bridge.queue.capacity, produced) else t == s
    {
      t := s;
      var exchange := bridge.queue.TryRecv();
      done := exchange.Some?;
      if done {
        tasks := tasks + [exchange.value];
        t := s.(queue := s.queue[1..], serving := s.serving + [s.queue[0]]);
      }
    }

    /** A turn of the worker loop whose worker does not suspend: the oldest call is received and answered. */
    method ServeAtOnce(worker: In -> Out, ghost s: B.State<In, Out>)
      returns (done: bool, ghost middle: B.State<In, Out>, ghost t: B.State<In, Out>)
      requires Mirrors(s)
      modifies this, bridge.queue, cells
      ensures cells == old(cells) && tasks == old(tasks)
      ensures Mirrors(t)
      ensures done <==> s.queue != []
      ensures if !done then t == s
              else
                && B.Next(s, B.Receive, middle, bridge.queue.capacity, (i, o) => o == worker(i))
                && B.Next(middle, B.Reply(|s.serving|, worker(s.queue[0].input)), t, bridge.queue.capacity,
                          (i, o) => o == worker(i))
    {
      middle, t := s, s;
      assert forall i :: 0 <= i < |s.queue| ==> bridge.queue.items[i].reply == cells[s.queue[i].signal];
      var served := bridge.ServeNext(worker);
      done := served.Some?;
      if done {
        ghost var first := s.queue[0];
        middle := s.(queue := s.queue[1..], serving := s.serving + [first]);
        t := s.(queue := s.queue[1..], signals := s.signals[first.signal := Some(worker(first.input))],
                answered := s.answered + [first.signal]);
        assert B.Without(middle.serving, |s.serving|) == s.serving;
      }
    }

    /** The drain of the ECS: as many receives as there are calls queued. */
    method ReceiveAll(ghost s: B.State<In, Out>) returns (ghost t: B.State<In, Out>)
      requires Mirrors(s)
      modifies this, bridge.queue
      ensures cells == old(cells) && Mirrors(t)
      ensures t == s.(queue := [], serving := s.serving + s.queue)
    {
      var drained := bridge.DrainToTasks();
      tasks := tasks + drained;
      t := s.(queue := [], serving := s.serving + s.queue);
    }

    /** A task answers its own caller. */
    method Reply(task: nat, out: Out, ghost s: B.State<In, Out>, ghost produced: (In, Out) -> bool)
      returns (ghost t: B.State<In, Out>)
      requires Mirrors(s) && task < |tasks| && produced(tasks[task].input, out)
      modifies this, cells
      ensures cells == old(cells)
      ensures B.Next(s, B.Reply(task, out), t, bridge.queue.capacity, produced) && Mirrors(t)
    {
      var exchange := tasks[task];
      exchange.reply.Raise(out);
      tasks := tasks[..task] + tasks[task + 1..];
      ghost var k := s.serving[task].signal;
      t := s.(serving := B.Without(s.serving, task), signals := s.signals[k := Some(out)],
              answered := s.answered + [k]);
    }

    /** A waiting caller finds its answer. */
    method Resolve(k: nat, ghost s: B.State<In, Out>, ghost produced: (In, Out) -> bool)
      returns (done: bool, ghost t: B.State<In, Out>)
      requires Mirrors(s) && k < |callers| && callers[k].status == B.Waiting
      modifies this, cells
      ensures cells == old(cells)
      ensures Mirrors(t)
      ensures done <==> s.signals[k].Some?
      ensures if done then B.Next(s, B.Resolve(k), t, bridge.queue.capacity, produced) else t == s
    {
      t := s;
      var answer := cells[k].TryTake();
      done := answer.Some?;
      if done {
        callers := callers[k := callers[k].(status := B.Resolved(answer.value))];
        t := s.(callers := callers, signals := s.signals[k := None]);
      }
    }

    /** A waiting caller gives up: its future is dropped, its call goes on. */
    method Abandon(k: nat, ghost s: B.State<In, Out>, ghost produced: (In, Out) -> bool)
      returns (ghost t: B.State<In, Out>)
      requires Mirrors(s) && k < |callers| && callers[k].status == B.Waiting
      modifies `callers
      ensures B.Next(s, B.Abandon(k), t, bridge.queue.capacity, produced) && Mirrors(t)
    {
      callers := callers[k := callers[k].(status := B.Abandoned)];
      t := s.(callers := callers);
    }
  }

  /** The step can happen now. */
  ghost predicate Enabled<In, Out>(s: B.State<In, Out>, step: B.Step<In, Out>)
    requires |s.signals| == |s.callers|
  {
    match step
    case Call(_) => true
    case Receive => s.queue != []
    case Reply(task, _) => task < |s.serving|
    case Resolve(k) => k < |s.callers| && s.callers[k].status == B.Waiting && s.signals[k].Some?
    case Abandon(k) => k < |s.callers| && s.callers[k].status == B.Waiting
  }

  /** The step as it happens: a reply carries the worker's output for the task's own input. */
  ghost function Worked<In, Out>(s: B.State<In, Out>, step: B.Step<In, Out>, worker: In -> Out): B.Step<In, Out> {
    if step.Reply? && step.task < |s.serving| then B.Reply(step.task, worker(s.serving[step.task].input)) else step
  }

  /** A step can happen if and only if the machine has a state to go to. */
  lemma EnabledExactly<In(!new), Out(!new)>(s: B.State<In, Out>, step: B.Step<In, Out>, worker: In -> Out,
                                            capacity: nat, produced: (In, Out) -> bool)
    requires B.Inv(s, capacity, produced) && forall i: In, o: Out :: produced(i, o) <==> o == worker(i)
    ensures Enabled(s, step) <==> exists t :: B.Next(s, Worked(s, step, worker), t, capacity, produced)
  {
    if Enabled(s, step) {
      var t := Successor(s, step, worker, capacity, produced);
    }
  }

  lemma Successor<In(!new), Out(!new)>(s: B.State<In, Out>, step: B.Step<In, Out>, worker: In -> Out,
                                       capacity: nat, produced: (In, Out) -> bool)
    returns (t: B.State<In, Out>)
    requires B.Inv(s, capacity, produced) && forall i: In, o: Out :: produced(i, o) <==> o == worker(i)
    requires Enabled(s, step)
    ensures B.Next(s, Worked(s, step, worker), t, capacity, produced)
  {
    match step {
      case Call(input) =>
        var (k, fits) := (|s.callers|, |s.queue| < capacity);
        t := s.(callers := s.callers + [B.Caller(input, if fits then B.Waiting else B.HandedBack(input))],
                signals := s.signals + [None],
                queue := if fits then s.queue + [B.Exchange(input, k)] else s.queue);
      case Receive =>
        t := s.(queue := s.queue[1..], serving := s.serving + [s.queue[0]]);
      case Reply(task, _) =>
        var k, out := s.serving[task].signal, worker(s.serving[task].input);
        t := s.(serving := B.Without(s.serving, task), signals := s.signals[k := Some(out)],
                answered := s.answered + [k]);
      case Resolve(k) =>
        t := s.(callers := s.callers[k := s.callers[k].(status := B.Resolved(s.signals[k].value))],
                signals := s.signals[k := None]);
      case Abandon(k) =>
        t := s.(callers := s.callers[k := s.callers[k].(status := B.Abandoned)]);
    }
  }

  /** Tries one step. It happens exactly when it can. */
  method Try<In(!new, ==), Out(!new, ==)>(world: World<In, Out>, wanted: B.Step<In, Out>, worker: In -> Out,
                                          ghost s: B.State<In, Out>)
    returns (ghost taken: bool, ghost t: B.State<In, Out>)
    requires world.Mirrors(s)
    modifies world, world.bridge.queue, world.cells
    ensures world.Mirrors(t)
    ensures |old(world.cells)| <= |world.cells| && world.cells[..|old(world.cells)|] == old(world.cells)
    ensures forall k :: |old(world.cells)| <= k < |world.cells| ==> fresh(world.cells[k])
    ensures taken <==> Enabled(s, wanted)
    ensures if !taken then t == s
            else B.Next(s, Worked(s, wanted, worker), t, world.bridge.queue.capacity, (i, o) => o == worker(i))
  {
    ghost var produced := (i: In, o: Out) => o == worker(i);
    taken := true;
    match wanted {
      case Call(input) =>
        t := world.Call(input, s, produced);
      case Receive =>
        var done;
        done, t := world.Receive(s, produced);
        taken := done;
      case Reply(task, _) =>
        if task >= |world.tasks| { return false, s; }
        var out := worker(world.tasks[task].input);
        t := world.Reply(task, out, s, produced);
      case Resolve(k) =>
        if k >= |world.callers| || world.callers[k].status != B.Waiting { return false, s; }
        var done;
        done, t := world.Resolve(k, s, produced);
        taken := done;
      case Abandon(k) =>
        if k >= |world.callers| || world.callers[k].status != B.Waiting { return false, s; }
        t := world.Abandon(k, s, produced);
    }
  }

  /** The steps taken are exactly the wanted ones that could happen when their turn came. */
  ghost predicate Attempted<In(!new), Out(!new)>(states: seq<B.State<In, Out>>, taken: seq<B.Step<In, Out>>,
                                                 wanted: seq<B.Step<In, Out>>, worker: In -> Out)
    decreases |wanted|
  {
    && |states| == |taken| + 1
    && (forall i :: 0 <= i < |states| ==> |states[i].signals| == |states[i].callers|)
    && if wanted == [] then taken == []
       else
         var (earlier, last) := (wanted[..|wanted| - 1], wanted[|wanted| - 1]);
         var n := |taken|;
         || (!Enabled(states[n], last) && Attempted(states, taken, earlier, worker))
         || (n > 0 && Enabled(states[n - 1], last) && taken[n - 1] == Worked(states[n - 1], last, worker)
             && Attempted(states[..n], taken[..n - 1], earlier, worker))
  }

  lemma {:induction false} OneMoreState<In(!new), Out(!new)>(
    states: seq<B.State<In, Out>>, steps: seq<B.Step<In, Out>>, step: B.Step<In, Out>, t: B.State<In, Out>,
    capacity: nat, produced: (In, Out) -> bool)
    requires B.Run(states, steps, capacity, produced)
    requires B.Next(states[|states| - 1], step, t, capacity, produced)
    ensures B.Run(states + [t], steps + [step], capacity, produced)
  {
    var longer, taken := states + [t], steps + [step];
    forall i | 0 <= i < |taken| ensures B.Next(longer[i], taken[i], longer[i + 1], capacity, produced) {
      if i < |steps| {
        assert longer[i] == states[i] && taken[i] == steps[i] && longer[i + 1] == states[i + 1];
      }
    }
  }

  lemma {:induction false} OneMoreAttempt<In(!new), Out(!new)>(
    states: seq<B.State<In, Out>>, taken: seq<B.Step<In, Out>>, wanted: seq<B.Step<In, Out>>, last: B.Step<In, Out>,
    t: B.State<In, Out>, worker: In -> Out)
    requires Attempted(states, taken, wanted, worker) && |t.signals| == |t.callers|
    ensures var s := states[|states| - 1];
      if Enabled(s, last) then Attempted(states + [t], taken + [Worked(s, last, worker)], wanted + [last], worker)
      else Attempted(states, taken, wanted + [last], worker)
  {
    var s := states[|states| - 1];
    assert (wanted + [last])[..|wanted|] == wanted;
    if Enabled(s, last) {
      var longer, more := states + [t], taken + [Worked(s, last, worker)];
      assert longer[..|states|] == states && more[..|taken|] == taken;
      assert forall i :: 0 <= i < |longer| ==> |longer[i].signals| == |longer[i].callers|;
    }
  }

  /** However callers, responder tasks and give-ups interleave, what the objects do is a run of the state
      machine that takes every wanted step that can happen. So a resolved caller holds the worker's output
      for its own input, a rejected one its own input, and every accepted call is queued, in service or
      answered. */
  method Execute<In(!new, ==), Out(!new, ==)>(world: World<In, Out>, wanted: seq<B.Step<In, Out>>, worker: In -> Out)
    returns (ghost states: seq<B.State<In, Out>>, ghost taken: seq<B.Step<In, Out>>)
    requires world.Mirrors(B.Initial())
    modifies world, world.bridge.queue
    ensures B.Run(states, taken, world.bridge.queue.capacity, (i, o) => o == worker(i))
    ensures Attempted(states, taken, wanted, worker)
    ensures world.Mirrors(states[|states| - 1])
    ensures |world.bridge.queue.items| <= world.bridge.queue.capacity
    ensures forall k :: 0 <= k < |world.callers| ==>
      match world.callers[k].status
      case Resolved(out) => out == worker(world.callers[k].input)
      case HandedBack(back) => back == world.callers[k].input
      case _ => true
    ensures |B.AcceptedSet(states[|states| - 1])|
            == |world.bridge.queue.items| + |world.tasks| + |states[|states| - 1].answered|
  {
    hide B.Next, Enabled, Worked;
    ghost var produced := (i: In, o: Out) => o == worker(i);
    states, taken := [B.Initial()], [];
    for n := 0 to |wanted|
      invariant B.Run(states, taken, world.bridge.queue.capacity, produced)
      invariant Attempted(states, taken, wanted[..n], worker)
      invariant world.Mirrors(states[|states| - 1])
      invariant forall k :: 0 <= k < |world.cells| ==> fresh(world.cells[k])
    {
      ghost var s := states[|states| - 1];
      ghost var step, t;
      ghost var before := world.cells;
      step, t := Try(world, wanted[n], worker, s);
      assert forall k :: 0 <= k < |before| ==> world.cells[k] == before[k];
      assert wanted[..n + 1] == wanted[..n] + [wanted[n]];
      OneMoreAttempt(states, taken, wanted[..n], wanted[n], t, worker);
      if step {
        OneMoreState(states, taken, Worked(s, wanted[n], worker), t, world.bridge.queue.capacity, produced);
        states, taken := states + [t], taken + [Worked(s, wanted[n], worker)];
      }
    }
    assert wanted[..|wanted|] == wanted;
    B.Conservation(states, taken, |states| - 1, world.bridge.queue.capacity, produced);
  }

  /** The states on the way when `n` queued calls are received one after another. */
  function Receiving<In, Out>(s: B.State<In, Out>, n: nat): B.State<In, Out>
    requires n <= |s.queue|
  {
    s.(queue := s.queue[n..], serving := s.serving + s.queue[..n])
  }

  /** So the drain is a run of receives, one for each queued call. */
  lemma {:induction false} DrainIsReceives<In(!new), Out(!new)>(s: B.State<In, Out>, capacity: nat,
                                                                produced: (In, Out) -> bool)
    ensures Receiving(s, 0) == s && Receiving(s, |s.queue|) == s.(queue := [], serving := s.serving + s.queue)
    ensures forall n :: 0 <= n < |s.queue| ==>
              B.Next(Receiving(s, n), B.Receive, Receiving(s, n + 1), capacity, produced)
  {
    forall n | 0 <= n < |s.queue|
      ensures B.Next(Receiving(s, n), B.Receive, Receiving(s, n + 1), capacity, produced)
    {
      assert s.queue[n..][1..] == s.queue[n + 1..] && s.queue[n..][0] == s.queue[n];
      assert s.serving + s.queue[..n] + [s.queue[n]] == s.serving + s.queue[..n + 1];
    }
  }

  // ---- one worker -------------------------------------------------------------

  /** What happens around a single worker loop: a caller does something, or the loop gets one await further.
      Between taking a call and answering it the loop is inside the worker, and callers go on. */
  datatype Move<In> = Calls(input: In) | Takes(caller: nat) | GivesUp(waiter: nat) | WorkerGoesOn

  /** The loop takes the oldest call, or answers the one it has. */
  function AsStep<In, Out>(move: Move<In>, busy: bool, idle: Out): B.Step<In, Out> {
    match move
    case Calls(input) => B.Call(input)
    case Takes(k) => B.Resolve(k)
    case GivesUp(k) => B.Abandon(k)
    case WorkerGoesOn => if busy then B.Reply(0, idle) else B.Receive
  }

  lemma OneMoreServed<In, Out>(states: seq<B.State<In, Out>>, taken: seq<B.Step<In, Out>>, step: B.Step<In, Out>,
                               t: B.State<In, Out>)
    requires |states| == |taken| + 1 && B.OneWorker(states, taken)
    requires step.Receive? ==> states[|states| - 1].serving == []
    ensures B.OneWorker(states + [t], taken + [step])
  {
    var longer, more := states + [t], taken + [step];
    forall i | 0 <= i < |more| && more[i].Receive? ensures longer[i].serving == [] {
      assert longer[i] == states[i];
      if i < |taken| {
        assert more[i] == taken[i];
      }
    }
  }

  /** A bridge served by one worker loop, among any callers: the run it makes has one worker, so calls are
      answered in the order they were accepted, and at most one call more than the queue holds is
      outstanding. */
  method RunWorker<In(!new, ==), Out(!new, ==)>(world: World<In, Out>, moves: seq<Move<In>>, worker: In -> Out,
                                                idle: Out)
    returns (ghost states: seq<B.State<In, Out>>, ghost taken: seq<B.Step<In, Out>>)
    requires world.Mirrors(B.Initial())
    modifies world, world.bridge.queue
    ensures B.Run(states, taken, world.bridge.queue.capacity, (i, o) => o == worker(i)) && B.OneWorker(states, taken)
    ensures world.Mirrors(states[|states| - 1]) && B.Increasing(states[|states| - 1].answered)
    ensures |world.bridge.queue.items| + |world.tasks| <= world.bridge.queue.capacity + 1
  {
    hide B.Next, Enabled;
    ghost var produced := (i: In, o: Out) => o == worker(i);
    states, taken := [B.Initial()], [];
    for n := 0 to |moves|
      invariant B.Run(states, taken, world.bridge.queue.capacity, produced) && B.OneWorker(states, taken)
      invariant world.Mirrors(states[|states| - 1])
      invariant forall k :: 0 <= k < |world.cells| ==> fresh(world.cells[k])
    {
      ghost var s := states[|states| - 1];
      ghost var step, t;
      ghost var before := world.cells;
      var wanted := AsStep(moves[n], world.tasks != [], idle);
      step, t := Try(world, wanted, worker, s);
      assert forall k :: 0 <= k < |before| ==> world.cells[k] == before[k];
      if step {
        ghost var worked := Worked(s, wanted, worker);
        OneMoreServed(states, taken, worked, t);
        OneMoreState(states, taken, worked, t, world.bridge.queue.capacity, produced);
        states, taken := states + [t], taken + [worked];
      }
    }
    B.OneWorkerIsFifo(states, taken, |states| - 1, world.bridge.queue.capacity, produced);
  }
}
