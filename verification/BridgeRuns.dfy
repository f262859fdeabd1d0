/** Every run of an AsyncBridge, with any number of callers and responders interleaved:
    no call is lost, duplicated or given another call's answer. */
module BridgeRuns {
  import opened Wrappers

  /** An accepted call on its way: the input and the number of the caller's reply cell. */
  datatype Exchange<In> = Exchange(input: In, signal: nat)

  datatype Status<In, Out> = Waiting | HandedBack(back: In) | Resolved(out: Out) | Abandoned

  datatype Caller<In, Out> = Caller(input: In, status: Status<In, Out>)

  /** Caller `k` owns reply cell `k`. `answered` lists the cells in the order they were answered. */
  datatype State<In, Out> = State(
    callers: seq<Caller<In, Out>>,
    signals: seq<Option<Out>>,
    queue: seq<Exchange<In>>,
    serving: seq<Exchange<In>>,
    answered: seq<nat>)

  datatype Step<In, Out> =
    | Call(input: In)
    | Receive
    | Reply(task: nat, out: Out)
    | Resolve(caller: nat)
    | Abandon(waiter: nat)

  function Initial<In, Out>(): State<In, Out> { State([], [], [], [], []) }

  function Without<T>(s: seq<T>, i: nat): seq<T>
    requires i < |s|
  {
    s[..i] + s[i + 1..]
  }

  /** One step of the bridge. `produced(i, o)` says the worker may answer input `i` with `o`;
      the answer is made from the input that travelled in the exchange. */
  ghost predicate Next<In(!new), Out(!new)>(s: State<In, Out>, step: Step<In, Out>, t: State<In, Out>,
                                            capacity: nat, produced: (In, Out) -> bool) {
    match step
    case Call(input) =>
      var signal := |s.callers|;
      if |s.queue| < capacity then
        t == s.(callers := s.callers + [Caller(input, Waiting)], signals := s.signals + [None],
                queue := s.queue + [Exchange(input, signal)])
      else
        t == s.(callers := s.callers + [Caller(input, HandedBack(input))], signals := s.signals + [None])
    case Receive =>
      s.queue != [] && t == s.(queue := s.queue[1..], serving := s.serving + [s.queue[0]])
    case Reply(task, out) =>
      task < |s.serving| && s.serving[task].signal < |s.signals| && produced(s.serving[task].input, out)
      && t == s.(serving := Without(s.serving, task),
                 signals := s.signals[s.serving[task].signal := Some(out)],
                 answered := s.answered + [s.serving[task].signal])
    case Resolve(k) =>
      k < |s.callers| && k < |s.signals| && s.callers[k].status == Waiting && s.signals[k].Some?
      && t == s.(callers := s.callers[k := s.callers[k].(status := Resolved(s.signals[k].value))],
                 signals := s.signals[k := None])
    case Abandon(k) =>
      k < |s.callers| && s.callers[k].status == Waiting
      && t == s.(callers := s.callers[k := s.callers[k].(status := Abandoned)])
  }

  function Cells<In>(q: seq<Exchange<In>>): (r: seq<nat>)
    ensures |r| == |q|
  {
    seq(|q|, i requires 0 <= i < |q| => q[i].signal)
  }

  /** Where every accepted call is: answered, in service or queued, with multiplicity. */
  ghost function Places<In, Out>(s: State<In, Out>): multiset<nat> {
    multiset(s.answered) + multiset(Cells(s.serving)) + multiset(Cells(s.queue))
  }

  ghost predicate Accepted<In, Out>(s: State<In, Out>, k: nat) {
    k < |s.callers| && !s.callers[k].status.HandedBack?
  }

  ghost predicate Travels<In, Out>(s: State<In, Out>, q: seq<Exchange<In>>) {
    forall i :: 0 <= i < |q| ==> q[i].signal < |s.callers| && q[i].input == s.callers[q[i].signal].input
  }

  /** An answer in cell `k`, waiting or taken, was produced for caller `k`'s own input. */
  ghost predicate AnswerIsOwn<In, Out>(s: State<In, Out>, k: nat, produced: (In, Out) -> bool)
    requires k < |s.callers| == |s.signals|
  {
    && (s.signals[k].Some? ==> k in s.answered && produced(s.callers[k].input, s.signals[k].value))
    && (s.callers[k].status.Resolved? ==>
          k in s.answered && s.signals[k] == None && produced(s.callers[k].input, s.callers[k].status.out))
    && (s.callers[k].status.HandedBack? ==> s.callers[k].status.back == s.callers[k].input)
    && (s.callers[k].status.Waiting? && k in s.answered ==> s.signals[k].Some?)
  }

  ghost predicate Inv<In(!new), Out(!new)>(s: State<In, Out>, capacity: nat, produced: (In, Out) -> bool) {
    && |s.signals| == |s.callers|
    && |s.queue| <= capacity
    && Travels(s, s.queue) && Travels(s, s.serving)
    && (forall k: nat :: Places(s)[k] == if Accepted(s, k) then 1 else 0)
    && (forall k :: 0 <= k < |s.callers| ==> AnswerIsOwn(s, k, produced))
  }

  lemma CellsConcat<In>(a: seq<Exchange<In>>, b: seq<Exchange<In>>)
    ensures Cells(a + b) == Cells(a) + Cells(b)
  {
  }

  lemma CellsWithout<In>(q: seq<Exchange<In>>, i: nat)
    requires i < |q|
    ensures multiset(Cells(q)) == multiset(Cells(Without(q, i))) + multiset{q[i].signal}
  {
    var rest := [q[i]] + q[i + 1..];
    assert q == q[..i] + rest;
    CellsConcat(q[..i], rest);
    CellsConcat([q[i]], q[i + 1..]);
    CellsConcat(q[..i], q[i + 1..]);
    assert Cells([q[i]]) == [q[i].signal];
  }

  /** Receiving and answering move a call from one place to the next; nothing else moves. */
  lemma PlacesStep<In(!new), Out(!new)>(s: State<In, Out>, step: Step<In, Out>, t: State<In, Out>,
                                        capacity: nat, produced: (In, Out) -> bool)
    requires Next(s, step, t, capacity, produced)
    ensures Places(t) == Places(s) + (if step.Call? && |s.queue| < capacity then multiset{|s.callers|} else multiset{})
  {
    match step {
      case Call(input) =>
        CellsConcat(s.queue, [Exchange(input, |s.callers|)]);
        assert Cells([Exchange(input, |s.callers|)]) == [|s.callers|];
      case Receive =>
        assert s.queue == [s.queue[0]] + s.queue[1..];
        CellsConcat([s.queue[0]], s.queue[1..]);
        CellsConcat(s.serving, [s.queue[0]]);
        assert Cells([s.queue[0]]) == [s.queue[0].signal];
      case Reply(task, out) =>
        CellsWithout(s.serving, task);
        assert multiset(t.answered) == multiset(s.answered) + multiset{s.serving[task].signal};
      case Resolve(_) =>
      case Abandon(_) =>
    }
  }

  lemma InService<In(!new), Out(!new)>(s: State<In, Out>, task: nat, capacity: nat, produced: (In, Out) -> bool)
    requires Inv(s, capacity, produced) && task < |s.serving|
    ensures var k := s.serving[task].signal; k !in s.answered && Accepted(s, k)
  {
    var k := s.serving[task].signal;
    CellsWithout(s.serving, task);
    assert Places(s)[k] >= multiset(s.answered)[k] + 1;
  }

  lemma TravelsKept<In(!new), Out(!new)>(s: State<In, Out>, step: Step<In, Out>, t: State<In, Out>,
                                         capacity: nat, produced: (In, Out) -> bool)
    requires Inv(s, capacity, produced) && Next(s, step, t, capacity, produced)
    ensures |t.signals| == |t.callers| && |t.queue| <= capacity && Travels(t, t.queue) && Travels(t, t.serving)
  {
  }

  lemma AnswersKept<In(!new), Out(!new)>(s: State<In, Out>, step: Step<In, Out>, t: State<In, Out>,
                                         capacity: nat, produced: (In, Out) -> bool, k: nat)
    requires Inv(s, capacity, produced) && Next(s, step, t, capacity, produced)
    requires k < |t.callers| == |t.signals|
    ensures AnswerIsOwn(t, k, produced)
  {
    if k < |s.callers| {
      assert AnswerIsOwn(s, k, produced);
      if step.Reply? {
        InService(s, step.task, capacity, produced);
      }
    } else {
      assert Places(s)[k] == 0;
    }
  }

  /** Only a call that is queued becomes an accepted one. */
  lemma AcceptedAfter<In(!new), Out(!new)>(s: State<In, Out>, step: Step<In, Out>, t: State<In, Out>,
                                           capacity: nat, produced: (In, Out) -> bool)
    requires Next(s, step, t, capacity, produced)
    ensures forall k: nat :: Accepted(t, k) <==>
              Accepted(s, k) || (step.Call? && |s.queue| < capacity && k == |s.callers|)
    ensures !Accepted(s, |s.callers|)
  {
  }

  lemma NextKeepsInv<In(!new), Out(!new)>(s: State<In, Out>, step: Step<In, Out>, t: State<In, Out>,
                                          capacity: nat, produced: (In, Out) -> bool)
    requires Inv(s, capacity, produced) && Next(s, step, t, capacity, produced)
    ensures Inv(t, capacity, produced)
  {
    hide AnswerIsOwn, Travels, Next, Accepted, Places;
    TravelsKept(s, step, t, capacity, produced);
    PlacesStep(s, step, t, capacity, produced);
    AcceptedAfter(s, step, t, capacity, produced);
    forall k | 0 <= k < |t.callers| ensures AnswerIsOwn(t, k, produced) {
      AnswersKept(s, step, t, capacity, produced, k);
    }
  }

  /** A run: states joined by steps, from the empty bridge. */
  ghost predicate Run<In(!new), Out(!new)>(states: seq<State<In, Out>>, steps: seq<Step<In, Out>>,
                                           capacity: nat, produced: (In, Out) -> bool) {
    && |states| == |steps| + 1
    && states[0] == Initial()
    && forall i :: 0 <= i < |steps| ==> Next(states[i], steps[i], states[i + 1], capacity, produced)
  }

  lemma {:induction false} EveryRunKeepsInv<In(!new), Out(!new)>(
    states: seq<State<In, Out>>, steps: seq<Step<In, Out>>, n: nat, capacity: nat, produced: (In, Out) -> bool)
    requires Run(states, steps, capacity, produced) && n < |states|
    ensures Inv(states[n], capacity, produced)
    decreases n
  {
    if n != 0 {
      EveryRunKeepsInv(states, steps, n - 1, capacity, produced);
      NextKeepsInv(states[n - 1], steps[n - 1], states[n], capacity, produced);
    } else {
      assert Places(states[0]) == multiset{};
    }
  }

  ghost function AcceptedSet<In, Out>(s: State<In, Out>): set<nat> {
    set k: nat | k < |s.callers| && Accepted(s, k)
  }

  lemma {:induction false} SizeOfSet(a: set<nat>)
    ensures |multiset(a)| == |a|
  {
    if a != {} {
      var x :| x in a;
      SizeOfSet(a - {x});
      assert multiset(a) == multiset(a - {x}) + multiset{x};
    }
  }

  /** In every reachable state: accepted calls are exactly those queued, in service and answered,
      each counted once; the queue is within its depth; a refused caller has its own input back;
      and whoever has an answer has one the worker made from its own input. */
  lemma Conservation<In(!new), Out(!new)>(
    states: seq<State<In, Out>>, steps: seq<Step<In, Out>>, n: nat, capacity: nat, produced: (In, Out) -> bool)
    requires Run(states, steps, capacity, produced) && n < |states|
    ensures var s := states[n];
            && |AcceptedSet(s)| == |s.queue| + |s.serving| + |s.answered|
            && |s.queue| <= capacity
            && (forall k :: 0 <= k < |s.callers| ==>
                  (s.callers[k].status.HandedBack? ==> s.callers[k].status.back == s.callers[k].input)
                  && (s.callers[k].status.Resolved? ==> produced(s.callers[k].input, s.callers[k].status.out)))
            && (forall i, j :: 0 <= i < j < |s.answered| ==> s.answered[i] != s.answered[j])
  {
    EveryRunKeepsInv(states, steps, n, capacity, produced);
    var s := states[n];
    forall k | 0 <= k < |s.callers|
      ensures s.callers[k].status.HandedBack? ==> s.callers[k].status.back == s.callers[k].input
      ensures s.callers[k].status.Resolved? ==> produced(s.callers[k].input, s.callers[k].status.out)
    {
      assert AnswerIsOwn(s, k, produced);
    }
    assert Places(s) == multiset(AcceptedSet(s));
    assert |Places(s)| == |s.answered| + |Cells(s.serving)| + |Cells(s.queue)|;
    SizeOfSet(AcceptedSet(s));
    forall i, j | 0 <= i < j < |s.answered| ensures s.answered[i] != s.answered[j] {
      AnsweredOnce(s, i, j, capacity, produced);
    }
  }

  lemma AnsweredOnce<In(!new), Out(!new)>(s: State<In, Out>, i: nat, j: nat, capacity: nat, produced: (In, Out) -> bool)
    requires Inv(s, capacity, produced) && i < j < |s.answered|
    ensures s.answered[i] != s.answered[j]
  {
    assert Places(s)[s.answered[i]] <= 1;
    if s.answered[i] == s.answered[j] {
      CountedTwice(s.answered, i, j);
    }
  }

  lemma CountedTwice(a: seq<nat>, i: nat, j: nat)
    requires i < j < |a| && a[i] == a[j]
    ensures multiset(a)[a[i]] >= 2
  {
    assert a == a[..j] + ([a[j]] + a[j + 1..]);
    assert a[..j][i] == a[i];
    assert a[i] in a[..j];
  }

  // ---- what becomes of one call ---------------------------------------------

  lemma CallersOnlyGrow<In(!new), Out(!new)>(s: State<In, Out>, step: Step<In, Out>, t: State<In, Out>,
                                             capacity: nat, produced: (In, Out) -> bool, k: nat)
    requires Next(s, step, t, capacity, produced) && k < |s.callers|
    ensures k < |t.callers| && t.callers[k].input == s.callers[k].input
    ensures t.callers[k].status.HandedBack? == s.callers[k].status.HandedBack?
  {
  }

  /** The first fate of a call is decided when it is made: its caller has its input handed back, then and for
      good, if and only if the queue was full. */
  lemma {:induction false} HandedBackExactly<In(!new), Out(!new)>(
    states: seq<State<In, Out>>, steps: seq<Step<In, Out>>, i: nat, n: nat, capacity: nat,
    produced: (In, Out) -> bool)
    requires Run(states, steps, capacity, produced) && i < |steps| && steps[i].Call? && i < n < |states|
    ensures var k := |states[i].callers|;
      && k < |states[n].callers| && states[n].callers[k].input == steps[i].input
      && (states[n].callers[k].status.HandedBack? <==> |states[i].queue| == capacity)
    decreases n
  {
    if n == i + 1 {
      EveryRunKeepsInv(states, steps, i, capacity, produced);
      assert Next(states[i], steps[i], states[i + 1], capacity, produced);
    } else {
      HandedBackExactly(states, steps, i, n - 1, capacity, produced);
      CallersOnlyGrow(states[n - 1], steps[n - 1], states[n], capacity, produced, |states[i].callers|);
    }
  }

  /** At step `i` a responder answered caller `k` with `out`. */
  ghost predicate AnsweredAt<In, Out>(states: seq<State<In, Out>>, steps: seq<Step<In, Out>>, i: nat, k: nat,
                                      out: Out) {
    && i < |steps| && i < |states| && steps[i].Reply? && steps[i].out == out
    && steps[i].task < |states[i].serving| && states[i].serving[steps[i].task].signal == k
  }

  /** The answer a caller holds, or that waits in its cell, is the very one that was given to its call. */
  lemma {:induction false} TheAnswerGiven<In(!new), Out(!new)>(
    states: seq<State<In, Out>>, steps: seq<Step<In, Out>>, n: nat, k: nat, out: Out, capacity: nat,
    produced: (In, Out) -> bool)
    requires Run(states, steps, capacity, produced) && n < |states|
    requires k < |states[n].callers| == |states[n].signals|
    requires states[n].callers[k].status == Resolved(out) || states[n].signals[k] == Some(out)
    ensures exists i :: 0 <= i < n && AnsweredAt(states, steps, i, k, out)
    decreases n
  {
    var s, step, t := states[n - 1], steps[n - 1], states[n];
    EveryRunKeepsInv(states, steps, n - 1, capacity, produced);
    assert Next(s, step, t, capacity, produced);
    if k < |s.callers| && (s.callers[k].status == Resolved(out) || s.signals[k] == Some(out)) {
      TheAnswerGiven(states, steps, n - 1, k, out, capacity, produced);
    } else {
      assert AnsweredAt(states, steps, n - 1, k, out);
    }
  }

  // ---- one worker ---------------------------------------------------------

  /** Under a single `run_worker` the next call is only taken once the last one was answered. */
  ghost predicate OneWorker<In, Out>(states: seq<State<In, Out>>, steps: seq<Step<In, Out>>)
    requires |states| == |steps| + 1
  {
    forall i :: 0 <= i < |steps| && steps[i].Receive? ==> states[i].serving == []
  }

  /** Cells in the order answered, then in service, then queued. */
  ghost function InLine<In, Out>(s: State<In, Out>): seq<nat> {
    s.answered + Cells(s.serving) + Cells(s.queue)
  }

  ghost predicate Increasing(s: seq<nat>) {
    forall i, j :: 0 <= i < j < |s| ==> s[i] < s[j]
  }

  ghost predicate LineInv<In, Out>(s: State<In, Out>) {
    && |s.serving| <= 1
    && Increasing(InLine(s))
    && forall i :: 0 <= i < |InLine(s)| ==> InLine(s)[i] < |s.callers|
  }

  lemma ReceiveKeepsLine<In, Out>(s: State<In, Out>, t: State<In, Out>)
    requires s.serving == [] && s.queue != [] && t == s.(queue := s.queue[1..], serving := s.serving + [s.queue[0]])
    ensures |t.serving| == 1 && InLine(t) == InLine(s)
  {
    assert t.serving == [s.queue[0]];
    assert Cells(s.queue) == Cells(t.serving) + Cells(t.queue);
    assert Cells(s.serving) == [];
  }

  lemma ReplyKeepsLine<In, Out>(s: State<In, Out>, t: State<In, Out>, out: Out)
    requires |s.serving| == 1 && s.serving[0].signal < |s.signals|
    requires t == s.(serving := Without(s.serving, 0), signals := s.signals[s.serving[0].signal := Some(out)],
                     answered := s.answered + [s.serving[0].signal])
    ensures t.serving == [] && InLine(t) == InLine(s)
  {
    assert t.serving == [];
    assert Cells(s.serving) == [s.serving[0].signal] && Cells(t.serving) == [];
  }

  lemma NextKeepsLine<In(!new), Out(!new)>(s: State<In, Out>, step: Step<In, Out>, t: State<In, Out>,
                                           capacity: nat, produced: (In, Out) -> bool)
    requires Next(s, step, t, capacity, produced) && LineInv(s) && (step.Receive? ==> s.serving == [])
    ensures LineInv(t)
  {
    match step {
      case Call(input) =>
        CellsConcat(s.queue, [Exchange(input, |s.callers|)]);
        assert Cells([Exchange(input, |s.callers|)]) == [|s.callers|];
        if |s.queue| < capacity {
          assert InLine(t) == InLine(s) + [|s.callers|];
        }
      case Receive => ReceiveKeepsLine(s, t);
      case Reply(task, out) => ReplyKeepsLine(s, t, out);
      case Resolve(_) =>
      case Abandon(_) =>
    }
  }

  /** With one worker, answers come in the order the calls were accepted, and no more than
      the queue and the one in service are ever outstanding. */
  lemma {:induction false} OneWorkerIsFifo<In(!new), Out(!new)>(
    states: seq<State<In, Out>>, steps: seq<Step<In, Out>>, n: nat, capacity: nat, produced: (In, Out) -> bool)
    requires Run(states, steps, capacity, produced) && OneWorker(states, steps) && n < |states|
    ensures LineInv(states[n]) && Increasing(states[n].answered)
    ensures |states[n].queue| + |states[n].serving| <= capacity + 1
    decreases n
  {
    hide Next, Travels, AnswerIsOwn, Places, Accepted;
    if n != 0 {
      OneWorkerIsFifo(states, steps, n - 1, capacity, produced);
      NextKeepsLine(states[n - 1], steps[n - 1], states[n], capacity, produced);
    }
    EveryRunKeepsInv(states, steps, n, capacity, produced);
    var s := states[n];
    assert forall i :: 0 <= i < |s.answered| ==> InLine(s)[i] == s.answered[i];
  }
}
