/** The embassy to ECS pipes: the latest-wins cell, the bounded queue and the
    request/reply bridge built from them. */
module AsyncBridge {
  import opened Wrappers

  /** The one-value cell under `Latest` and under every reply: signalling replaces, taking empties. */
  class Signal<T> {
    var value: Option<T>

    constructor ()
      ensures value == None
    {
      value := None;
    }

    method Raise(v: T)
      modifies this
      ensures value == Some(v)
    {
      value := Some(v);
    }

    method TryTake() returns (r: Option<T>)
      modifies this
      ensures r == old(value) && value == None
    {
      r := value;
      value := None;
    }
  }

  /** Latest-wins pipe for state: an unread value is replaced. */
  class Latest<T> {
    const inner: Signal<T>

    constructor ()
      ensures fresh(inner) && inner.value == None
    {
      inner := new Signal();
    }

    method Send(value: T)
      modifies inner
      ensures inner.value == Some(value)
    {
      inner.Raise(value);
    }

    method TryRecv() returns (r: Option<T>)
      modifies inner
      ensures r == old(inner.value) && inner.value == None
    {
      r := inner.TryTake();
    }
  }

  /** What a full or non-full queue becomes when `value` is offered: a full one drops the newest. */
  function Offer<T>(items: seq<T>, capacity: nat, value: T): seq<T> {
    if |items| < capacity then items + [value] else items
  }

  /** FIFO pipe of fixed depth; a value that does not fit is handed back. */
  class Queue<T> {
    const capacity: nat
    var items: seq<T>

    ghost predicate Valid()
      reads this
    {
      |items| <= capacity
    }

    constructor (capacity: nat)
      ensures Valid() && items == [] && this.capacity == capacity
    {
      this.capacity := capacity;
      items := [];
    }

    method Send(value: T) returns (r: Result<(), T>)
      requires Valid()
      modifies this
      ensures Valid() && items == Offer(old(items), capacity, value)
      ensures items == if |old(items)| < capacity then old(items) + [value] else old(items)
      ensures r == if |old(items)| < capacity then Ok(()) else Err(value)
    {
      if |items| == capacity {
        return Err(value);
      }
      items := items + [value];
      return Ok(());
    }

    method TryRecv() returns (r: Option<T>)
      requires Valid()
      modifies this
      ensures Valid()
      ensures if old(items) == [] then r == None && items == []
              else r == Some(old(items)[0]) && items == old(items)[1..]
    {
      if items == [] {
        return None;
      }
      r := Some(items[0]);
      items := items[1..];
    }
  }

  /** The per-frame notification drain: everything queued is triggered once, in order. */
  method DrainToObservers<T>(queue: Queue<T>) returns (triggered: seq<T>)
    requires queue.Valid()
    modifies queue
    ensures queue.Valid() && queue.items == [] && triggered == old(queue.items)
  {
    triggered := [];
    var item := queue.TryRecv();
    while item.Some?
      invariant queue.Valid()
      invariant old(queue.items) == triggered + (if item.Some? then [item.value] + queue.items else [])
      invariant item == None ==> queue.items == []
      decreases item.Some?, |queue.items|
    {
      triggered := triggered + [item.value];
      item := queue.TryRecv();
    }
  }

  // ---- request and reply --------------------------------------------------

  /** One call in flight: its input and the cell its caller waits on. */
  datatype Exchange<In, Out> = Exchange(input: In, reply: Signal<Out>)

  class AsyncBridge<In, Out> {
    const queue: Queue<Exchange<In, Out>>

    constructor (capacity: nat)
      ensures fresh(queue) && queue.Valid() && queue.items == [] && queue.capacity == capacity
    {
      queue := new Queue(capacity);
    }

    /** The synchronous half of a call: either the exchange is queued behind a fresh, empty
        reply cell, or the caller gets its own input back. */
    method Submit(input: In) returns (r: Result<Signal<Out>, In>)
      requires queue.Valid()
      modifies queue
      ensures queue.Valid()
      ensures r.Ok? <==> |old(queue.items)| < queue.capacity
      ensures r.Ok? ==> fresh(r.value) && r.value.value == None
                        && queue.items == old(queue.items) + [Exchange(input, r.value)]
      ensures r.Err? ==> r.error == input && queue.items == old(queue.items)
    {
      var signal := new Signal<Out>();
      var sent := queue.Send(Exchange(input, signal));
      match sent {
        case Ok(_) => r := Ok(signal);
        case Err(exchange) => r := Err(exchange.input);
      }
    }

    /** One turn of the worker loop: take the oldest call and answer it with the worker's output. */
    method ServeNext(worker: In -> Out) returns (served: Option<Exchange<In, Out>>)
      requires queue.Valid()
      requires forall e :: e in queue.items ==> e.reply as object != queue
      modifies queue, if queue.items == [] then {} else {queue.items[0].reply}
      ensures queue.Valid()
      ensures served == if old(queue.items) == [] then None else Some(old(queue.items)[0])
      ensures served == None ==> queue.items == []
      ensures served.Some? ==> queue.items == old(queue.items)[1..]
                               && served.value.reply.value == Some(worker(served.value.input))
    {
      served := queue.TryRecv();
      if served.Some? {
        var Exchange(input, reply) := served.value;
        reply.Raise(worker(input));
      }
    }

    /** The ECS drain: every pending call becomes a task of its own, holding its own reply. */
    method DrainToTasks() returns (tasks: seq<Exchange<In, Out>>)
      requires queue.Valid()
      modifies queue
      ensures queue.Valid() && queue.items == [] && tasks == old(queue.items)
    {
      tasks := DrainToObservers(queue);
    }
  }
}
