/**
 The queue between the listener and the workers. Every action below is one critical section of the queue
 mutex; a worker that waits on the condition variable gives the mutex up while it is blocked.
 */
module WorkQueue {

  const MAX_QUEUE_ITEMS_COUNT := 30000

  type WorkerId = nat

  datatype Phase<T> =
    | Outer            // before the lock of the outer loop
    | Blocked          // inside the condition wait
    | Woken            // signalled, has to get the mutex back
    | Inner            // before the lock of the inner loop
    | Processing(item: T)

  datatype State<T> = State(
    queue: seq<T>,
    workers: map<WorkerId, Phase<T>>,
    accepted: seq<T>,                  // every request that entered the queue, in order
    handed: seq<(WorkerId, T)>)        // every request a worker took, in order

  datatype Step<T> =
    | Enqueue(item: T)      // AddToQueue with a request
    | Force                 // AddToQueue without one
    | CheckOuter(w: WorkerId)
    | Spurious(w: WorkerId) // a wait may return without a broadcast
    | Resume(w: WorkerId)
    | TakeFront(w: WorkerId)
    | Finish(w: WorkerId)

  function Broadcast<T>(ws: map<WorkerId, Phase<T>>): map<WorkerId, Phase<T>>
  {
    map w | w in ws :: if ws[w].Blocked? then Woken else ws[w]
  }

  predicate Enabled<T>(s: State<T>, t: Step<T>)
  {
    match t
    case Enqueue(_) => true
    case Force => true
    case CheckOuter(w) => w in s.workers && s.workers[w].Outer?
    case Spurious(w) => w in s.workers && s.workers[w].Blocked?
    case Resume(w) => w in s.workers && s.workers[w].Woken?
    case TakeFront(w) => w in s.workers && s.workers[w].Inner?
    case Finish(w) => w in s.workers && s.workers[w].Processing?
  }

  function Apply<T>(s: State<T>, t: Step<T>): State<T>
    requires Enabled(s, t)
  {
    match t
    case Enqueue(item) =>
      if |s.queue| > MAX_QUEUE_ITEMS_COUNT then s
      else s.(queue := s.queue + [item], accepted := s.accepted + [item], workers := Broadcast(s.workers))
    case Force => if s.queue == [] then s else s.(workers := Broadcast(s.workers))
    case CheckOuter(w) => s.(workers := s.workers[w := if s.queue == [] then Blocked else Inner])
    case Spurious(w) => s.(workers := s.workers[w := Woken])
    case Resume(w) => s.(workers := s.workers[w := Inner])
    case TakeFront(w) =>
      if s.queue == [] then s.(workers := s.workers[w := Outer])
      else State(s.queue[1..], s.workers[w := Processing(s.queue[0])], s.accepted, s.handed + [(w, s.queue[0])])
    case Finish(w) => s.(workers := s.workers[w := Inner])
  }

  function Items<T>(handed: seq<(WorkerId, T)>): (r: seq<T>)
    ensures |r| == |handed| && forall i :: 0 <= i < |handed| ==> r[i] == handed[i].1
  {
    seq(|handed|, i requires 0 <= i < |handed| => handed[i].1)
  }

  ghost predicate Inv<T(!new)>(s: State<T>)
  {
    && s.accepted == Items(s.handed) + s.queue
    && |s.queue| <= MAX_QUEUE_ITEMS_COUNT + 1
    && (forall w :: w in s.workers && s.workers[w].Blocked? ==> s.queue == [])
  }

  lemma InvStep<T(!new)>(s: State<T>, t: Step<T>)
    requires Inv(s) && Enabled(s, t)
    ensures Inv(Apply(s, t))
  {
    match t
    case TakeFront(w) =>
      if s.queue != [] {
        assert Items(s.handed + [(w, s.queue[0])]) == Items(s.handed) + [s.queue[0]];
      }
    case _ =>
  }

  ghost predicate IsRun<T(!new)>(states: seq<State<T>>, steps: seq<Step<T>>)
  {
    && |states| == |steps| + 1
    && states[0].queue == [] && states[0].accepted == [] && states[0].handed == []
    && (forall w :: w in states[0].workers ==> states[0].workers[w].Outer?)
    && forall i :: 0 <= i < |steps| ==> Enabled(states[i], steps[i]) && states[i + 1] == Apply(states[i], steps[i])
  }

  lemma {:induction false} RunInv<T(!new)>(states: seq<State<T>>, steps: seq<Step<T>>, i: nat)
    requires IsRun(states, steps) && i <= |steps|
    ensures Inv(states[i])
  {
    if i > 0 {
      RunInv(states, steps, i - 1);
      InvStep(states[i - 1], steps[i - 1]);
    }
  }

  // The requests that arrived when the queue was not over its limit, read off the steps of the run.
  ghost function Arrived<T(!new)>(states: seq<State<T>>, steps: seq<Step<T>>, i: nat): seq<T>
    requires |states| == |steps| + 1 && i <= |steps|
  {
    if i == 0 then []
    else
      Arrived(states, steps, i - 1)
      + if steps[i - 1].Enqueue? && |states[i - 1].queue| <= MAX_QUEUE_ITEMS_COUNT then [steps[i - 1].item] else []
  }

  // What the workers took from the front, in order.
  ghost function Taken<T(!new)>(states: seq<State<T>>, steps: seq<Step<T>>, i: nat): seq<(WorkerId, T)>
    requires |states| == |steps| + 1 && i <= |steps|
  {
    if i == 0 then []
    else
      Taken(states, steps, i - 1)
      + if steps[i - 1].TakeFront? && states[i - 1].queue != [] then [(steps[i - 1].w, states[i - 1].queue[0])] else []
  }

  lemma {:induction false} Traces<T(!new)>(states: seq<State<T>>, steps: seq<Step<T>>, i: nat)
    requires IsRun(states, steps) && i <= |steps|
    ensures states[i].accepted == Arrived(states, steps, i) && states[i].handed == Taken(states, steps, i)
  {
    if i > 0 {
      Traces(states, steps, i - 1);
      assert states[i] == Apply(states[i - 1], steps[i - 1]);
    }
  }

  /**
   With any number of workers: the requests taken are exactly those that arrived in time, each once and in
   the order of arrival, up to those still queued; the queue stays within 30001; a blocked worker means an
   empty queue.
   */
  lemma FirstInFirstOut<T(!new)>(states: seq<State<T>>, steps: seq<Step<T>>, i: nat)
    requires IsRun(states, steps) && i <= |steps|
    ensures Arrived(states, steps, i) == Items(Taken(states, steps, i)) + states[i].queue
    ensures |states[i].queue| <= 30001
    ensures forall w :: w in states[i].workers && states[i].workers[w].Blocked? ==> states[i].queue == []
  {
    RunInv(states, steps, i);
    Traces(states, steps, i);
  }

  /** A request is queued behind the others as long as no more than 30000 wait, and turned away otherwise. */
  lemma AcceptedUpToLimit<T(!new)>(s: State<T>, item: T)
    ensures |s.queue| <= 30000 ==>
              Apply(s, Enqueue(item)).queue == s.queue + [item]
              && forall w :: w in s.workers && s.workers[w].Blocked? ==> Apply(s, Enqueue(item)).workers[w] == Woken
    ensures |s.queue| > 30000 ==> Apply(s, Enqueue(item)) == s
    ensures Enabled(s, Force) && Apply(s, Force).queue == s.queue
    ensures s.queue != [] ==>
              forall w :: w in s.workers && s.workers[w].Blocked? ==> Apply(s, Force).workers[w] == Woken
  {
  }

  /** While a request waits, every worker that is not busy reaches the queue in at most one step of its own. */
  lemma NoLostWakeup<T(!new)>(states: seq<State<T>>, steps: seq<Step<T>>, i: nat, w: WorkerId)
    requires IsRun(states, steps) && i <= |steps| && w in states[i].workers
    requires states[i].queue != [] && !states[i].workers[w].Processing?
    ensures var s := states[i];
            var ready := if s.workers[w].Inner? then s
                         else if s.workers[w].Outer? then Apply(s, CheckOuter(w))
                         else if s.workers[w].Woken? then Apply(s, Resume(w)) else s;
            Enabled(ready, TakeFront(w)) && Apply(ready, TakeFront(w)).workers[w] == Processing(s.queue[0])
  {
    RunInv(states, steps, i);
  }

  /** The queue in place: each method is one critical section. */
  class CUdpServerQueue<T(!new)> {
    var queue: seq<T>
    var workers: map<WorkerId, Phase<T>>
    ghost var accepted: seq<T>
    ghost var handed: seq<(WorkerId, T)>

    ghost function Value(): State<T>
      reads this
    {
      State(queue, workers, accepted, handed)
    }

    constructor (pool: set<WorkerId>)
      ensures Inv(Value()) && queue == [] && accepted == [] && handed == []
      ensures workers.Keys == pool && forall w :: w in pool ==> workers[w].Outer?
    {
      queue, workers := [], map w | w in pool :: Outer;
      accepted, handed := [], [];
    }

    method AddToQueue(item: T)
      requires Inv(Value())
      modifies this
      ensures Inv(Value()) && Value() == Apply(old(Value()), Enqueue(item))
      ensures queue == if |old(queue)| <= 30000 then old(queue) + [item] else old(queue)
    {
      ghost var s := Value();
      InvStep(s, Enqueue(item));
      var size := |queue|;
      if size > MAX_QUEUE_ITEMS_COUNT { return; }
      queue := queue + [item];
      accepted := accepted + [item];
      workers := Broadcast(workers);
    }

    method WaitForWork(w: WorkerId)
      requires Inv(Value()) && Enabled(Value(), CheckOuter(w))
      modifies this
      ensures Inv(Value()) && Value() == Apply(old(Value()), CheckOuter(w))
    {
      if |queue| == 0 {
        workers := workers[w := Blocked];
      } else {
        workers := workers[w := Inner];
      }
    }

    method Take(w: WorkerId) returns (got: bool)
      requires Inv(Value()) && Enabled(Value(), TakeFront(w))
      modifies this
      ensures Inv(Value()) && Value() == Apply(old(Value()), TakeFront(w))
      ensures got <==> old(queue) != []
      ensures got ==> workers[w] == Processing(old(queue)[0])
    {
      InvStep(Value(), TakeFront(w));
      got := |queue| != 0;
      if got {
        var item := queue[0];
        queue := queue[1..];
        handed := handed + [(w, item)];
        workers := workers[w := Processing(item)];
      } else {
        workers := workers[w := Outer];
      }
    }
  }
}
