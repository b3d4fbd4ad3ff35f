/** The worker pool: requests, workers and the event loop as a state machine over critical sections. */
module ThreadPool {
  import opened Options

  type Id = nat

  /** An element of the work queue: a request, or the message that slow requests wait in their own queue. */
  datatype Item = Work(id: Id) | RunSlow

  /** A worker at the top of its loop; asleep; awake but without the mutex; at a request that it may have run already;
      behind it, with the mutex to take again. */
  datatype Worker = Ready | Waiting | Woken | Busy(id: Id, slow: bool, ran: bool) | Back(slow: bool)

  /** The `work` field of a request. */
  datatype Callback = Given | Null | Cancelled

  datatype Delivery = Delivery(id: Id, cancelled: bool)

  datatype State = State(
    wq: seq<Item>,
    slow: seq<Id>,
    workers: seq<Worker>,
    slowRunning: nat,
    idle: nat,
    cancelling: Option<Id>,      // between the two halves of a cancellation
    loopQueue: seq<Id>,
    local: seq<Id>,              // moved off the loop's queue, to be delivered
    delivered: seq<Delivery>,
    work: map<Id, Callback>,     // of the requests submitted
    ran: set<Id>)

  function Threshold(s: State): nat {
    (|s.workers| + 1) / 2
  }

  /** Is there something in the queue for a worker to do? */
  predicate Runnable(s: State) {
    s.wq != [] && !(s.wq == [RunSlow] && s.slowRunning >= Threshold(s))
  }

  // A signal wakes one of the workers asleep, if any; it is sent only if some worker is counted as idle.
  ghost predicate Signal(idle: nat, ws: seq<Worker>, ws2: seq<Worker>, u: nat) {
    if idle > 0 && Waiting in ws then u < |ws| && ws[u] == Waiting && ws2 == ws[u := Woken] else ws2 == ws
  }

  datatype Step =
    | Submit(id: Id, slow: bool, wakes: nat)
    | Take(t: nat, wakes: nat)
    | Spurious(t: nat)
    | Run(t: nat)
    | Finish(t: nat)
    | Relock(t: nat)
    | TryCancel(id: Id)
    | EndCancel
    | Collect
    | Deliver

  // ---------- critical sections ----------

  ghost predicate DoSubmit(s: State, s2: State, id: Id, slow: bool, wakes: nat) {
    && id !in s.work
    && var s1 := s.(work := s.work[id := Given]);
       if slow && RunSlow in s.wq then s2 == s1.(slow := s.slow + [id])
       else
         && Signal(s.idle, s.workers, s2.workers, wakes)
         && s2 == s1.(workers := s2.workers,
                      slow := if slow then s.slow + [id] else s.slow,
                      wq := s.wq + [if slow then RunSlow else Work(id)])
  }

  /** A worker with the mutex: goes to sleep, or takes the head of the queue. */
  ghost predicate DoTake(s: State, s2: State, t: nat, wakes: nat) {
    && t < |s.workers| && (s.workers[t].Ready? || (s.workers[t].Woken? && s.idle > 0))
    && var idle: nat := if s.workers[t].Woken? then s.idle - 1 else s.idle;
       if !Runnable(s) then s2 == s.(idle := idle + 1, workers := s.workers[t := Waiting])
       else
         var rest := s.wq[1..];
         match s.wq[0]
         case Work(id) => s2 == s.(idle := idle, wq := rest, workers := s.workers[t := Busy(id, false, false)])
         case RunSlow =>
           if s.slowRunning >= Threshold(s) then
             s2 == s.(idle := idle, wq := rest + [RunSlow], workers := s.workers[t := Ready])
           else if s.slow == [] then s2 == s.(idle := idle, wq := rest, workers := s.workers[t := Ready])
           else
             var busy := s.workers[t := Busy(s.slow[0], true, false)];
             && s2 == s.(idle := idle, slow := s.slow[1..], slowRunning := s.slowRunning + 1, workers := s2.workers,
                         wq := if |s.slow| > 1 then rest + [RunSlow] else rest)
             && if |s.slow| > 1 then Signal(idle, busy, s2.workers, wakes) else s2.workers == busy
  }

  /** Is the request in a queue? */
  predicate Linked(s: State, id: Id) {
    Work(id) in s.wq || id in s.slow || id in s.loopQueue || id in s.local
  }

  function Without<T(==)>(q: seq<T>, x: T): seq<T> {
    if q == [] then [] else if q[0] == x then q[1..] else [q[0]] + Without(q[1..], x)
  }

  ghost predicate DoTryCancel(s: State, s2: State, id: Id) {
    && id in s.work && s.cancelling.None? && (forall d :: d in s.delivered ==> d.id != id)
    && if Linked(s, id) && s.work[id] != Null then
         s2 == s.(cancelling := Some(id), wq := Without(s.wq, Work(id)), slow := Without(s.slow, id),
                  loopQueue := Without(s.loopQueue, id), local := Without(s.local, id))
       else s2 == s
  }

  ghost predicate Next(s: State, s2: State, step: Step) {
    match step
    case Submit(id, slow, wakes) => DoSubmit(s, s2, id, slow, wakes)
    case Take(t, wakes) => DoTake(s, s2, t, wakes)
    case Spurious(t) =>
      t < |s.workers| && s.workers[t].Waiting? && s2 == s.(workers := s.workers[t := Woken])
    case Run(t) =>
      && t < |s.workers| && s.workers[t].Busy? && !s.workers[t].ran
      && s2 == s.(workers := s.workers[t := s.workers[t].(ran := true)], ran := s.ran + {s.workers[t].id})
    case Finish(t) =>
      && t < |s.workers| && s.workers[t].Busy? && s.workers[t].ran
      && s2 == s.(workers := s.workers[t := Back(s.workers[t].slow)], work := s.work[s.workers[t].id := Null],
                  loopQueue := s.loopQueue + [s.workers[t].id])
    case Relock(t) =>
      && t < |s.workers| && s.workers[t].Back? && (s.workers[t].slow ==> s.slowRunning > 0)
      && s2 == s.(workers := s.workers[t := Ready],
                  slowRunning := if s.workers[t].slow then s.slowRunning - 1 else s.slowRunning)
    case TryCancel(id) => DoTryCancel(s, s2, id)
    case EndCancel =>
      && s.cancelling.Some?
      && s2 == s.(cancelling := None, work := s.work[s.cancelling.value := Cancelled],
                  loopQueue := s.loopQueue + [s.cancelling.value])
    case Collect =>
      s.local == [] && s.cancelling.None? && s2 == s.(local := s.loopQueue, loopQueue := [])
    case Deliver =>
      && s.local != [] && s.cancelling.None? && s.local[0] in s.work
      && s2 == s.(local := s.local[1..],
                  delivered := s.delivered + [Delivery(s.local[0], s.work[s.local[0]].Cancelled?)])
  }

  ghost predicate Start(s: State, threads: nat) {
    && threads > 0
    && s == State([], [], seq(threads, _ => Ready), 0, 0, None, [], [], [], map[], {})
  }

  // ---------- where the requests are ----------

  ghost function Count<T>(q: seq<T>, x: T): nat {
    if q == [] then 0 else Count(q[..|q| - 1], x) + if q[|q| - 1] == x then 1 else 0
  }

  ghost function Holds(w: Worker, id: Id): nat {
    if w.Busy? && w.id == id then 1 else 0
  }

  ghost function Held(ws: seq<Worker>, id: Id): nat {
    if ws == [] then 0 else Held(ws[..|ws| - 1], id) + Holds(ws[|ws| - 1], id)
  }

  /** In how many places a request is. */
  ghost function Places(s: State, id: Id): nat {
    Count(s.wq, Work(id)) + Count(s.slow, id) + Held(s.workers, id) + (if s.cancelling == Some(id) then 1 else 0)
    + Count(s.loopQueue, id) + Count(s.local, id)
    + Count(s.delivered, Delivery(id, true)) + Count(s.delivered, Delivery(id, false))
  }

  /** A request submitted is in one place, and one place only. */
  ghost predicate EachOnce(s: State) {
    forall id :: Places(s, id) == if id in s.work then 1 else 0
  }

  ghost function SlowWorkers(ws: seq<Worker>): nat {
    if ws == [] then 0 else SlowWorkers(ws[..|ws| - 1]) + if IsSlow(ws[|ws| - 1]) then 1 else 0
  }

  ghost predicate IsSlow(w: Worker) {
    (w.Busy? || w.Back?) && w.slow
  }

  ghost function Idlers(ws: seq<Worker>): nat {
    if ws == [] then 0
    else Idlers(ws[..|ws| - 1]) + if ws[|ws| - 1].Waiting? || ws[|ws| - 1].Woken? then 1 else 0
  }

  /** What the `work` field and the history say about a request, by the place it is in. */
  ghost predicate Fields(s: State) {
    && (forall id :: Work(id) in s.wq || id in s.slow ==> id in s.work && s.work[id].Given? && id !in s.ran)
    && (forall t :: 0 <= t < |s.workers| && s.workers[t].Busy? ==>
         && s.workers[t].id in s.work && s.work[s.workers[t].id].Given?
         && (s.workers[t].ran <==> s.workers[t].id in s.ran))
    && (s.cancelling.Some? ==>
         s.cancelling.value in s.work && !s.work[s.cancelling.value].Null? && s.cancelling.value !in s.ran)
    && (forall id :: id in s.loopQueue || id in s.local ==>
         id in s.work && !s.work[id].Given? && (s.work[id].Cancelled? <==> id !in s.ran))
    && (forall d :: d in s.delivered ==> d.id in s.work && (d.cancelled <==> d.id !in s.ran))
    && s.ran <= s.work.Keys
  }

  /** Slow requests: the message is in the queue, once, while any waits, and at most the threshold run. */
  ghost predicate SlowInv(s: State) {
    && Count(s.wq, RunSlow) <= 1 && (s.slow != [] ==> Count(s.wq, RunSlow) == 1)
    && s.slowRunning == SlowWorkers(s.workers) <= Threshold(s)
  }

  /** No request is stranded: while there is something to do, some worker is awake. */
  ghost predicate SomeoneAwake(s: State) {
    && |s.workers| > 0 && s.idle == Idlers(s.workers)
    && (Runnable(s) ==> exists t :: 0 <= t < |s.workers| && !s.workers[t].Waiting?)
  }

  ghost predicate Inv(s: State) {
    EachOnce(s) && Fields(s) && SlowInv(s) && SomeoneAwake(s)
  }
}
