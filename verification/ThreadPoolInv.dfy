/** The invariant of the worker pool, step by step. */
module ThreadPoolInv {
  import opened Options
  import opened ThreadPool

  // ---------- counting ----------

  lemma CountSnoc<T>(q: seq<T>, y: T, x: T)
    ensures Count(q + [y], x) == Count(q, x) + if y == x then 1 else 0
  {
    assert (q + [y])[..|q|] == q;
  }

  lemma {:induction false} CountHead<T>(q: seq<T>, x: T)
    requires q != []
    ensures Count(q, x) == (if q[0] == x then 1 else 0) + Count(q[1..], x)
  {
    var m := |q| - 1;
    if m > 0 {
      CountHead(q[..m], x);
      assert q[..m][1..] == q[1..][..m - 1];
    }
  }

  lemma {:induction false} CountHas<T>(q: seq<T>, x: T)
    ensures Count(q, x) > 0 <==> x in q
  {
    if q != [] {
      CountHas(q[1..], x);
      CountHead(q, x);
      assert q == [q[0]] + q[1..];
    }
  }

  lemma {:induction false} CountWithout<T>(q: seq<T>, y: T, x: T)
    ensures Count(Without(q, y), x) == Count(q, x) - if x == y && x in q then 1 else 0
  {
    if q != [] {
      CountHead(q, x);
      assert q == [q[0]] + q[1..];
      if q[0] == y {
      } else {
        CountWithout(q[1..], y, x);
        CountHead([q[0]] + Without(q[1..], y), x);
      }
    }
  }

  lemma {:induction false} WithoutIn<T>(q: seq<T>, y: T)
    ensures forall x :: x in Without(q, y) ==> x in q
  {
    if q != [] && q[0] != y {
      WithoutIn(q[1..], y);
    }
  }

  ghost predicate Sleepy(w: Worker) {
    w.Waiting? || w.Woken?
  }

  lemma {:induction false} HeldChange(ws: seq<Worker>, t: nat, w: Worker, id: Id)
    requires t < |ws|
    ensures Held(ws[t := w], id) + Holds(ws[t], id) == Held(ws, id) + Holds(w, id)
  {
    var m := |ws| - 1;
    if t < m {
      HeldChange(ws[..m], t, w, id);
      assert ws[t := w][..m] == ws[..m][t := w];
    }
  }

  lemma {:induction false} WorkerChange(ws: seq<Worker>, t: nat, w: Worker)
    requires t < |ws|
    ensures SlowWorkers(ws[t := w]) + (if IsSlow(ws[t]) then 1 else 0) == SlowWorkers(ws) + if IsSlow(w) then 1 else 0
    ensures Idlers(ws[t := w]) + (if Sleepy(ws[t]) then 1 else 0) == Idlers(ws) + if Sleepy(w) then 1 else 0
  {
    var m := |ws| - 1;
    if t < m {
      WorkerChange(ws[..m], t, w);
      assert ws[t := w][..m] == ws[..m][t := w];
    }
  }

  lemma {:induction false} HeldHas(ws: seq<Worker>, t: nat, id: Id)
    requires t < |ws|
    ensures Holds(ws[t], id) <= Held(ws, id)
    ensures IsSlow(ws[t]) ==> SlowWorkers(ws) > 0
    ensures Sleepy(ws[t]) ==> Idlers(ws) > 0
  {
    if t < |ws| - 1 {
      HeldHas(ws[..|ws| - 1], t, id);
    }
  }

  /** Two workers with the same request would count twice. */
  lemma HeldTwice(ws: seq<Worker>, t: nat, t2: nat, id: Id)
    requires t < |ws| && t2 < |ws| && t != t2 && Holds(ws[t], id) == 1 && Holds(ws[t2], id) == 1
    ensures Held(ws, id) >= 2
  {
    HeldChange(ws, t, Ready, id);
    HeldHas(ws[t := Ready], t2, id);
  }

  /** A signal moves one worker from sleep to waking up. */
  lemma Signalled(idle: nat, ws: seq<Worker>, ws2: seq<Worker>, u: nat)
    requires Signal(idle, ws, ws2, u)
    ensures SlowWorkers(ws2) == SlowWorkers(ws) && Idlers(ws2) == Idlers(ws) && |ws2| == |ws|
    ensures forall t :: 0 <= t < |ws| ==> ws2[t] == ws[t] || (ws[t].Waiting? && ws2[t].Woken?)
    ensures forall id :: Held(ws2, id) == Held(ws, id)
  {
    if ws2 != ws {
      WorkerChange(ws, u, Woken);
      forall id ensures Held(ws2, id) == Held(ws, id) {
        HeldChange(ws, u, Woken, id);
      }
    }
  }

  /** If the count of idle workers is right, a signal leaves someone awake. */
  lemma SignalWakes(idle: nat, ws: seq<Worker>, ws2: seq<Worker>, u: nat)
    requires Signal(idle, ws, ws2, u) && idle == Idlers(ws) && ws != []
    ensures exists t :: 0 <= t < |ws2| && !ws2[t].Waiting?
  {
    if idle > 0 && Waiting in ws {
      assert !ws2[u].Waiting?;
    } else if idle > 0 {
      assert !ws2[0].Waiting?;
    } else {
      if ws[0].Waiting? {
        HeldHas(ws, 0, 0);
      }
      assert !ws2[0].Waiting?;
    }
  }

  // ---------- each request in one place ----------

  lemma SubmitOnce(s: State, s2: State, id: Id, slow: bool, u: nat)
    requires EachOnce(s) && DoSubmit(s, s2, id, slow, u)
    ensures EachOnce(s2)
  {
    hide Count, Held;
    if s2.workers != s.workers {
      Signalled(s.idle, s.workers, s2.workers, u);
    }
    forall x ensures Places(s2, x) == if x in s2.work then 1 else 0 {
      assert Places(s, x) == if x in s.work then 1 else 0;
      CountSnoc(s.slow, id, x);
      CountSnoc(s.wq, if slow then RunSlow else Work(id), Work(x));
    }
  }

  lemma TakeOnce(s: State, s2: State, t: nat, u: nat)
    requires EachOnce(s) && DoTake(s, s2, t, u)
    ensures EachOnce(s2)
  {
    hide Count, Held;
    forall x ensures Places(s2, x) == if x in s2.work then 1 else 0 {
      assert Places(s, x) == if x in s.work then 1 else 0;
      TakeCounts(s, s2, t, u, x);
    }
  }

  lemma TakeCounts(s: State, s2: State, t: nat, u: nat, x: Id)
    requires DoTake(s, s2, t, u)
    ensures Count(s2.wq, Work(x)) + Count(s2.slow, x) + Held(s2.workers, x)
      == Count(s.wq, Work(x)) + Count(s.slow, x) + Held(s.workers, x)
  {
    hide Count, Held;
    if !Runnable(s) {
      HeldChange(s.workers, t, Waiting, x);
    } else {
      CountHead(s.wq, Work(x));
      CountSnoc(s.wq[1..], RunSlow, Work(x));
      match s.wq[0]
      case Work(id) => HeldChange(s.workers, t, Busy(id, false, false), x);
      case RunSlow =>
        HeldChange(s.workers, t, Ready, x);
        if s.slowRunning < Threshold(s) && s.slow != [] {
          var w := Busy(s.slow[0], true, false);
          HeldChange(s.workers, t, w, x);
          CountHead(s.slow, x);
          if |s.slow| > 1 {
            var idle: nat := if s.workers[t].Woken? then s.idle - 1 else s.idle;
            Signalled(idle, s.workers[t := w], s2.workers, u);
          } else {
            assert s.slow[1..] == [];
          }
        }
    }
  }

  /** A step that changes one worker, or hands its request to the loop. */
  lemma WorkerOnce(s: State, s2: State, step: Step)
    requires EachOnce(s) && Next(s, s2, step)
    requires step.Spurious? || step.Run? || step.Finish? || step.Relock?
    requires Fields(s)
    ensures EachOnce(s2)
  {
    hide Count, Held;
    var t := step.t;
    forall x ensures Places(s2, x) == if x in s2.work then 1 else 0 {
      assert Places(s, x) == if x in s.work then 1 else 0;
      HeldChange(s.workers, t, s2.workers[t], x);
      assert s2.workers == s.workers[t := s2.workers[t]];
      if step.Finish? {
        CountSnoc(s.loopQueue, s.workers[t].id, x);
      }
    }
  }

  lemma TryCancelOnce(s: State, s2: State, id: Id)
    requires EachOnce(s) && DoTryCancel(s, s2, id)
    ensures EachOnce(s2)
  {
    hide Count, Held;
    if s2 != s {
      forall x ensures Places(s2, x) == if x in s2.work then 1 else 0 {
        assert Places(s, x) == if x in s.work then 1 else 0;
        WithoutCounts(s, id, x);
        LinkedCounts(s, id);
      }
    }
  }

  lemma WithoutCounts(s: State, id: Id, x: Id)
    ensures Count(Without(s.wq, Work(id)), Work(x))
         == Count(s.wq, Work(x)) - if x == id && Work(id) in s.wq then 1 else 0
    ensures Count(Without(s.slow, id), x) == Count(s.slow, x) - if x == id && id in s.slow then 1 else 0
    ensures Count(Without(s.loopQueue, id), x) == Count(s.loopQueue, x) - if x == id && id in s.loopQueue then 1 else 0
    ensures Count(Without(s.local, id), x) == Count(s.local, x) - if x == id && id in s.local then 1 else 0
  {
    hide Count;
    CountWithout(s.wq, Work(id), Work(x));
    CountWithout(s.slow, id, x);
    CountWithout(s.loopQueue, id, x);
    CountWithout(s.local, id, x);
  }

  lemma LinkedCounts(s: State, id: Id)
    ensures Work(id) in s.wq <==> Count(s.wq, Work(id)) > 0
    ensures id in s.slow <==> Count(s.slow, id) > 0
    ensures id in s.loopQueue <==> Count(s.loopQueue, id) > 0
    ensures id in s.local <==> Count(s.local, id) > 0
  {
    hide Count;
    CountHas(s.wq, Work(id));
    CountHas(s.slow, id);
    CountHas(s.loopQueue, id);
    CountHas(s.local, id);
  }

  /** The steps of the event loop. */
  lemma LoopOnce(s: State, s2: State, step: Step)
    requires EachOnce(s) && Fields(s) && Next(s, s2, step)
    requires step.EndCancel? || step.Collect? || step.Deliver?
    ensures EachOnce(s2)
  {
    hide Count, Held;
    forall x ensures Places(s2, x) == if x in s2.work then 1 else 0 {
      assert Places(s, x) == if x in s.work then 1 else 0;
      NoneCounted(x);
      match step
      case EndCancel => CountSnoc(s.loopQueue, s.cancelling.value, x);
      case Collect =>
      case Deliver =>
        CountHead(s.local, x);
        var d := s2.delivered[|s.delivered|];
        CountSnoc(s.delivered, d, Delivery(x, true));
        CountSnoc(s.delivered, d, Delivery(x, false));
    }
  }

  lemma NoneCounted(x: Id)
    ensures Count<Id>([], x) == 0
  {
  }

  lemma StepOnce(s: State, s2: State, step: Step)
    requires EachOnce(s) && Fields(s) && Next(s, s2, step)
    ensures EachOnce(s2)
  {
    hide EachOnce, Fields, DoSubmit, DoTake, DoTryCancel;
    match step
    case Submit(id, slow, u) => SubmitOnce(s, s2, id, slow, u);
    case Take(t, u) => TakeOnce(s, s2, t, u);
    case TryCancel(id) => TryCancelOnce(s, s2, id);
    case EndCancel => LoopOnce(s, s2, step);
    case Collect => LoopOnce(s, s2, step);
    case Deliver => LoopOnce(s, s2, step);
    case _ => WorkerOnce(s, s2, step);
  }

  // ---------- fields and history ----------

  /** The request of a worker is nowhere else. */
  lemma OnlyBusy(s: State, t: nat)
    requires EachOnce(s) && Fields(s) && t < |s.workers| && s.workers[t].Busy?
    ensures var id := s.workers[t].id;
      && Work(id) !in s.wq && id !in s.slow && id !in s.loopQueue && id !in s.local && s.cancelling != Some(id)
      && (forall d :: d in s.delivered ==> d.id != id)
      && (forall t2 :: 0 <= t2 < |s.workers| && t2 != t && s.workers[t2].Busy? ==> s.workers[t2].id != id)
  {
    hide Count, Held;
    var id := s.workers[t].id;
    assert Places(s, id) == 1;
    HeldHas(s.workers, t, id);
    LinkedCounts(s, id);
    NotDelivered(s.delivered, id);
    forall t2 | 0 <= t2 < |s.workers| && t2 != t && s.workers[t2].Busy? ensures s.workers[t2].id != id {
      if s.workers[t2].id == id {
        HeldTwice(s.workers, t, t2, id);
      }
    }
  }

  lemma NotDelivered(ds: seq<Delivery>, id: Id)
    ensures Count(ds, Delivery(id, true)) + Count(ds, Delivery(id, false)) == 0 ==> forall d :: d in ds ==> d.id != id
  {
    hide Count;
    CountHas(ds, Delivery(id, true));
    CountHas(ds, Delivery(id, false));
    assert forall d :: d in ds && d.id == id ==> d == Delivery(id, true) || d == Delivery(id, false);
  }

  /** So is a request that is being called off. */
  lemma OnlyCancelling(s: State)
    requires EachOnce(s) && Fields(s) && s.cancelling.Some?
    ensures var id := s.cancelling.value;
      && Work(id) !in s.wq && id !in s.slow && id !in s.loopQueue && id !in s.local
      && (forall d :: d in s.delivered ==> d.id != id)
      && (forall t :: 0 <= t < |s.workers| && s.workers[t].Busy? ==> s.workers[t].id != id)
  {
    hide Count, Held;
    var id := s.cancelling.value;
    assert Places(s, id) == 1;
    LinkedCounts(s, id);
    NotDelivered(s.delivered, id);
    forall t | 0 <= t < |s.workers| && s.workers[t].Busy? ensures s.workers[t].id != id {
      HeldHas(s.workers, t, id);
    }
  }

  lemma SubmitFields(s: State, s2: State, id: Id, slow: bool, u: nat)
    requires Fields(s) && DoSubmit(s, s2, id, slow, u)
    ensures Fields(s2)
  {
    if s2.workers != s.workers {
      Signalled(s.idle, s.workers, s2.workers, u);
    }
  }

  lemma TakeFields(s: State, s2: State, t: nat, u: nat)
    requires Fields(s) && DoTake(s, s2, t, u)
    ensures Fields(s2)
  {
    if Runnable(s) {
      assert s.wq[0] in s.wq;
      if s.wq[0].RunSlow? && s.slowRunning < Threshold(s) && s.slow != [] {
        TakeSlowFields(s, s2, t, u);
      }
    }
  }

  lemma TakeSlowFields(s: State, s2: State, t: nat, u: nat)
    requires Fields(s) && DoTake(s, s2, t, u)
    requires Runnable(s) && s.wq[0].RunSlow? && s.slowRunning < Threshold(s) && s.slow != []
    ensures Fields(s2)
  {
    hide Threshold, SlowWorkers, Idlers, Held;
    assert s.slow[0] in s.slow;
    if |s.slow| > 1 {
      var idle: nat := if s.workers[t].Woken? then s.idle - 1 else s.idle;
      Signalled(idle, s.workers[t := Busy(s.slow[0], true, false)], s2.workers, u);
    }
  }

  lemma WorkerFields(s: State, s2: State, step: Step)
    requires EachOnce(s) && Fields(s) && Next(s, s2, step)
    requires step.Spurious? || step.Run? || step.Finish? || step.Relock?
    ensures Fields(s2)
  {
    hide EachOnce;
    if step.Run? || step.Finish? {
      OnlyBusy(s, step.t);
    }
  }

  lemma TryCancelFields(s: State, s2: State, id: Id)
    requires Fields(s) && DoTryCancel(s, s2, id)
    ensures Fields(s2)
  {
    WithoutIn(s.wq, Work(id));
    WithoutIn(s.slow, id);
    WithoutIn(s.loopQueue, id);
    WithoutIn(s.local, id);
  }

  lemma LoopFields(s: State, s2: State, step: Step)
    requires EachOnce(s) && Fields(s) && Next(s, s2, step)
    requires step.EndCancel? || step.Collect? || step.Deliver?
    ensures Fields(s2)
  {
    hide EachOnce;
    if step.EndCancel? {
      OnlyCancelling(s);
    }
  }

  lemma StepFields(s: State, s2: State, step: Step)
    requires EachOnce(s) && Fields(s) && Next(s, s2, step)
    ensures Fields(s2)
  {
    hide EachOnce, Fields, DoSubmit, DoTake, DoTryCancel;
    match step
    case Submit(id, slow, u) => SubmitFields(s, s2, id, slow, u);
    case Take(t, u) => TakeFields(s, s2, t, u);
    case TryCancel(id) => TryCancelFields(s, s2, id);
    case EndCancel => LoopFields(s, s2, step);
    case Collect => LoopFields(s, s2, step);
    case Deliver => LoopFields(s, s2, step);
    case _ => WorkerFields(s, s2, step);
  }

  // ---------- slow requests, and nobody stranded ----------

  lemma SubmitRest(s: State, s2: State, id: Id, slow: bool, u: nat)
    requires SlowInv(s) && SomeoneAwake(s) && DoSubmit(s, s2, id, slow, u)
    ensures SlowInv(s2) && SomeoneAwake(s2)
  {
    hide Count, SlowWorkers, Idlers;
    CountHas(s.wq, RunSlow);
    CountSnoc(s.wq, if slow then RunSlow else Work(id), RunSlow);
    if !(slow && RunSlow in s.wq) {
      Signalled(s.idle, s.workers, s2.workers, u);
      SignalWakes(s.idle, s.workers, s2.workers, u);
    }
  }

  lemma TakeRest(s: State, s2: State, t: nat, u: nat)
    requires SlowInv(s) && SomeoneAwake(s) && DoTake(s, s2, t, u)
    ensures SlowInv(s2) && SomeoneAwake(s2)
  {
    hide Count, SlowWorkers, Idlers;
    HeldHas(s.workers, t, 0);
    if !Runnable(s) {
      WorkerChange(s.workers, t, Waiting);
    } else {
      CountHead(s.wq, RunSlow);
      CountSnoc(s.wq[1..], RunSlow, RunSlow);
      match s.wq[0]
      case Work(id) =>
        WorkerChange(s.workers, t, Busy(id, false, false));
        assert !s2.workers[t].Waiting?;
      case RunSlow =>
        if s.slowRunning < Threshold(s) && s.slow != [] {
          var w := Busy(s.slow[0], true, false);
          WorkerChange(s.workers, t, w);
          if |s.slow| > 1 {
            var idle: nat := if s.workers[t].Woken? then s.idle - 1 else s.idle;
            Signalled(idle, s.workers[t := w], s2.workers, u);
          }
        } else {
          WorkerChange(s.workers, t, Ready);
        }
        assert !s2.workers[t].Waiting?;
    }
  }

  lemma WorkerRest(s: State, s2: State, step: Step)
    requires SlowInv(s) && SomeoneAwake(s) && Next(s, s2, step)
    requires step.Spurious? || step.Run? || step.Finish? || step.Relock?
    ensures SlowInv(s2) && SomeoneAwake(s2)
  {
    hide Count, SlowWorkers, Idlers;
    WorkerChange(s.workers, step.t, s2.workers[step.t]);
    assert s2.workers == s.workers[step.t := s2.workers[step.t]];
    assert !s2.workers[step.t].Waiting?;
  }

  lemma LoopRest(s: State, s2: State, step: Step)
    requires SlowInv(s) && SomeoneAwake(s) && Next(s, s2, step)
    requires step.TryCancel? || step.EndCancel? || step.Collect? || step.Deliver?
    ensures SlowInv(s2) && SomeoneAwake(s2)
  {
    hide Count, SlowWorkers, Idlers;
    if step.TryCancel? {
      CountWithout(s.wq, Work(step.id), RunSlow);
      assert Without([RunSlow], Work(step.id)) == [RunSlow] + Without([], Work(step.id)) == [RunSlow];
    }
  }

  /** Every step keeps the invariant. */
  lemma StepInv(s: State, s2: State, step: Step)
    requires Inv(s) && Next(s, s2, step)
    ensures Inv(s2)
  {
    hide EachOnce, Fields, SlowInv, SomeoneAwake, DoSubmit, DoTake, DoTryCancel;
    StepOnce(s, s2, step);
    StepFields(s, s2, step);
    match step
    case Submit(id, slow, u) => SubmitRest(s, s2, id, slow, u);
    case Take(t, u) => TakeRest(s, s2, t, u);
    case TryCancel(id) => LoopRest(s, s2, step);
    case EndCancel => LoopRest(s, s2, step);
    case Collect => LoopRest(s, s2, step);
    case Deliver => LoopRest(s, s2, step);
    case _ => WorkerRest(s, s2, step);
  }

  lemma StartInv(s: State, threads: nat)
    requires Start(s, threads)
    ensures Inv(s)
  {
    AllReady(threads);
    forall id ensures Places(s, id) == 0 {
      AllReadyHold(threads, id);
    }
  }

  lemma {:induction false} AllReady(n: nat)
    ensures SlowWorkers(seq(n, _ => Ready)) == 0 && Idlers(seq(n, _ => Ready)) == 0
  {
    if n > 0 {
      AllReady(n - 1);
      assert seq(n, _ => Ready)[..n - 1] == seq(n - 1, _ => Ready);
    }
  }

  lemma {:induction false} AllReadyHold(n: nat, id: Id)
    ensures Held(seq(n, _ => Ready), id) == 0
  {
    if n > 0 {
      AllReadyHold(n - 1, id);
      assert seq(n, _ => Ready)[..n - 1] == seq(n - 1, _ => Ready);
    }
  }

  // ---------- runs ----------

  datatype Run = Run(states: seq<State>, steps: seq<Step>)

  ghost predicate ValidRun(r: Run, threads: nat) {
    && |r.states| == |r.steps| + 1
    && Start(r.states[0], threads)
    && forall i :: 0 <= i < |r.steps| ==> Next(r.states[i], r.states[i + 1], r.steps[i])
  }

  lemma {:induction false} RunInv(r: Run, threads: nat, i: nat)
    requires ValidRun(r, threads) && i < |r.states|
    ensures Inv(r.states[i])
  {
    hide Next, Inv, Start;
    if i == 0 {
      StartInv(r.states[0], threads);
    } else {
      RunInv(r, threads, i - 1);
      assert Next(r.states[i - 1], r.states[i - 1 + 1], r.steps[i - 1]);
      StepInv(r.states[i - 1], r.states[i], r.steps[i - 1]);
    }
  }

  /** A request is delivered at most once, and as cancelled exactly if its work never ran. */
  lemma DeliveredOnce(s: State)
    requires Inv(s)
    ensures forall i, j :: 0 <= i < j < |s.delivered| ==> s.delivered[i].id != s.delivered[j].id
    ensures forall i :: 0 <= i < |s.delivered| ==> (s.delivered[i].cancelled <==> s.delivered[i].id !in s.ran)
  {
    hide Count, Held;
    forall i | 0 <= i < |s.delivered| ensures s.delivered[i].cancelled <==> s.delivered[i].id !in s.ran {
      assert s.delivered[i] in s.delivered;
    }
    forall i, j | 0 <= i < j < |s.delivered| ensures s.delivered[i].id != s.delivered[j].id {
      var id := s.delivered[i].id;
      if s.delivered[j].id == id {
        assert s.delivered[i] in s.delivered && Places(s, id) <= 1;
        CountTwice(s.delivered, i, j, id);
      }
    }
  }

  lemma {:induction false} CountTwice(ds: seq<Delivery>, i: nat, j: nat, id: Id)
    requires i < j < |ds| && ds[i].id == ds[j].id == id
    ensures Count(ds, Delivery(id, true)) + Count(ds, Delivery(id, false)) >= 2
  {
    var m := |ds| - 1;
    if j < m {
      CountTwice(ds[..m], i, j, id);
    } else {
      assert ds[i] in ds[..m] by { assert ds[..m][i] == ds[i]; }
      CountHas(ds[..m], ds[i]);
      assert ds[i] == Delivery(id, ds[i].cancelled) && ds[j] == Delivery(id, ds[j].cancelled);
    }
  }

  /** When every worker is asleep, all requests but those of the loop have been dealt with. */
  lemma AllAsleep(s: State)
    requires Inv(s) && forall t :: 0 <= t < |s.workers| ==> s.workers[t].Waiting?
    ensures s.wq == [] && s.slow == []
  {
    hide Count, Held;
    NoSlow(s.workers);
    CountHas(s.wq, RunSlow);
    assert s.wq == [];
  }

  lemma {:induction false} NoSlow(ws: seq<Worker>)
    requires forall t :: 0 <= t < |ws| ==> ws[t].Waiting?
    ensures SlowWorkers(ws) == 0
  {
    if ws != [] {
      NoSlow(ws[..|ws| - 1]);
    }
  }
}
