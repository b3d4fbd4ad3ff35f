/** Timers of an event loop, kept in the heap of linked nodes. */
module Timers {
  import opened Heap

  const UINT64: nat := 0x1_0000_0000_0000_0000
  const UINT64_MAX: nat := 0xFFFF_FFFF_FFFF_FFFF
  const INT_MAX: nat := 0x7FFF_FFFF
  const EINVAL: int := -22

  /** The time a timer goes off: the sum, or the end of time when the sum does not fit. */
  function Deadline(now: nat, timeout: nat): nat {
    if now + timeout <= UINT64_MAX then now + timeout else UINT64_MAX
  }

  ghost predicate Due(t: Timer, now: nat)
    reads t`timeout
  {
    t.timeout <= now
  }

  /** Timers in the heap are active, can be called, and carry different start ids. */
  ghost predicate Settings(s: set<Timer>, counter: nat)
    reads s`timeout, s`repeat, s`startId, s`active, s`closing, s`hasCallback
  {
    && (forall t :: t in s ==>
          t.active && t.hasCallback && !t.closing && t.startId < counter && t.timeout <= UINT64_MAX
          && t.repeat <= UINT64_MAX)
    && forall t, u :: t in s && u in s && t.startId == u.startId ==> t == u
  }

  class Loop {
    var time: nat
    var timerCounter: nat
    const heap: TimerHeap

    constructor (time: nat)
      requires time <= UINT64_MAX
      ensures Ok() && fresh(heap) && heap.nodes == [] && this.time == time
    {
      heap := new TimerHeap();
      this.time, timerCounter := time, 0;
    }

    ghost predicate Ok()
      reads this, heap, heap.Members()
    {
      heap.Valid() && time <= UINT64_MAX && Settings(heap.Members(), timerCounter)
    }

    /** The timer is in the heap exactly when it is active. */
    ghost predicate Mine(t: Timer)
      reads this, heap, t`active
    {
      t.active <==> t in heap.Members()
    }

    method Stop(t: Timer)
      requires Ok() && Mine(t)
      modifies heap, heap.Members()`left, heap.Members()`right, heap.Members()`parent, t`active
      ensures Ok() && Mine(t) && !t.active
      ensures heap.Members() == old(heap.Members()) - {t}
      ensures |heap.nodes| <= |old(heap.nodes)|
    {
      if !t.active {
        return;
      }
      heap.Remove(t);
      t.active := false;
    }

    // Fills in the timer's own fields.
    static method SetFields(t: Timer, startId: nat, timeout: nat, repeat: nat, ghost s: set<Timer>)
      requires Settings(s, startId) && t !in s && !t.closing && timeout <= UINT64_MAX && repeat <= UINT64_MAX
      modifies t`hasCallback, t`timeout, t`repeat, t`startId, t`active
      ensures Settings(s + {t}, startId + 1)
      ensures KeyOf(t) == Key(timeout, startId) && t.repeat == repeat && t.hasCallback && t.active
    {
      t.hasCallback := true;
      t.timeout := timeout;
      t.repeat := repeat;
      t.startId := startId;
      t.active := true;
    }

    // Sets the timer going; it is not in the heap.
    method Arm(t: Timer, timeout: nat, repeat: nat)
      requires Ok() && Mine(t) && !t.active && !t.closing && timeout <= UINT64_MAX && repeat <= UINT64_MAX
      modifies this`timerCounter, heap, heap.Members()`left, heap.Members()`right, heap.Members()`parent, t
      ensures Ok() && t.active && heap.Members() == old(heap.Members()) + {t}
      ensures KeyOf(t) == Key(timeout, old(timerCounter)) && t.repeat == repeat && t.hasCallback && !t.closing
      ensures timerCounter == old(timerCounter) + 1
    {
      hide TimerHeap.Valid, Settings;
      SetFields(t, timerCounter, timeout, repeat, heap.Members());
      timerCounter := timerCounter + 1;
      heap.Insert(t);
    }

    method Start(t: Timer, hasCallback: bool, timeout: nat, repeat: nat) returns (status: int)
      requires Ok() && Mine(t) && timeout <= UINT64_MAX && repeat <= UINT64_MAX
      modifies this`timerCounter, heap, heap.Members()`left, heap.Members()`right, heap.Members()`parent, t
      ensures Ok() && Mine(t)
      ensures old(t.closing) || !hasCallback ==>
        status == EINVAL && heap.Members() == old(heap.Members()) && timerCounter == old(timerCounter)
        && KeyOf(t) == old(KeyOf(t)) && t.repeat == old(t.repeat)
      ensures !old(t.closing) && hasCallback ==>
        && status == 0 && t.active && heap.Members() == old(heap.Members()) + {t}
        && KeyOf(t) == Key(Deadline(time, timeout), old(timerCounter)) && t.repeat == repeat && t.hasCallback
        && timerCounter == old(timerCounter) + 1
    {
      hide TimerHeap.Valid;
      hide TimerHeap.Members;
      if t.closing || !hasCallback {
        return EINVAL;
      }
      ghost var before := heap.Members();
      if t.active {
        Stop(t);
      }
      assert before - {t} + {t} == before + {t};
      var clamped := (time + timeout) % UINT64;
      if clamped < timeout {
        clamped := UINT64_MAX;
      }
      Arm(t, clamped, repeat);
      status := 0;
    }

    /** Restarts a repeating timer one period from now. */
    method Again(t: Timer) returns (status: int)
      requires Ok() && Mine(t) && t.repeat <= UINT64_MAX
      modifies this`timerCounter, heap, heap.Members()`left, heap.Members()`right, heap.Members()`parent, t
      ensures Ok() && Mine(t)
      ensures !old(t.hasCallback) ==> status == EINVAL
      ensures old(t.hasCallback) ==> status == 0
      ensures !old(t.hasCallback) || old(t.repeat) == 0 ==>
        heap.Members() == old(heap.Members()) && timerCounter == old(timerCounter)
        && KeyOf(t) == old(KeyOf(t)) && t.active == old(t.active) && t.repeat == old(t.repeat)
      ensures old(t.hasCallback) && old(t.repeat) > 0 && !old(t.closing) ==>
        heap.Members() == old(heap.Members()) + {t} && t.repeat == old(t.repeat) && t.active
        && KeyOf(t) == Key(Deadline(time, t.repeat), old(timerCounter)) && timerCounter == old(timerCounter) + 1
    {
      hide TimerHeap.Valid;
      hide TimerHeap.Members;
      if !t.hasCallback {
        return EINVAL;
      }
      ghost var before := heap.Members();
      if t.repeat > 0 {
        Stop(t);
        var _ := Start(t, t.hasCallback, t.repeat, t.repeat);
      }
      assert before - {t} + {t} == before + {t};
      status := 0;
    }

    /** How long a poll may block: not at all when a timer is due, no bound when there is none. */
    method NextTimeout() returns (r: int)
      requires Ok()
      ensures r == -1 <==> heap.Members() == {}
      ensures r == 0 <==> exists t :: t in heap.Members() && Due(t, time)
      ensures r > 0 ==> (forall t :: t in heap.Members() ==> time + r <= t.timeout)
      ensures r > 0 ==> r == INT_MAX || exists t :: t in heap.Members() && t.timeout == time + r
    {
      var m := heap.Min();
      if m == null {
        return -1;
      }
      if m.timeout <= time {
        return 0;
      }
      var diff := m.timeout - time;
      if diff > INT_MAX {
        diff := INT_MAX;
      }
      return diff;
    }

    ghost function DueSet(): set<Timer>
      requires Ok()
      reads this, heap, heap.Members()
    {
      set t | t in heap.Members() && Due(t, time)
    }

    /** The loop that runs the timers comes to an end: at the end of time, a repeating timer that fires is due again at
        once, and so for ever. */
    ghost predicate Settles()
      reads this, heap, heap.Members()
    {
      time < UINT64_MAX || forall t :: t in heap.Members() ==> t.repeat == 0
    }

    /** Without that some timer is always due; RunOne fires it and finds the same again. */
    lemma NeverDone()
      requires Ok() && !Settles()
      ensures DueSet() != {}
    {
      hide TimerHeap.Valid;
      var t :| t in heap.Members() && t.repeat > 0;
      assert t in DueSet();
    }

    lemma Repeating() returns (t: Timer?)
      ensures t == null <==> Settles()
      ensures t != null ==> t in heap.Members() && t.repeat > 0 && time >= UINT64_MAX
    {
      if Settles() {
        t := null;
      } else {
        t :| t in heap.Members() && t.repeat > 0;
      }
    }

    lemma StillRepeating(t: Timer)
      requires t in heap.Members() && t.repeat > 0 && time >= UINT64_MAX
      ensures !Settles()
    {
    }

    lemma Known()
      requires Ok()
      ensures forall t :: t in heap.Members() ==> t.active && t.hasCallback && !t.closing && t.repeat <= UINT64_MAX
      ensures forall t, u :: t in heap.Members() && u in heap.Members() && t != u ==> KeyOf(t) != KeyOf(u)
    {
      hide TimerHeap.Valid;
    }

    /** Fires one timer: the least one, if it is due. It stays due only if it repeats and time is at its end. */
    method RunOne() returns (t: Timer?)
      requires Ok()
      modifies this`timerCounter, heap, heap.Members()
      ensures Ok() && (!old(Settles()) ==> !Settles())
      ensures t == null ==> DueSet() == old(DueSet()) == {} && heap.Members() == old(heap.Members())
      ensures t != null ==>
        && t in old(DueSet())
        && DueSet() == (if t.repeat > 0 && time == UINT64_MAX then old(DueSet()) else old(DueSet()) - {t})
        && (forall u :: u in old(heap.Members()) && u != t ==> old(Less(KeyOf(t), KeyOf(u))))
        && t.repeat == old(t.repeat)
        && if t.repeat > 0 then heap.Members() == old(heap.Members()) && t.timeout == Deadline(time, t.repeat)
           else heap.Members() == old(heap.Members()) - {t} && !t.active
      ensures forall u :: u in old(heap.Members()) && u != t ==>
        KeyOf(u) == old(KeyOf(u)) && u.repeat == old(u.repeat)
    {
      hide TimerHeap.Valid, Settings, Settles;
      ghost var again := Repeating();
      var m := heap.Min();
      if m == null {
        return null;
      }
      Known();
      if m.timeout > time {
        return null;
      }
      Fire(m);
      t := m;
      if again != null {
        StillRepeating(again);
      }
    }

    // Takes a timer out, and sets it again if it repeats.
    method Fire(m: Timer)
      requires Ok() && m in heap.Members()
      modifies this`timerCounter, heap, heap.Members()
      ensures Ok() && m.repeat == old(m.repeat)
      ensures if m.repeat > 0 then heap.Members() == old(heap.Members()) && m.timeout == Deadline(time, m.repeat)
              else heap.Members() == old(heap.Members()) - {m} && !m.active
      ensures forall u :: u in old(heap.Members()) && u != m ==> KeyOf(u) == old(KeyOf(u)) && u.repeat == old(u.repeat)
    {
      hide TimerHeap.Valid, Settings;
      Known();
      Stop(m);
      var _ := Again(m);
      // The callback runs here; it touches no timer.
    }

    /** Fires every due timer, each once, in the order of their deadlines and then of their starts, and leaves none
        due: a repeating timer is set again for later. */
    method RunTimers() returns (fired: seq<Timer>, ghost keys: seq<Key>)
      requires Ok() && Settles()
      modifies this`timerCounter, heap, heap.Members()
      ensures Ok() && DueSet() == {}
      ensures forall t :: t in fired <==> t in old(DueSet())
      ensures forall i, j :: 0 <= i < j < |fired| ==> fired[i] != fired[j]
      ensures |keys| == |fired|
      ensures forall i :: 0 <= i < |fired| ==> fired[i] in old(heap.Members()) && keys[i] == old(KeyOf(fired[i]))
      ensures forall i, j :: 0 <= i < j < |keys| ==> Less(keys[i], keys[j])
      ensures heap.Members() == set t | t in old(heap.Members()) && (t !in fired || t.repeat > 0)
      ensures forall t :: t in fired ==>
        t.repeat == old(t.repeat) && (t.repeat > 0 ==> t.timeout == Deadline(time, t.repeat))
      ensures forall t :: t in old(heap.Members()) && t !in fired ==> KeyOf(t) == old(KeyOf(t))
    {
      hide Ok, DueSet, Progress, FiredSoFar, Settles, TimerHeap.Members;
      fired, keys := [], [];
      ghost var all, due := heap.Members(), DueSet();
      ghost var was, repeats := map t | t in all :: KeyOf(t), map t | t in all :: t.repeat;
      NoProgress(was, repeats);
      NoneFired(due, was);
      while true
        invariant Ok() && Settles() && heap.Members() <= all
        invariant Progress(all, was, repeats, fired) && FiredSoFar(due, was, DueSet(), fired, keys)
        decreases DueSet()
      {
        var t := RunNext(all, due, was, repeats, fired, keys);
        if t == null {
          break;
        }
        fired := fired + [t];
        keys := keys + [was[t]];
      }
      FiredAre(due, was, fired, keys);
      ProgressIs(all, was, repeats, fired);
    }

    lemma NoProgress(was: map<Timer, Key>, repeats: map<Timer, nat>)
      requires Ok() && was.Keys == repeats.Keys == heap.Members()
      requires forall t :: t in heap.Members() ==> was[t] == KeyOf(t) && repeats[t] == t.repeat
      ensures Progress(heap.Members(), was, repeats, []) && DueSet() <= heap.Members()
    {
    }

    lemma ProgressIs(all: set<Timer>, was: map<Timer, Key>, repeats: map<Timer, nat>, fired: seq<Timer>)
      requires Progress(all, was, repeats, fired) && forall t :: t in fired ==> t in all
      ensures heap.Members() == set t | t in all && (t !in fired || t.repeat > 0)
      ensures forall t :: t in fired ==>
        t.repeat == repeats[t] && (t.repeat > 0 ==> t.timeout == Deadline(time, t.repeat))
      ensures forall t :: t in all && t !in fired ==> KeyOf(t) == was[t]
    {
    }

    /** The timers once those in `fired` have been fired; `was` and `repeats` are their settings before. */
    ghost predicate Progress(all: set<Timer>, was: map<Timer, Key>, repeats: map<Timer, nat>, fired: seq<Timer>)
      reads this, heap, all
    {
      && was.Keys == repeats.Keys == all && heap.Members() <= all
      && (forall t :: t in all ==> (t in heap.Members() <==> t !in fired || repeats[t] > 0) && t.repeat == repeats[t])
      && (forall t :: t in fired && t in all && repeats[t] > 0 ==> t.timeout == Deadline(time, repeats[t]))
      && (forall t :: t in all && t !in fired ==> KeyOf(t) == was[t])
    }

    // One turn of the loop.
    method RunNext(ghost all: set<Timer>, ghost due: set<Timer>, ghost was: map<Timer, Key>,
                   ghost repeats: map<Timer, nat>, ghost fired: seq<Timer>, ghost keys: seq<Key>)
      returns (t: Timer?)
      requires Ok() && Settles()
      requires Progress(all, was, repeats, fired) && FiredSoFar(due, was, DueSet(), fired, keys)
      modifies this`timerCounter, heap, heap.Members()
      ensures Ok() && Settles() && heap.Members() <= old(heap.Members())
      ensures t == null ==>
        Progress(all, was, repeats, fired) && DueSet() == {} && FiredSoFar(due, was, {}, fired, keys)
      ensures t != null ==>
        && t in old(DueSet()) && DueSet() == old(DueSet()) - {t} && t in was
        && Progress(all, was, repeats, fired + [t]) && FiredSoFar(due, was, DueSet(), fired + [t], keys + [was[t]])
    {
      hide Ok, FiredSoFar, Less;
      ghost var left := DueSet();
      t := RunOne();
      if t != null {
        StillDue(due, was, left, fired, keys);
        FireOne(due, was, left, fired, keys, t);
      }
    }

    /** What has been fired, out of `due` with keys `was`, when `left` is still due. */
    static ghost predicate FiredSoFar(due: set<Timer>, was: map<Timer, Key>, left: set<Timer>, fired: seq<Timer>,
                                      keys: seq<Key>)
    {
      && due <= was.Keys && left <= due
      && (forall t :: t in due ==> (t in left <==> t !in fired)) && (forall t :: t in fired ==> t in due)
      && (forall i, j :: 0 <= i < j < |fired| ==> fired[i] != fired[j])
      && |keys| == |fired| && (forall i :: 0 <= i < |fired| ==> fired[i] in was && keys[i] == was[fired[i]])
      && (forall i, j :: 0 <= i < j < |keys| ==> Less(keys[i], keys[j]))
      && (forall i, t :: 0 <= i < |keys| && t in left ==> Less(keys[i], was[t]))
    }

    static lemma NoneFired(due: set<Timer>, was: map<Timer, Key>)
      requires due <= was.Keys
      ensures FiredSoFar(due, was, due, [], [])
    {
    }

    // The least of those still due goes next.
    static lemma FireOne(due: set<Timer>, was: map<Timer, Key>, left: set<Timer>, fired: seq<Timer>, keys: seq<Key>,
                         t: Timer)
      requires FiredSoFar(due, was, left, fired, keys) && t in left && t in was
      requires forall u :: u in left && u != t ==> u in was && Less(was[t], was[u])
      ensures FiredSoFar(due, was, left - {t}, fired + [t], keys + [was[t]])
    {
    }

    static lemma StillDue(due: set<Timer>, was: map<Timer, Key>, left: set<Timer>, fired: seq<Timer>, keys: seq<Key>)
      requires FiredSoFar(due, was, left, fired, keys)
      ensures left <= due <= was.Keys && forall t :: t in left ==> t !in fired
    {
    }

    static lemma FiredAre(due: set<Timer>, was: map<Timer, Key>, fired: seq<Timer>, keys: seq<Key>)
      requires FiredSoFar(due, was, {}, fired, keys)
      ensures |keys| == |fired| && due <= was.Keys
      ensures (forall t :: t in due ==> t in fired) && (forall t :: t in fired ==> t in due)
      ensures forall i, j :: 0 <= i < j < |fired| ==> fired[i] != fired[j]
      ensures forall i :: 0 <= i < |fired| ==> fired[i] in was && keys[i] == was[fired[i]]
      ensures forall i, j :: 0 <= i < j < |keys| ==> Less(keys[i], keys[j])
    {
    }
  }
}
