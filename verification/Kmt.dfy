/**
  Threads and semaphores of src/kmt.c.  Interrupts are off inside every locked section, so each section is one
  atomic step; between steps any other thread may run.
 */
module Kmt {
  import opened Words

  const KERNEL_MAX_THREAD: int := 1024
  const NO_SEM: int := 0
  const NO_THREAD: int := 0xFFFF_FFFF    // current_thread_index before the first schedule

  /** An entry of thread_pool: `sleep` and `current_waiting` of its thread. */
  datatype Slot = Empty | Thread(sleep: bool, waiting: int)

  predicate Runnable(slot: Slot) {
    slot.Thread? && !slot.sleep
  }

  // ---------- round robin ----------

  /** How many slots kmt_schedule looks at, going round from slot `from`, to arrive at slot `to`. */
  function Distance(from: int, to: int): (d: int)
    ensures 1 <= d <= KERNEL_MAX_THREAD
  {
    (to - from - 1) % KERNEL_MAX_THREAD + 1
  }

  ghost predicate NoneCloser(pool: seq<Slot>, from: int, i: int)
    requires |pool| == KERNEL_MAX_THREAD + 1
  {
    forall j :: 1 <= j <= KERNEL_MAX_THREAD && Runnable(pool[j]) ==> Distance(from, i) <= Distance(from, j)
  }

  /** `to` is the first runnable slot after `from`, going round. */
  ghost predicate IsNext(pool: seq<Slot>, from: int, to: int)
    requires |pool| == KERNEL_MAX_THREAD + 1
  {
    1 <= to <= KERNEL_MAX_THREAD && Runnable(pool[to]) && NoneCloser(pool, from, to)
  }

  lemma OneSlotFurther(from: int, i: int)
    requires 1 <= i <= KERNEL_MAX_THREAD
    ensures Distance(from, i % KERNEL_MAX_THREAD + 1) == if Distance(from, i) == KERNEL_MAX_THREAD then 1 else Distance(from, i) + 1
  {
    var d := (i - from - 1) % KERNEL_MAX_THREAD;
    var q := (i - from - 1) / KERNEL_MAX_THREAD + if d == KERNEL_MAX_THREAD - 1 then 1 else 0;
    Residue(i - from, KERNEL_MAX_THREAD, q, if d == KERNEL_MAX_THREAD - 1 then 0 else d + 1);
    if i == KERNEL_MAX_THREAD {
      ModuloShift(-from, 1, KERNEL_MAX_THREAD);
    }
  }

  /** Between slots: further up first, then from slot 1 on, and the slot itself last. */
  lemma DistanceIs(from: int, to: int)
    requires 1 <= from <= 1024 && 1 <= to <= 1024
    ensures Distance(from, to) == if to > from then to - from else to - from + 1024
  {
    if to > from {
      Residue(to - from - 1, KERNEL_MAX_THREAD, 0, to - from - 1);
    } else {
      Residue(to - from - 1, KERNEL_MAX_THREAD, -1, to - from - 1 + KERNEL_MAX_THREAD);
    }
  }

  lemma SameDistanceSameSlot(from: int, i: int, j: int)
    requires 1 <= i <= KERNEL_MAX_THREAD && 1 <= j <= KERNEL_MAX_THREAD && Distance(from, i) == Distance(from, j)
    ensures i == j
  {
    NoMultipleAround((i - from - 1) / KERNEL_MAX_THREAD - (j - from - 1) / KERNEL_MAX_THREAD, KERNEL_MAX_THREAD);
  }

  lemma StartsAtDistanceOne(from: int)
    ensures 1 <= from % KERNEL_MAX_THREAD + 1 <= KERNEL_MAX_THREAD && Distance(from, from % KERNEL_MAX_THREAD + 1) == 1
  {
  }

  /** Looking one slot further than `i`, which is not runnable, towards the runnable slot `t`. */
  lemma SkipSlot(pool: seq<Slot>, from: int, i: int, t: int)
    requires |pool| == KERNEL_MAX_THREAD + 1 && 1 <= i <= KERNEL_MAX_THREAD && 1 <= t <= KERNEL_MAX_THREAD
    requires NoneCloser(pool, from, i) && !Runnable(pool[i]) && Runnable(pool[t])
    ensures NoneCloser(pool, from, i % KERNEL_MAX_THREAD + 1)
    ensures Distance(from, i) < Distance(from, i % KERNEL_MAX_THREAD + 1) <= Distance(from, t)
  {
    OneSlotFurther(from, i);
    forall j | 1 <= j <= KERNEL_MAX_THREAD && Runnable(pool[j])
      ensures Distance(from, i) < Distance(from, j)
    {
      if Distance(from, i) == Distance(from, j) {
        SameDistanceSameSlot(from, i, j);
      }
    }
  }

  lemma DistanceShrinks(from: int, via: int, to: int)
    requires 1 <= via <= KERNEL_MAX_THREAD && 1 <= to <= KERNEL_MAX_THREAD && Distance(from, via) < Distance(from, to)
    ensures Distance(via, to) == Distance(from, to) - Distance(from, via)
  {
    var a, b := (via - from - 1) % KERNEL_MAX_THREAD, (to - from - 1) % KERNEL_MAX_THREAD;
    var q := (to - from - 1) / KERNEL_MAX_THREAD - (via - from - 1) / KERNEL_MAX_THREAD;
    Residue(to - via - 1, KERNEL_MAX_THREAD, q, b - a - 1);
  }

  /** `picks[k]` is what the k-th call of kmt_schedule answers when it finds the pool as in `pools[k]`. */
  ghost predicate Picked(from: int, pools: seq<seq<Slot>>, picks: seq<int>, k: int)
    requires 0 <= k < |pools| == |picks| && |pools[k]| == KERNEL_MAX_THREAD + 1
  {
    IsNext(pools[k], if k == 0 then from else picks[k - 1], picks[k])
  }

  /**
    Bounded waiting: over consecutive calls, between which anything may happen to the pool, a slot that is runnable
    at every call is picked after at most its distance, which is never more than 1024.
   */
  lemma {:induction false} BoundedWaiting(from: int, pools: seq<seq<Slot>>, picks: seq<int>, t: int)
    requires |pools| == |picks| >= Distance(from, t) && 1 <= t <= KERNEL_MAX_THREAD
    requires forall k :: 0 <= k < |pools| ==> |pools[k]| == KERNEL_MAX_THREAD + 1 && Runnable(pools[k][t])
    requires forall k :: 0 <= k < |pools| ==> Picked(from, pools, picks, k)
    ensures exists k :: 0 <= k < Distance(from, t) && picks[k] == t
    decreases Distance(from, t)
  {
    assert Picked(from, pools, picks, 0);
    if picks[0] != t {
      if Distance(from, picks[0]) == Distance(from, t) {
        SameDistanceSameSlot(from, picks[0], t);
      }
      DistanceShrinks(from, picks[0], t);
      forall k | 0 <= k < |pools| - 1
        ensures Picked(picks[0], pools[1..], picks[1..], k)
      {
        assert Picked(from, pools, picks, k + 1);
      }
      BoundedWaiting(picks[0], pools[1..], picks[1..], t);
      var k :| 0 <= k < Distance(picks[0], t) && picks[1..][k] == t;
      assert picks[k + 1] == t;
    }
  }

  // ---------- semaphores ----------

  /** Where a thread is in kmt_sem_wait: outside, or in the loop for a semaphore since it first found it at zero. */
  datatype Where = Outside | InLoop(sem: int)

  datatype State = State(pool: seq<Slot>, place: seq<Where>, counts: map<int, int>)

  predicate IsThread(t: int) {
    1 <= t <= KERNEL_MAX_THREAD
  }

  ghost predicate Shape(st: State) {
    |st.pool| == |st.place| == KERNEL_MAX_THREAD + 1 && NO_SEM !in st.counts
  }

  predicate SleepsOn(pool: seq<Slot>, t: int, s: int)
    requires 0 <= t < |pool|
  {
    pool[t].Thread? && pool[t].sleep && pool[t].waiting == s
  }

  /** The first slot in the pool that sleeps on `s`, or one past the last slot. */
  function FirstSleeper(pool: seq<Slot>, s: int, from: int): (t: int)
    requires 1 <= from <= KERNEL_MAX_THREAD + 1 && |pool| == KERNEL_MAX_THREAD + 1
    ensures from <= t <= KERNEL_MAX_THREAD + 1
    ensures t <= KERNEL_MAX_THREAD ==> SleepsOn(pool, t, s)
    ensures forall j :: from <= j < t ==> !SleepsOn(pool, j, s)
    decreases KERNEL_MAX_THREAD + 1 - from
  {
    if from > KERNEL_MAX_THREAD || SleepsOn(pool, from, s) then from else FirstSleeper(pool, s, from + 1)
  }

  /** One locked section of kmt_sem_wait: thread `t` enters, or it was woken and looks again. */
  ghost predicate MayTry(st: State, t: int, s: int) {
    && Shape(st) && IsThread(t) && s in st.counts && Runnable(st.pool[t])
    && (st.place[t] == Outside || st.place[t] == InLoop(s))
  }

  function TryStep(st: State, t: int, s: int): State
    requires 0 <= t < |st.pool| == |st.place| && s in st.counts
  {
    if st.counts[s] == 0 then st.(pool := st.pool[t := Thread(true, s)], place := st.place[t := InLoop(s)])
    else st.(counts := st.counts[s := st.counts[s] - 1], place := st.place[t := Outside])
  }

  function SignalStep(st: State, s: int): State
    requires s in st.counts && |st.pool| == KERNEL_MAX_THREAD + 1
  {
    var t := FirstSleeper(st.pool, s, 1);
    State(if t <= KERNEL_MAX_THREAD then st.pool[t := Thread(false, NO_SEM)] else st.pool, st.place,
          st.counts[s := st.counts[s] + 1])
  }

  /** The threads that were woken from `s` and have not looked at its count again. */
  ghost function Woken(st: State, s: int): set<int>
    requires Shape(st)
  {
    set t | 1 <= t <= KERNEL_MAX_THREAD && st.place[t] == InLoop(s) && Runnable(st.pool[t])
  }

  ghost predicate SlotOk(st: State, t: int)
    requires 0 <= t < |st.pool| == |st.place|
  {
    && (st.pool[t] == Empty ==> st.place[t] == Outside)
    && (st.pool[t].Thread? && st.pool[t].sleep ==> st.place[t] == InLoop(st.pool[t].waiting) && st.pool[t].waiting in st.counts)
  }

  /** Nobody sleeps while a unit is there that no woken thread is about to claim. */
  ghost predicate NoLostWakeUp(st: State, s: int)
    requires Shape(st) && s in st.counts
  {
    && st.counts[s] >= 0
    && ((exists t :: 1 <= t <= KERNEL_MAX_THREAD && SleepsOn(st.pool, t, s)) ==> st.counts[s] <= |Woken(st, s)|)
  }

  ghost predicate SemOk(st: State) {
    && Shape(st)
    && (forall t :: 1 <= t <= KERNEL_MAX_THREAD ==> SlotOk(st, t))
    && (forall s :: s in st.counts ==> NoLostWakeUp(st, s))
  }

  /** A count that a semaphore can be given while threads may be in its loop. */
  ghost predicate MayBecome(st: State, s: int, value: int)
    requires Shape(st)
  {
    value >= 0 && ((exists t :: 1 <= t <= KERNEL_MAX_THREAD && SleepsOn(st.pool, t, s)) ==> value <= |Woken(st, s)|)
  }

  /** Giving a semaphore a count keeps the order exactly when it is not negative and strands no sleeper. */
  lemma InitKeepsSemOk(st: State, s: int, value: int)
    requires SemOk(st) && s != NO_SEM
    ensures SemOk(st.(counts := st.counts[s := value])) <==> MayBecome(st, s, value)
  {
    var st' := st.(counts := st.counts[s := value]);
    forall r
      ensures Woken(st', r) == Woken(st, r)
    {
    }
    assert forall u, r :: 1 <= u <= KERNEL_MAX_THREAD ==> (SleepsOn(st'.pool, u, r) <==> SleepsOn(st.pool, u, r));
    assert NoLostWakeUp(st', s) <==> MayBecome(st, s, value);
    if MayBecome(st, s, value) {
      forall u | 1 <= u <= KERNEL_MAX_THREAD
        ensures SlotOk(st', u)
      {
        assert SlotOk(st, u);
      }
      forall r | r in st'.counts
        ensures NoLostWakeUp(st', r)
      {
        assert r != s ==> NoLostWakeUp(st, r);
      }
    }
  }

  lemma SetGrows(a: set<int>, b: set<int>, x: int)
    requires x !in a && b == a + {x}
    ensures |b| == |a| + 1
  {
  }

  lemma TryKeepsSemOk(st: State, t: int, s: int)
    requires SemOk(st) && MayTry(st, t, s)
    ensures SemOk(TryStep(st, t, s))
  {
    var st' := TryStep(st, t, s);
    forall u | 1 <= u <= KERNEL_MAX_THREAD
      ensures SlotOk(st', u)
    {
      assert SlotOk(st, u);
    }
    forall r | r in st'.counts
      ensures NoLostWakeUp(st', r)
    {
      assert NoLostWakeUp(st, r);
      if r != s {
        assert Woken(st', r) == Woken(st, r);
        assert forall u :: 1 <= u <= KERNEL_MAX_THREAD ==> (SleepsOn(st'.pool, u, r) <==> SleepsOn(st.pool, u, r));
      } else if st.counts[s] > 0 {
        assert forall u :: 1 <= u <= KERNEL_MAX_THREAD ==> (SleepsOn(st'.pool, u, s) <==> SleepsOn(st.pool, u, s));
        if st.place[t] == InLoop(s) {
          SetGrows(Woken(st', s), Woken(st, s), t);
        } else {
          assert Woken(st', s) == Woken(st, s);
        }
      }
    }
  }

  /** The threads that sleep on `s` in the slots up to `last`. */
  ghost function Asleep(pool: seq<Slot>, s: int, last: int): set<int>
    requires |pool| == KERNEL_MAX_THREAD + 1 && last <= KERNEL_MAX_THREAD
  {
    set t | 1 <= t <= last && SleepsOn(pool, t, s)
  }

  /** Slot `t` sleeps on `s`, and no slot in front of it does. */
  ghost predicate FirstAsleep(pool: seq<Slot>, s: int, t: int)
    requires |pool| == KERNEL_MAX_THREAD + 1
  {
    1 <= t <= KERNEL_MAX_THREAD && SleepsOn(pool, t, s) && forall j :: 1 <= j < t ==> !SleepsOn(pool, j, s)
  }

  lemma FirstIsFound(pool: seq<Slot>, s: int, t: int)
    requires |pool| == KERNEL_MAX_THREAD + 1 && FirstAsleep(pool, s, t)
    ensures FirstSleeper(pool, s, 1) == t
  {
    var f := FirstSleeper(pool, s, 1);
    assert f <= t <= f;
  }

  /** A signal wakes the first sleeper, who is then the only one less. */
  lemma SignalWakesFirst(st: State, s: int, t: int)
    requires Shape(st) && s in st.counts && FirstAsleep(st.pool, s, t)
    ensures SignalStep(st, s) == State(st.pool[t := Thread(false, NO_SEM)], st.place, st.counts[s := st.counts[s] + 1])
    ensures var before, after := Asleep(st.pool, s, KERNEL_MAX_THREAD), Asleep(SignalStep(st, s).pool, s, KERNEL_MAX_THREAD);
            t in before && after == before - {t} && |after| == |before| - 1
  {
    FirstIsFound(st.pool, s, t);
    WokenIsLess(st.pool, s, t, KERNEL_MAX_THREAD);
  }

  lemma WokenIsLess(pool: seq<Slot>, s: int, t: int, last: int)
    requires |pool| == KERNEL_MAX_THREAD + 1 && 1 <= t <= last <= KERNEL_MAX_THREAD && SleepsOn(pool, t, s)
    ensures var before, after := Asleep(pool, s, last), Asleep(pool[t := Thread(false, NO_SEM)], s, last);
            t in before && after == before - {t} && |after| == |before| - 1
  {
    var before, after := Asleep(pool, s, last), Asleep(pool[t := Thread(false, NO_SEM)], s, last);
    assert after == before - {t};
  }

  /** Without a sleeper a signal only counts. */
  lemma SignalWakesNobody(st: State, s: int)
    requires Shape(st) && s in st.counts && forall t :: 1 <= t <= KERNEL_MAX_THREAD ==> !SleepsOn(st.pool, t, s)
    ensures SignalStep(st, s) == st.(counts := st.counts[s := st.counts[s] + 1])
  {
  }

  /** Waking sleeper `t` together with one more unit of `s`. */
  lemma WakeKeeps(st: State, s: int, t: int, r: int)
    requires SemOk(st) && s in st.counts && r in st.counts && IsThread(t) && SleepsOn(st.pool, t, s)
    ensures NoLostWakeUp(State(st.pool[t := Thread(false, NO_SEM)], st.place, st.counts[s := st.counts[s] + 1]), r)
  {
    var st' := State(st.pool[t := Thread(false, NO_SEM)], st.place, st.counts[s := st.counts[s] + 1]);
    assert NoLostWakeUp(st, r) && SlotOk(st, t);
    assert forall u :: 1 <= u <= KERNEL_MAX_THREAD && SleepsOn(st'.pool, u, r) ==> SleepsOn(st.pool, u, r);
    if r == s {
      SetGrows(Woken(st, s), Woken(st', s), t);
    } else {
      assert Woken(st', r) == Woken(st, r);
    }
  }

  lemma SignalKeepsSemOk(st: State, s: int)
    requires SemOk(st) && s in st.counts
    ensures SemOk(SignalStep(st, s))
  {
    var st' := SignalStep(st, s);
    var t := FirstSleeper(st.pool, s, 1);
    forall u | 1 <= u <= KERNEL_MAX_THREAD
      ensures SlotOk(st', u)
    {
      assert SlotOk(st, u);
    }
    forall r | r in st'.counts
      ensures NoLostWakeUp(st', r)
    {
      if t <= KERNEL_MAX_THREAD {
        WakeKeeps(st, s, t, r);
      } else {
        assert NoLostWakeUp(st, r);
        assert Woken(st', r) == Woken(st, r);
        assert forall u :: 1 <= u <= KERNEL_MAX_THREAD && SleepsOn(st'.pool, u, r) ==> SleepsOn(st.pool, u, r);
      }
    }
  }

  lemma CreateKeepsSemOk(st: State, t: int)
    requires SemOk(st) && IsThread(t) && st.pool[t] == Empty
    ensures SemOk(st.(pool := st.pool[t := Thread(false, NO_SEM)]))
  {
    var st' := st.(pool := st.pool[t := Thread(false, NO_SEM)]);
    forall u | 1 <= u <= KERNEL_MAX_THREAD
      ensures SlotOk(st', u)
    {
      assert SlotOk(st, u) && SlotOk(st, t);
    }
    forall r | r in st'.counts
      ensures NoLostWakeUp(st', r)
    {
      assert NoLostWakeUp(st, r) && SlotOk(st, t);
      assert Woken(st', r) == Woken(st, r);
      assert forall u :: 1 <= u <= KERNEL_MAX_THREAD && SleepsOn(st'.pool, u, r) ==> SleepsOn(st.pool, u, r);
    }
  }

  lemma TeardownKeepsSemOk(st: State, t: int)
    requires SemOk(st) && IsThread(t) && st.pool[t].Thread? && st.place[t] == Outside
    ensures SemOk(st.(pool := st.pool[t := Empty]))
  {
    var st' := st.(pool := st.pool[t := Empty]);
    forall u | 1 <= u <= KERNEL_MAX_THREAD
      ensures SlotOk(st', u)
    {
      assert SlotOk(st, u) && SlotOk(st, t);
    }
    forall r | r in st'.counts
      ensures NoLostWakeUp(st', r)
    {
      assert NoLostWakeUp(st, r) && SlotOk(st, t);
      assert Woken(st', r) == Woken(st, r);
      assert forall u :: 1 <= u <= KERNEL_MAX_THREAD && SleepsOn(st'.pool, u, r) ==> SleepsOn(st.pool, u, r);
    }
  }

  // ---------- whole runs ----------

  /** `Try` is one locked section of kmt_sem_wait by thread `t`. */
  datatype Event = Try(t: int, s: int) | Signal(s: int) | Create(t: int) | Teardown(t: int)

  ghost predicate Possible(st: State, e: Event) {
    Shape(st) &&
    match e
    case Try(t, s) => MayTry(st, t, s)
    case Signal(s) => s in st.counts
    case Create(t) => IsThread(t) && st.pool[t] == Empty
    case Teardown(t) => IsThread(t) && st.pool[t].Thread? && st.place[t] == Outside
  }

  ghost function Step(st: State, e: Event): State
    requires Possible(st, e)
  {
    match e
    case Try(t, s) => TryStep(st, t, s)
    case Signal(s) => SignalStep(st, s)
    case Create(t) => st.(pool := st.pool[t := Thread(false, NO_SEM)])
    case Teardown(t) => st.(pool := st.pool[t := Empty])
  }

  ghost predicate IsRun(states: seq<State>, events: seq<Event>) {
    && |states| == |events| + 1
    && forall i :: 0 <= i < |events| ==> RunsAt(states, events, i)
  }

  ghost predicate RunsAt(states: seq<State>, events: seq<Event>, i: int)
    requires |states| == |events| + 1 && 0 <= i < |events|
  {
    Possible(states[i], events[i]) && states[i + 1] == Step(states[i], events[i])
  }

  ghost predicate Completes(st: State, e: Event, s: int) {
    e.Try? && e.s == s && s in st.counts && st.counts[s] != 0
  }

  /** The signals on `s` among the first `n` events. */
  ghost function Signals(events: seq<Event>, s: int, n: nat): nat
    requires n <= |events|
  {
    if n == 0 then 0 else Signals(events, s, n - 1) + if events[n - 1] == Signal(s) then 1 else 0
  }

  /** The waits on `s` that came through among the first `n` events. */
  ghost function Waits(states: seq<State>, events: seq<Event>, s: int, n: nat): nat
    requires n <= |events| < |states|
  {
    if n == 0 then 0 else Waits(states, events, s, n - 1) + if Completes(states[n - 1], events[n - 1], s) then 1 else 0
  }

  /** No wake-up is ever lost, in any interleaving of waits, signals, creations and teardowns. */
  lemma {:induction false} EveryRunWakes(states: seq<State>, events: seq<Event>, n: nat)
    requires IsRun(states, events) && SemOk(states[0]) && n <= |events|
    ensures SemOk(states[n]) && states[n].counts.Keys == states[0].counts.Keys
    decreases n
  {
    if n > 0 {
      EveryRunWakes(states, events, n - 1);
      assert RunsAt(states, events, n - 1);
      match events[n - 1]
      case Try(t, s) => TryKeepsSemOk(states[n - 1], t, s);
      case Signal(s) => SignalKeepsSemOk(states[n - 1], s);
      case Create(t) => CreateKeepsSemOk(states[n - 1], t);
      case Teardown(t) => TeardownKeepsSemOk(states[n - 1], t);
    }
  }

  /** The count is what it was, plus the signals, minus the waits that came through. */
  lemma {:induction false} CountIsConserved(states: seq<State>, events: seq<Event>, s: int, n: nat)
    requires IsRun(states, events) && SemOk(states[0]) && n <= |events| && s in states[0].counts
    ensures s in states[n].counts
    ensures states[n].counts[s] == states[0].counts[s] + Signals(events, s, n) - Waits(states, events, s, n)
    decreases n
  {
    EveryRunWakes(states, events, n);
    if n > 0 {
      CountIsConserved(states, events, s, n - 1);
      EveryRunWakes(states, events, n - 1);
      assert RunsAt(states, events, n - 1);
    }
  }

  /** A thread goes to sleep only at count zero, and at most as many units as woken threads are there while one sleeps. */
  lemma SleepersAreServed(states: seq<State>, events: seq<Event>, s: int, n: nat, t: int)
    requires IsRun(states, events) && SemOk(states[0]) && n <= |events| && s in states[0].counts
    requires IsThread(t) && Shape(states[n]) && SleepsOn(states[n].pool, t, s)
    ensures 0 <= states[0].counts[s] + Signals(events, s, n) - Waits(states, events, s, n) <= |Woken(states[n], s)|
  {
    EveryRunWakes(states, events, n);
    CountIsConserved(states, events, s, n);
    assert NoLostWakeUp(states[n], s);
  }

  /** Nobody in front of slot `t` goes to sleep on `s` in step `i`. */
  ghost predicate NoneInFront(states: seq<State>, s: int, t: int, i: int)
    requires 0 <= i && i + 1 < |states| && IsThread(t)
  {
    Shape(states[i]) && Shape(states[i + 1]) && forall j :: 1 <= j < t && SleepsOn(states[i + 1].pool, j, s) ==> SleepsOn(states[i].pool, j, s)
  }

  /** One step of a run, as a sleeper in slot `t` sees it who sleeps on: a signal wakes one in front of him. */
  lemma QueueShrinks(states: seq<State>, events: seq<Event>, s: int, t: int, i: nat)
    requires |states| == |events| + 1 && i < |events| && RunsAt(states, events, i) && IsThread(t)
    requires NoneInFront(states, s, t, i) && SleepsOn(states[i].pool, t, s) && SleepsOn(states[i + 1].pool, t, s)
    ensures |Asleep(states[i + 1].pool, s, t)| + (if events[i] == Signal(s) then 1 else 0) <= |Asleep(states[i].pool, s, t)|
  {
    var before, after := Asleep(states[i].pool, s, t), Asleep(states[i + 1].pool, s, t);
    assert after <= before;
    Subset(after, before);
    if events[i] == Signal(s) {
      var f := FirstSleeper(states[i].pool, s, 1);
      assert FirstAsleep(states[i].pool, s, f);
      SignalWakesFirst(states[i], s, f);
      WokenIsLess(states[i].pool, s, f, t);
    }
  }

  lemma Subset(a: set<int>, b: set<int>)
    requires a <= b
    ensures |a| <= |b|
  {
    assert b == a + (b - a);
  }

  /**
    Sleepers are woken in the order of their slots: as long as nobody in front goes to sleep, as many signals as there
    are sleepers up to slot `t` have woken the one in slot `t`.
   */
  lemma {:induction false} SleeperIsWoken(states: seq<State>, events: seq<Event>, s: int, t: int, a: nat, b: nat)
    requires IsRun(states, events) && a <= b <= |events| && IsThread(t)
    requires Shape(states[a]) && SleepsOn(states[a].pool, t, s) && forall i :: a <= i < b ==> NoneInFront(states, s, t, i)
    requires Signals(events, s, b) - Signals(events, s, a) >= |Asleep(states[a].pool, s, t)|
    ensures exists i :: a < i <= b && Shape(states[i]) && !SleepsOn(states[i].pool, t, s)
    decreases b - a
  {
    assert t in Asleep(states[a].pool, s, t);
    assert a < b;
    assert RunsAt(states, events, a) && NoneInFront(states, s, t, a);
    if SleepsOn(states[a + 1].pool, t, s) {
      QueueShrinks(states, events, s, t, a);
      SleeperIsWoken(states, events, s, t, a + 1, b);
      var i :| a + 1 < i <= b && Shape(states[i]) && !SleepsOn(states[i].pool, t, s);
    }
  }

  // ---------- the code ----------

  /** How kmt_teardown ends. */
  datatype Exit = Done | NotFound | Suicide

  class Kernel {
    const pool: array<Slot>         // thread_pool[1 .. 1024]; entry 0 is unused here
    const threads: array<int>       // the address of the thread in each slot that is not empty
    var currentIndex: int           // current_thread_index
    var counts: map<int, int>       // the count of every initialised semaphore
    ghost var place: seq<Where>

    ghost predicate Valid()
      reads this, pool
    {
      pool.Length == threads.Length == KERNEL_MAX_THREAD + 1 && Shape(Now())
    }

    ghost function Now(): State
      reads this, pool
    {
      State(pool[..], place, counts)
    }

    /** Slot `t` holds the thread at address `thread`. */
    predicate Holds(t: int, thread: int)
      requires pool.Length == threads.Length == KERNEL_MAX_THREAD + 1 && 1 <= t <= KERNEL_MAX_THREAD
      reads this, pool, threads
    {
      pool[t].Thread? && threads[t] == thread
    }

    /** kmt_init */
    constructor ()
      ensures Valid() && fresh(pool) && fresh(threads) && currentIndex == NO_THREAD && counts == map[]
      ensures SemOk(Now()) && forall t :: 1 <= t <= KERNEL_MAX_THREAD ==> pool[t] == Empty
    {
      pool := new Slot[KERNEL_MAX_THREAD + 1](_ => Empty);
      threads := new int[KERNEL_MAX_THREAD + 1](_ => 0);
      currentIndex := NO_THREAD;
      counts := map[];
      place := seq(KERNEL_MAX_THREAD + 1, _ => Outside);
    }

    /** kmt_schedule */
    method Schedule() returns (i: int)
      requires Valid() && exists t :: 1 <= t <= KERNEL_MAX_THREAD && Runnable(pool[t])
      modifies this`currentIndex
      ensures currentIndex == i && IsNext(pool[..], old(currentIndex), i)
    {
      ghost var p, from := pool[..], currentIndex;
      i := currentIndex % KERNEL_MAX_THREAD + 1;
      StartsAtDistanceOne(from);
      ghost var t :| 1 <= t <= KERNEL_MAX_THREAD && Runnable(p[t]);
      while pool[i] == Empty || pool[i].sleep
        invariant 1 <= i <= KERNEL_MAX_THREAD && NoneCloser(p, from, i)
        invariant Distance(from, i) <= Distance(from, t)
        decreases Distance(from, t) - Distance(from, i)
      {
        SkipSlot(p, from, i, t);
        i := i % KERNEL_MAX_THREAD + 1;
      }
      assert IsNext(p, from, i);
      currentIndex := i;
      assert pool[..] == p;
    }

    /** The slot that kmt_create takes for a thread: the first empty one. */
    method Create(thread: int) returns (t: int)
      requires Valid() && SemOk(Now())
      modifies this`place, pool, threads
      ensures Valid() && SemOk(Now())
      ensures t == -1 <==> forall j :: 1 <= j <= KERNEL_MAX_THREAD ==> old(pool[j]) != Empty
      ensures t == -1 ==> Now() == old(Now())
      ensures t != -1 ==> Possible(old(Now()), Event.Create(t)) && Now() == Step(old(Now()), Event.Create(t))
      ensures t != -1 ==> pool[..] == old(pool[..])[t := Thread(false, NO_SEM)]
      ensures t != -1 ==> (forall j :: 1 <= j < t ==> old(pool[j]) != Empty) && Holds(t, thread)
      ensures forall j :: 1 <= j <= KERNEL_MAX_THREAD && j != t ==> threads[j] == old(threads[j])
    {
      t := 1;
      while t <= KERNEL_MAX_THREAD && pool[t] != Empty
        invariant 1 <= t <= KERNEL_MAX_THREAD + 1
        invariant forall j :: 1 <= j < t ==> pool[j] != Empty
      {
        t := t + 1;
      }
      if t > KERNEL_MAX_THREAD {
        return -1;
      }
      CreateKeepsSemOk(Now(), t);
      pool[t] := Thread(false, NO_SEM);
      threads[t] := thread;
    }

    /**
      kmt_teardown of a thread that waits for nothing: its slot becomes empty.  A thread that is not in the pool is
      reported and one that runs is fatal; in the first case `thread_lock` is not released.
     */
    method Teardown(thread: int) returns (r: Exit, t: int)
      requires Valid() && SemOk(Now())
      requires forall j :: 1 <= j <= KERNEL_MAX_THREAD && Holds(j, thread) ==> place[j] == Outside
      modifies pool
      ensures Valid() && SemOk(Now())
      ensures r == NotFound <==> forall j :: 1 <= j <= KERNEL_MAX_THREAD ==> !old(Holds(j, thread))
      ensures r != NotFound ==> 1 <= t <= KERNEL_MAX_THREAD && old(Holds(t, thread)) && forall j :: 1 <= j < t ==> !old(Holds(j, thread))
      ensures r == Suicide <==> r != NotFound && t == currentIndex
      ensures if r == Done then Possible(old(Now()), Event.Teardown(t)) && Now() == Step(old(Now()), Event.Teardown(t))
              else Now() == old(Now())
      ensures r == Done ==> pool[..] == old(pool[..])[t := Empty]
    {
      t := 1;
      while t <= KERNEL_MAX_THREAD && !(pool[t].Thread? && threads[t] == thread)
        invariant 1 <= t <= KERNEL_MAX_THREAD + 1
        invariant forall j :: 1 <= j < t ==> !Holds(j, thread)
      {
        t := t + 1;
      }
      if t > KERNEL_MAX_THREAD {
        return NotFound, t;
      }
      assert old(Holds(t, thread));
      if t == currentIndex {
        return Suicide, t;
      }
      TeardownKeepsSemOk(Now(), t);
      pool[t] := Empty;
      r := Done;
    }

    /** kmt_sem_init, also of a semaphore that is in use; the order survives exactly as `InitKeepsSemOk` says. */
    method SemInit(s: int, value: int)
      requires Valid() && s != NO_SEM
      modifies this`counts
      ensures Valid() && counts == old(counts)[s := value]
      ensures old(SemOk(Now())) ==> (SemOk(Now()) <==> MayBecome(old(Now()), s, value))
    {
      ghost var st := Now();
      counts := counts[s := value];
      if SemOk(st) {
        InitKeepsSemOk(st, s, value);
      }
    }

    /** Lines 176-180 or 183-186: thread `t` looks at the count; `done` says whether kmt_sem_wait returns. */
    method TryWait(t: int, s: int) returns (done: bool)
      requires Valid() && MayTry(Now(), t, s)
      modifies this`place, this`counts, pool
      ensures Valid() && Now() == Step(old(Now()), Event.Try(t, s))
      ensures done <==> old(counts)[s] != 0
      ensures !done ==> pool[..] == old(pool[..])[t := Thread(true, s)] && counts == old(counts) && place == old(place)[t := InLoop(s)]
      ensures done ==> pool[..] == old(pool[..]) && counts == old(counts)[s := old(counts)[s] - 1] && place == old(place)[t := Outside]
    {
      if counts[s] == 0 {
        pool[t] := Thread(pool[t].sleep, s);
        pool[t] := Thread(true, pool[t].waiting);
        place := place[t := InLoop(s)];
        done := false;
      } else {
        counts := counts[s := counts[s] - 1];
        place := place[t := Outside];
        done := true;
      }
    }

    /** Lines 195-199: the first thread in the pool that sleeps on `s`. */
    method FindSleeper(s: int) returns (t: int)
      requires Valid()
      ensures t == FirstSleeper(pool[..], s, 1)
    {
      t := 1;
      while t <= KERNEL_MAX_THREAD && !(pool[t].Thread? && pool[t].sleep && pool[t].waiting == s)
        invariant 1 <= t <= KERNEL_MAX_THREAD + 1
        invariant FirstSleeper(pool[..], s, 1) == FirstSleeper(pool[..], s, t)
      {
        t := t + 1;
      }
    }

    /** kmt_sem_signal */
    method Signal(s: int)
      requires Valid() && s in counts
      modifies this`counts, pool
      ensures Valid() && Now() == Step(old(Now()), Event.Signal(s))
      ensures counts == old(counts)[s := old(counts)[s] + 1] && place == old(place)
      ensures forall t :: FirstAsleep(old(pool[..]), s, t) ==> pool[..] == old(pool[..])[t := Thread(false, NO_SEM)]
      ensures (forall t :: 1 <= t <= KERNEL_MAX_THREAD ==> !SleepsOn(old(pool[..]), t, s)) ==> pool[..] == old(pool[..])
    {
      ghost var st := Now();
      counts := counts[s := counts[s] + 1];
      var t := FindSleeper(s);
      if t <= KERNEL_MAX_THREAD {
        pool[t] := Thread(false, NO_SEM);
        assert pool[..] == st.pool[t := Thread(false, NO_SEM)];
      }
    }
  }
}
