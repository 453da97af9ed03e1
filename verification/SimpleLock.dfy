/**
  The locks of src/libos/simple_lock.c.  On one CPU a lock is held by keeping interrupts off; nested locks share one
  counter and one saved interrupt flag.
 */
module SimpleLock {

  /** The held locks, `lockcount`, `release_intr` and the interrupt flag. */
  datatype Nesting = Nesting(held: set<int>, count: int, saved: bool, intr: bool)

  /** simple_lock_try, simple_lock_unlock, and code outside any lock switching interrupts on or off. */
  datatype Event = Try(lock: int) | Unlock(lock: int) | Switch(on: bool)

  function Step(m: Nesting, e: Event): Nesting {
    match e
    case Try(l) =>
      if l in m.held then m.(intr := false)
      else Nesting(m.held + {l}, m.count + 1, if m.count == 0 then m.intr else m.saved, false)
    case Unlock(l) =>
      if l !in m.held then m
      else m.(held := m.held - {l}, count := m.count - 1, intr := m.intr || (m.count == 1 && m.saved))
    case Switch(on) => m.(intr := on)
  }

  class Locks {
    var status: map<int, bool>    // the status of every initialised lock
    var lockcount: int
    var releaseIntr: bool
    var intr: bool

    ghost function State(): Nesting
      reads this
    {
      Nesting((set l | l in status && status[l]), lockcount, releaseIntr, intr)
    }

    constructor (intr: bool)
      ensures State() == Nesting({}, 0, false, intr) && status == map[]
    {
      status, lockcount, releaseIntr, this.intr := map[], 0, false, intr;
    }

    method Init(lock: int)
      modifies this`status
      ensures status == old(status)[lock := false]
      ensures State() == old(State()).(held := old(State()).held - {lock})
    {
      status := status[lock := false];
    }

    method Try(lock: int)
      requires lock in status
      modifies this
      ensures State() == Step(old(State()), Event.Try(lock))
      ensures status == old(status)[lock := true] && !intr && lockcount == old(lockcount) + if old(status)[lock] then 0 else 1
      ensures releaseIntr == if old(status)[lock] || old(lockcount) != 0 then old(releaseIntr) else old(intr)
    {
      var was := intr;
      intr := false;
      if !status[lock] {
        if lockcount == 0 {
          releaseIntr := was;
        }
        status := status[lock := true];
        lockcount := lockcount + 1;
      }
    }

    method Unlock(lock: int)
      requires lock in status
      modifies this
      ensures State() == Step(old(State()), Event.Unlock(lock))
      ensures status == old(status)[lock := false] && lockcount == old(lockcount) - if old(status)[lock] then 1 else 0
      ensures releaseIntr == old(releaseIntr)
      ensures intr == (old(intr) || (old(status)[lock] && lockcount == 0 && releaseIntr))
    {
      if status[lock] {
        lockcount := lockcount - 1;
        status := status[lock := false];
        if lockcount == 0 {
          if releaseIntr {
            intr := true;
          }
        }
      }
    }
  }

  // ---------- whole runs ----------

  function Run(m: Nesting, events: seq<Event>): Nesting {
    if events == [] then m
    else Step(Run(m, events[..|events| - 1]), events[|events| - 1])
  }

  /** Nobody but the locks themselves switches interrupts while a lock is held. */
  ghost predicate Disciplined(m: Nesting, events: seq<Event>) {
    forall i :: 0 <= i < |events| && events[i].Switch? ==> Run(m, events[..i]).count == 0
  }

  ghost predicate Sound(m: Nesting) {
    m.count == |m.held| && (m.count > 0 ==> !m.intr)
  }

  /** The counter always counts the held locks, and interrupts are off while there are any. */
  lemma {:induction false} CountIsHeldLocks(m: Nesting, events: seq<Event>)
    requires Sound(m) && Disciplined(m, events)
    ensures Sound(Run(m, events))
  {
    if events != [] {
      var before := events[..|events| - 1];
      DisciplinedPrefix(m, events, |events| - 1);
      CountIsHeldLocks(m, before);
    }
  }

  lemma DisciplinedPrefix(m: Nesting, events: seq<Event>, n: nat)
    requires Disciplined(m, events) && n <= |events|
    ensures Disciplined(m, events[..n])
  {
    forall i | 0 <= i < n && events[i].Switch?
      ensures Run(m, events[..n][..i]).count == 0
    {
      assert events[..n][..i] == events[..i];
    }
  }

  /** What was done to a lock last decides whether it is held, whatever else is done in between. */
  lemma {:induction false} LastDecides(m: Nesting, events: seq<Event>, l: int, i: nat)
    requires i < |events| && (events[i] == Try(l) || events[i] == Unlock(l))
    requires forall j :: i < j < |events| ==> events[j] != Try(l) && events[j] != Unlock(l)
    ensures l in Run(m, events).held <==> events[i] == Try(l)
    decreases |events|
  {
    var last := |events| - 1;
    if i < last {
      LastDecides(m, events[..last], l, i);
    }
  }

  /** At least one lock is held after each of the steps 1 .. n. */
  ghost predicate Inside(m: Nesting, events: seq<Event>, n: int) {
    forall i :: 1 <= i <= n <= |events| ==> Run(m, events[..i]).count > 0
  }

  lemma {:induction false} SavedWhileInside(m: Nesting, events: seq<Event>, n: nat)
    requires Sound(m) && m.count == 0 && Disciplined(m, events) && 1 <= n <= |events| && Inside(m, events, n)
    ensures Run(m, events[..n]).saved == m.intr
    decreases n
  {
    assert events[..n][..n - 1] == events[..n - 1];
    assert Run(m, events[..n]).count > 0;
    if n > 1 {
      SavedWhileInside(m, events, n - 1);
      assert Run(m, events[..n - 1]).count > 0;
    }
  }

  /**
    Whatever locks are taken and in whatever order they are released: from the moment the first is taken to the
    moment none is held any more, the interrupt flag goes from its value at the start, off, and back to that value.
   */
  lemma LastReleaseRestores(m: Nesting, events: seq<Event>)
    requires Sound(m) && m.count == 0 && |events| > 1 && Disciplined(m, events)
    requires Inside(m, events, |events| - 1) && Run(m, events).count == 0
    ensures Run(m, events).intr == m.intr
    ensures forall i :: 0 < i < |events| ==> !Run(m, events[..i]).intr
  {
    var last := |events| - 1;
    SavedWhileInside(m, events, last);
    forall i | 0 < i < |events|
      ensures !Run(m, events[..i]).intr
    {
      DisciplinedPrefix(m, events, i);
      CountIsHeldLocks(m, events[..i]);
    }
    assert Run(m, events[..last]).count > 0 && !Run(m, events[..last]).intr;
  }

  /** A lock that is never released keeps interrupts off for good. */
  lemma {:induction false} UnreleasedLockStays(m: Nesting, events: seq<Event>, l: int)
    requires Sound(m) && l in m.held && Disciplined(m, events) && Unlock(l) !in events
    ensures l in Run(m, events).held && !Run(m, events).intr
  {
    CountIsHeldLocks(m, events);
    if events != [] {
      var before := events[..|events| - 1];
      DisciplinedPrefix(m, events, |events| - 1);
      assert events[|events| - 1] in events;
      UnreleasedLockStays(m, before, l);
    }
    assert Run(m, events).held != {};
  }
}
