/**
  Several threads appending to one kvfs file through vfs_write.  The semaphore `vfs_sem` starts at 1; kvfs_write is
  cut into the steps between which another thread may be scheduled.
 */
module VfsAppend {
  import Kmt
  import opened Kvfs
  import opened Words

  const VFS_SEM: int := 1

  type Record = seq<byte>

  /** `prog[t]` lists the records that thread `t` writes, one vfs_write each. */
  type Programs = seq<seq<Record>>

  /** Where a thread is inside vfs_write, with the locals of kvfs_write. */
  datatype Phase =
    | Out                                     // before sem_wait returned, or after sem_signal
    | Entered                                 // inside the section
    | Positioned(pos: int)                    // line 235
    | Copied(pos: int, buf: seq<byte>)        // lines 240-248
    | Filled(pos: int, buf: seq<byte>)        // line 250
    | Sized(pos: int, buf: seq<byte>)         // lines 251-252
    | Stored                                  // lines 254-256

  /** `disk` and `size` are the buffer and the size of the file; `log` names the thread of each record stored so far. */
  datatype System = System(k: Kmt.State, phase: seq<Phase>, disk: seq<byte>, size: int, log: seq<int>)

  function Count(log: seq<int>, t: int): nat {
    if log == [] then 0 else Count(log[..|log| - 1], t) + if log[|log| - 1] == t then 1 else 0
  }

  /** The records of the log in order; the n-th entry of a thread stands for its n-th record. */
  ghost function Text(prog: Programs, log: seq<int>): seq<byte>
    requires Faithful(prog, log)
  {
    if log == [] then []
    else
      var before, t := log[..|log| - 1], log[|log| - 1];
      Text(prog, before) + prog[t][Count(before, t)]
  }

  /** Every entry of the log stands for a record that its thread really writes. */
  ghost predicate Faithful(prog: Programs, log: seq<int>) {
    log == [] || (var before, t := log[..|log| - 1], log[|log| - 1];
                  Faithful(prog, before) && 0 <= t < |prog| && Count(before, t) < |prog[t]|)
  }

  ghost predicate Shape(prog: Programs, st: System) {
    Kmt.Shape(st.k) && VFS_SEM in st.k.counts && |st.phase| == |prog| == Kmt.KERNEL_MAX_THREAD + 1
  }

  function Inside(st: System): set<int> {
    set t | 0 <= t < |st.phase| && st.phase[t] != Out
  }

  // ---------- steps ----------

  /** The locked section of sem_wait(&vfs_sem), on the way in. */
  ghost predicate MayTry(prog: Programs, st: System, t: int) {
    && Shape(prog, st) && Kmt.MayTry(st.k, t, VFS_SEM)
    && st.phase[t] == Out && Count(st.log, t) < |prog[t]|
  }

  ghost function Try(prog: Programs, st: System, t: int): System
    requires MayTry(prog, st, t)
  {
    st.(k := Kmt.TryStep(st.k, t, VFS_SEM),
        phase := if st.k.counts[VFS_SEM] == 0 then st.phase else st.phase[t := Entered])
  }

  ghost predicate MayAdvance(prog: Programs, st: System, t: int) {
    && Shape(prog, st) && Kmt.IsThread(t) && st.phase[t] != Out
    && (st.phase[t] != Stored ==> Count(st.log, t) < |prog[t]|)
    && (st.phase[t].Positioned? || st.phase[t].Copied? ==> st.phase[t].pos >= 0)
  }

  /** One step inside the section. */
  ghost function Advance(prog: Programs, st: System, t: int): System
    requires MayAdvance(prog, st, t)
  {
    match st.phase[t]
    case Entered => st.(phase := st.phase[t := Positioned(st.size)])
    case Positioned(p) =>
      var r := prog[t][Count(st.log, t)];
      var buf := if p + |r| > st.size then Grown(st.disk, st.size, p + |r|) else st.disk;
      st.(phase := st.phase[t := Copied(p, buf)])
    case Copied(p, buf) => st.(phase := st.phase[t := Filled(p, Overlay(buf, p, prog[t][Count(st.log, t)]))])
    case Filled(p, buf) =>
      var r := prog[t][Count(st.log, t)];
      st.(phase := st.phase[t := Sized(p, buf)], size := if st.size < p + |r| then p + |r| else st.size)
    case Sized(p, buf) => st.(phase := st.phase[t := Stored], disk := buf, log := st.log + [t])
    case Stored => st.(phase := st.phase[t := Out], k := Kmt.SignalStep(st.k, VFS_SEM))
  }

  /** A zeroed buffer of `n` bytes that received the first `size` bytes of the old one. */
  function Grown(disk: seq<byte>, size: int, n: nat): seq<byte> {
    seq(n, k requires k >= 0 => if k < size && k < |disk| then disk[k] else 0)
  }

  // ---------- the invariant ----------

  /** What the thread inside the section knows. */
  ghost predicate PhaseOk(prog: Programs, st: System, t: int)
    requires Shape(prog, st) && 0 <= t < |prog|
  {
    var n := Count(st.log, t);
    && (st.phase[t] != Out && st.phase[t] != Stored ==> n < |prog[t]|)
    && match st.phase[t]
       case Out => true
       case Entered => st.size == |st.disk|
       case Positioned(p) => p == st.size == |st.disk|
       case Copied(p, buf) => p == st.size == |st.disk| && st.disk <= buf && |buf| == p + |prog[t][n]|
       case Filled(p, buf) => p == st.size == |st.disk| && buf == st.disk + prog[t][n]
       case Sized(p, buf) => p == |st.disk| && buf == st.disk + prog[t][n] && st.size == |buf|
       case Stored => st.size == |st.disk|
  }

  ghost predicate Ok(prog: Programs, base: seq<byte>, st: System) {
    && Shape(prog, st)
    && |Inside(st)| <= 1 && st.k.counts[VFS_SEM] + |Inside(st)| == 1
    && (forall t :: 0 <= t < |prog| ==> PhaseOk(prog, st, t))
    && (Inside(st) == {} ==> st.size == |st.disk|)
    && Faithful(prog, st.log) && st.disk == base + Text(prog, st.log)
  }

  lemma OnlyOne(s: set<int>, a: int, b: int)
    requires |s| <= 1 && a in s && b in s
    ensures a == b
  {
    var rest := s - {a};
    assert |rest| == |s| - 1;
    assert b in rest || b == a;
  }

  lemma AllOut(st: System)
    requires Inside(st) == {}
    ensures forall t :: 0 <= t < |st.phase| ==> st.phase[t] == Out
  {
    forall t | 0 <= t < |st.phase|
      ensures st.phase[t] == Out
    {
      assert t in Inside(st) <==> st.phase[t] != Out;
    }
  }

  lemma TryKeepsOk(prog: Programs, base: seq<byte>, st: System, t: int)
    requires Ok(prog, base, st) && MayTry(prog, st, t)
    ensures Ok(prog, base, Try(prog, st, t))
  {
    var st' := Try(prog, st, t);
    if st.k.counts[VFS_SEM] == 0 {
      assert Inside(st') == Inside(st);
    } else {
      assert Inside(st) == {};
      assert Inside(st') == {t};
    }
    forall u | 0 <= u < |prog|
      ensures PhaseOk(prog, st', u)
    {
      assert PhaseOk(prog, st, u);
    }
  }

  /** A thread in the section is alone there. */
  lemma Alone(prog: Programs, base: seq<byte>, st: System, t: int)
    requires Ok(prog, base, st) && 0 <= t < |prog| && st.phase[t] != Out
    ensures Inside(st) == {t} && st.k.counts[VFS_SEM] == 0
    ensures forall u :: 0 <= u < |prog| && u != t ==> st.phase[u] == Out
  {
    assert t in Inside(st);
    forall u | u in Inside(st)
      ensures u == t
    {
      OnlyOne(Inside(st), u, t);
    }
    assert Inside(st) == {t};
    forall u | 0 <= u < |prog| && u != t
      ensures st.phase[u] == Out
    {
      assert u in Inside(st) <==> st.phase[u] != Out;
    }
  }

  lemma FillsTheTail(disk: seq<byte>, buf: seq<byte>, r: Record)
    requires disk <= buf && |buf| == |disk| + |r|
    ensures Overlay(buf, |disk|, r) == disk + r
  {
  }

  lemma TextExtends(prog: Programs, log: seq<int>, t: int)
    requires Faithful(prog, log) && 0 <= t < |prog| && Count(log, t) < |prog[t]|
    ensures Faithful(prog, log + [t]) && Text(prog, log + [t]) == Text(prog, log) + prog[t][Count(log, t)]
  {
    assert (log + [t])[..|log|] == log;
  }

  lemma OwnPhaseOk(prog: Programs, base: seq<byte>, st: System, t: int)
    requires Ok(prog, base, st) && MayAdvance(prog, st, t)
    ensures Shape(prog, Advance(prog, st, t)) && PhaseOk(prog, Advance(prog, st, t), t)
  {
    assert PhaseOk(prog, st, t);
    if st.phase[t].Copied? {
      FillsTheTail(st.disk, st.phase[t].buf, prog[t][Count(st.log, t)]);
    }
  }

  /** Only the last step leaves the section, and it gives the unit back. */
  lemma AdvanceInside(prog: Programs, base: seq<byte>, st: System, t: int)
    requires Ok(prog, base, st) && MayAdvance(prog, st, t)
    ensures var st' := Advance(prog, st, t);
            Inside(st') == (if st.phase[t] == Stored then {} else {t}) && st'.k.counts[VFS_SEM] + |Inside(st')| == 1
  {
    Alone(prog, base, st, t);
  }

  /** Only the step that stores the buffer changes the file, by one whole record. */
  lemma AdvanceText(prog: Programs, base: seq<byte>, st: System, t: int)
    requires MayAdvance(prog, st, t) && PhaseOk(prog, st, t) && Faithful(prog, st.log) && st.disk == base + Text(prog, st.log)
    ensures var st' := Advance(prog, st, t);
            Faithful(prog, st'.log) && st'.disk == base + Text(prog, st'.log)
  {
    if st.phase[t].Sized? {
      var text, r := Text(prog, st.log), prog[t][Count(st.log, t)];
      TextExtends(prog, st.log, t);
      assert (base + text) + r == base + (text + r);
    }
  }

  lemma AdvanceKeepsOk(prog: Programs, base: seq<byte>, st: System, t: int)
    requires Ok(prog, base, st) && MayAdvance(prog, st, t)
    ensures Ok(prog, base, Advance(prog, st, t))
  {
    var st' := Advance(prog, st, t);
    OwnPhaseOk(prog, base, st, t);
    AdvanceInside(prog, base, st, t);
    assert PhaseOk(prog, st, t);
    AdvanceText(prog, base, st, t);
    forall u | 0 <= u < |prog|
      ensures PhaseOk(prog, st', u)
    {
      if u != t {
        assert u in Inside(st') <==> st'.phase[u] != Out;
      }
    }
  }

  // ---------- whole runs ----------

  datatype Event = Try(t: int) | Advance(t: int)

  ghost predicate RunsAt(prog: Programs, states: seq<System>, events: seq<Event>, i: int)
    requires |states| == |events| + 1 && 0 <= i < |events|
  {
    match events[i]
    case Try(t) => MayTry(prog, states[i], t) && states[i + 1] == Try(prog, states[i], t)
    case Advance(t) => MayAdvance(prog, states[i], t) && states[i + 1] == Advance(prog, states[i], t)
  }

  ghost predicate IsRun(prog: Programs, states: seq<System>, events: seq<Event>) {
    |states| == |events| + 1 && forall i :: 0 <= i < |events| ==> RunsAt(prog, states, events, i)
  }

  /** Nobody is in the section, the semaphore is at 1, and nothing was written yet. */
  ghost predicate Initial(prog: Programs, base: seq<byte>, st: System) {
    && Shape(prog, st) && st.k.counts[VFS_SEM] == 1 && Inside(st) == {}
    && st.disk == base && st.size == |base| && st.log == []
  }

  lemma {:induction false} EveryRunIsOk(prog: Programs, base: seq<byte>, states: seq<System>, events: seq<Event>, n: nat)
    requires IsRun(prog, states, events) && Initial(prog, base, states[0]) && n <= |events|
    ensures Ok(prog, base, states[n])
    decreases n
  {
    if n == 0 {
      AllOut(states[0]);
    } else {
      EveryRunIsOk(prog, base, states, events, n - 1);
      assert RunsAt(prog, states, events, n - 1);
      match events[n - 1]
      case Try(t) => TryKeepsOk(prog, base, states[n - 1], t);
      case Advance(t) => AdvanceKeepsOk(prog, base, states[n - 1], t);
    }
  }

  /** The count of `vfs_sem` and the threads in a section always add up to 1. */
  lemma SectionIsExclusive(prog: Programs, base: seq<byte>, states: seq<System>, events: seq<Event>, n: nat)
    requires IsRun(prog, states, events) && Initial(prog, base, states[0]) && n <= |events|
    ensures Shape(prog, states[n]) && states[n].k.counts[VFS_SEM] + |Inside(states[n])| == 1
    ensures forall t, u :: t in Inside(states[n]) && u in Inside(states[n]) ==> t == u
  {
    EveryRunIsOk(prog, base, states, events, n);
    forall t, u | t in Inside(states[n]) && u in Inside(states[n])
      ensures t == u
    {
      OnlyOne(Inside(states[n]), t, u);
    }
  }

  /**
    However the writers are interleaved, the file is its old contents followed by whole records, each thread's
    records in its own order and none of them beyond what the thread writes.
   */
  lemma AppendsAreAtomic(prog: Programs, base: seq<byte>, states: seq<System>, events: seq<Event>, n: nat)
    requires IsRun(prog, states, events) && Initial(prog, base, states[0]) && n <= |events|
    ensures Faithful(prog, states[n].log)
    ensures states[n].disk == base + Text(prog, states[n].log)
    ensures Inside(states[n]) == {} ==> states[n].size == |states[n].disk|
    ensures forall t :: Count(states[n].log, t) <= if 0 <= t < |prog| then |prog[t]| else 0
  {
    EveryRunIsOk(prog, base, states, events, n);
    forall t
      ensures Count(states[n].log, t) <= if 0 <= t < |prog| then |prog[t]| else 0
    {
      FaithfulCount(prog, states[n].log, t);
    }
  }

  lemma {:induction false} FaithfulCount(prog: Programs, log: seq<int>, t: int)
    requires Faithful(prog, log)
    ensures Count(log, t) <= if 0 <= t < |prog| then |prog[t]| else 0
  {
    if log != [] {
      FaithfulCount(prog, log[..|log| - 1], t);
    }
  }

  /** Every record that was stored stands in the file as a whole, behind all that was stored before it. */
  lemma {:induction false} StoredRecordIsWhole(prog: Programs, log: seq<int>, t: int, k: nat) returns (i: nat)
    requires Faithful(prog, log) && 0 <= t < |prog| && k < Count(log, t)
    ensures i < |log| && log[i] == t && Count(log[..i], t) == k < |prog[t]| && Faithful(prog, log[..i])
    ensures Text(prog, log[..i]) + prog[t][k] <= Text(prog, log)
    decreases |log|
  {
    var last := |log| - 1;
    var before := log[..last];
    if k < Count(before, t) {
      i := StoredRecordIsWhole(prog, before, t, k);
      assert before[..i] == log[..i];
    } else {
      i := last;
    }
  }

  /** No record is stored twice: of the entries of one thread, each stands for another record, in order. */
  lemma {:induction false} EntriesCountUp(log: seq<int>, t: int, i: nat, j: nat)
    requires i < j <= |log| && log[i] == t
    ensures Count(log[..i], t) < Count(log[..j], t)
    decreases j
  {
    assert log[..j][..j - 1] == log[..j - 1];
    if i < j - 1 {
      EntriesCountUp(log, t, i, j - 1);
    }
  }

  // ---------- every writer gets through ----------

  /** The steps a thread has left in the section. */
  function Left(p: Phase): nat {
    match p
    case Out => 0
    case Entered => 6
    case Positioned(_) => 5
    case Copied(_, _) => 4
    case Filled(_, _) => 3
    case Sized(_, _) => 2
    case Stored => 1
  }

  /** The record that the write under way will still store. */
  ghost function ToStore(prog: Programs, st: System, t: int): seq<byte>
    requires 0 <= t < |prog| && t < |st.phase|
  {
    if Left(st.phase[t]) >= 2 && Count(st.log, t) < |prog[t]| then prog[t][Count(st.log, t)] else []
  }

  /** A thread inside can always take its next step, which brings it nearer to the way out. */
  lemma OneAdvance(prog: Programs, base: seq<byte>, st: System, t: int)
    requires Ok(prog, base, st) && Kmt.IsThread(t) && st.phase[t] != Out
    ensures MayAdvance(prog, st, t) && Ok(prog, base, Advance(prog, st, t))
    ensures var st' := Advance(prog, st, t);
            && Left(st'.phase[t]) == Left(st.phase[t]) - 1 && st'.phase == st.phase[t := st'.phase[t]]
            && st'.disk + ToStore(prog, st', t) == st.disk + ToStore(prog, st, t)
            && |st'.log| + (if Left(st'.phase[t]) >= 2 then 1 else 0) == |st.log| + (if Left(st.phase[t]) >= 2 then 1 else 0)
  {
    assert PhaseOk(prog, st, t);
    AdvanceKeepsOk(prog, base, st, t);
    if st.phase[t].Sized? {
      assert st.disk + prog[t][Count(st.log, t)] + [] == st.disk + prog[t][Count(st.log, t)];
    }
  }

  /** From `st` to `end` thread `t` has left the section with its record stored, and nothing else has happened. */
  ghost predicate GotThrough(prog: Programs, base: seq<byte>, st: System, end: System, t: int)
    requires 0 <= t < |prog| && t < |st.phase|
  {
    && Ok(prog, base, end) && end.phase == st.phase[t := Out] && end.disk == st.disk + ToStore(prog, st, t)
    && |end.log| == |st.log| + if Left(st.phase[t]) >= 2 then 1 else 0
  }

  lemma GetsThroughLater(prog: Programs, base: seq<byte>, st: System, end: System, t: int)
    requires Ok(prog, base, st) && Kmt.IsThread(t) && st.phase[t] != Out && MayAdvance(prog, st, t)
    requires Ok(prog, base, Advance(prog, st, t)) && GotThrough(prog, base, Advance(prog, st, t), end, t)
    ensures GotThrough(prog, base, st, end, t)
  {
    OneAdvance(prog, base, st, t);
  }

  /**
    Scheduled often enough, a thread inside leaves the section: then its record stands at the end of the file, and the
    semaphore is at 1 again.
   */
  lemma {:induction false} WriterLeaves(prog: Programs, base: seq<byte>, st: System, t: int)
    returns (states: seq<System>, events: seq<Event>)
    requires Ok(prog, base, st) && Kmt.IsThread(t)
    ensures IsRun(prog, states, events) && states[0] == st && |events| == Left(st.phase[t])
    ensures forall i :: 0 <= i < |events| ==> events[i] == Event.Advance(t)
    ensures GotThrough(prog, base, st, states[|events|], t)
    decreases Left(st.phase[t])
  {
    states, events := [st], [];
    if st.phase[t] != Out {
      OneAdvance(prog, base, st, t);
      var next := Advance(prog, st, t);
      var rest, later := WriterLeaves(prog, base, next, t);
      var end := rest[|later|];
      GetsThroughLater(prog, base, st, end, t);
      states, events := [st] + rest, [Event.Advance(t)] + later;
      RunPrepended(prog, st, Event.Advance(t), rest, later);
      assert states[|events|] == end;
    } else {
      assert st.phase[t := Out] == st.phase && st.disk + [] == st.disk;
    }
  }

  lemma RunPrepended(prog: Programs, st: System, e: Event, states: seq<System>, events: seq<Event>)
    requires IsRun(prog, states, events) && RunsAt(prog, [st, states[0]], [e], 0)
    ensures IsRun(prog, [st] + states, [e] + events)
  {
    forall i | 0 <= i < |events| + 1
      ensures RunsAt(prog, [st] + states, [e] + events, i)
    {
      if i > 0 {
        assert RunsAt(prog, states, events, i - 1);
      }
    }
  }

  /** A whole vfs_write: when the semaphore is at 1, one step into the section and six through it append the next record. */
  lemma WriteAppends(prog: Programs, base: seq<byte>, st: System, t: int) returns (states: seq<System>, events: seq<Event>)
    requires Ok(prog, base, st) && MayTry(prog, st, t) && st.k.counts[VFS_SEM] == 1
    ensures IsRun(prog, states, events) && states[0] == st && |events| == 7
    ensures events[0] == Event.Try(t) && forall i :: 1 <= i < 7 ==> events[i] == Event.Advance(t)
    ensures var end := states[7];
            && Ok(prog, base, end) && Inside(end) == {} && end.k.counts[VFS_SEM] == 1
            && end.disk == st.disk + prog[t][Count(st.log, t)] && end.size == |end.disk| && |end.log| == |st.log| + 1
  {
    TryKeepsOk(prog, base, st, t);
    var inside := Try(prog, st, t);
    var rest, later := WriterLeaves(prog, base, inside, t);
    states, events := [st] + rest, [Event.Try(t)] + later;
    RunPrepended(prog, st, Event.Try(t), rest, later);
    assert forall i :: 1 <= i < 7 ==> events[i] == later[i - 1];
    Alone(prog, base, inside, t);
    assert Inside(states[7]) == {};
  }

  // ---------- nothing is lost ----------

  /** How often thread `t` left the section, which is when its vfs_write returned, in the first `n` steps. */
  ghost function Returns(states: seq<System>, events: seq<Event>, t: int, n: nat): nat
    requires n <= |events| < |states| && 0 <= t < |states[0].phase|
  {
    if n == 0 then 0
    else
      Returns(states, events, t, n - 1)
      + if events[n - 1] == Event.Advance(t) && t < |states[n - 1].phase| && states[n - 1].phase[t] == Stored then 1 else 0
  }

  /** Every vfs_write that returned has its record in the log, and but for one on its way out nothing else is there. */
  lemma {:induction false} ReturnedIsStored(prog: Programs, base: seq<byte>, states: seq<System>, events: seq<Event>, t: int, n: nat)
    requires IsRun(prog, states, events) && Initial(prog, base, states[0]) && n <= |events| && 0 <= t < |prog|
    ensures Shape(prog, states[n])
    ensures Count(states[n].log, t) == Returns(states, events, t, n) + if states[n].phase[t] == Stored then 1 else 0
    decreases n
  {
    EveryRunIsOk(prog, base, states, events, n);
    if n == 0 {
      AllOut(states[0]);
    } else {
      ReturnedIsStored(prog, base, states, events, t, n - 1);
      EveryRunIsOk(prog, base, states, events, n - 1);
      assert RunsAt(prog, states, events, n - 1);
      match events[n - 1]
      case Try(u) =>
      case Advance(u) => OneStepCounts(prog, states[n - 1], u, t);
    }
  }

  lemma OneStepCounts(prog: Programs, st: System, u: int, t: int)
    requires MayAdvance(prog, st, u) && 0 <= t < |prog|
    ensures Count(Advance(prog, st, u).log, t) == Count(st.log, t) + if u == t && st.phase[t].Sized? then 1 else 0
    ensures Advance(prog, st, u).phase[t] == Stored <==> if u == t then st.phase[t].Sized? else st.phase[t] == Stored
  {
    if st.phase[u].Sized? {
      assert (st.log + [u])[..|st.log|] == st.log;
    }
  }

  /** The bytes of the first `n` records of a thread. */
  function RecordBytes(records: seq<Record>, n: nat): nat
    requires n <= |records|
  {
    if n == 0 then 0 else RecordBytes(records, n - 1) + |records[n - 1]|
  }

  /** The bytes that the first `m` threads have stored according to the log. */
  ghost function StoredBytes(prog: Programs, log: seq<int>, m: nat): nat
    requires m <= |prog| && forall t :: 0 <= t < m ==> Count(log, t) <= |prog[t]|
  {
    if m == 0 then 0 else StoredBytes(prog, log, m - 1) + RecordBytes(prog[m - 1], Count(log, m - 1))
  }

  lemma {:induction false} OneMoreEntry(prog: Programs, before: seq<int>, t: int, m: nat)
    requires m <= |prog| && 0 <= t < |prog|
    requires forall u :: 0 <= u < |prog| ==> Count(before + [t], u) == Count(before, u) + if u == t then 1 else 0
    requires forall u :: 0 <= u < |prog| ==> Count(before + [t], u) <= |prog[u]|
    ensures StoredBytes(prog, before + [t], m) == StoredBytes(prog, before, m) + if t < m then |prog[t][Count(before, t)]| else 0
    decreases m
  {
    if m > 0 {
      OneMoreEntry(prog, before, t, m - 1);
    }
  }

  lemma EntryCounts(log: seq<int>, t: int, u: int)
    ensures Count(log + [t], u) == Count(log, u) + if u == t then 1 else 0
  {
    assert (log + [t])[..|log|] == log;
  }

  /** The file has grown by exactly the bytes of the records in the log. */
  lemma {:induction false} TextIsAllRecords(prog: Programs, log: seq<int>)
    requires Faithful(prog, log)
    ensures forall t :: 0 <= t < |prog| ==> Count(log, t) <= |prog[t]|
    ensures |Text(prog, log)| == StoredBytes(prog, log, |prog|)
    decreases |log|
  {
    forall t | 0 <= t < |prog|
      ensures Count(log, t) <= |prog[t]|
    {
      FaithfulCount(prog, log, t);
    }
    if log == [] {
      NothingStored(prog, |prog|);
    } else {
      var before, t := log[..|log| - 1], log[|log| - 1];
      assert log == before + [t];
      TextIsAllRecords(prog, before);
      forall u | 0 <= u < |prog|
        ensures Count(log, u) == Count(before, u) + if u == t then 1 else 0
      {
        EntryCounts(before, t, u);
      }
      OneMoreEntry(prog, before, t, |prog|);
    }
  }

  lemma {:induction false} NothingStored(prog: Programs, m: nat)
    requires m <= |prog|
    ensures StoredBytes(prog, [], m) == 0
  {
    if m > 0 {
      NothingStored(prog, m - 1);
    }
  }

  /** The bytes of all records of the first `m` threads. */
  function AllBytes(prog: Programs, m: nat): nat
    requires m <= |prog|
  {
    if m == 0 then 0 else AllBytes(prog, m - 1) + RecordBytes(prog[m - 1], |prog[m - 1]|)
  }

  lemma {:induction false} AllStored(prog: Programs, log: seq<int>, m: nat)
    requires m <= |prog| && forall t :: 0 <= t < |prog| ==> Count(log, t) == |prog[t]|
    ensures StoredBytes(prog, log, m) == AllBytes(prog, m)
    decreases m
  {
    if m > 0 {
      AllStored(prog, log, m - 1);
    }
  }

  /** When every vfs_write of every thread has returned, the file has grown by all records: none is lost. */
  lemma NothingIsLost(prog: Programs, base: seq<byte>, states: seq<System>, events: seq<Event>, n: nat)
    requires IsRun(prog, states, events) && Initial(prog, base, states[0]) && n <= |events|
    requires forall t :: 0 <= t < |prog| ==> Returns(states, events, t, n) == |prog[t]|
    ensures |states[n].disk| == |base| + AllBytes(prog, |prog|)
  {
    EveryRunIsOk(prog, base, states, events, n);
    var log := states[n].log;
    TextIsAllRecords(prog, log);
    forall t | 0 <= t < |prog|
      ensures Count(log, t) == |prog[t]|
    {
      ReturnedIsStored(prog, base, states, events, t, n);
    }
    AllStored(prog, log, |prog|);
  }
}
