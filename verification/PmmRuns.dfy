/** Whole runs of the allocator on memory: what callers take, give back and store, in any order. */
module PmmRuns {
  import opened Words
  import opened PmmMemory
  import opened PmmSpec
  import opened PmmLinks
  import opened PmmHeap
  import opened PmmHeadStep

  /** A block was handed out, given back, or its holder stored a byte. */
  datatype Event = Took(b: Block) | Gave(b: Block) | Stored(b: Block, a: int, v: byte)

  /** What the callers hold: everything taken and not yet given back. */
  ghost function Held(events: seq<Event>): set<Block> {
    if events == [] then {} else HeldAfter(Held(events[..|events| - 1]), events[|events| - 1])
  }

  ghost function HeldAfter(held: set<Block>, e: Event): set<Block> {
    match e
    case Took(b) => held + {b}
    case Gave(b) => held - {b}
    case Stored(_, _, _) => held
  }

  /** The bytes that holders stored and still hold, as they were stored last. */
  ghost function Written(events: seq<Event>): map<int, byte> {
    if events == [] then map[] else WrittenAfter(Written(events[..|events| - 1]), events[|events| - 1])
  }

  ghost function WrittenAfter(written: map<int, byte>, e: Event): map<int, byte> {
    match e
    case Took(b) => written
    case Gave(b) => map a | a in written && !InPayload(b, a) :: written[a]
    case Stored(_, a, v) => written[a := v]
  }

  ghost predicate Serves(start: int, end: int, s: State, b: Block) {
    b.Used? && b.size <= LARGEST_REQUEST && FirstFit(s.blocks, end, b.size) < |s.blocks|
    && b == Granted(s.blocks, FirstFit(s.blocks, end, b.size), b.size)
  }

  /** What the call of pmm_alloc or pmm_free, or the store, does to a heap in order. */
  ghost predicate Effect(start: int, end: int, s: State, e: Event, s': State) {
    match e
    case Took(b) => Serves(start, end, s, b) && AllocEffect(start, end, s, b.size, s') && AllocHeaders(start, end, s, b.size, s')
    case Gave(b) => FreeEffect(start, end, s, b, s')
    case Stored(b, a, v) => InPayload(b, a) && StoreEffect(s, a, v, s')
  }

  /** Callers give back, and store into, only what they hold. */
  ghost predicate Entitled(held: set<Block>, e: Event) {
    e.Took? || e.b in held
  }

  ghost predicate RunsAt(start: int, end: int, states: seq<State>, events: seq<Event>, k: int)
    requires |states| == |events| + 1 && 0 <= k < |events|
  {
    Entitled(Held(events[..k]), events[k]) && (Good(start, end, states[k]) ==> Effect(start, end, states[k], events[k], states[k + 1]))
  }

  ghost predicate IsRun(start: int, end: int, states: seq<State>, events: seq<Event>) {
    && Machine(start, end) && |states| == |events| + 1
    && Good(start, end, states[0]) && states[0].blocks == [Block.Free(start)]
    && forall k :: 0 <= k < |events| ==> RunsAt(start, end, states, events, k)
  }

  /** Where step `k` is an allocation, its head step was right. */
  ghost predicate HeadRight(end: int, states: seq<State>, events: seq<Event>, k: int)
    requires |states| == |events| + 1 && 0 <= k < |events|
  {
    events[k].Took? && events[k].b.Used? && |states[k].blocks| > 0
    ==> HeadStepOk(states[k].hdr, states[k].mem, states[k].blocks, end, events[k].b.size)
  }

  /** Memory holds what holders stored, in payloads that are held. */
  ghost predicate Remembers(m: Memory, written: map<int, byte>, held: set<Block>) {
    forall a {:trigger a in written} :: a in written ==> Byte(m, a) == written[a] && exists b :: b in held && InPayload(b, a)
  }

  // ---------- one step ----------

  lemma TookKeeps(start: int, end: int, s: State, s': State, b: Block, written: map<int, byte>)
    requires Good(start, end, s) && Serves(start, end, s, b) && AllocEffect(start, end, s, b.size, s')
    requires HeadStepOk(s.hdr, s.mem, s.blocks, end, b.size) && Remembers(s.mem, written, Live(s.blocks))
    ensures Good(start, end, s') && Live(s'.blocks) == Live(s.blocks) + {b} && Remembers(s'.mem, written, Live(s'.blocks))
  {
    CarveKeepsHeap(start, end, s.blocks, FirstFit(s.blocks, end, b.size), b.size);
    forall a | a in written
      ensures Byte(s'.mem, a) == written[a] && exists c :: c in Live(s'.blocks) && InPayload(c, a)
    {
      var c :| c in Live(s.blocks) && InPayload(c, a);
      assert c in Live(s'.blocks);
    }
  }

  lemma GaveKeeps(start: int, end: int, s: State, s': State, b: Block, written: map<int, byte>, left: map<int, byte>)
    requires Good(start, end, s) && b in Live(s.blocks) && FreeEffect(start, end, s, b, s')
    requires Remembers(s.mem, written, Live(s.blocks))
    requires forall a {:trigger a in left} :: a in left ==> a in written && left[a] == written[a] && !InPayload(b, a)
    ensures Live(s'.blocks) == Live(s.blocks) - {b} && Remembers(s'.mem, left, Live(s'.blocks))
  {
    ReleaseKeepsHeap(start, end, s.blocks, IndexOf(s.blocks, b));
    forall a | a in left
      ensures Byte(s'.mem, a) == left[a] && exists c :: c in Live(s'.blocks) && InPayload(c, a)
    {
      assert a in written;
      var c :| c in Live(s.blocks) && InPayload(c, a);
      assert c in Live(s'.blocks);
    }
  }

  lemma StoredKeeps(start: int, end: int, s: State, s': State, b: Block, a: int, v: byte, written: map<int, byte>)
    requires Good(start, end, s) && b in Live(s.blocks) && InPayload(b, a) && StoreEffect(s, a, v, s')
    requires Remembers(s.mem, written, Live(s.blocks))
    ensures Good(start, end, s') && Remembers(s'.mem, written[a := v], Live(s'.blocks))
  {
    UserByteKeepsLinks(start, end, s.head, s.hdr, s.blocks, b, a);
    UserByteKeepsAgree(s.mem, s.hdr, a, v);
    forall k | k in written[a := v]
      ensures Byte(s'.mem, k) == written[a := v][k] && exists c :: c in Live(s'.blocks) && InPayload(c, k)
    {
      assert k != a ==> k in written;
    }
  }

  lemma StepKeeps(start: int, end: int, s: State, e: Event, s': State, held: set<Block>, written: map<int, byte>)
    requires Good(start, end, s) && Effect(start, end, s, e, s') && Entitled(held, e) && Live(s.blocks) == held
    requires e.Took? ==> HeadStepOk(s.hdr, s.mem, s.blocks, end, e.b.size)
    requires Remembers(s.mem, written, held)
    ensures Good(start, end, s') && Live(s'.blocks) == HeldAfter(held, e)
    ensures Remembers(s'.mem, WrittenAfter(written, e), HeldAfter(held, e))
  {
    match e
    case Took(b) => TookKeeps(start, end, s, s', b, written);
    case Gave(b) => GaveKeeps(start, end, s, s', b, written, WrittenAfter(written, e));
    case Stored(b, a, v) => StoredKeeps(start, end, s, s', b, a, v, written);
  }

  // ---------- whole runs ----------

  /**
    As long as every head step was right: the headers in memory describe a heap in order, its used blocks are exactly
    those the callers hold, and every byte a holder stored is still there.
   */
  lemma {:induction false} RunKeepsHeap(start: int, end: int, states: seq<State>, events: seq<Event>, n: nat)
    requires IsRun(start, end, states, events) && n <= |events|
    requires forall k :: 0 <= k < n ==> HeadRight(end, states, events, k)
    ensures Good(start, end, states[n]) && Live(states[n].blocks) == Held(events[..n])
    ensures Remembers(states[n].mem, Written(events[..n]), Held(events[..n]))
    decreases n
  {
    if n > 0 {
      var k := n - 1;
      RunKeepsHeap(start, end, states, events, k);
      assert RunsAt(start, end, states, events, k) && HeadRight(end, states, events, k);
      var before := events[..k];
      assert events[..n][..k] == before;
      StepKeeps(start, end, states[k], events[k], states[n], Held(before), Written(before));
    }
  }

  /**
    And the first head step that is not right leaves bytes that spell no heap in order, whichever headers one reads
    into them.
   */
  lemma RunBreaksExactly(start: int, end: int, states: seq<State>, events: seq<Event>, k: nat)
    requires IsRun(start, end, states, events) && k < |events| && events[k].Took?
    requires forall j :: 0 <= j < k ==> HeadRight(end, states, events, j)
    ensures Spelled(start, end, states[k + 1]) <==> HeadRight(end, states, events, k)
  {
    RunKeepsHeap(start, end, states, events, k);
    assert RunsAt(start, end, states, events, k);
    AllocOnBytes(start, end, states[k], events[k].b.size, states[k + 1]);
  }

  /** Freeing is complete: when everything was given back, memory spells one free block from start to end. */
  lemma RunsEndWhereTheyBegan(start: int, end: int, states: seq<State>, events: seq<Event>, n: nat)
    requires IsRun(start, end, states, events) && n <= |events| && Held(events[..n]) == {}
    requires forall k :: 0 <= k < n ==> HeadRight(end, states, events, k)
    ensures states[n].blocks == [Block.Free(start)] && states[n].head == start
    ensures HeaderAt(states[n].mem, start) == Header(NULL, 0, end)
  {
    RunKeepsHeap(start, end, states, events, n);
    NothingLiveMeansOneFreeBlock(start, end, states[n].blocks);
    assert LinkOk(states[n].hdr, states[n].blocks, end, 0) && SpelledAt(states[n].mem, states[n].hdr, start);
  }

  /**
    What a caller holds lies in the heap at a multiple of the smallest power of two that covers the request, and
    shares no byte with anything else that is held nor with the header in front of it.
   */
  lemma HeldIsAlignedAndApart(start: int, end: int, states: seq<State>, events: seq<Event>, n: nat, b: Block, c: Block)
    requires IsRun(start, end, states, events) && n <= |events| && b in Held(events[..n]) && c in Held(events[..n])
    requires forall k :: 0 <= k < n ==> HeadRight(end, states, events, k)
    ensures b.Used? && start + HEADER <= b.addr + HEADER && b.addr + HEADER + b.size <= end
    ensures (b.addr + HEADER) % Alignment(b.size) == 0
    ensures b != c ==> b.addr + HEADER + b.size <= c.addr || c.addr + HEADER + Payload(c) <= b.addr
  {
    RunKeepsHeap(start, end, states, events, n);
    var blocks := states[n].blocks;
    assert b in Live(blocks) && c in Live(blocks);
    var i, j := IndexOf(blocks, b), IndexOf(blocks, c);
    InHeap(start, end, blocks, i);
    assert Aligned(b);
    if i != j {
      PayloadsApart(start, end, blocks, i, j);
    }
  }

  /** Callers who only ask for sizes that leave a gap at the start need not look at the heap. */
  ghost predicate WideGaps(start: int, events: seq<Event>) {
    forall k :: 0 <= k < |events| && events[k].Took? && events[k].b.Used? ==> GapSplits(start, Place(start, events[k].b.size))
  }

  lemma {:induction false} CarefulCallersAreSafe(start: int, end: int, states: seq<State>, events: seq<Event>, n: nat)
    requires IsRun(start, end, states, events) && WideGaps(start, events) && n <= |events|
    ensures forall k :: 0 <= k < n ==> HeadRight(end, states, events, k)
    decreases n
  {
    if n > 0 {
      var k := n - 1;
      CarefulCallersAreSafe(start, end, states, events, k);
      RunKeepsHeap(start, end, states, events, k);
      if events[k].Took? && events[k].b.Used? {
        WideGapIsRight(start, end, states[k].blocks, states[k].hdr, states[k].mem, events[k].b.size);
      }
    }
  }

  // ---------- the code on a sequence of requests ----------

  /** Take some bytes, give back or store into what the `i`-th request to take was given. */
  datatype Request = Take(size: nat) | Give(i: nat) | Put(i: nat, offset: nat, v: byte)

  /** What callers owe: sizes with a wide gap that fit, and no use of what they do not hold. */
  ghost predicate Legal(start: int, end: int, blocks: seq<Block>, taken: seq<Block>, requests: seq<Request>)
    decreases |requests|
  {
    requests == [] ||
    match requests[0]
    case Take(size) =>
      var i := FirstFit(blocks, end, size);
      && size <= LARGEST_REQUEST && GapSplits(start, Place(start, size)) && i < |blocks|
      && Legal(start, end, Carve(blocks, end, i, size), taken + [Granted(blocks, i, size)], requests[1..])
    case Give(i) =>
      i < |taken| && taken[i] in Live(blocks) && Legal(start, end, Release(blocks, start, IndexOf(blocks, taken[i])), taken, requests[1..])
    case Put(i, offset, v) =>
      i < |taken| && taken[i] in Live(blocks) && offset < Payload(taken[i]) && Legal(start, end, blocks, taken, requests[1..])
  }

  /** The event that a request becomes when the blocks `taken` were handed out so far. */
  ghost predicate Becomes(r: Request, taken: seq<Block>, e: Event) {
    match r
    case Take(size) => e.Took? && e.b.Used? && e.b.size == size
    case Give(i) => i < |taken| && e == Gave(taken[i])
    case Put(i, offset, v) => i < |taken| && e == Stored(taken[i], taken[i].addr + HEADER + offset, v)
  }

  /** Everything handed out so far, in order. */
  ghost function Taken(events: seq<Event>): seq<Block> {
    if events == [] then []
    else Taken(events[..|events| - 1]) + if events[|events| - 1].Took? then [events[|events| - 1].b] else []
  }

  lemma RunExtends(start: int, end: int, states: seq<State>, events: seq<Event>, e: Event, s': State)
    requires IsRun(start, end, states, events) && Entitled(Held(events), e) && Effect(start, end, states[|events|], e, s')
    ensures IsRun(start, end, states + [s'], events + [e])
    ensures (events + [e])[..|events|] == events
  {
    var states', events' := states + [s'], events + [e];
    assert events'[..|events|] == events;
    forall k | 0 <= k < |events'|
      ensures RunsAt(start, end, states', events', k)
    {
      if k < |events| {
        assert RunsAt(start, end, states, events, k);
        assert events'[..k] == events[..k];
      }
    }
  }

  /** What the first request of a legal sequence asks for. */
  lemma FirstIsLegal(start: int, end: int, blocks: seq<Block>, taken: seq<Block>, r: Request, rest: seq<Request>)
    requires Legal(start, end, blocks, taken, [r] + rest)
    ensures r.Take? ==>
              var i := FirstFit(blocks, end, r.size);
              && r.size <= LARGEST_REQUEST && GapSplits(start, Place(start, r.size)) && i < |blocks|
              && Legal(start, end, Carve(blocks, end, i, r.size), taken + [Granted(blocks, i, r.size)], rest)
    ensures !r.Take? ==> r.i < |taken| && taken[r.i] in Live(blocks) && taken + [] == taken
    ensures r.Give? ==> Legal(start, end, Release(blocks, start, IndexOf(blocks, taken[r.i])), taken, rest)
    ensures r.Put? ==> r.offset < Payload(taken[r.i]) && Legal(start, end, blocks, taken, rest)
  {
    assert ([r] + rest)[1..] == rest;
  }

  lemma AllocTook(start: int, end: int, s: State, size: nat, b: Block, s': State)
    requires size <= LARGEST_REQUEST && FirstFit(s.blocks, end, size) < |s.blocks|
    requires b == Granted(s.blocks, FirstFit(s.blocks, end, size), size)
    requires AllocEffect(start, end, s, size, s') && AllocHeaders(start, end, s, size, s')
    ensures b.Used? && b.size == size && Effect(start, end, s, Took(b), s')
  {
  }

  /** A request to take served by the code. */
  method ServeTake(heap: Heap, size: nat) returns (p: int, ghost b: Block)
    requires heap.Valid() && size <= LARGEST_REQUEST && GapSplits(heap.start, Place(heap.start, size))
    requires FirstFit(heap.blocks, heap.end, size) < |heap.blocks|
    modifies heap
    ensures heap.Valid() && p == b.addr + HEADER && b.Used? && b.size == size
    ensures Effect(heap.start, heap.end, old(heap.Now()), Took(b), heap.Now())
    ensures var i := FirstFit(old(heap.blocks), heap.end, size);
            b == Granted(old(heap.blocks), i, size) && heap.blocks == Carve(old(heap.blocks), heap.end, i, size)
  {
    ghost var s := heap.Now();
    WideGapIsRight(heap.start, heap.end, heap.blocks, heap.hdr, heap.mem, size);
    b := Granted(heap.blocks, FirstFit(heap.blocks, heap.end, size), size);
    p := heap.Alloc(size);
    AllocTook(heap.start, heap.end, s, size, b, heap.Now());
  }

  /** One request served by the code. */
  method ServeOne(heap: Heap, r: Request, ptrs: seq<int>, ghost taken: seq<Block>, ghost rest: seq<Request>)
    returns (ptrs': seq<int>, ghost e: Event)
    requires heap.Valid() && Legal(heap.start, heap.end, heap.blocks, taken, [r] + rest)
    requires |ptrs| == |taken| && forall i :: 0 <= i < |ptrs| ==> ptrs[i] == taken[i].addr + HEADER
    modifies heap
    ensures heap.Valid() && Becomes(r, taken, e)
    ensures Effect(heap.start, heap.end, old(heap.Now()), e, heap.Now()) && Entitled(Live(old(heap.blocks)), e)
    ensures e.Took? ==> GapSplits(heap.start, Place(heap.start, e.b.size))
    ensures ptrs' == ptrs + if e.Took? then [e.b.addr + HEADER] else []
    ensures Legal(heap.start, heap.end, heap.blocks, taken + if e.Took? then [e.b] else [], rest)
  {
    ptrs' := ptrs;
    FirstIsLegal(heap.start, heap.end, heap.blocks, taken, r, rest);
    match r
    case Take(size) =>
      ghost var b;
      var p;
      p, b := ServeTake(heap, size);
      e := Took(b);
      ptrs' := ptrs + [p];
    case Give(i) =>
      ghost var b := taken[i];
      e := Gave(b);
      ghost var h1 := heap.Free(ptrs[i], b);
    case Put(i, offset, v) =>
      ghost var b := taken[i];
      var a := ptrs[i] + offset;
      e := Stored(b, a, v);
      heap.Store(a, v, b);
  }

  /**
    The code serves any legal sequence of requests, and what it does is a run: the heap stays in order, it is what the
    callers hold, it remembers their bytes, and when nothing is held it is one free block.
   */
  method Serve(heap: Heap, requests: seq<Request>) returns (ptrs: seq<int>, ghost states: seq<State>, ghost events: seq<Event>)
    requires heap.Valid() && heap.blocks == [Block.Free(heap.start)] && Legal(heap.start, heap.end, heap.blocks, [], requests)
    modifies heap
    ensures heap.Valid() && IsRun(heap.start, heap.end, states, events) && |events| == |requests| && states[|events|] == heap.Now()
    ensures forall k :: 0 <= k < |events| ==> Becomes(requests[k], Taken(events[..k]), events[k])
    ensures |ptrs| == |Taken(events)| && forall i :: 0 <= i < |ptrs| ==> ptrs[i] == Taken(events)[i].addr + HEADER
    ensures Live(heap.blocks) == Held(events) && Remembers(heap.mem, Written(events), Held(events))
    ensures Held(events) == {} ==> heap.blocks == [Block.Free(heap.start)]
  {
    ptrs, states, events := [], [heap.Now()], [];
    ghost var s := heap.Now();
    assert requests[0..] == requests;
    var k := 0;
    while k < |requests|
      invariant k <= |requests| && |events| == k && heap.Valid() && s == heap.Now()
      invariant Served(heap.start, heap.end, s, requests, ptrs, states, events)
    {
      HeldIsLive(heap.start, heap.end, states, events);
      ghost var rest := requests[k + 1..];
      assert requests[k..] == [requests[k]] + rest;
      ghost var e, taken, s0, ptrs0 := Gave(Block.Free(0)), Taken(events), s, ptrs;
      ptrs, e := ServeOne(heap, requests[k], ptrs, taken, rest);
      s := heap.Now();
      ServedStep(heap.start, heap.end, s0, s, requests, ptrs0, ptrs, states, events, e);
      states, events, k := states + [s], events + [e], k + 1;
    }
    HeldIsLive(heap.start, heap.end, states, events);
    if Held(events) == {} {
      NothingLiveMeansOneFreeBlock(heap.start, heap.end, heap.blocks);
    }
  }

  /** Where `Serve` stands when it has served some of the requests. */
  ghost predicate Served(start: int, end: int, s: State, requests: seq<Request>, ptrs: seq<int>, states: seq<State>, events: seq<Event>) {
    && |events| <= |requests| && IsRun(start, end, states, events) && states[|events|] == s && WideGaps(start, events)
    && (forall j :: 0 <= j < |events| ==> Becomes(requests[j], Taken(events[..j]), events[j]))
    && |ptrs| == |Taken(events)| && (forall i :: 0 <= i < |ptrs| ==> ptrs[i] == Taken(events)[i].addr + HEADER)
    && Legal(start, end, s.blocks, Taken(events), requests[|events|..])
  }

  lemma ServedStep(start: int, end: int, s: State, s': State, requests: seq<Request>, ptrs: seq<int>, ptrs': seq<int>,
                   states: seq<State>, events: seq<Event>, e: Event)
    requires Served(start, end, s, requests, ptrs, states, events) && |events| < |requests| && Live(s.blocks) == Held(events)
    requires Becomes(requests[|events|], Taken(events), e)
    requires Effect(start, end, s, e, s') && Entitled(Live(s.blocks), e)
    requires e.Took? ==> GapSplits(start, Place(start, e.b.size))
    requires ptrs' == ptrs + if e.Took? then [e.b.addr + HEADER] else []
    requires Legal(start, end, s'.blocks, Taken(events) + if e.Took? then [e.b] else [], requests[|events| + 1..])
    ensures Served(start, end, s', requests, ptrs', states + [s'], events + [e])
  {
    RunExtends(start, end, states, events, e, s');
    EventAppended(requests, events, e, |events|);
  }

  lemma EventAppended(requests: seq<Request>, events: seq<Event>, e: Event, k: nat)
    requires k == |events| < |requests| && Becomes(requests[k], Taken(events), e)
    requires forall j :: 0 <= j < k ==> Becomes(requests[j], Taken(events[..j]), events[j])
    ensures forall j :: 0 <= j <= k ==> Becomes(requests[j], Taken((events + [e])[..j]), (events + [e])[j])
    ensures Taken(events + [e]) == Taken(events) + if e.Took? then [e.b] else []
  {
    var events' := events + [e];
    assert events'[..k] == events;
    forall j | 0 <= j <= k
      ensures Becomes(requests[j], Taken(events'[..j]), events'[j])
    {
      assert events'[..j] == events[..j];
    }
  }

  lemma HeldIsLive(start: int, end: int, states: seq<State>, events: seq<Event>)
    requires IsRun(start, end, states, events) && WideGaps(start, events)
    ensures Live(states[|events|].blocks) == Held(events) && Remembers(states[|events|].mem, Written(events), Held(events))
  {
    var n := |events|;
    CarefulCallersAreSafe(start, end, states, events, n);
    RunKeepsHeap(start, end, states, events, n);
    assert events[..n] == events;
  }
}
