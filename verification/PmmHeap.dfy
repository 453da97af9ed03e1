/** The allocator of src/pmm.c on the bytes of memory. */
module PmmHeap {
  import opened Words
  import opened PmmMemory
  import opened PmmSpec
  import opened PmmLinks

  /** `memory_head`, the headers intact in memory, the bytes, and the list of blocks they stand for. */
  datatype State = State(head: int, hdr: Headers, mem: Memory, blocks: seq<Block>)

  /** The bytes spell headers that describe the list of blocks. */
  ghost predicate Good(start: int, end: int, s: State) {
    Represents(start, end, s.head, s.hdr, s.blocks) && Agree(s.mem, s.hdr)
  }

  /** What pmm_alloc does when some block fits. */
  ghost predicate AllocEffect(start: int, end: int, s: State, size: nat, s': State) {
    var i := FirstFit(s.blocks, end, size);
    && i < |s.blocks| && s'.blocks == Carve(s.blocks, end, i, size)
    && HeapOk(start, end, s'.blocks) && Agree(s'.mem, s'.hdr)
    && PayloadsKept(s.mem, s'.mem, Live(s.blocks))
    && (Linked(s'.hdr, s'.head, s'.blocks, start, end) <==> HeadStepOk(s.hdr, s.mem, s.blocks, end, size))
  }

  /** The headers it leaves, one by one. */
  ghost predicate AllocHeaders(start: int, end: int, s: State, size: nat, s': State) {
    var i := FirstFit(s.blocks, end, size);
    && i < |s.blocks| && s.blocks[i].addr in s.hdr && NextAddr(s.blocks, end, i) in s.hdr
    && var moves := !GapSplits(s.blocks[i].addr, Place(s.blocks[i].addr, size));
       CutEffect(start, end, s.head, s.blocks, CutWindow(s.hdr, s.mem, s.blocks, end, i, moves), i, size, s'.hdr, s'.head)
  }

  /** Some intact headers that the bytes spell describe the heap. */
  ghost predicate Spelled(start: int, end: int, s: State) {
    exists h :: Good(start, end, s.(hdr := h))
  }

  /** Two readings of the same bytes agree where both read a header. */
  lemma ReadAlike(m: Memory, h: Headers, h': Headers, x: int)
    requires Agree(m, h) && Agree(m, h') && x in h && x in h'
    ensures h[x] == h'[x]
  {
    assert SpelledAt(m, h, x) && SpelledAt(m, h', x);
  }

  /** Whatever headers one reads into the bytes after the cut: they describe the heap only if the head step was right. */
  lemma NoOtherHeaders(start: int, end: int, s: State, size: nat, s': State, h: Headers)
    requires Good(start, end, s) && size <= LARGEST_REQUEST
    requires AllocEffect(start, end, s, size, s') && AllocHeaders(start, end, s, size, s')
    requires Good(start, end, s'.(hdr := h))
    ensures HeadStepOk(s.hdr, s.mem, s.blocks, end, size)
  {
    var i := FirstFit(s.blocks, end, size);
    var b, a, next := s.blocks[i].addr, Place(s.blocks[i].addr, size), NextAddr(s.blocks, end, i);
    AllocContext(start, end, s.head, s.hdr, s.blocks, i, size);
    if i == 0 && !GapSplits(b, a) {
      assert s'.blocks[0] == Used(a - HEADER, size);
      assert LinkOk(h, s'.blocks, end, 0);
      ReadAlike(s'.mem, h, s'.hdr, a - HEADER);
      if |s.blocks| > 1 && !TailSplits(a, size, next) {
        assert s'.blocks[1] == s.blocks[1];
        assert LinkOk(h, s'.blocks, end, 1);
        ReadAlike(s'.mem, h, s'.hdr, next);
      }
    }
  }

  /** So the equivalence that `AllocEffect` states of the tracked headers holds of the bytes. */
  lemma AllocOnBytes(start: int, end: int, s: State, size: nat, s': State)
    requires Good(start, end, s) && size <= LARGEST_REQUEST
    requires AllocEffect(start, end, s, size, s') && AllocHeaders(start, end, s, size, s')
    ensures Spelled(start, end, s') <==> HeadStepOk(s.hdr, s.mem, s.blocks, end, size)
  {
    if HeadStepOk(s.hdr, s.mem, s.blocks, end, size) {
      assert s'.(hdr := s'.hdr) == s';
      assert Good(start, end, s'.(hdr := s'.hdr));
    }
    if Spelled(start, end, s') {
      var h :| Good(start, end, s'.(hdr := h));
      NoOtherHeaders(start, end, s, size, s', h);
    }
  }

  lemma CutIsAlloc(start: int, end: int, s: State, size: nat, i: nat, w: Window, s': State)
    requires Good(start, end, s) && CutContext(start, end, s.hdr, s.blocks, i, size) && i == FirstFit(s.blocks, end, size)
    requires w == CutWindow(s.hdr, s.mem, s.blocks, end, i, !GapSplits(s.blocks[i].addr, Place(s.blocks[i].addr, size)))
    requires w.Kept(s'.hdr, s'.mem, start, end) && CutEffect(start, end, s.head, s.blocks, w, i, size, s'.hdr, s'.head)
    ensures AllocHeaders(start, end, s, size, s')
    ensures AllocEffect(start, end, s, size, s'.(blocks := Carve(s.blocks, end, i, size)))
  {
    CarveKeepsHeap(start, end, s.blocks, i, size);
    CutDone(start, end, s.head, s.blocks, w, i, size, s'.hdr, s'.head);
  }

  /** What pmm_free does to the block `b`. */
  ghost predicate FreeEffect(start: int, end: int, s: State, b: Block, s': State) {
    && b in s.blocks && s'.blocks == Release(s.blocks, start, IndexOf(s.blocks, b))
    && Good(start, end, s') && PayloadsKept(s.mem, s'.mem, Live(s'.blocks))
  }

  /** Lines 155-158: header `m` is absorbed by the free header at `c`. */
  ghost function Absorbed(h: Headers, c: int, m: int): Headers
    requires c in h && m in h
  {
    h[m := h[m].(front := c)][c := h[c].(next := h[m].next)]
  }

  ghost predicate FreeHeaders(start: int, end: int, s: State, i: nat, h1: Headers, s': State)
    requires i < |s.blocks|
  {
    var c, n := Melted(s.blocks, start, i).addr, NextAddr(s.blocks, end, i);
    && s.blocks[MeltLo(s.blocks, i)].addr in s.hdr && n in s.hdr
    && LeftEffect(start, end, s.head, s.blocks, i, MeltWindow(s.hdr, s.mem, s.blocks, start, end, i), h1, s'.head)
    && s'.hdr == if i + 1 < |s.blocks| && s.blocks[i + 1].Free? then Absorbed(h1, c, n) else h1
  }

  /** What one byte stored by the holder of an allocation does. */
  ghost predicate StoreEffect(s: State, a: int, v: byte, s': State) {
    s' == s.(hdr := Spoil(s.hdr, a), mem := StoreByte(s.mem, a, v))
  }

  lemma FreshIsGood(start: int, end: int, m: Memory)
    requires Machine(start, end) && HeaderAt(m, start) == Header(NULL, 0, end)
    ensures Good(start, end, State(start, map[start := Header(NULL, 0, end), end := HeaderAt(m, end)], m, [Block.Free(start)]))
  {
    var h, blocks := map[start := Header(NULL, 0, end), end := HeaderAt(m, end)], [Block.Free(start)];
    assert Sits(blocks, end, 0);
    assert LinkOk(h, blocks, end, 0);
  }

  class Heap {
    const start: int
    const end: int
    var head: int               // memory_head
    var mem: Memory
    ghost var hdr: Headers      // the headers that are intact
    ghost var blocks: seq<Block>

    ghost function Now(): State
      reads this
    {
      State(head, hdr, mem, blocks)
    }

    ghost predicate Valid()
      reads this
    {
      Good(start, end, Now())
    }

    // ---------- reading and writing headers ----------

    method Front(a: int) returns (v: int)
      requires a in hdr && Agree(mem, hdr)
      ensures v == hdr[a].front && 0 <= v < TWO_32
    {
      assert SpelledAt(mem, hdr, a);
      v := Word(mem, a);
    }

    method Inuse(a: int) returns (v: byte)
      requires a in hdr && Agree(mem, hdr)
      ensures v == hdr[a].inuse
    {
      assert SpelledAt(mem, hdr, a);
      v := Byte(mem, a + 4);
    }

    method Next(a: int) returns (v: int)
      requires a in hdr && Agree(mem, hdr)
      ensures v == hdr[a].next && 0 <= v < TWO_32
    {
      assert SpelledAt(mem, hdr, a);
      v := Word(mem, a + 8);
    }

    method SetFront(a: int, v: int, ghost w: Window)
      requires a in hdr && w.Has(a) && w.Kept(hdr, mem, start, end) && 0 <= v < TWO_32
      modifies this`hdr, this`mem
      ensures hdr == old(hdr)[a := old(hdr)[a].(front := v)] && Outside(old(mem), mem, a, a + HEADER)
      ensures w.Kept(hdr, mem, start, end)
    {
      assert SpelledAt(mem, hdr, a);
      ghost var v1 := hdr[a].(front := v);
      var m1 := StoreWord(mem, a, v);
      WordOfSameBytes(mem, m1, a + 8);
      UpdateInWindow(w, hdr, mem, start, end, a, v1, m1);
      hdr, mem := hdr[a := v1], m1;
    }

    method SetInuse(a: int, v: byte, ghost w: Window)
      requires a in hdr && w.Has(a) && w.Kept(hdr, mem, start, end)
      modifies this`hdr, this`mem
      ensures hdr == old(hdr)[a := old(hdr)[a].(inuse := v)] && Outside(old(mem), mem, a, a + HEADER)
      ensures w.Kept(hdr, mem, start, end)
    {
      assert SpelledAt(mem, hdr, a);
      ghost var v1 := hdr[a].(inuse := v);
      var m1 := StoreByte(mem, a + 4, v);
      WordOfSameBytes(mem, m1, a);
      WordOfSameBytes(mem, m1, a + 8);
      UpdateInWindow(w, hdr, mem, start, end, a, v1, m1);
      hdr, mem := hdr[a := v1], m1;
    }

    method SetNext(a: int, v: int, ghost w: Window)
      requires a in hdr && w.Has(a) && w.Kept(hdr, mem, start, end) && 0 <= v < TWO_32
      modifies this`hdr, this`mem
      ensures hdr == old(hdr)[a := old(hdr)[a].(next := v)]
      ensures forall k {:trigger Byte(mem, k)} :: Byte(mem, k) == Byte(StoreWord(old(mem), a + 8, v), k)
      ensures w.Kept(hdr, mem, start, end)
    {
      assert SpelledAt(mem, hdr, a);
      ghost var v1 := hdr[a].(next := v);
      var m1 := StoreWord(mem, a + 8, v);
      WordOfSameBytes(mem, m1, a);
      UpdateInWindow(w, hdr, mem, start, end, a, v1, m1);
      hdr, mem := hdr[a := v1], m1;
    }

    /** From here on the bytes at `a` are a header: what was there before, but for `inuse`. */
    method NewHeader(a: int, inuse: byte, ghost w: Window)
      requires w.lo <= a && a + HEADER <= w.hi && w.Kept(hdr, mem, start, end)
      modifies this`hdr, this`mem
      ensures a in hdr && hdr[a].front == Word(old(mem), a) && hdr[a].inuse == inuse
      ensures Outside(old(mem), mem, a, a + HEADER)
      ensures forall k {:trigger k in hdr} {:trigger hdr[k]} {:trigger k in old(hdr)} :: k in old(hdr) && (a + HEADER <= k || k + HEADER <= a) ==> Same(old(hdr), hdr, k)
      ensures w.Kept(hdr, mem, start, end)
    {
      var m1 := StoreByte(mem, a + 4, inuse);
      WordOfSameBytes(mem, m1, a);
      WordOfSameBytes(mem, m1, a + 8);
      ghost var v := HeaderAt(m1, a);
      PutInWindow(w, hdr, mem, start, end, a, v, m1);
      hdr, mem := Put(hdr, a, v), m1;
    }

    /** A whole header is stored where there was none. */
    method MakeHeader(a: int, front: int, inuse: byte, next: int, ghost w: Window)
      requires w.lo <= a && a + HEADER <= w.hi && w.Kept(hdr, mem, start, end)
      requires 0 <= front < TWO_32 && 0 <= next < TWO_32
      modifies this`hdr, this`mem
      ensures a in hdr && hdr[a] == Header(front, inuse, next) && Outside(old(mem), mem, a, a + HEADER)
      ensures forall k {:trigger k in hdr} {:trigger hdr[k]} {:trigger k in old(hdr)} :: k in old(hdr) && (a + HEADER <= k || k + HEADER <= a) ==> Same(old(hdr), hdr, k)
      ensures w.Kept(hdr, mem, start, end)
    {
      NewHeader(a, inuse, w);
      SetFront(a, front, w);
      SetNext(a, next, w);
    }

    /** pmm_init: whatever memory held, it now begins with one free block. */
    constructor (start: int, end: int, mem: Memory)
      requires Machine(start, end)
      ensures Valid() && this.start == start && this.end == end
      ensures blocks == [Block.Free(start)] && head == start
      ensures hdr.Keys == {start, end} && hdr[start] == Header(NULL, 0, end)
      ensures Outside(mem, this.mem, start, start + HEADER) && SameBytes(mem, this.mem, start + 5, start + 8)
    {
      this.start, this.end := start, end;
      head := start;
      var m := PutHeader(mem, start, Header(NULL, 0, end));
      this.mem := m;
      hdr := map[start := Header(NULL, 0, end), end := HeaderAt(m, end)];
      blocks := [Block.Free(start)];
      FreshIsGood(start, end, m);
    }

    // ---------- pmm_alloc ----------

    /** Lines 49-52, in `size_t`: double until the request is covered.  Above 2^31 this does not end, see `RoundingNeverEnds`. */
    method RoundUp(size: nat) returns (r: nat, k: nat)
      requires size <= TWO_31
      ensures r == Pow2(k) == Alignment(size)
    {
      r, k := 1, 0;
      while r < size
        invariant r == Pow2(k)
        invariant k > 0 ==> Pow2(k - 1) < size
        decreases size - r
      {
        ToU32Small(r * 2);
        r, k := ToU32(r * 2), k + 1;
      }
      PowerOfTwoAligns(size, k);
    }

    /** Lines 54-57 and 63-66, in `size_t`. */
    method Aim(b: int, size: nat, r: nat, k: nat) returns (startinblock: int, allocaddr: int)
      requires r == Pow2(k) == Alignment(size) && size <= LARGEST_REQUEST
      requires 0 <= b && b + HEADER + LARGEST_REQUEST <= TWO_32
      ensures startinblock == b + HEADER && allocaddr == Place(b, size)
    {
      Pow2OfThirty();
      AlignmentIsLeast(size, 30);
      PlaceIsAligned(b, size);
      ToU32Small(b + HEADER);
      ToU32Small(Place(b, size));
      startinblock := ToU32(b + HEADER);
      if startinblock % r == 0 {
        allocaddr := startinblock;
      } else {
        assert startinblock / Pow2(k) * Pow2(k) + r == AlignUp(startinblock, r);
        allocaddr := ToU32(startinblock / Pow2(k) * Pow2(k) + r);
      }
    }

    /** What lines 59-60 read of the block at hand, which decides whether it suits. */
    method Look(blockit: int, allocaddr: int, size: nat, ghost i: int) returns (inuse: byte, next: int)
      requires Valid() && size <= LARGEST_REQUEST && 0 <= i < |blocks| && blockit == blocks[i].addr && allocaddr == Place(blockit, size)
      ensures next == NextAddr(blocks, end, i)
      ensures Suits(blocks, end, i, size) <==> !(inuse == 1 || ToI32(next - allocaddr - size) < 0)
    {
      AtBlock(start, end, head, hdr, blocks, i);
      FitTest(start, end, head, hdr, blocks, i, size);
      inuse := Inuse(blockit);
      next := Next(blockit);
    }

    /** Lines 47-67: the first block that suits; when there is none the search ends at `_heap.end`, never at NULL. */
    method Search(size: nat) returns (blockit: int, startinblock: int, allocaddr: int)
      requires Valid() && size <= LARGEST_REQUEST
      ensures var i := FirstFit(blocks, end, size); blockit == if i < |blocks| then blocks[i].addr else end
      ensures blockit != NULL && startinblock == blockit + HEADER && allocaddr == Place(blockit, size)
    {
      var r, k := RoundUp(size);
      blockit := head;
      ghost var i := 0;
      AddrBounds(start, end, blocks, i);
      startinblock, allocaddr := Aim(blockit, size, r, k);
      var inuse, next := Look(blockit, allocaddr, size, i);
      while blockit != NULL && blockit != end && (inuse == 1 || ToI32(next - allocaddr - size) < 0)
        invariant 0 <= i <= FirstFit(blocks, end, size) && start <= blockit <= end
        invariant blockit == (if i < |blocks| then blocks[i].addr else end) && (i < |blocks| ==> blockit < end)
        invariant startinblock == blockit + HEADER && allocaddr == Place(blockit, size)
        invariant i < |blocks| ==> next == NextAddr(blocks, end, i)
        invariant i < |blocks| ==> (Suits(blocks, end, i, size) <==> !(inuse == 1 || ToI32(next - allocaddr - size) < 0))
        decreases |blocks| - i
      {
        blockit := next;
        i := i + 1;
        AddrBounds(start, end, blocks, i);
        startinblock, allocaddr := Aim(blockit, size, r, k);
        if blockit != end {
          inuse, next := Look(blockit, allocaddr, size, i);
        }
      }
    }

    /** Lines 84-86, 94-96 and 110-112: the pseudo header at the end keeps no back link here. */
    method BackLink(next: int, v: int, ghost w: Window)
      requires next in hdr && w.Has(next) && w.Kept(hdr, mem, start, end) && 0 <= v < TWO_32
      modifies this`hdr, this`mem
      ensures hdr == if next == end then old(hdr) else old(hdr)[next := old(hdr)[next].(front := v)]
      ensures Outside(old(mem), mem, next, next + HEADER)
      ensures w.Kept(hdr, mem, start, end)
    {
      if next != end {
        SetFront(next, v, w);
      }
    }

    /** Lines 80-82 and 106-108: the rest of the block becomes a free block. */
    method Tail(blockit: int, allocaddr: int, size: nat, ghost w: Window)
      requires blockit in hdr && w.lo == blockit && blockit + HEADER <= allocaddr && HEADER <= allocaddr < TWO_32
      requires allocaddr + size + HEADER <= w.hi && w.Kept(hdr, mem, start, end)
      modifies this`hdr, this`mem
      ensures allocaddr + size in hdr && hdr[allocaddr + size] == Header(allocaddr - HEADER, 0, old(hdr)[blockit].next)
      ensures forall k {:trigger k in hdr} {:trigger hdr[k]} {:trigger k in old(hdr)} ::
                k in old(hdr) && (k + HEADER <= allocaddr + size || allocaddr + size + HEADER <= k) ==> Same(old(hdr), hdr, k)
      ensures Outside(old(mem), mem, allocaddr + size, allocaddr + size + HEADER)
      ensures w.Kept(hdr, mem, start, end)
    {
      var t := allocaddr + size;
      var next := Next(blockit);
      MakeHeader(t, allocaddr - HEADER, 0, next, w);
    }

    /** Lines 82-91: the header just stored at `h` gets the tail behind its payload. */
    method CloseWithTail(blockit: int, h: int, size: nat, ghost next: int, ghost w: Window)
      requires blockit in hdr && h in hdr && next in hdr && hdr[blockit].next == next < TWO_32
      requires w.lo == blockit && w.hi == next && w.Has(next) && 0 <= blockit
      requires blockit + HEADER <= h && h + HEADER + size + HEADER < next && w.Kept(hdr, mem, start, end)
      modifies this`hdr, this`mem
      ensures w.Kept(hdr, mem, start, end)
      ensures var t := h + HEADER + size;
              && t in hdr && hdr[t] == Header(h, 0, next)
              && h in hdr && hdr[h] == old(hdr)[h].(next := t)
              && next in hdr && (next != end ==> hdr[next] == old(hdr)[next].(front := t))
              && blockit in hdr && hdr[blockit] == old(hdr)[blockit].(next := h)
    {
      Tail(blockit, h + HEADER, size, w);
      SetNext(h, h + HEADER + size, w);
      var n := Next(blockit);
      BackLink(n, h + HEADER + size, w);
      SetNext(blockit, h, w);
    }

    /** Lines 92-98: the header just stored at `h` takes the rest of the block. */
    method CloseWithoutTail(blockit: int, h: int, ghost next: int, ghost w: Window)
      requires blockit in hdr && h in hdr && next in hdr && hdr[blockit].next == next < TWO_32
      requires w.lo == blockit && w.hi == next && w.Has(next) && 0 <= blockit
      requires blockit + HEADER <= h && h + HEADER <= next && w.Kept(hdr, mem, start, end)
      modifies this`hdr, this`mem
      ensures w.Kept(hdr, mem, start, end)
      ensures && h in hdr && hdr[h] == old(hdr)[h].(next := next)
              && next in hdr && (next != end ==> hdr[next] == old(hdr)[next].(front := h))
              && blockit in hdr && hdr[blockit] == old(hdr)[blockit].(next := h)
    {
      var n := Next(blockit);
      SetNext(h, n, w);
      BackLink(n, h, w);
      SetNext(blockit, h, w);
    }

    /** Lines 76-102: the header goes into the gap, and the found block stays behind as a free block. */
    method CutBehindGap(blockit: int, allocaddr: int, size: nat, ghost next: int, ghost w: Window)
      requires Cut(hdr, blockit, allocaddr, size, next, w) && allocaddr - blockit > 2 * HEADER
      requires w.Kept(hdr, mem, start, end)
      modifies this`hdr, this`mem
      ensures w.Kept(hdr, mem, start, end)
      ensures GapEffect(old(hdr), hdr, end, blockit, allocaddr, size, next)
    {
      var h := allocaddr - HEADER;
      NewHeader(h, 1, w);
      SetFront(h, blockit, w);
      var n := Next(blockit);
      if ToI32(n - allocaddr - size - HEADER) > 0 {
        CloseWithTail(blockit, h, size, next, w);
      } else {
        CloseWithoutTail(blockit, h, next, w);
      }
    }

    /** Lines 106-112: the tail of the found block and the back link to it. */
    method LinkTail(blockit: int, allocaddr: int, size: nat, next: int, t: int, ghost w: Window)
      requires Cut(hdr, blockit, allocaddr, size, next, w) && next - t > HEADER && t == allocaddr + size && w.Kept(hdr, mem, start, end)
      modifies this`hdr, this`mem
      ensures w.Kept(hdr, mem, start, end) && SameBytes(old(mem), mem, blockit, allocaddr)
      ensures && blockit in hdr && hdr[blockit] == old(hdr)[blockit]
              && t in hdr && hdr[t] == Header(allocaddr - HEADER, 0, next)
              && next in hdr && hdr[next] == if next != end then old(hdr)[next].(front := t) else old(hdr)[next]
      ensures forall k {:trigger k in hdr} {:trigger hdr[k]} :: k in old(hdr) && k < blockit ==> Same(old(hdr), hdr, k)
    {
      Tail(blockit, allocaddr, size, w);
      ghost var m1 := mem;
      BackLink(next, t, w);
      OutsideTwice(old(mem), m1, mem, t, next, HEADER, blockit, allocaddr);
    }

    /** Lines 106-113: the tail is split off, and the found block ends there. */
    method SplitTail(blockit: int, allocaddr: int, size: nat, next: int, t: int, ghost w: Window)
      requires Cut(hdr, blockit, allocaddr, size, next, w) && next - t > HEADER && t == allocaddr + size && w.Kept(hdr, mem, start, end)
      modifies this`hdr, this`mem
      ensures w.Kept(hdr, mem, start, end)
      ensures && blockit in hdr && hdr[blockit] == old(hdr)[blockit].(next := t)
              && t in hdr && hdr[t] == Header(allocaddr - HEADER, 0, next)
              && next in hdr && hdr[next] == if next != end then old(hdr)[next].(front := t) else old(hdr)[next]
      ensures forall k {:trigger k in hdr} {:trigger hdr[k]} :: k in old(hdr) && k < blockit ==> Same(old(hdr), hdr, k)
      ensures Word(mem, allocaddr - HEADER) == HeadWord(old(mem), blockit, allocaddr, t)
    {
      LinkTail(blockit, allocaddr, size, next, t, w);
      ghost var m2 := mem;
      SetNext(blockit, t, w);
      HeadWordStored(old(mem), m2, mem, blockit, allocaddr, t);
    }

    /** Lines 105-114. */
    method CutTail(blockit: int, allocaddr: int, size: nat, ghost next: int, ghost w: Window)
      requires Cut(hdr, blockit, allocaddr, size, next, w) && w.Kept(hdr, mem, start, end)
      modifies this`hdr, this`mem
      ensures w.Kept(hdr, mem, start, end)
      ensures blockit in hdr && hdr[blockit] == old(hdr)[blockit].(next := UsedNext(allocaddr, size, next))
      ensures TailEffect(hdr, allocaddr, size, next)
      ensures next in hdr && hdr[next] == if next != end && next != UsedNext(allocaddr, size, next) then old(hdr)[next].(front := allocaddr + size)
                             else old(hdr)[next]
      ensures forall k :: k in old(hdr) && k < blockit ==> Same(old(hdr), hdr, k)
      ensures Word(mem, allocaddr - HEADER) == HeadWord(old(mem), blockit, allocaddr, UsedNext(allocaddr, size, next))
    {
      var n := Next(blockit);
      ToI32Small(n - allocaddr - size - HEADER);
      if ToI32(n - allocaddr - size - HEADER) > 0 {
        SplitTail(blockit, allocaddr, size, n, allocaddr + size, w);
      } else {
        assert SpelledAt(mem, hdr, blockit);
        HeadWordFound(mem, blockit, allocaddr, n);
      }
    }

    /** Lines 116-120: the header of the first block is moved up; its `front` is whatever is found there. */
    method MoveHead(blockit: int, allocaddr: int, ghost n: int, ghost w: Window)
      requires blockit in hdr && hdr[blockit].next == n && n in hdr && w.lo == blockit
      requires blockit + HEADER <= allocaddr <= n <= w.hi && w.Kept(hdr, mem, start, end)
      modifies this`head, this`hdr, this`mem
      ensures w.Kept(hdr, mem, start, end)
      ensures var h := allocaddr - HEADER;
              head == h && h in hdr && hdr[h] == Header(Word(old(mem), h), 1, n) && n in hdr && hdr[n] == old(hdr)[n]
      ensures forall k {:trigger k in hdr} {:trigger hdr[k]} {:trigger k in old(hdr)} :: k in old(hdr) && k > n ==> Same(old(hdr), hdr, k)
    {
      var next := Next(blockit);
      head := allocaddr - HEADER;
      NewHeader(head, 1, w);
      SetNext(head, next, w);
    }

    /** Lines 121-131: the header of another block is moved up and its neighbours are told. */
    method MoveHeader(blockit: int, allocaddr: int, ghost n: int, ghost w: Window)
      requires blockit in hdr && hdr[blockit].next == n && n in hdr && w.Has(n) && w.lo == blockit
      requires blockit + HEADER <= allocaddr <= n <= w.hi && HEADER <= allocaddr < TWO_32
      requires var q := hdr[blockit].front; q in hdr && q + HEADER <= blockit && q in w.touched
      requires w.Kept(hdr, mem, start, end)
      modifies this`hdr, this`mem
      ensures w.Kept(hdr, mem, start, end)
      ensures var q := old(hdr)[blockit].front;
              var h := allocaddr - HEADER;
              && h in hdr && hdr[h] == Header(q, 1, n)
              && n in hdr && hdr[n] == old(hdr)[n].(front := h)
              && q in hdr && hdr[q] == old(hdr)[q].(next := h)
      ensures forall k {:trigger k in hdr} {:trigger hdr[k]} {:trigger k in old(hdr)} :: k in old(hdr) && k > n ==> Same(old(hdr), hdr, k)
    {
      var h := allocaddr - HEADER;
      var currentNext := Next(blockit);
      var currentFront := Front(blockit);
      SetNext(currentFront, h, w);
      SetFront(currentNext, h, w);
      MakeHeader(h, currentFront, 1, currentNext, w);
    }

    /** Lines 103-134. */
    method CutAtFront(blockit: int, allocaddr: int, size: nat, ghost next: int, ghost w: Window)
      requires Cut(hdr, blockit, allocaddr, size, next, w)
      requires var q := hdr[blockit].front; q != NULL ==> q in hdr && q + HEADER <= blockit && q in w.touched
      requires w.Kept(hdr, mem, start, end)
      modifies this`head, this`hdr, this`mem
      ensures w.Kept(hdr, mem, start, end)
      ensures FrontEffect(old(hdr), hdr, end, blockit, allocaddr, size, next,
                          HeadWord(old(mem), blockit, allocaddr, UsedNext(allocaddr, size, next)))
      ensures head == if old(hdr)[blockit].front == NULL then allocaddr - HEADER else old(head)
    {
      CutTail(blockit, allocaddr, size, next, w);
      ghost var n := UsedNext(allocaddr, size, next);
      var front := Front(blockit);
      if front == NULL {
        MoveHead(blockit, allocaddr, n, w);
      } else {
        MoveHeader(blockit, allocaddr, n, w);
      }
    }

    /** Lines 76-134. */
    method CutBlock(blockit: int, startinblock: int, allocaddr: int, size: nat, ghost i: nat)
      requires Valid() && size <= LARGEST_REQUEST && i < |blocks| && i == FirstFit(blocks, end, size)
      requires blockit == blocks[i].addr && startinblock == blockit + HEADER && allocaddr == Place(blockit, size)
      modifies this`head, this`hdr, this`mem
      ensures AllocEffect(start, end, old(Now()), size, Now().(blocks := Carve(blocks, end, i, size)))
      ensures AllocHeaders(start, end, old(Now()), size, Now())
    {
      ghost var s := Now();
      ghost var next := NextAddr(blocks, end, i);
      ghost var w := BeforeCut(start, end, head, hdr, mem, blocks, i, size);
      ToI32Small(allocaddr - startinblock - HEADER);
      if ToI32(allocaddr - startinblock - HEADER) > 0 {
        CutBehindGap(blockit, allocaddr, size, next, w);
      } else {
        CutAtFront(blockit, allocaddr, size, next, w);
      }
      CutIsAlloc(start, end, s, size, i, w, Now());
    }

    /**
      pmm_alloc.  When some block fits, the list of blocks is cut as `Carve` says and the bytes of all allocations
      survive; the headers in memory describe that list exactly when the head step left them right.  When none fits,
      line 69 does not notice: an address behind the heap is handed out, and nothing is promised about memory.
     */
    method Alloc(size: nat) returns (ptr: int)
      requires Valid() && size <= LARGEST_REQUEST
      modifies this
      ensures var i := FirstFit(old(blocks), end, size);
              if i < |old(blocks)| then
                && ptr == Granted(old(blocks), i, size).addr + HEADER
                && AllocEffect(start, end, old(Now()), size, Now()) && AllocHeaders(start, end, old(Now()), size, Now())
                && (Spelled(start, end, Now()) <==> HeadStepOk(old(hdr), old(mem), old(blocks), end, size))
              else ptr == Place(end, size)
      ensures FirstFit(old(blocks), end, size) == |old(blocks)| ==> ptr >= end + HEADER
    {
      var blockit, startinblock, allocaddr := Search(size);
      ptr := allocaddr;
      ghost var i := FirstFit(blocks, end, size);
      PlaceIsAligned(end, size);
      if blockit == end {
        AddrBounds(start, end, blocks, i);
        return;
      }
      ghost var s := Now();
      CutBlock(blockit, startinblock, allocaddr, size, i);
      blocks := Carve(blocks, end, i, size);
      AllocOnBytes(start, end, s, size, Now());
    }

    // ---------- pmm_free ----------

    /** Lines 142-146: back over the headers that were absorbed, up to the free block at `p` that absorbed them. */
    method WalkBack(c: int, ghost p: int, ghost n: int, ghost w: Window) returns (current: int)
      requires c in hdr && hdr[c].inuse == 0 && hdr[c].next == n && n in hdr && c + HEADER <= n
      requires w.lo <= p && w.hi == n && n in w.touched && w.Kept(hdr, mem, start, end)
      requires NULL < p && p in hdr && hdr[p].inuse == 0 && Reaches(hdr, c, p)
      requires hdr[p].front == NULL || (hdr[p].front < p && hdr[p].front in hdr && hdr[hdr[p].front].inuse == 1)
      modifies this`hdr, this`mem
      ensures w.Kept(hdr, mem, start, end)
      ensures current == p && p in hdr && hdr[p] == Header(old(hdr)[p].front, 0, n)
      ensures n in hdr && hdr[n] == if p == c then old(hdr)[n] else old(hdr)[n].(front := p)
    {
      current := c;
      ghost var h0 := hdr;
      ReachesStep(h0, current, p);
      var front, inuse := LookBack(current);
      while front != NULL && inuse == 0
        invariant w.Kept(hdr, mem, start, end)
        invariant p <= current <= c && Reaches(h0, current, p)
        invariant hdr.Keys == h0.Keys && current in hdr && h0[current].inuse == 0
        invariant forall k :: k in h0 && k != n ==> hdr[k].front == h0[k].front && hdr[k].inuse == h0[k].inuse
        invariant current != p ==> var f := h0[current].front; f >= p && f in h0 && h0[f].inuse == 0
        invariant front == hdr[current].front && (front != NULL ==> front in hdr && inuse == hdr[front].inuse)
        invariant hdr[current].next == n && 0 <= front < TWO_32
        invariant hdr[n] == if current == c then h0[n] else h0[n].(front := current)
        decreases current
      {
        PassOver(current, front, n, w);
        current := front;
        ReachesStep(h0, current, p);
        front, inuse := LookBack(current);
      }
    }

    /** Lines 143-144: the header at `front` and what follows `current` are linked past `current`. */
    method PassOver(current: int, front: int, ghost n: int, ghost w: Window)
      requires current in hdr && hdr[current].next == n && n in hdr && front in hdr && front != current && front != n
      requires w.Kept(hdr, mem, start, end) && w.Has(front) && w.Has(n) && 0 <= front < TWO_32
      modifies this`hdr, this`mem
      ensures w.Kept(hdr, mem, start, end)
      ensures hdr == old(hdr)[front := old(hdr)[front].(next := n)][n := old(hdr)[n].(front := front)]
    {
      var next := Next(current);
      SetNext(front, next, w);
      SetFront(next, front, w);
    }

    /** current->front and, if there is one, current->front->inuse. */
    method LookBack(current: int) returns (front: int, inuse: byte)
      requires current in hdr && Agree(mem, hdr) && (hdr[current].front != NULL ==> hdr[current].front in hdr)
      ensures front == hdr[current].front && 0 <= front < TWO_32 && (front != NULL ==> inuse == hdr[front].inuse)
    {
      front := Front(current);
      inuse := 0;
      if front != NULL {
        inuse := Inuse(front);
      }
    }

    /** Lines 147-154: a free first block starts at the start of the heap. */
    method ResetHead(at: int, ghost n: int, ghost w: Window) returns (current: int)
      requires at in hdr && hdr[at].next == n && n in hdr && hdr[at].inuse == 0 && at + HEADER <= n
      requires hdr[at].front == NULL ==> w.lo <= start <= at
      requires w.hi == n && n in w.touched && w.Kept(hdr, mem, start, end) && 0 < start < TWO_32
      modifies this`head, this`hdr, this`mem
      ensures w.Kept(hdr, mem, start, end)
      ensures if old(hdr)[at].front == NULL then
                current == head == start && start in hdr && hdr[start] == Header(NULL, 0, n)
                && n in hdr && hdr[n] == old(hdr)[n].(front := start)
              else
                current == at && head == old(head) && hdr == old(hdr)
    {
      current := at;
      var front := Front(current);
      if front == NULL {
        head := start;
        var next := Next(current);
        MakeHeader(head, NULL, 0, next, w);
        SetFront(next, head, w);
        current := head;
      }
    }

    /** Lines 155-158: the free block after block `j` joins it. */
    method AbsorbRight(current: int, ghost j: int)
      requires Tiles(start, end, blocks) && Linked(hdr, head, blocks, start, end) && Agree(mem, hdr) && end < TWO_32
      requires 0 <= j < |blocks| && blocks[j].Free? && current == blocks[j].addr && 0 <= current
      requires j + 2 < |blocks| ==> blocks[j + 1].Used? || blocks[j + 2].Used?
      modifies this`hdr, this`mem, this`blocks
      ensures Tiles(start, end, blocks) && Linked(hdr, head, blocks, start, end) && Agree(mem, hdr)
      ensures blocks == if j + 1 < |old(blocks)| && old(blocks)[j + 1].Free?
                        then Splice(old(blocks), j, j + 2, [old(blocks)[j]]) else old(blocks)
      ensures current in old(hdr) && NextAddr(old(blocks), end, j) in old(hdr)
      ensures hdr == if j + 1 < |old(blocks)| && old(blocks)[j + 1].Free?
                     then Absorbed(old(hdr), current, old(blocks)[j + 1].addr) else old(hdr)
      ensures PayloadsKept(old(mem), mem, Live(old(blocks)))
    {
      ghost var bs := blocks;
      ghost var merged := false;
      NextRecord(start, end, head, hdr, blocks, j);
      var next := Next(current);
      var inuse := Inuse(next);
      while next != end && inuse == 0
        invariant Tiles(start, end, blocks) && Linked(hdr, head, blocks, start, end) && Agree(mem, hdr)
        invariant merged ==> j + 1 < |bs| && bs[j + 1].Free?
        invariant blocks == if merged then Splice(bs, j, j + 2, [bs[j]]) else bs
        invariant hdr == if merged then Absorbed(old(hdr), current, bs[j + 1].addr) else old(hdr)
        invariant j < |blocks| && blocks[j] == bs[j] && current in hdr && next in hdr
        invariant next == hdr[current].next == NextAddr(blocks, end, j) && inuse == hdr[next].inuse
        invariant j + 1 < |blocks| ==> hdr[blocks[j + 1].addr].inuse == (if blocks[j + 1].Used? then 1 else 0) && blocks[j + 1].addr < end
        invariant merged && j + 1 < |blocks| ==> blocks[j + 1].Used?
        invariant PayloadsKept(old(mem), mem, Live(bs))
        decreases if merged then 0 else 1
      {
        AbsorbOne(current, next, j);
        merged := true;
        NextRecord(start, end, head, hdr, blocks, j);
        next := Next(current);
        inuse := Inuse(next);
      }
    }

    /** Lines 156-157. */
    method AbsorbOne(current: int, next: int, ghost j: int)
      requires Tiles(start, end, blocks) && Linked(hdr, head, blocks, start, end) && Agree(mem, hdr)
      requires 0 <= j && j + 1 < |blocks| && blocks[j].Free? && blocks[j + 1].Free? && 0 <= current < TWO_32
      requires current == blocks[j].addr && next == blocks[j + 1].addr
      modifies this`hdr, this`mem, this`blocks
      ensures Tiles(start, end, blocks) && Linked(hdr, head, blocks, start, end) && Agree(mem, hdr)
      ensures blocks == Splice(old(blocks), j, j + 2, [old(blocks)[j]])
      ensures current in old(hdr) && next in old(hdr) && hdr == Absorbed(old(hdr), current, next)
      ensures PayloadsKept(old(mem), mem, Live(old(blocks)))
    {
      ghost var w := AbsorbWindowKept(start, end, head, hdr, mem, blocks, j);
      ghost var h0 := hdr;
      SetFront(next, current, w);
      var behind := Next(next);
      SetNext(current, behind, w);
      AbsorbLinks(start, end, head, h0, blocks, j, hdr);
      blocks := Splice(blocks, j, j + 2, [blocks[j]]);
    }

    /** Lines 140-154. */
    method MeltLeft(ptr: int, ghost i: int) returns (current: int)
      requires Valid() && 0 <= i < |blocks| && blocks[i].Used? && ptr == blocks[i].addr + HEADER
      modifies this
      ensures blocks == LeftMelted(old(blocks), start, i)
      ensures Tiles(start, end, blocks) && Linked(hdr, head, blocks, start, end) && Agree(mem, hdr)
      ensures current == Melted(old(blocks), start, i).addr
      ensures old(blocks)[MeltLo(old(blocks), i)].addr in old(hdr) && NextAddr(old(blocks), end, i) in old(hdr)
      ensures LeftEffect(start, end, old(head), old(blocks), i, MeltWindow(old(hdr), old(mem), old(blocks), start, end, i), hdr, head)
      ensures PayloadsKept(old(mem), mem, Live(old(blocks)) - {old(blocks)[i]})
    {
      ghost var hd0, n := head, NextAddr(blocks, end, i);
      ghost var p := blocks[MeltLo(blocks, i)].addr;
      ghost var w := BeforeFree(start, end, head, hdr, mem, blocks, i);
      current := ptr - HEADER;
      SetInuse(current, 0, w);
      current := WalkBack(current, p, n, w);
      current := ResetHead(current, n, w);
      assert LeftEffect(start, end, hd0, blocks, i, w, hdr, head);
      blocks := LeftMelted(blocks, start, i);
    }

    /** pmm_free: the block of `b` is given back and melts with its free neighbours; all other allocations are untouched. */
    method Free(ptr: int, ghost b: Block) returns (ghost h1: Headers)
      requires Valid() && b in Live(blocks) && ptr == b.addr + HEADER
      modifies this
      ensures Valid() && FreeEffect(start, end, old(Now()), b, Now())
      ensures FreeHeaders(start, end, old(Now()), IndexOf(old(blocks), b), h1, Now())
    {
      ghost var i := IndexOf(blocks, b);
      ReleaseKeepsHeap(start, end, blocks, i);
      LeftMeltedList(start, end, blocks, i);
      LeftMeltedLive(start, end, blocks, i);
      LeftThenRight(start, end, blocks, i);
      ghost var lo := MeltLo(blocks, i);
      InHeap(start, end, blocks, lo);
      var current := MeltLeft(ptr, i);
      h1 := hdr;
      AbsorbRight(current, lo);
    }

    // ---------- the user's bytes ----------

    /** The holder of allocation `b` stores one byte. */
    method Store(a: int, v: byte, ghost b: Block)
      requires Valid() && b in Live(blocks) && InPayload(b, a)
      modifies this`hdr, this`mem
      ensures Valid() && StoreEffect(old(Now()), a, v, Now())
    {
      UserByteKeepsLinks(start, end, head, hdr, blocks, b, a);
      UserByteKeepsAgree(mem, hdr, a, v);
      hdr := Spoil(hdr, a);
      mem := StoreByte(mem, a, v);
    }
  }
}
