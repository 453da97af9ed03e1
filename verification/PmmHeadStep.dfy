/**
  When the head step of pmm_alloc (src/pmm.c lines 116-120) is right: exactly, for callers, and heaps in which it is not.
 */
module PmmHeadStep {
  import opened Words
  import opened PmmMemory
  import opened PmmSpec
  import opened PmmLinks
  import opened PmmHeap

  // ---------- the word that is found ----------

  /** The byte at `k` when the new header is looked at: the old header at `b` is free and first, and ends at `next`. */
  function FoundByte(m: Memory, b: int, next: int, k: int): byte {
    if b <= k < b + 5 then 0 else if b + 8 <= k < b + 12 then Part(next, k - b - 8) else Byte(m, k)
  }

  /** The new header lies `gap` bytes above the old one, so its `front` is made of the old header and of what follows it. */
  lemma HeadWordIsNull(m: Memory, b: int, gap: nat, next: int)
    requires Word(m, b) == NULL && Byte(m, b + 4) == 0
    ensures HeadWord(m, b, b + gap + HEADER, next) == NULL <==> forall k :: b + gap <= k < b + gap + 4 ==> FoundByte(m, b, next, k) == 0
  {
    var k := b + gap;
    FoundIs(m, b, next, k);
    FoundIs(m, b, next, k + 1);
    FoundIs(m, b, next, k + 2);
    FoundIs(m, b, next, k + 3);
  }

  lemma FoundIs(m: Memory, b: int, next: int, k: int)
    requires Word(m, b) == NULL && Byte(m, b + 4) == 0 && k >= b
    ensures Byte(StoreWord(m, b + 8, next), k) == FoundByte(m, b, next, k)
  {
    if b + 8 <= k < b + 12 {
      StoredPart(m, b + 8, next, k - b - 8);
    }
  }

  /** With a gap of one byte the word is always zero, with eight it is the old `next` and never zero. */
  lemma HeadWordAtOneAndEight(m: Memory, b: int, next: int)
    requires Word(m, b) == NULL && Byte(m, b + 4) == 0 && 0 < next < TWO_32
    ensures HeadWord(m, b, b + 1 + HEADER, next) == NULL
    ensures HeadWord(m, b, b + 8 + HEADER, next) == next
  {
    HeadWordIsNull(m, b, 1, next);
  }

  /** With a gap of two, three or four bytes it is zero exactly when the padding of the old header was. */
  lemma HeadWordInPadding(m: Memory, b: int, gap: nat, next: int)
    requires Word(m, b) == NULL && Byte(m, b + 4) == 0 && 2 <= gap <= 4
    ensures HeadWord(m, b, b + gap + HEADER, next) == NULL <==> forall k :: b + 5 <= k < b + gap + 4 ==> Byte(m, k) == 0
  {
    HeadWordIsNull(m, b, gap, next);
    assert forall k :: b + 5 <= k < b + gap + 4 ==> FoundByte(m, b, next, k) == Byte(m, k);
  }

  /** What memory says of the first block when the search ends there. */
  lemma FirstBlock(start: int, end: int, s: State, size: nat)
    requires Good(start, end, s) && FirstFit(s.blocks, end, size) == 0
    ensures s.blocks[0] == Block.Free(start) && Word(s.mem, start) == NULL && Byte(s.mem, start + 4) == 0
    ensures Place(start, size) + size <= NextAddr(s.blocks, end, 0) <= end
  {
    assert LinkOk(s.hdr, s.blocks, end, 0);
    assert SpelledAt(s.mem, s.hdr, start);
    InHeap(start, end, s.blocks, 0);
  }

  /** The head step, byte by byte and link by link. */
  lemma HeadStepExactly(start: int, end: int, s: State, size: nat)
    requires Good(start, end, s) && FirstFit(s.blocks, end, size) == 0
    requires !GapSplits(start, Place(start, size))
    ensures var a, next := Place(start, size), NextAddr(s.blocks, end, 0);
            HeadStepOk(s.hdr, s.mem, s.blocks, end, size) <==>
              && (forall k :: a - HEADER <= k < a - HEADER + 4 ==> FoundByte(s.mem, start, UsedNext(a, size, next), k) == 0)
              && (TailSplits(a, size, next) || |s.blocks| == 1 || Word(s.mem, s.blocks[1].addr) == a - HEADER)
  {
    FirstBlock(start, end, s, size);
    var a, next := Place(start, size), NextAddr(s.blocks, end, 0);
    PlaceIsAligned(start, size);
    HeadWordIsNull(s.mem, start, a - HEADER - start, UsedNext(a, size, next));
    if |s.blocks| > 1 {
      assert LinkOk(s.hdr, s.blocks, end, 1) && SpelledAt(s.mem, s.hdr, s.blocks[1].addr);
    }
  }

  /** A gap of eight bytes always breaks the heap. */
  lemma GapOfEightBreaks(start: int, end: int, s: State, size: nat)
    requires Good(start, end, s) && FirstFit(s.blocks, end, size) == 0 && Place(start, size) == start + 8 + HEADER
    ensures !HeadStepOk(s.hdr, s.mem, s.blocks, end, size)
  {
    FirstBlock(start, end, s, size);
    HeadWordAtOneAndEight(s.mem, start, UsedNext(Place(start, size), size, NextAddr(s.blocks, end, 0)));
  }

  // ---------- what a caller can check ----------

  /** When a gap stays behind at the start of the heap, the head step never happens for this size. */
  lemma WideGapIsRight(start: int, end: int, blocks: seq<Block>, h: Headers, mem: Memory, size: nat)
    requires HeapOk(start, end, blocks) && GapSplits(start, Place(start, size))
    ensures HeadStepOk(h, mem, blocks, end, size)
  {
  }

  /** With the heap aligned to 32 bytes these are the sizes above 16. */
  lemma WideGapAtAlignedStart(start: int, size: nat)
    requires start % 32 == 0
    ensures GapSplits(start, Place(start, size)) <==> size > 16
  {
    var x, r := Place(start, size), Alignment(size);
    PlaceIsAligned(start, size);
    if size > 16 {
      AlignmentAbove16(size);
      FarMultiple(start, x, r);
    } else {
      AlignmentUpTo16(size);
      if r == 16 {
        NearMultiple(start, x);
      }
    }
  }

  lemma FarMultiple(start: int, x: int, r: nat)
    requires start % 32 == 0 && r == 32 * (r / 32) && r > 0 && x % r == 0 && x >= start + HEADER
    ensures x >= start + 32
  {
    MultipleOf32(x, r / 32);
  }

  lemma NearMultiple(start: int, x: int)
    requires start % 32 == 0 && x % 16 == 0 && start + HEADER <= x < start + HEADER + 16
    ensures x == start + 16
  {
    var p, q := start / 32, x / 16;
    assert start == 32 * p && x == 16 * q;
    assert q == 2 * p + 1;
  }

  lemma AlignmentAbove16(size: nat)
    requires size > 16
    ensures Alignment(size) >= 32 && Alignment(size) == 32 * (Alignment(size) / 32)
  {
    var k := AlignmentIsPowerOfTwo(size);
    assert Pow2(2) == 4 && Pow2(4) == 4 * Pow2(2);
    if k < 5 {
      Pow2Monotone(k, 4);
    }
    Pow2Sum(5, k - 5);
    assert Pow2(5) == 2 * Pow2(4);
    Residue(Alignment(size), 32, Pow2(k - 5), 0);
  }

  lemma AlignmentUpTo16(size: nat)
    requires size <= 16
    ensures Alignment(size) <= 8 || Alignment(size) == 16
  {
    if size <= 8 {
      assert Pow2(3) == 8;
      AlignmentIsLeast(size, 3);
    } else {
      assert Pow2(3) == 8 && Pow2(4) == 16;
      PowerOfTwoAligns(size, 4);
    }
  }

  lemma MultipleOf32(x: int, p: nat)
    requires p > 0 && x % (32 * p) == 0
    ensures x % 32 == 0
  {
    var q := x / (32 * p);
    assert x == (q * p) * 32;
    MultipleHasNoRemainder(q * p, 32);
  }

  /** A heap in which the first block suits but the link behind it, or the word found, is wrong. */
  lemma NarrowGapCanFail(start: int, end: int, size: nat) returns (s: State)
    requires Machine(start, end) && size <= LARGEST_REQUEST && !GapSplits(start, Place(start, size))
    requires Place(start, size) + size + 2 * HEADER <= end
    ensures Good(start, end, s) && FirstFit(s.blocks, end, size) == 0 && !HeadStepOk(s.hdr, s.mem, s.blocks, end, size)
  {
    PlaceIsAligned(start, size);
    var a := Place(start, size);
    var x := a + size + HEADER;
    s := StaleHeap(start, x, end);
    assert Suits(s.blocks, end, 0, size);
    assert FirstFit(s.blocks, end, size) == 0;
    FirstBlock(start, end, s, size);
    if a - HEADER == start + HEADER {
      assert SpelledAt(s.mem, s.hdr, start + HEADER);
      WordOfSameBytes(s.mem, StoreWord(s.mem, start + 8, UsedNext(a, size, x)), start + HEADER);
    }
  }

  /** A free block at the start that has absorbed a header at its end, and an empty allocation behind it that still leads there. */
  lemma StaleHeap(start: int, x: int, end: int) returns (s: State)
    requires Machine(start, end) && start + 2 * HEADER <= x && x + HEADER <= end
    ensures Good(start, end, s) && s.blocks == [Block.Free(start), Used(x, 0)]
    ensures x in s.hdr && s.hdr[x].front == start + HEADER
    ensures start + HEADER in s.hdr && s.hdr[start + HEADER].front == start
  {
    var m := StaleBytes(start, x, end);
    var h := map[start := HeaderAt(m, start), start + HEADER := HeaderAt(m, start + HEADER), x := HeaderAt(m, x), end := HeaderAt(m, end)];
    var blocks := [Block.Free(start), Used(x, 0)];
    s := State(start, h, m, blocks);
    StaleLinks(start, x, end, h);
  }

  lemma StaleBytes(start: int, x: int, end: int) returns (m: Memory)
    requires Machine(start, end) && start + 2 * HEADER <= x && x + HEADER <= end
    ensures HeaderAt(m, start) == Header(NULL, 0, x) && HeaderAt(m, start + HEADER) == Header(start, 0, x)
    ensures HeaderAt(m, x) == Header(start + HEADER, 1, end)
  {
    var v0, v1 := Header(NULL, 0, x), Header(start, 0, x);
    var m1 := WithHeader(map[], start, v0);
    var m2 := WithHeader(m1, start + HEADER, v1);
    m := WithHeader(m2, x, Header(start + HEADER, 1, end));
    KeptHeader(m1, m2, start, v0, start + HEADER);
    KeptHeader(m2, m, start, v0, x);
    KeptHeader(m2, m, start + HEADER, v1, x);
  }

  lemma WithHeader(m: Memory, a: int, v: Header) returns (m': Memory)
    requires 0 <= v.front < TWO_32 && 0 <= v.next < TWO_32
    ensures HeaderAt(m', a) == v && Outside(m, m', a, a + HEADER)
  {
    m' := PutHeader(m, a, v);
  }

  lemma StaleLinks(start: int, x: int, end: int, h: Headers)
    requires Machine(start, end) && start + 2 * HEADER <= x && x + HEADER <= end
    requires h.Keys == {start, start + HEADER, x, end}
    requires h[start] == Header(NULL, 0, x) && h[start + HEADER] == Header(start, 0, x) && h[x] == Header(start + HEADER, 1, end)
    ensures Represents(start, end, start, h, [Block.Free(start), Used(x, 0)])
  {
    var blocks := [Block.Free(start), Used(x, 0)];
    assert Reaches(h, start, start);
    assert Reaches(h, start + HEADER, start);
    assert Sits(blocks, end, 0) && Sits(blocks, end, 1);
    assert LinkOk(h, blocks, end, 0) && LinkOk(h, blocks, end, 1);
  }

  lemma KeptHeader(m: Memory, m': Memory, a: int, v: Header, b: int)
    requires HeaderAt(m, a) == v && Outside(m, m', b, b + HEADER) && a + HEADER <= b
    ensures HeaderAt(m', a) == v
  {
    WordOfSameBytes(m, m', a);
    WordOfSameBytes(m, m', a + 8);
  }

  /**
    The exact condition for a caller, who knows the start of the heap and the size he asks for: in every heap in order
    the head step is right if and only if a gap would stay behind at the start.
   */
  lemma CallerCondition(start: int, end: int, size: nat)
    requires Machine(start, end) && size <= LARGEST_REQUEST && Place(start, size) + size + 2 * HEADER <= end
    ensures (forall s :: Good(start, end, s) && FirstFit(s.blocks, end, size) == 0 ==> HeadStepOk(s.hdr, s.mem, s.blocks, end, size))
            <==> GapSplits(start, Place(start, size))
  {
    if GapSplits(start, Place(start, size)) {
      forall s | Good(start, end, s) && FirstFit(s.blocks, end, size) == 0
        ensures HeadStepOk(s.hdr, s.mem, s.blocks, end, size)
      {
        WideGapIsRight(start, end, s.blocks, s.hdr, s.mem, size);
      }
    } else {
      var s := NarrowGapCanFail(start, end, size);
      assert Good(start, end, s) && FirstFit(s.blocks, end, size) == 0;
    }
  }

  // ---------- heaps that the allocator reaches ----------

  lemma EmptyRequest(b: int)
    ensures Alignment(0) == 1 && Place(b, 0) == b + HEADER
  {
  }

  /** The first `n` blocks of a heap of which only empty allocations were taken. */
  function Empties(start: int, n: nat): (s: seq<Block>)
    ensures |s| == n && forall i :: 0 <= i < n ==> s[i] == Used(start + HEADER * i, 0)
  {
    seq(n, i => Used(start + HEADER * i, 0))
  }

  lemma OneMoreEmpty(start: int, n: nat)
    ensures Empties(start, n + 1) == Empties(start, n) + [Used(start + HEADER * n, 0)]
  {
  }

  /** An empty allocation from a last, free block: the block is cut in two. */
  lemma CutEmpty(end: int, blocks: seq<Block>, i: nat, b: int)
    requires i + 1 == |blocks| && blocks[i] == Block.Free(b) && (forall j :: 0 <= j < i ==> blocks[j].Used?)
    requires b + 2 * HEADER < end
    ensures FirstFit(blocks, end, 0) == i
    ensures Carve(blocks, end, i, 0) == blocks[..i] + [Used(b, 0), Block.Free(b + HEADER)]
  {
    EmptyRequest(b);
    assert Suits(blocks, end, i, 0);
    var f := FirstFit(blocks, end, 0);
    assert f >= i;
  }

  /** Its head step is right: a header that stays where it is has a zero `front`, and there is no block behind. */
  lemma FirstEmpty(start: int, end: int, s: State)
    requires Good(start, end, s) && s.blocks == [Block.Free(start)] && start + 2 * HEADER < end
    ensures HeadStepOk(s.hdr, s.mem, s.blocks, end, 0)
  {
    CutEmpty(end, s.blocks, 0, start);
    EmptyRequest(start);
    HeadStepExactly(start, end, s, 0);
  }

  /** What one more empty allocation does to them. */
  lemma NextEmpty(start: int, end: int, s: State, n: nat)
    requires Good(start, end, s) && s.blocks == Empties(start, n) + [Block.Free(start + HEADER * n)]
    requires start + HEADER * n + 2 * HEADER < end
    ensures FirstFit(s.blocks, end, 0) == n < |s.blocks| && HeadStepOk(s.hdr, s.mem, s.blocks, end, 0)
    ensures Carve(s.blocks, end, n, 0) == Empties(start, n + 1) + [Block.Free(start + HEADER * (n + 1))]
  {
    var b := start + HEADER * n;
    CutEmpty(end, s.blocks, n, b);
    if n == 0 {
      FirstEmpty(start, end, s);
    }
    OneMoreEmpty(start, n);
    assert s.blocks[..n] == Empties(start, n);
    assert start + HEADER * (n + 1) == b + HEADER;
  }

  method TakeEmpty(heap: Heap, ghost n: nat)
    requires heap.Valid() && heap.blocks == Empties(heap.start, n) + [Block.Free(heap.start + HEADER * n)]
    requires heap.start + HEADER * n + 2 * HEADER < heap.end
    modifies heap
    ensures heap.Valid() && heap.blocks == Empties(heap.start, n + 1) + [Block.Free(heap.start + HEADER * (n + 1))]
  {
    NextEmpty(heap.start, heap.end, heap.Now(), n);
    var p := heap.Alloc(0);
  }

  method TakeEmpties(heap: Heap, n: nat)
    requires heap.Valid() && heap.blocks == [Block.Free(heap.start)] && heap.start + HEADER * (n + 1) < heap.end
    modifies heap
    ensures heap.Valid() && heap.blocks == Empties(heap.start, n) + [Block.Free(heap.start + HEADER * n)]
  {
    for i := 0 to n
      invariant heap.Valid() && heap.blocks == Empties(heap.start, i) + [Block.Free(heap.start + HEADER * i)]
    {
      TakeEmpty(heap, i);
    }
  }

  /** The heap when of `m + 1` empty allocations all from the `j`-th to the last but one were given back. */
  function Melting(start: int, j: nat, m: nat): (s: seq<Block>)
  {
    Empties(start, j) + (if j < m then [Block.Free(start + HEADER * j)] else [])
    + [Used(start + HEADER * m, 0), Block.Free(start + HEADER * (m + 1))]
  }

  lemma MeltOne(start: int, j: nat, m: nat)
    requires j < m
    ensures var before, b := Melting(start, j + 1, m), Used(start + HEADER * j, 0);
            && b in Live(before) && IndexOf(before, b) == j
            && Release(before, start, j) == Melting(start, j, m)
            && before[j + 1].addr == start + HEADER * (j + 1)
            && MeltLo(before, j) == j && (j + 1 == m ==> before[j + 1].Used?)
  {
    var before, b := Melting(start, j + 1, m), Used(start + HEADER * j, 0);
    assert before[j] == b;
    IndexInEmpties(before, start, j);
  }

  lemma {:induction false} IndexInEmpties(blocks: seq<Block>, at: int, j: nat)
    requires j < |blocks| && (forall i :: 0 <= i <= j ==> blocks[i] == Used(at + HEADER * i, 0)) && blocks[j] in blocks
    ensures IndexOf(blocks, Used(at + HEADER * j, 0)) == j
    decreases j
  {
    if j > 0 {
      IndexInEmpties(blocks[1..], at + HEADER, j - 1);
    }
  }

  /** One of them is given back: the header of the last one keeps its link. */
  method GiveOne(heap: Heap, j: nat, m: nat)
    requires heap.Valid() && j < m && 1 < m && heap.blocks == Melting(heap.start, j + 1, m)
    requires var x := heap.start + HEADER * m; x in heap.hdr && heap.hdr[x].front == x - HEADER
    modifies heap
    ensures heap.Valid() && heap.blocks == Melting(heap.start, j, m)
    ensures var x := heap.start + HEADER * m; x in heap.hdr && heap.hdr[x].front == x - HEADER
  {
    ghost var s, x := heap.Now(), heap.start + HEADER * m;
    MeltOne(heap.start, j, m);
    ghost var h1 := heap.Free(heap.start + HEADER * j + HEADER, Used(heap.start + HEADER * j, 0));
    LastKeepsLink(heap.start, heap.end, s, j, m, h1, heap.Now());
  }

  lemma LastKeepsLink(start: int, end: int, s: State, j: nat, m: nat, h1: Headers, s': State)
    requires j < m && 1 < m && s.blocks == Melting(start, j + 1, m) && j < |s.blocks| && FreeHeaders(start, end, s, j, h1, s')
    requires var x := start + HEADER * m; x in s.hdr && s.hdr[x].front == x - HEADER
    ensures var x := start + HEADER * m; x in s'.hdr && s'.hdr[x].front == x - HEADER
  {
    var x := start + HEADER * m;
    MeltOne(start, j, m);
    assert NextAddr(s.blocks, end, j) == start + HEADER * (j + 1);
    if j + 1 < m {
      assert Same(s.hdr, h1, x);
    }
  }

  /**
    `m` empty allocations and one more are taken, and the `m` given back from the last to the first: the first block is
    free again and reaches up to the one that is left, whose link still leads to the header just before it.
   */
  method TakeAndGive(heap: Heap, m: nat)
    requires heap.Valid() && heap.blocks == [Block.Free(heap.start)] && 1 < m && heap.start + HEADER * (m + 2) < heap.end
    modifies heap
    ensures heap.Valid() && heap.blocks == Melting(heap.start, 0, m)
    ensures var x := heap.start + HEADER * m; x in heap.hdr && heap.hdr[x].front == x - HEADER
  {
    TakeEmpties(heap, m + 1);
    OneMoreEmpty(heap.start, m);
    assert heap.blocks == Melting(heap.start, m, m);
    assert LinkOk(heap.hdr, heap.blocks, heap.end, m);
    var j := m;
    while j > 0
      invariant 0 <= j <= m && heap.Valid() && heap.blocks == Melting(heap.start, j, m)
      invariant var x := heap.start + HEADER * m; x in heap.hdr && heap.hdr[x].front == x - HEADER
    {
      j := j - 1;
      GiveOne(heap, j, m);
    }
  }

  /** In such a heap the head step is wrong for every size that fits without a tail and moves the header by less than twelve bytes. */
  lemma StaleLinkBreaks(start: int, end: int, s: State, m: nat, size: nat)
    requires Good(start, end, s) && 1 < m && s.blocks == Melting(start, 0, m)
    requires var x := start + HEADER * m; x in s.hdr && s.hdr[x].front == x - HEADER
    requires Place(start, size) < start + 2 * HEADER && Place(start, size) + size <= start + HEADER * m <= Place(start, size) + size + HEADER
    ensures FirstFit(s.blocks, end, size) == 0 && !HeadStepOk(s.hdr, s.mem, s.blocks, end, size)
  {
    var x := start + HEADER * m;
    assert s.blocks[0] == Block.Free(start) && s.blocks[1] == Used(x, 0);
    assert Suits(s.blocks, end, 0, size);
    assert FirstFit(s.blocks, end, size) == 0;
    assert SpelledAt(s.mem, s.hdr, x);
    HeadStepExactly(start, end, s, size);
  }

  /** A gap of less than two bytes: the back link of the header behind is wrong afterwards. */
  method StaleLinkIsReached(start: int, end: int, size: nat, mem: Memory) returns (heap: Heap, p: int)
    requires Machine(start, end) && size <= LARGEST_REQUEST && Place(start, size) <= start + HEADER + 1
    requires Place(start, size) + size + 4 * HEADER <= end
    ensures heap.start == start && heap.end == end && p == Place(start, size) && !Spelled(start, end, heap.Now())
  {
    PlaceIsAligned(start, size);
    var m := (Place(start, size) - start + size + HEADER - 1) / HEADER;
    EmptyRequest(start);
    assert m == 1 ==> size == 0 && Place(start, size) == start + HEADER;
    if m == 1 {
      m := 2;
    }
    heap := new Heap(start, end, mem);
    TakeAndGive(heap, m);
    ghost var s := heap.Now();
    StaleLinkBreaks(start, end, s, m, size);
    p := heap.Alloc(size);
  }

  /** Memory that holds `n` ones from `a` on. */
  function Ones(a: int, n: nat): (m: Memory)
    ensures forall k :: a <= k < a + n ==> Byte(m, k) == 1
  {
    if n == 0 then map[] else StoreByte(Ones(a, n - 1), a + n - 1, 1)
  }

  /** A gap of two bytes or more: on memory that holds ones the very first call breaks the heap. */
  method FoundWordIsReached(start: int, end: int, size: nat) returns (heap: Heap, p: int)
    requires Machine(start, end) && size <= LARGEST_REQUEST && start + HEADER + 2 <= Place(start, size) <= start + 2 * HEADER
    requires Place(start, size) + size <= end
    ensures heap.start == start && heap.end == end && p == Place(start, size) && !Spelled(start, end, heap.Now())
  {
    var ones := Ones(start, 16);
    heap := new Heap(start, end, ones);
    ghost var s := heap.Now();
    assert Suits(s.blocks, end, 0, size);
    assert FirstFit(s.blocks, end, size) == 0;
    OnesAreFound(start, end, s, size, ones);
    p := heap.Alloc(size);
  }

  lemma OnesAreFound(start: int, end: int, s: State, size: nat, ones: Memory)
    requires Good(start, end, s) && s.blocks == [Block.Free(start)] && FirstFit(s.blocks, end, size) == 0
    requires start + HEADER + 2 <= Place(start, size) <= start + 2 * HEADER
    requires forall k :: start <= k < start + 16 ==> Byte(ones, k) == 1
    requires SameBytes(ones, s.mem, start + 5, start + 8) && Outside(ones, s.mem, start, start + HEADER)
    ensures !HeadStepOk(s.hdr, s.mem, s.blocks, end, size)
  {
    var a, next := Place(start, size), UsedNext(Place(start, size), size, end);
    var gap := a - HEADER - start;
    if gap == 8 {
      GapOfEightBreaks(start, end, s, size);
    } else {
      HeadStepExactly(start, end, s, size);
      var k := start + if gap <= 5 then 5 else if gap <= 7 then 7 else 12;
      assert FoundByte(s.mem, start, next, k) == Byte(s.mem, k) == Byte(ones, k) == 1;
    }
  }

  /**
    So the caller's condition is exact also for heaps that are reached: for every other size there is a memory and a
    sequence of legal calls after which the bytes spell no heap in order.
   */
  method NarrowGapIsReached(start: int, end: int, size: nat) returns (heap: Heap, p: int)
    requires Machine(start, end) && size <= LARGEST_REQUEST && !GapSplits(start, Place(start, size))
    requires Place(start, size) + size + 4 * HEADER <= end
    ensures heap.start == start && heap.end == end && p == Place(start, size) && !Spelled(start, end, heap.Now())
  {
    PlaceIsAligned(start, size);
    var a := Place(start, size);
    if a <= start + HEADER + 1 {
      heap, p := StaleLinkIsReached(start, end, size, map[]);
    } else {
      heap, p := FoundWordIsReached(start, end, size);
    }
  }

  // ---------- a gap of eight bytes ----------

  const HEAD: int := 0x10_0014
  const TAIL: int := 0x10_0030

  lemma SixteenBytes()
    ensures Place(0x10_000C, 16) == HEAD + HEADER && Alignment(16) == 16
  {
    assert Pow2(3) == 8 && Pow2(4) == 16;
    PowerOfTwoAligns(16, 4);
  }

  /** The first request of 16 bytes in a heap that begins at 0x10000C: the `front` of the first header leads to the tail. */
  method GapOfEightIsReached(mem: Memory) returns (heap: Heap, p: int)
    ensures heap.start == 0x10_000C && heap.end == 0x11_000C && !Spelled(heap.start, heap.end, heap.Now())
    ensures heap.head == HEAD && p == HEAD + HEADER
    ensures HeaderAt(heap.mem, HEAD) == Header(TAIL, 1, TAIL) && HeaderAt(heap.mem, TAIL) == Header(HEAD, 0, 0x11_000C)
  {
    heap := new Heap(0x10_000C, 0x11_000C, mem);
    ghost var s := heap.Now();
    SixteenBytes();
    assert Suits(s.blocks, heap.end, 0, 16);
    assert FirstFit(s.blocks, heap.end, 16) == 0;
    GapOfEightBreaks(heap.start, heap.end, s, 16);
    FirstBlock(heap.start, heap.end, s, 16);
    HeadWordAtOneAndEight(s.mem, heap.start, TAIL);
    p := heap.Alloc(16);
    assert SpelledAt(heap.mem, heap.hdr, HEAD) && SpelledAt(heap.mem, heap.hdr, TAIL);
  }

  /** One turn of the loop of lines 142-146. */
  function Turn(m: Memory, current: int): (Memory, int) {
    var m1 := StoreWord(m, Word(m, current) + 8, Word(m, current + 8));
    var m2 := StoreWord(m1, Word(m1, current + 8), Word(m1, current));
    (m2, Word(m2, current))
  }

  /** The loop goes on. */
  predicate GoesOn(m: Memory, current: int) {
    Word(m, current) != NULL && Byte(m, Word(m, current) + 4) == 0
  }

  /** The loop's states, memory and `current`, over some turns, each of which the guard lets it take. */
  ghost predicate Loops(run: seq<(Memory, int)>) {
    forall k :: 0 <= k < |run| ==> LoopsAt(run, k)
  }

  ghost predicate LoopsAt(run: seq<(Memory, int)>, k: nat)
    requires k < |run|
  {
    GoesOn(run[k].0, run[k].1) && (k > 0 ==> run[k] == Turn(run[k - 1].0, run[k - 1].1))
  }

  lemma StuckTurn(m: Memory)
    requires HeaderAt(m, TAIL) == Header(TAIL, 0, TAIL)
    ensures Turn(m, TAIL).1 == TAIL && HeaderAt(Turn(m, TAIL).0, TAIL) == Header(TAIL, 0, TAIL)
  {
    var m1 := StoreWord(m, TAIL + 8, TAIL);
    WordOfSameBytes(m, m1, TAIL);
    var m2 := StoreWord(m1, TAIL, TAIL);
    WordOfSameBytes(m1, m2, TAIL + 8);
  }

  lemma FirstTurn(m: Memory)
    requires HeaderAt(m, HEAD) == Header(TAIL, 0, TAIL) && HeaderAt(m, TAIL).inuse == 0
    ensures Turn(m, HEAD).1 == TAIL && HeaderAt(Turn(m, HEAD).0, TAIL) == Header(TAIL, 0, TAIL)
  {
    var m1 := StoreWord(m, TAIL + 8, TAIL);
    WordOfSameBytes(m, m1, HEAD);
    WordOfSameBytes(m, m1, HEAD + 8);
    var m2 := StoreWord(m1, TAIL, TAIL);
    WordOfSameBytes(m1, m2, HEAD);
    WordOfSameBytes(m1, m2, TAIL + 8);
  }

  /** A turn taken before others. */
  lemma TurnFirst(m: Memory, c: int, run: seq<(Memory, int)>)
    requires GoesOn(m, c) && run != [] && Loops(run) && run[0] == Turn(m, c)
    ensures Loops([(m, c)] + run)
  {
    var longer := [(m, c)] + run;
    forall k | 0 <= k < |longer|
      ensures LoopsAt(longer, k)
    {
      if k > 0 {
        TurnLater(longer, run, k);
      }
    }
  }

  lemma TurnLater(longer: seq<(Memory, int)>, run: seq<(Memory, int)>, k: nat)
    requires 0 < k < |longer| && |longer| == |run| + 1 && longer[1..] == run && LoopsAt(run, k - 1)
    requires run[0] == Turn(longer[0].0, longer[0].1)
    ensures LoopsAt(longer, k)
  {
    assert longer[k] == run[k - 1];
    if k == 1 {
      assert longer[1] == run[0];
    } else {
      assert longer[k - 1] == run[k - 2];
    }
  }

  /** A free header that has become its own predecessor and successor is never left. */
  lemma {:induction false} StuckForever(m: Memory, n: nat) returns (run: seq<(Memory, int)>)
    requires HeaderAt(m, TAIL) == Header(TAIL, 0, TAIL)
    ensures |run| == n + 1 && run[0] == (m, TAIL) && Loops(run)
    decreases n
  {
    run := [(m, TAIL)];
    if n > 0 {
      var m1 := Turn(m, TAIL).0;
      StuckTurn(m);
      var rest := StuckForever(m1, n - 1);
      TurnFirst(m, TAIL, rest);
      run := [(m, TAIL)] + rest;
    }
  }

  lemma InuseCleared(m: Memory, a: int)
    ensures HeaderAt(StoreByte(m, a + 4, 0), a) == HeaderAt(m, a).(inuse := 0)
  {
    var m0 := StoreByte(m, a + 4, 0);
    WordOfSameBytes(m, m0, a);
    WordOfSameBytes(m, m0, a + 8);
  }

  /**
    Giving that address back never ends: once line 141 has cleared `inuse`, the loop of lines 142-146 takes any number
    of turns and goes on.
   */
  lemma FreeNeverEnds(m: Memory, n: nat) returns (run: seq<(Memory, int)>)
    requires HeaderAt(m, HEAD) == Header(TAIL, 1, TAIL) && HeaderAt(m, TAIL).inuse == 0
    ensures |run| == n + 2 && run[0] == (StoreByte(m, HEAD + 4, 0), HEAD) && Loops(run)
  {
    InuseCleared(m, HEAD);
    var m0 := StoreByte(m, HEAD + 4, 0);
    assert Byte(m0, TAIL + 4) == Byte(m, TAIL + 4);
    FirstTurn(m0);
    var rest := StuckForever(Turn(m0, HEAD).0, n);
    TurnFirst(m0, HEAD, rest);
    run := [(m0, HEAD)] + rest;
  }
}
