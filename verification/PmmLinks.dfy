/**
  The headers that the bytes of memory spell, and the links between them, for the allocator of src/pmm.c.
 */
module PmmLinks {
  import opened Words
  import opened PmmMemory
  import opened PmmSpec

  const NULL: int := 0

  datatype Header = Header(front: int, inuse: byte, next: int)

  /** The headers that are intact in memory, by address.  Some belong to the chain, others were absorbed. */
  type Headers = map<int, Header>

  /** Storing a header spoils every other header it overlaps. */
  function Put(h: Headers, a: int, v: Header): (r: Headers)
    ensures a in r && r[a] == v
    ensures forall k {:trigger k in r} :: k in r <==> k == a || (k in h && !(a - HEADER < k < a + HEADER))
    ensures forall k :: k in r && k != a ==> r[k] == h[k]
  {
    (map k | k in h && !(a - HEADER < k < a + HEADER) :: h[k])[a := v]
  }

  /** The header that the bytes at `k` spell; the three bytes behind `inuse` are padding. */
  function HeaderAt(m: Memory, k: int): Header {
    Header(Word(m, k), Byte(m, k + 4), Word(m, k + 8))
  }

  ghost predicate SpelledAt(m: Memory, h: Headers, k: int) {
    k in h ==> h[k] == HeaderAt(m, k)
  }

  ghost predicate Agree(m: Memory, h: Headers) {
    forall k :: SpelledAt(m, h, k)
  }

  /** Following `front` from `x` arrives at `p`, stepping only on free headers at falling addresses. */
  ghost predicate Reaches(h: Headers, x: int, p: int)
    decreases x - p
  {
    x == p || (x >= p + HEADER && x in h && h[x].inuse == 0 && h[x].front < x && Reaches(h, h[x].front, p))
  }

  /** The back link of block `cur` leads to its predecessor `prev`, if need be by way of headers `prev` absorbed. */
  ghost predicate BackOk(h: Headers, prev: Block, cur: Block) {
    && cur.addr in h
    && var f := h[cur.addr].front;
       f == prev.addr || (prev.Free? && f + HEADER <= cur.addr && Reaches(h, f, prev.addr))
  }

  ghost predicate Record(h: Headers, b: Block, next: int) {
    b.addr in h && h[b.addr].inuse == (if b.Used? then 1 else 0) && h[b.addr].next == next
  }

  ghost predicate FrontOk(h: Headers, blocks: seq<Block>, i: int)
    requires 0 <= i < |blocks|
  {
    if i == 0 then blocks[0].addr in h && h[blocks[0].addr].front == NULL
    else BackOk(h, blocks[i - 1], blocks[i])
  }

  ghost predicate LinkOk(h: Headers, blocks: seq<Block>, end: int, i: int)
    requires 0 <= i < |blocks|
  {
    Record(h, blocks[i], NextAddr(blocks, end, i)) && FrontOk(h, blocks, i)
  }

  ghost predicate Clear(h: Headers, j: int, k: int) {
    j in h && k in h && j < k ==> j + HEADER <= k
  }

  /** Headers do not overlap, and the pseudo header at the end of the heap can be written (lines 127, 144, 151). */
  ghost predicate Apart(h: Headers, start: int, end: int) {
    && end in h
    && (forall j, k :: Clear(h, j, k))
    && (forall k :: k in h ==> start <= k <= end)
  }

  ghost predicate Linked(h: Headers, head: int, blocks: seq<Block>, start: int, end: int) {
    && |blocks| > 0
    && head == blocks[0].addr
    && Apart(h, start, end)
    && (forall i :: 0 <= i < |blocks| ==> LinkOk(h, blocks, end, i))
  }

  // ---------- frames ----------

  lemma {:induction false} ReachesFrame(h: Headers, h': Headers, x: int, p: int)
    requires Reaches(h, x, p)
    requires forall k :: p < k <= x && k in h ==> k in h' && h'[k].front == h[k].front && h'[k].inuse == h[k].inuse
    ensures Reaches(h', x, p)
    decreases x - p
  {
    if x != p {
      ReachesFrame(h, h', h[x].front, p);
    }
  }

  lemma ReachesStep(h: Headers, x: int, p: int)
    requires Reaches(h, x, p) && p in h && h[p].inuse == 0
    ensures x != p ==> x in h && var f := h[x].front; p <= f < x && f in h && h[f].inuse == 0 && Reaches(h, f, p)
  {
  }

  /** A header that was absorbed forwards to the block that absorbed it (line 156). */
  lemma {:induction false} ReachesThrough(h: Headers, h': Headers, x: int, m: int, p: int)
    requires Reaches(h, x, m)
    requires p + HEADER <= m && m in h' && h'[m].front == p && h'[m].inuse == 0
    requires forall k :: m < k <= x && k in h ==> k in h' && h'[k].front == h[k].front && h'[k].inuse == h[k].inuse
    ensures Reaches(h', x, p)
    decreases x - m
  {
    if x != m {
      ReachesThrough(h, h', h[x].front, m, p);
    } else {
      assert Reaches(h', p, p);
    }
  }

  /** Header `k` of `h` is intact in `h'`. */
  ghost predicate Same(h: Headers, h': Headers, k: int)
    requires k in h
  {
    k in h' && h'[k] == h[k]
  }

  /**
    If only headers from block `lo - 1` up to block `hi` changed, and the new links around the replaced stretch
    are right, all links are right.
   */
  lemma SpliceLinks(start: int, end: int, h: Headers, h': Headers, blocks: seq<Block>, lo: int, hi: int, mid: seq<Block>)
    requires Tiles(start, end, blocks) && 0 <= lo < hi <= |blocks| && |mid| > 0
    requires forall i :: 0 <= i < |blocks| ==> LinkOk(h, blocks, end, i)
    requires forall k :: k in h && (lo > 0 && k < blocks[lo - 1].addr) ==> Same(h, h', k)
    requires forall k :: k in h && (hi < |blocks| && k > blocks[hi].addr) ==> Same(h, h', k)
    requires lo > 0 ==> var q := blocks[lo - 1].addr;
                        q in h && q in h' && h'[q] == h[q].(next := mid[0].addr)
    requires hi < |blocks| ==> var n := blocks[hi].addr;
                               n in h && n in h' && h'[n] == h[n].(front := h'[n].front)
    requires StretchLinks(h', mid, NextAddr(blocks, end, hi - 1))
    requires mid[0].addr in h'
    requires if lo == 0 then h'[mid[0].addr].front == NULL else BackOk(h', blocks[lo - 1], mid[0])
    requires hi < |blocks| ==> BackOk(h', mid[|mid| - 1], blocks[hi])
    ensures var after := Splice(blocks, lo, hi, mid);
            forall i :: 0 <= i < |after| ==> LinkOk(h', after, end, i)
  {
    var after := Splice(blocks, lo, hi, mid);
    forall i | 0 <= i < |after|
      ensures LinkOk(h', after, end, i)
    {
      if i < lo {
        assert LinkOk(h, blocks, end, i);
        assert after[i] == blocks[i] && (i > 0 ==> after[i - 1] == blocks[i - 1]);
        if i < lo - 1 {
          Ordered(start, end, blocks, i, lo - 1);
          assert Same(h, h', blocks[i].addr);
        }
        if i > 0 {
          BackLinkFrame(start, end, h, h', blocks, i);
        }
      } else if i < lo + |mid| {
        assert after[i] == mid[i - lo];
        assert Record(h', mid[i - lo], NextAddr(mid, NextAddr(blocks, end, hi - 1), i - lo));
        if i > lo {
          assert after[i - 1] == mid[i - lo - 1];
          assert StretchBack(h', mid, i - lo);
        } else if i > 0 {
          assert after[i - 1] == blocks[i - 1];
        }
      } else {
        var o := i - lo - |mid| + hi;
        assert LinkOk(h, blocks, end, o);
        assert after[i] == blocks[o];
        if o == hi {
          assert after[i - 1] == mid[|mid| - 1];
        } else {
          assert after[i - 1] == blocks[o - 1];
          Ordered(start, end, blocks, hi, o);
          assert Same(h, h', blocks[o].addr);
          if o - 1 > hi { Ordered(start, end, blocks, hi, o - 1); }
          BackLinkFrame(start, end, h, h', blocks, o);
        }
      }
    }
  }

  ghost predicate StretchBack(h: Headers, mid: seq<Block>, j: int)
    requires 0 < j < |mid|
  {
    BackOk(h, mid[j - 1], mid[j])
  }

  /** The links inside a stretch of blocks that reaches up to `to`. */
  ghost predicate StretchLinks(h: Headers, mid: seq<Block>, to: int) {
    && (forall j :: 0 <= j < |mid| ==> Record(h, mid[j], NextAddr(mid, to, j)))
    && (forall j :: 0 < j < |mid| ==> StretchBack(h, mid, j))
  }

  /** A back link survives when the headers strictly between its two blocks do. */
  lemma BackLinkFrame(start: int, end: int, h: Headers, h': Headers, blocks: seq<Block>, i: int)
    requires Tiles(start, end, blocks) && 0 < i < |blocks| && FrontOk(h, blocks, i)
    requires blocks[i].addr in h' && h'[blocks[i].addr].front == h[blocks[i].addr].front
    requires forall k :: k in h && blocks[i - 1].addr < k < blocks[i].addr ==> Same(h, h', k)
    ensures FrontOk(h', blocks, i)
  {
    var f := h[blocks[i].addr].front;
    if f != blocks[i - 1].addr {
      ReachesFrame(h, h', f, blocks[i - 1].addr);
    }
  }

  lemma PutKeepsApart(h: Headers, start: int, end: int, a: int, v: Header)
    requires Apart(h, start, end) && start <= a && a + HEADER <= end
    ensures Apart(Put(h, a, v), start, end)
  {
    forall j, k
      ensures Clear(Put(h, a, v), j, k)
    {
      assert Clear(h, j, k);
    }
  }

  lemma UpdateKeepsApart(h: Headers, h': Headers, start: int, end: int)
    requires Apart(h, start, end) && h'.Keys == h.Keys
    ensures Apart(h', start, end)
  {
    forall j, k
      ensures Clear(h', j, k)
    {
      assert Clear(h, j, k);
    }
  }

  // ---------- user data ----------

  ghost predicate InPayload(b: Block, k: int) {
    b.Used? && b.addr + HEADER <= k < b.addr + HEADER + b.size
  }

  /** The bytes of the given allocations are what they were. */
  ghost predicate PayloadsKept(m0: Memory, m1: Memory, live: set<Block>) {
    forall b, k :: b in live && InPayload(b, k) ==> Byte(m1, k) == Byte(m0, k)
  }

  /** No byte of [lo, hi) belongs to one of the given allocations. */
  ghost predicate Avoids(live: set<Block>, lo: int, hi: int) {
    forall b :: b in live ==> hi <= b.addr + HEADER || b.addr + HEADER + Payload(b) <= lo
  }

  /** From the start of block `lo` up to the header of block `hi` there are only the payloads of the blocks between. */
  lemma StretchAvoids(start: int, end: int, blocks: seq<Block>, lo: int, hi: int)
    requires Tiles(start, end, blocks) && 0 <= lo < hi <= |blocks|
    ensures Avoids(Live(blocks) - Live(blocks[lo..hi]),
                   if lo == 0 then start else blocks[lo].addr, NextAddr(blocks, end, hi - 1) + HEADER)
  {
    forall j | lo <= j < hi && blocks[j].Used?
      ensures blocks[j] in Live(blocks[lo..hi])
    {
      assert blocks[lo..hi][j - lo] == blocks[j];
    }
    forall b | b in Live(blocks) - Live(blocks[lo..hi])
      ensures NextAddr(blocks, end, hi - 1) + HEADER <= b.addr + HEADER
              || b.addr + HEADER + Payload(b) <= if lo == 0 then start else blocks[lo].addr
    {
      var j :| 0 <= j < |blocks| && blocks[j] == b;
      if j < lo {
        Ordered(start, end, blocks, j, lo);
      } else {
        assert hi <= j;
        Ordered(start, end, blocks, hi - 1, j);
      }
    }
  }

  /** The header of a block holds no payload. */
  lemma HeaderAvoids(start: int, end: int, blocks: seq<Block>, q: int)
    requires Tiles(start, end, blocks) && 0 <= q < |blocks|
    ensures Avoids(Live(blocks), blocks[q].addr, blocks[q].addr + HEADER)
  {
    forall b | b in Live(blocks)
      ensures blocks[q].addr + HEADER <= b.addr + HEADER || b.addr + HEADER + Payload(b) <= blocks[q].addr
    {
      var j :| 0 <= j < |blocks| && blocks[j] == b;
      if j < q { Ordered(start, end, blocks, j, q); }
      if q < j { Ordered(start, end, blocks, q, j); }
    }
  }

  // ---------- windows ----------

  /**
    The part of memory that one operation may store to: the bytes of [lo, hi) and the headers at the addresses in
    `touched`.  `h0` and `m0` are the memory when the operation started, `live` the allocations to be spared.
   */
  datatype Window = Window(h0: Headers, m0: Memory, lo: int, hi: int, touched: set<int>, live: set<Block>) {

    ghost predicate Ok(start: int, end: int) {
      && start <= lo && hi in h0 && hi <= end
      && (forall k :: k in h0 && k < lo ==> k + HEADER <= lo)
      && Avoids(live, lo, hi)
      && (forall t :: t in touched ==> t in h0 && Avoids(live, t, t + HEADER))
    }

    ghost predicate Has(a: int) {
      a in touched || (lo <= a && a + HEADER <= hi)
    }

    /** Headers `h` differ from the start only inside the window. */
    ghost predicate Spared(h: Headers) {
      forall k :: k in h0 && (k < lo || k >= hi) ==> if k in touched then k in h else Same(h0, h, k)
    }

    /** So do the headers and the bytes, which agree. */
    ghost predicate Kept(h: Headers, m: Memory, start: int, end: int) {
      Ok(start, end) && Apart(h, start, end) && Spared(h) && PayloadsKept(m0, m, live) && Agree(m, h)
    }
  }

  /** Bytes stored in one header change what is spelled there and nowhere else. */
  lemma HeaderStored(h: Headers, m: Memory, m': Memory, start: int, end: int, a: int, v: Header)
    requires Apart(h, start, end) && Agree(m, h) && a in h && Outside(m, m', a, a + HEADER) && HeaderAt(m', a) == v
    ensures Agree(m', h[a := v])
  {
    var h' := h[a := v];
    forall k
      ensures SpelledAt(m', h', k)
    {
      assert SpelledAt(m, h, k) && Clear(h, a, k) && Clear(h, k, a);
      if k in h && k != a {
        WordOfSameBytes(m, m', k);
        WordOfSameBytes(m, m', k + 8);
      }
    }
  }

  lemma UpdateInWindow(w: Window, h: Headers, m: Memory, start: int, end: int, a: int, v: Header, m': Memory)
    requires w.Kept(h, m, start, end) && a in h && w.Has(a) && Outside(m, m', a, a + HEADER) && HeaderAt(m', a) == v
    ensures w.Kept(h[a := v], m', start, end)
  {
    UpdateKeepsApart(h, h[a := v], start, end);
    HeaderStored(h, m, m', start, end, a, v);
  }

  lemma PutInWindow(w: Window, h: Headers, m: Memory, start: int, end: int, a: int, v: Header, m': Memory)
    requires w.Kept(h, m, start, end) && w.lo <= a && a + HEADER <= w.hi && Outside(m, m', a, a + HEADER) && HeaderAt(m', a) == v
    ensures w.Kept(Put(h, a, v), m', start, end)
  {
    PutKeepsApart(h, start, end, a, v);
    var h' := Put(h, a, v);
    forall k
      ensures SpelledAt(m', h', k)
    {
      assert SpelledAt(m, h, k);
      if k in h' && k != a {
        WordOfSameBytes(m, m', k);
        WordOfSameBytes(m, m', k + 8);
      }
    }
  }

  /** A whole header stored field by field; the padding keeps what was there. */
  function PutHeader(m: Memory, a: int, v: Header): (m': Memory)
    requires 0 <= v.front < TWO_32 && 0 <= v.next < TWO_32
    ensures HeaderAt(m', a) == v && Outside(m, m', a, a + HEADER) && SameBytes(m, m', a + 5, a + 8)
  {
    var m1 := StoreWord(m, a, v.front);
    var m2 := StoreByte(m1, a + 4, v.inuse);
    var m3 := StoreWord(m2, a + 8, v.next);
    WordOfSameBytes(m1, m2, a);
    WordOfSameBytes(m2, m3, a);
    m3
  }

  // ---------- the fit test ----------

  /**
    The test of line 60 subtracts in `size_t` and reads the result as an `int`.  For an address `a` that some
    request of at most 2^31 bytes is aligned to, it agrees with the true comparison exactly when the payload ends
    less than 2^31 before and at most 2^31 bytes behind the end of the block.
   */
  lemma FitTestExact(next: int, a: int, size: nat)
    requires size <= TWO_31 && a - next < TWO_31 && next - a <= TWO_31
    ensures (ToI32(next - a - size) >= 0 <==> a + size <= next) <==> -TWO_31 <= next - a - size < TWO_31
  {
  }

  lemma AlignUpBelow(x: int, r: nat)
    requires 0 < x < r
    ensures AlignUp(x, r) == r
  {
  }

  /** The largest request whose fit is judged right in every heap: one byte more passes in a block of 64 KiB. */
  const LARGEST_REQUEST: int := 0x4000_0000

  lemma HugeRequestPassesFitTest()
    ensures var b, next, size := 0x10_0000, 0x11_0000, LARGEST_REQUEST + 1;
            && Place(b, size) == TWO_31
            && ToI32(next - Place(b, size) - size) >= 0
            && !(Place(b, size) + size <= next)
  {
    Pow2OfThirty();
    PowerOfTwoAligns(LARGEST_REQUEST + 1, 31);
    AlignUpBelow(0x10_0000 + HEADER, 0x8000_0000);
  }

  /** The values that the loop of lines 49-52 goes through, in `size_t`. */
  function Doubled(k: nat): int {
    if k == 0 then 1 else ToU32(2 * Doubled(k - 1))
  }

  /** For a request above 2^31 they never reach the size: the loop does not end. */
  lemma {:induction false} RoundingNeverEnds(size: nat, k: nat)
    requires TWO_31 < size < TWO_32
    ensures Doubled(k) < size && (k <= 31 ==> Doubled(k) == Pow2(k)) && (k > 31 ==> Doubled(k) == 0)
  {
    Pow2OfThirty();
    if k > 0 {
      var d := Doubled(k - 1);
      RoundingNeverEnds(size, k - 1);
      if k <= 31 {
        Pow2Monotone(k, 31);
        ToU32Small(2 * d);
      } else if k == 32 {
        assert ToU32(TWO_32) == 0;
      } else {
        ToU32Small(0);
      }
    }
  }

  lemma PowerOfTwoAligns(size: nat, k: nat)
    requires size <= Pow2(k) && (k > 0 ==> Pow2(k - 1) < size)
    ensures Alignment(size) == Pow2(k)
  {
    AlignmentIsLeast(size, k);
    var j := AlignmentIsPowerOfTwo(size);
    if j < k {
      Pow2Monotone(j, k - 1);
    } else {
      Pow2Monotone(k, j);
    }
  }

  // ---------- the allocator ----------

  /**
    When the header of the first block is moved into place (lines 116-120), its `front` field and the back link of
    its successor are not written.  This says that what is there happens to be right: `found` is the word at the new
    header.
   */
  ghost predicate HeadLinksOk(h: Headers, blocks: seq<Block>, end: int, size: nat, found: int)
    requires |blocks| > 0
  {
    var b := blocks[0].addr;
    var a := Place(b, size);
    FirstFit(blocks, end, size) == 0 && !GapSplits(b, a) ==>
      && found == NULL
      && (TailSplits(a, size, NextAddr(blocks, end, 0)) || |blocks| == 1
          || (blocks[1].addr in h && h[blocks[1].addr].front == a - HEADER))
  }

  /** The word that lines 117-119 find in front of payload `a`, once line 113 has stored `next` in the header at `b`. */
  function HeadWord(mem: Memory, b: int, a: int, next: int): int {
    Word(StoreWord(mem, b + 8, next), a - HEADER)
  }

  /** A tail and other headers behind the payload do not touch that word. */
  lemma HeadWordStored(m0: Memory, m2: Memory, m3: Memory, b: int, a: int, t: int)
    requires b + HEADER <= a && SameBytes(m0, m2, b, a)
    requires forall k {:trigger Byte(m3, k)} :: Byte(m3, k) == Byte(StoreWord(m2, b + 8, t), k)
    ensures Word(m3, a - HEADER) == HeadWord(m0, b, a, t)
  {
    forall k | b <= k < a
      ensures Byte(m3, k) == Byte(StoreWord(m0, b + 8, t), k)
    {
      StoreIsLocal(m0, m2, b + 8, t, k);
    }
    WordOfSameBytes(StoreWord(m0, b + 8, t), m3, a - HEADER);
  }

  lemma HeadWordFound(m: Memory, b: int, a: int, next: int)
    requires next == Word(m, b + 8)
    ensures Word(m, a - HEADER) == HeadWord(m, b, a, next)
  {
    forall k
      ensures Byte(StoreWord(m, b + 8, next), k) == Byte(m, k)
    {
      StoreSameWord(m, b + 8, k);
    }
    WordOfSameBytes(m, StoreWord(m, b + 8, next), a - HEADER);
  }

  ghost predicate HeadStepOk(h: Headers, mem: Memory, blocks: seq<Block>, end: int, size: nat)
    requires |blocks| > 0
  {
    var b, a := blocks[0].addr, Place(blocks[0].addr, size);
    HeadLinksOk(h, blocks, end, size, HeadWord(mem, b, a, UsedNext(a, size, NextAddr(blocks, end, 0))))
  }

  /** The found block in memory: it reaches from `b` to `next` and takes the payload at `a`; `w` lets it be cut. */
  ghost predicate Cut(h: Headers, b: int, a: int, size: nat, next: int, w: Window) {
    && b in h && next in h && h[b].next == next
    && b + HEADER <= a && a + size <= next < TWO_32 && next - b <= TWO_31 && 0 <= b && size < TWO_31
    && w.h0 == h && w.lo == b && w.hi == next && next in w.touched
  }

  /** What `next` of the block handed out becomes. */
  function UsedNext(a: int, size: nat, next: int): int {
    if next - a - size > HEADER then a + size else next
  }

  ghost predicate TailEffect(h: Headers, a: int, size: nat, next: int) {
    next - a - size > HEADER ==> a + size in h && h[a + size] == Header(a - HEADER, 0, next)
  }

  /** The back link of the next block after the cut; the pseudo header at `end` is not always written. */
  ghost predicate NextEffect(h0: Headers, h: Headers, end: int, next: int, front: int)
    requires next in h0
  {
    next in h && (next != end ==> h[next] == h0[next].(front := front))
  }

  ghost predicate GapEffect(h0: Headers, h: Headers, end: int, b: int, a: int, size: nat, next: int)
    requires b in h0 && next in h0
  {
    && b in h && h[b] == h0[b].(next := a - HEADER)
    && a - HEADER in h && h[a - HEADER] == Header(b, 1, UsedNext(a, size, next))
    && TailEffect(h, a, size, next)
    && NextEffect(h0, h, end, next, if UsedNext(a, size, next) == next then a - HEADER else a + size)
  }

  ghost predicate FrontEffect(h0: Headers, h: Headers, end: int, b: int, a: int, size: nat, next: int, found: int)
    requires b in h0 && next in h0
  {
    var q := h0[b].front;
    && a - HEADER in h
    && h[a - HEADER] == Header(if q != NULL then q else found, 1, UsedNext(a, size, next))
    && TailEffect(h, a, size, next)
    && NextEffect(h0, h, end, next,
                  if UsedNext(a, size, next) != next then a + size else if q == NULL then h0[next].front else a - HEADER)
    && (q != NULL ==> q in h0 && q in h && h[q] == h0[q].(next := a - HEADER))
  }

  /** The machine's limits: the heap lies below 3 GiB and spans at most 2 GiB. */
  ghost predicate Machine(start: int, end: int) {
    0 < start && start + HEADER <= end && end + HEADER + LARGEST_REQUEST <= TWO_32 && end - start <= TWO_31
  }

  /** The headers in memory describe the list of blocks. */
  ghost predicate Represents(start: int, end: int, head: int, h: Headers, blocks: seq<Block>) {
    Machine(start, end) && HeapOk(start, end, blocks) && Linked(h, head, blocks, start, end)
  }

  /** Within the machine's limits the test of line 60 decides whether block `i` suits. */
  lemma FitTest(start: int, end: int, head: int, h: Headers, blocks: seq<Block>, i: int, size: nat)
    requires Represents(start, end, head, h, blocks) && size <= LARGEST_REQUEST && 0 <= i < |blocks|
    requires LinkOk(h, blocks, end, i)
    ensures var r := h[blocks[i].addr];
            Suits(blocks, end, i, size) <==> r.inuse != 1 && !(ToI32(r.next - Place(blocks[i].addr, size) - size) < 0)
  {
    Pow2OfThirty();
    AlignmentIsLeast(size, 30);
    PlaceIsAligned(blocks[i].addr, size);
    InHeap(start, end, blocks, i);
    FitTestExact(NextAddr(blocks, end, i), Place(blocks[i].addr, size), size);
  }

  /** What the links say around a free block that suits. */
  ghost predicate CutContext(start: int, end: int, h: Headers, blocks: seq<Block>, i: int, size: nat) {
    && 0 <= i < |blocks| && Suits(blocks, end, i, size) && size <= LARGEST_REQUEST
    && LinkOk(h, blocks, end, i)
    && start <= blocks[i].addr
    && blocks[i].addr + HEADER <= Place(blocks[i].addr, size)
    && Place(blocks[i].addr, size) + size <= NextAddr(blocks, end, i) <= end
    && NextAddr(blocks, end, i) in h
    && (i == 0 ==> h[blocks[i].addr].front == NULL)
    && (i > 0 ==> LinkOk(h, blocks, end, i - 1) && blocks[i - 1].Used? && blocks[i - 1].addr + HEADER <= blocks[i].addr
                  && h[blocks[i].addr].front == blocks[i - 1].addr != NULL)
    && (i + 1 < |blocks| ==> LinkOk(h, blocks, end, i + 1) && blocks[i + 1].Used? && blocks[i + 1].addr + HEADER <= end)
  }

  lemma AllocContext(start: int, end: int, head: int, h: Headers, blocks: seq<Block>, i: int, size: nat)
    requires Represents(start, end, head, h, blocks)
    requires size <= LARGEST_REQUEST && 0 <= i < |blocks| && Suits(blocks, end, i, size)
    ensures CutContext(start, end, h, blocks, i, size)
  {
    PlaceIsAligned(blocks[i].addr, size);
    InHeap(start, end, blocks, i);
    assert LinkOk(h, blocks, end, i);
    if i > 0 {
      assert LinkOk(h, blocks, end, i - 1);
      assert blocks[i].Used? || blocks[i - 1].Used?;
      InHeap(start, end, blocks, i - 1);
    }
    if i + 1 < |blocks| {
      assert LinkOk(h, blocks, end, i + 1);
      assert blocks[i].Used? || blocks[i + 1].Used?;
      InHeap(start, end, blocks, i + 1);
    }
  }

  /** Allocating from block `i` may store in that block and to the headers behind and, if it `moves`, before it. */
  ghost function CutWindow(h: Headers, mem: Memory, blocks: seq<Block>, end: int, i: int, moves: bool): Window
    requires 0 <= i < |blocks|
  {
    Window(h, mem, blocks[i].addr, NextAddr(blocks, end, i),
           {NextAddr(blocks, end, i)} + if moves && i > 0 then {blocks[i - 1].addr} else {}, Live(blocks))
  }

  lemma CutWindowKept(start: int, end: int, head: int, h: Headers, mem: Memory, blocks: seq<Block>, i: int, size: nat, moves: bool)
    requires Represents(start, end, head, h, blocks) && CutContext(start, end, h, blocks, i, size) && Agree(mem, h)
    ensures CutWindow(h, mem, blocks, end, i, moves).Kept(h, mem, start, end)
  {
    StretchAvoids(start, end, blocks, i, i + 1);
    assert blocks[i..i + 1] == [blocks[i]];
    assert Live(blocks) - Live(blocks[i..i + 1]) == Live(blocks);
    if i > 0 {
      HeaderAvoids(start, end, blocks, i - 1);
    }
    forall k | k in h && k < blocks[i].addr
      ensures k + HEADER <= blocks[i].addr
    {
      assert Clear(h, k, blocks[i].addr);
    }
  }

  lemma PiecesLinks(h: Headers, b: int, a: int, size: nat, next: int)
    requires GapSplits(b, a) ==> b in h && h[b].inuse == 0 && h[b].next == a - HEADER
    requires a - HEADER in h && h[a - HEADER].inuse == 1 && h[a - HEADER].next == UsedNext(a, size, next)
    requires GapSplits(b, a) ==> h[a - HEADER].front == b
    requires TailEffect(h, a, size, next)
    ensures StretchLinks(h, Pieces(b, a, size, next), next)
  {
  }

  /** Lines 76-102 leave all links right. */
  lemma GapLinks(start: int, end: int, head: int, h0: Headers, blocks: seq<Block>, w: Window, h: Headers, i: int, size: nat)
    requires Represents(start, end, head, h0, blocks) && CutContext(start, end, h0, blocks, i, size)
    requires GapSplits(blocks[i].addr, Place(blocks[i].addr, size))
    requires w == CutWindow(h0, w.m0, blocks, end, i, false) && w.Spared(h) && Apart(h, start, end)
    requires GapEffect(h0, h, end, blocks[i].addr, Place(blocks[i].addr, size), size, NextAddr(blocks, end, i))
    ensures Linked(h, head, Carve(blocks, end, i, size), start, end)
  {
    var b, a, next := blocks[i].addr, Place(blocks[i].addr, size), NextAddr(blocks, end, i);
    PiecesLinks(h, b, a, size, next);
    SpliceLinks(start, end, h0, h, blocks, i, i + 1, Pieces(b, a, size, next));
  }

  /** Lines 103-134 leave all links right provided the words that are not written were right. */
  lemma FrontLinks(start: int, end: int, head: int, h0: Headers, blocks: seq<Block>, w: Window, h: Headers, i: int, size: nat, found: int)
    requires Represents(start, end, head, h0, blocks) && CutContext(start, end, h0, blocks, i, size)
    requires !GapSplits(blocks[i].addr, Place(blocks[i].addr, size))
    requires w == CutWindow(h0, w.m0, blocks, end, i, true) && w.Spared(h) && Apart(h, start, end)
    requires FrontEffect(h0, h, end, blocks[i].addr, Place(blocks[i].addr, size), size, NextAddr(blocks, end, i), found)
    requires i == FirstFit(blocks, end, size) && HeadLinksOk(h0, blocks, end, size, found)
    ensures Linked(h, if i == 0 then Place(blocks[i].addr, size) - HEADER else head, Carve(blocks, end, i, size), start, end)
  {
    var b, a, next := blocks[i].addr, Place(blocks[i].addr, size), NextAddr(blocks, end, i);
    PiecesLinks(h, b, a, size, next);
    SpliceLinks(start, end, h0, h, blocks, i, i + 1, Pieces(b, a, size, next));
  }

  /** Conversely, right links show that the words were right. */
  lemma HeadStepNeeded(start: int, end: int, h0: Headers, blocks: seq<Block>, h: Headers, hd: int, i: int, size: nat, found: int)
    requires CutContext(start, end, h0, blocks, i, size)
    requires i == FirstFit(blocks, end, size)
    requires !GapSplits(blocks[i].addr, Place(blocks[i].addr, size)) ==>
               FrontEffect(h0, h, end, blocks[i].addr, Place(blocks[i].addr, size), size, NextAddr(blocks, end, i), found)
    requires Linked(h, hd, Carve(blocks, end, i, size), start, end)
    ensures HeadLinksOk(h0, blocks, end, size, found)
  {
    var b, a, next := blocks[i].addr, Place(blocks[i].addr, size), NextAddr(blocks, end, i);
    var after := Carve(blocks, end, i, size);
    if i == 0 && !GapSplits(b, a) {
      assert after[0] == Used(a - HEADER, size);
      assert LinkOk(h, after, end, 0);
      if |blocks| > 1 && !TailSplits(a, size, next) {
        assert after[1] == blocks[1];
        assert LinkOk(h, after, end, 1);
      }
    }
  }

  /** Memory after block `i` was cut. */
  ghost predicate CutEffect(start: int, end: int, hd0: int, blocks: seq<Block>, w: Window, i: int, size: nat, h: Headers, hd: int)
    requires 0 <= i < |blocks| && blocks[i].addr in w.h0 && NextAddr(blocks, end, i) in w.h0
  {
    var b, a, next := blocks[i].addr, Place(blocks[i].addr, size), NextAddr(blocks, end, i);
    && w.Spared(h) && Apart(h, start, end)
    && if GapSplits(b, a) then GapEffect(w.h0, h, end, b, a, size, next) && hd == hd0
       else FrontEffect(w.h0, h, end, b, a, size, next, HeadWord(w.m0, b, a, UsedNext(a, size, next))) && hd == if i == 0 then a - HEADER else hd0
  }

  /** Whichever way a block was cut, the links are right exactly when the head step left them right. */
  lemma CutDone(start: int, end: int, hd0: int, blocks: seq<Block>, w: Window, i: int, size: nat, h: Headers, hd: int)
    requires Represents(start, end, hd0, w.h0, blocks) && CutContext(start, end, w.h0, blocks, i, size)
    requires i == FirstFit(blocks, end, size)
    requires w == CutWindow(w.h0, w.m0, blocks, end, i, !GapSplits(blocks[i].addr, Place(blocks[i].addr, size)))
    requires CutEffect(start, end, hd0, blocks, w, i, size, h, hd)
    ensures Linked(h, hd, Carve(blocks, end, i, size), start, end) <==> HeadStepOk(w.h0, w.m0, blocks, end, size)
  {
    var b, a, next := blocks[i].addr, Place(blocks[i].addr, size), NextAddr(blocks, end, i);
    var found := HeadWord(w.m0, b, a, UsedNext(a, size, next));
    if GapSplits(b, a) {
      GapLinks(start, end, hd0, w.h0, blocks, w, h, i, size);
    } else if HeadLinksOk(w.h0, blocks, end, size, found) {
      FrontLinks(start, end, hd0, w.h0, blocks, w, h, i, size, found);
    }
    if Linked(h, hd, Carve(blocks, end, i, size), start, end) {
      HeadStepNeeded(start, end, w.h0, blocks, h, hd, i, size, found);
    }
  }

  /** Before the block found is cut: its place in memory and what may be stored to. */
  lemma BeforeCut(start: int, end: int, head: int, h: Headers, mem: Memory, blocks: seq<Block>, i: int, size: nat)
    returns (w: Window)
    requires Represents(start, end, head, h, blocks) && Agree(mem, h) && size <= LARGEST_REQUEST
    requires i < |blocks| && i == FirstFit(blocks, end, size)
    ensures CutContext(start, end, h, blocks, i, size)
    ensures w == CutWindow(h, mem, blocks, end, i, !GapSplits(blocks[i].addr, Place(blocks[i].addr, size)))
    ensures var b, a, next := blocks[i].addr, Place(blocks[i].addr, size), NextAddr(blocks, end, i);
            && Cut(h, b, a, size, next, w) && w.Kept(h, mem, start, end)
            && (h[b].front == NULL <==> i == 0)
            && (i > 0 ==> h[b].front in h && h[b].front + HEADER <= b && (!GapSplits(b, a) ==> h[b].front in w.touched))
  {
    AllocContext(start, end, head, h, blocks, i, size);
    var moves := !GapSplits(blocks[i].addr, Place(blocks[i].addr, size));
    w := CutWindow(h, mem, blocks, end, i, moves);
    CutWindowKept(start, end, head, h, mem, blocks, i, size, moves);
    InHeap(start, end, blocks, i);
  }

  // ---------- giving back ----------

  /** Giving back block `i` may store from the free block before it (or the start of the heap) to the next header. */
  ghost function MeltWindow(h: Headers, mem: Memory, blocks: seq<Block>, start: int, end: int, i: int): Window
    requires 0 <= i < |blocks|
  {
    Window(h, mem, Melted(blocks, start, i).addr, NextAddr(blocks, end, i), {NextAddr(blocks, end, i)}, Live(blocks) - {blocks[i]})
  }

  /** What the links say around a used block: walking back from it ends at the block it will melt into. */
  ghost predicate MeltContext(start: int, end: int, h: Headers, blocks: seq<Block>, i: int) {
    && 0 <= i < |blocks|
    && var c, n, p := blocks[i].addr, NextAddr(blocks, end, i), blocks[MeltLo(blocks, i)].addr;
       && c in h && h[c].next == n && n in h && start <= p && c + HEADER <= n <= end
       && Reaches(h[c := h[c].(inuse := 0)], c, p)
       && p in h && (p != c ==> h[p].inuse == 0) && (MeltLo(blocks, i) < i ==> p < c)
       && (if MeltLo(blocks, i) == 0 then h[p].front == NULL
           else NULL < h[p].front < p && h[p].front in h && h[h[p].front].inuse == 1)
  }

  lemma FreeContext(start: int, end: int, head: int, h: Headers, blocks: seq<Block>, i: int)
    requires Represents(start, end, head, h, blocks) && 0 <= i < |blocks| && blocks[i].Used?
    ensures MeltContext(start, end, h, blocks, i)
  {
    var lo := MeltLo(blocks, i);
    var c, p := blocks[i].addr, blocks[lo].addr;
    InHeap(start, end, blocks, i);
    InHeap(start, end, blocks, lo);
    assert LinkOk(h, blocks, end, i) && LinkOk(h, blocks, end, lo);
    if i + 1 < |blocks| {
      assert LinkOk(h, blocks, end, i + 1);
    }
    if lo < i {
      assert Sits(blocks, end, lo);
      var h1 := h[c := h[c].(inuse := 0)];
      if h[c].front == p {
        assert Reaches(h1, p, p);
      } else {
        ReachesFrame(h, h1, h[c].front, p);
      }
    }
    if lo > 0 {
      assert LinkOk(h, blocks, end, lo - 1);
      InHeap(start, end, blocks, lo - 1);
      assert blocks[lo].Used? || blocks[lo - 1].Used?;
    }
  }

  lemma MeltWindowKept(start: int, end: int, head: int, h: Headers, mem: Memory, blocks: seq<Block>, i: int)
    requires Represents(start, end, head, h, blocks) && 0 <= i < |blocks| && blocks[i].Used? && Agree(mem, h)
    ensures MeltWindow(h, mem, blocks, start, end, i).Kept(h, mem, start, end)
  {
    var lo := MeltLo(blocks, i);
    StretchAvoids(start, end, blocks, lo, i + 1);
    assert blocks[lo..i + 1] == if lo == i then [blocks[i]] else [blocks[lo], blocks[i]];
    assert Live(blocks[lo..i + 1]) == {blocks[i]};
    FreeContext(start, end, head, h, blocks, i);
    if lo > 0 {
      forall k | k in h && k < blocks[lo].addr
        ensures k + HEADER <= blocks[lo].addr
      {
        assert Clear(h, k, blocks[lo].addr);
      }
    }
  }

  /** The list after lines 141-154: block `i` and a free block before it have become one. */
  ghost function LeftMelted(blocks: seq<Block>, start: int, i: int): seq<Block>
    requires 0 <= i < |blocks|
  {
    Splice(blocks, MeltLo(blocks, i), i + 1, [Melted(blocks, start, i)])
  }

  /** Memory after lines 141-154. */
  ghost predicate LeftEffect(start: int, end: int, hd0: int, blocks: seq<Block>, i: int, w: Window, h: Headers, hd: int)
    requires 0 <= i < |blocks| && blocks[MeltLo(blocks, i)].addr in w.h0 && NextAddr(blocks, end, i) in w.h0
  {
    var lo := MeltLo(blocks, i);
    var m, n := Melted(blocks, start, i).addr, NextAddr(blocks, end, i);
    && w.Spared(h) && Apart(h, start, end)
    && hd == (if lo == 0 then start else hd0)
    && m in h && h[m] == Header(if lo == 0 then NULL else w.h0[m].front, 0, n)
    && n in h && h[n] == if lo < i || lo == 0 then w.h0[n].(front := m) else w.h0[n]
  }

  lemma LeftLinks(start: int, end: int, hd0: int, blocks: seq<Block>, i: int, w: Window, h: Headers, hd: int)
    requires Represents(start, end, hd0, w.h0, blocks) && 0 <= i < |blocks| && blocks[i].Used?
    requires w == MeltWindow(w.h0, w.m0, blocks, start, end, i)
    requires blocks[MeltLo(blocks, i)].addr in w.h0 && NextAddr(blocks, end, i) in w.h0
    requires LeftEffect(start, end, hd0, blocks, i, w, h, hd)
    ensures Tiles(start, end, LeftMelted(blocks, start, i))
    ensures Linked(h, hd, LeftMelted(blocks, start, i), start, end)
  {
    var lo := MeltLo(blocks, i);
    var mid := [Melted(blocks, start, i)];
    InHeap(start, end, blocks, lo);
    InHeap(start, end, blocks, i);
    if lo < i {
      Ordered(start, end, blocks, lo, i);
    }
    SpliceTiles(start, end, blocks, lo, i + 1, mid);
    assert LinkOk(w.h0, blocks, end, lo);
    if lo > 0 {
      assert LinkOk(w.h0, blocks, end, lo - 1);
      assert Sits(blocks, end, lo - 1);
      assert blocks[lo].Used? || blocks[lo - 1].Used?;
    }
    if i + 1 < |blocks| {
      assert LinkOk(w.h0, blocks, end, i + 1);
    }
    SpliceLinks(start, end, w.h0, h, blocks, lo, i + 1, mid);
  }

  /** Before used block `i` is given back: what may be stored to, and what the left half of the work will mean. */
  lemma BeforeFree(start: int, end: int, head: int, h: Headers, mem: Memory, blocks: seq<Block>, i: int)
    returns (w: Window)
    requires Represents(start, end, head, h, blocks) && 0 <= i < |blocks| && blocks[i].Used? && Agree(mem, h)
    ensures w == MeltWindow(h, mem, blocks, start, end, i) && w.Kept(h, mem, start, end)
    ensures MeltContext(start, end, h, blocks, i)
    ensures forall h1, hd1 :: LeftEffect(start, end, head, blocks, i, w, h1, hd1) ==>
              var b1 := LeftMelted(blocks, start, i);
              Tiles(start, end, b1) && Linked(h1, hd1, b1, start, end)
  {
    w := MeltWindow(h, mem, blocks, start, end, i);
    MeltWindowKept(start, end, head, h, mem, blocks, i);
    FreeContext(start, end, head, h, blocks, i);
    forall h1, hd1 | LeftEffect(start, end, head, blocks, i, w, h1, hd1)
      ensures var b1 := LeftMelted(blocks, start, i);
              Tiles(start, end, b1) && Linked(h1, hd1, b1, start, end)
    {
      LeftLinks(start, end, head, blocks, i, w, h1, hd1);
    }
  }

  /** The list when the left half of the work is done. */
  lemma LeftMeltedList(start: int, end: int, blocks: seq<Block>, i: int)
    requires HeapOk(start, end, blocks) && 0 <= i < |blocks| && blocks[i].Used?
    ensures var b1, lo := LeftMelted(blocks, start, i), MeltLo(blocks, i);
            && lo < |b1| && b1[lo] == Melted(blocks, start, i)
            && (lo + 1 < |b1| <==> i + 1 < |blocks|) && (lo + 1 < |b1| ==> b1[lo + 1] == blocks[i + 1])
            && (lo + 2 < |b1| ==> b1[lo + 1].Used? || b1[lo + 2].Used?)
  {
    var b1, lo := LeftMelted(blocks, start, i), MeltLo(blocks, i);
    if i + 2 < |blocks| {
      assert b1[lo + 1] == blocks[i + 1] && b1[lo + 2] == blocks[i + 2];
      assert blocks[i + 2].Used? || blocks[i + 1].Used?;
    }
  }

  lemma LeftMeltedLive(start: int, end: int, blocks: seq<Block>, i: int)
    requires HeapOk(start, end, blocks) && 0 <= i < |blocks| && blocks[i].Used?
    ensures Live(LeftMelted(blocks, start, i)) == Live(blocks) - {blocks[i]}
  {
    var lo := MeltLo(blocks, i);
    LiveSplice(start, end, blocks, lo, i + 1, [Melted(blocks, start, i)]);
    assert blocks[lo..i + 1] == if lo == i then [blocks[i]] else [blocks[lo], blocks[i]];
    assert Live(blocks[lo..i + 1]) == {blocks[i]};
  }

  /** Absorbing the right neighbour completes the release. */
  lemma LeftThenRight(start: int, end: int, blocks: seq<Block>, i: int)
    requires HeapOk(start, end, blocks) && 0 <= i < |blocks| && blocks[i].Used?
    requires var b1, lo := LeftMelted(blocks, start, i), MeltLo(blocks, i);
             lo < |b1| && b1[lo] == Melted(blocks, start, i)
    ensures var b1, lo := LeftMelted(blocks, start, i), MeltLo(blocks, i);
            i + 1 < |blocks| && blocks[i + 1].Free? ==> Splice(b1, lo, lo + 2, [b1[lo]]) == Release(blocks, start, i)
    ensures !(i + 1 < |blocks| && blocks[i + 1].Free?) ==> LeftMelted(blocks, start, i) == Release(blocks, start, i)
  {
    var b1, lo := LeftMelted(blocks, start, i), MeltLo(blocks, i);
    if i + 1 < |blocks| && blocks[i + 1].Free? {
      assert b1[lo + 2..] == blocks[i + 2..];
    }
  }

  /** Lines 155-158 for one free neighbour `m` on the right: all links stay right. */
  lemma AbsorbLinks(start: int, end: int, head: int, h: Headers, blocks: seq<Block>, j: int, h': Headers)
    requires Tiles(start, end, blocks) && Linked(h, head, blocks, start, end)
    requires 0 <= j && j + 1 < |blocks| && blocks[j].Free? && blocks[j + 1].Free?
    requires var c, m := blocks[j].addr, blocks[j + 1].addr;
             && c in h && m in h && c != m
             && h' == h[m := h[m].(front := c)][c := h[c].(next := h[m].next)]
    ensures Tiles(start, end, Splice(blocks, j, j + 2, [blocks[j]]))
    ensures Linked(h', head, Splice(blocks, j, j + 2, [blocks[j]]), start, end)
  {
    var c, m := blocks[j].addr, blocks[j + 1].addr;
    assert LinkOk(h, blocks, end, j) && LinkOk(h, blocks, end, j + 1);
    assert Sits(blocks, end, j) && Sits(blocks, end, j + 1);
    UpdateKeepsApart(h, h', start, end);
    SpliceTiles(start, end, blocks, j, j + 2, [blocks[j]]);
    if j > 0 {
      assert LinkOk(h, blocks, end, j - 1) && Sits(blocks, end, j - 1);
      BackLinkFrame(start, end, h, h', blocks, j);
    }
    if j + 2 < |blocks| {
      assert LinkOk(h, blocks, end, j + 2);
      var f := h[blocks[j + 2].addr].front;
      if f == m {
        assert Reaches(h', c, c);
      } else {
        ReachesThrough(h, h', f, m, c);
      }
    }
    SpliceLinks(start, end, h, h', blocks, j, j + 2, [blocks[j]]);
  }

  lemma AbsorbWindowKept(start: int, end: int, head: int, h: Headers, mem: Memory, blocks: seq<Block>, j: int)
    returns (w: Window)
    requires Tiles(start, end, blocks) && Linked(h, head, blocks, start, end) && Agree(mem, h)
    requires 0 <= j && j + 1 < |blocks| && blocks[j].Free? && blocks[j + 1].Free?
    ensures w.Kept(h, mem, start, end) && w.Has(blocks[j].addr) && w.Has(blocks[j + 1].addr)
    ensures w.h0 == h && w.m0 == mem && w.live == Live(blocks)
    ensures blocks[j].addr in h && h[blocks[j].addr].next == blocks[j + 1].addr < end && blocks[j].addr < blocks[j + 1].addr
    ensures blocks[j + 1].addr in h && h[blocks[j + 1].addr].inuse == 0 && h[blocks[j + 1].addr].next <= end
  {
    w := Window(h, mem, blocks[j].addr, NextAddr(blocks, end, j + 1), {}, Live(blocks));
    StretchAvoids(start, end, blocks, j, j + 2);
    assert blocks[j..j + 2] == [blocks[j], blocks[j + 1]];
    assert Live(blocks) - Live(blocks[j..j + 2]) == Live(blocks);
    assert LinkOk(h, blocks, end, j) && LinkOk(h, blocks, end, j + 1);
    InHeap(start, end, blocks, j);
    InHeap(start, end, blocks, j + 1);
    if j + 2 < |blocks| {
      assert LinkOk(h, blocks, end, j + 2);
    }
    forall k | k in h && k < blocks[j].addr
      ensures k + HEADER <= blocks[j].addr
    {
      assert Clear(h, k, blocks[j].addr);
    }
  }

  // ---------- the user's bytes ----------

  /** Storing one byte at `a` spoils the header it hits, if any. */
  function Spoil(h: Headers, a: int): (r: Headers)
    ensures forall k {:trigger k in r} :: k in r <==> k in h && !(k <= a < k + HEADER)
    ensures forall k :: k in r ==> r[k] == h[k]
  {
    map k | k in h && !(k <= a < k + HEADER) :: h[k]
  }

  /** The holder of an allocation may store whatever it likes there: no link of the heap is lost. */
  lemma UserByteKeepsLinks(start: int, end: int, head: int, h: Headers, blocks: seq<Block>, b: Block, a: int)
    requires Represents(start, end, head, h, blocks) && b in Live(blocks) && InPayload(b, a)
    ensures Represents(start, end, head, Spoil(h, a), blocks)
  {
    var h' := Spoil(h, a);
    var o := IndexOf(blocks, b);
    InHeap(start, end, blocks, o);
    forall j, k
      ensures Clear(h', j, k)
    {
      assert Clear(h, j, k);
    }
    forall i | 0 <= i < |blocks|
      ensures LinkOk(h', blocks, end, i)
    {
      assert LinkOk(h, blocks, end, i);
      HeaderAvoids(start, end, blocks, i);
      if i > 0 && blocks[i - 1].Free? {
        StretchAvoids(start, end, blocks, i - 1, i);
        assert blocks[i - 1..i] == [blocks[i - 1]];
        forall k | k in h && blocks[i - 1].addr < k < blocks[i].addr
          ensures Same(h, h', k)
        {
          assert Clear(h, k, blocks[i].addr);
        }
        BackLinkFrame(start, end, h, h', blocks, i);
      }
    }
  }

  /** A user's byte changes no header that it does not spoil. */
  lemma UserByteKeepsAgree(m: Memory, h: Headers, a: int, v: byte)
    requires Agree(m, h)
    ensures Agree(StoreByte(m, a, v), Spoil(h, a))
  {
    var m', h' := StoreByte(m, a, v), Spoil(h, a);
    forall k
      ensures SpelledAt(m', h', k)
    {
      assert SpelledAt(m, h, k);
      if k in h' {
        WordOfSameBytes(m, m', k);
        WordOfSameBytes(m, m', k + 8);
      }
    }
  }

  /** Block `i` in memory. */
  lemma AtBlock(start: int, end: int, head: int, h: Headers, blocks: seq<Block>, i: int)
    requires Represents(start, end, head, h, blocks) && 0 <= i < |blocks|
    ensures LinkOk(h, blocks, end, i) && start <= blocks[i].addr && blocks[i].addr + HEADER <= NextAddr(blocks, end, i) <= end
  {
    InHeap(start, end, blocks, i);
  }

  lemma AddrBounds(start: int, end: int, blocks: seq<Block>, i: int)
    requires Tiles(start, end, blocks) && 0 <= i <= |blocks|
    ensures start <= (if i < |blocks| then blocks[i].addr else end) <= end && (i < |blocks| ==> blocks[i].addr < end)
  {
    InHeap(start, end, blocks, if i < |blocks| then i else 0);
  }

  lemma NextRecord(start: int, end: int, head: int, h: Headers, blocks: seq<Block>, j: int)
    requires Tiles(start, end, blocks) && Linked(h, head, blocks, start, end) && 0 <= j < |blocks|
    ensures blocks[j].addr in h && h[blocks[j].addr].next == NextAddr(blocks, end, j) && h[blocks[j].addr].next in h
    ensures j + 1 < |blocks| ==> h[blocks[j + 1].addr].inuse == (if blocks[j + 1].Used? then 1 else 0) && blocks[j + 1].addr < end
  {
    assert LinkOk(h, blocks, end, j);
    if j + 1 < |blocks| {
      assert LinkOk(h, blocks, end, j + 1);
      InHeap(start, end, blocks, j + 1);
    }
  }
}
