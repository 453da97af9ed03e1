/**
  The allocator of src/pmm.c as operations on a plain list of blocks.  Nothing here knows about headers in
  memory; `PmmHeap` proves that the linked headers behave like this list.
 */
module PmmSpec {
  import opened Words

  /** sizeof(struct memory_block) on i386. */
  const HEADER: int := 12

  /** One block of the chain, named by the address of its header.  A used block remembers the requested size. */
  datatype Block = Free(addr: int) | Used(addr: int, size: nat)

  // ---------- alignment ----------

  /** The smallest power of two that is at least `size`. */
  function Alignment(size: nat): (r: nat)
    ensures size <= r && 1 <= r
    ensures size > 0 ==> r < 2 * size
    decreases size
  {
    if size <= 1 then 1 else 2 * Alignment((size + 1) / 2)
  }

  lemma {:induction false} AlignmentIsPowerOfTwo(size: nat) returns (k: nat)
    ensures Alignment(size) == Pow2(k)
    decreases size
  {
    if size <= 1 {
      k := 0;
    } else {
      var j := AlignmentIsPowerOfTwo((size + 1) / 2);
      k := j + 1;
    }
  }

  /** No smaller power of two would do, and so the doubling loop of lines 49-52 computes `Alignment`. */
  lemma {:induction false} AlignmentIsLeast(size: nat, k: nat)
    requires size <= Pow2(k)
    ensures Alignment(size) <= Pow2(k)
    decreases k
  {
    if size > 1 {
      AlignmentIsLeast((size + 1) / 2, k - 1);
    }
  }

  function AlignUp(x: int, r: nat): int
    requires r > 0
  {
    if x % r == 0 then x else x / r * r + r
  }

  lemma AlignUpIsLeastMultiple(x: int, r: nat)
    requires r > 0
    ensures AlignUp(x, r) % r == 0
    ensures x <= AlignUp(x, r) < x + r
  {
    if x % r != 0 {
      assert x / r * r + r == (x / r + 1) * r;
      MultipleHasNoRemainder(x / r + 1, r);
    }
  }

  /** Where a request lands in the block whose header is at `b`. */
  function Place(b: int, size: nat): int {
    AlignUp(b + HEADER, Alignment(size))
  }

  lemma PlaceIsAligned(b: int, size: nat)
    ensures Place(b, size) % Alignment(size) == 0
    ensures b + HEADER <= Place(b, size) < b + HEADER + Alignment(size)
  {
    AlignUpIsLeastMultiple(b + HEADER, Alignment(size));
  }

  // ---------- the list of blocks ----------

  function NextAddr(blocks: seq<Block>, end: int, i: int): int
    requires 0 <= i < |blocks|
  {
    if i + 1 < |blocks| then blocks[i + 1].addr else end
  }

  function Payload(b: Block): nat {
    if b.Used? then b.size else 0
  }

  /** Block `i` has room for its header and its payload before the next block starts. */
  ghost predicate Sits(blocks: seq<Block>, end: int, i: int)
    requires 0 <= i < |blocks|
  {
    blocks[i].addr + HEADER + Payload(blocks[i]) <= NextAddr(blocks, end, i)
  }

  /** The blocks lie in address order, each holding its header and its payload, and reach up to `end`. */
  ghost predicate Tiles(start: int, end: int, blocks: seq<Block>) {
    && 0 < start
    && |blocks| > 0
    && start <= blocks[0].addr
    && (blocks[0].Free? ==> blocks[0].addr == start)
    && (forall i :: 0 <= i < |blocks| ==> Sits(blocks, end, i))
  }

  ghost predicate Aligned(b: Block) {
    b.Used? ==> (b.addr + HEADER) % Alignment(b.size) == 0
  }

  ghost predicate AllAligned(blocks: seq<Block>) {
    forall b :: b in blocks ==> Aligned(b)
  }

  ghost predicate NoFreeNeighbours(blocks: seq<Block>) {
    forall i :: 0 < i < |blocks| ==> blocks[i - 1].Used? || blocks[i].Used?
  }

  ghost predicate HeapOk(start: int, end: int, blocks: seq<Block>) {
    Tiles(start, end, blocks) && NoFreeNeighbours(blocks) && AllAligned(blocks)
  }

  lemma {:induction false} Ordered(start: int, end: int, blocks: seq<Block>, i: int, j: int)
    requires Tiles(start, end, blocks) && 0 <= i < j < |blocks|
    ensures blocks[i].addr + HEADER + Payload(blocks[i]) <= NextAddr(blocks, end, i) <= blocks[j].addr
    decreases j
  {
    assert Sits(blocks, end, i);
    if i + 1 < j {
      Ordered(start, end, blocks, i, j - 1);
      assert Sits(blocks, end, j - 1);
    }
  }

  lemma InHeap(start: int, end: int, blocks: seq<Block>, i: int)
    requires Tiles(start, end, blocks) && 0 <= i < |blocks|
    ensures start <= blocks[i].addr
    ensures blocks[i].addr + HEADER + Payload(blocks[i]) <= NextAddr(blocks, end, i) <= end
  {
    if i > 0 {
      Ordered(start, end, blocks, 0, i);
    }
    var last := |blocks| - 1;
    assert Sits(blocks, end, last);
    if i < last {
      Ordered(start, end, blocks, i, last);
    }
  }

  // ---------- allocation ----------

  /** A free block in which the request fits once its address is aligned. */
  ghost predicate Suits(blocks: seq<Block>, end: int, i: int, size: nat)
    requires 0 <= i < |blocks|
  {
    blocks[i].Free? && Place(blocks[i].addr, size) + size <= NextAddr(blocks, end, i)
  }

  /** The first block that suits, or `|blocks|` when none does. */
  ghost function FirstFit(blocks: seq<Block>, end: int, size: nat): (i: nat)
    ensures i <= |blocks|
    ensures i < |blocks| ==> Suits(blocks, end, i, size)
    ensures forall j :: 0 <= j < i ==> !Suits(blocks, end, j, size)
  {
    FirstFitFrom(blocks, end, size, 0)
  }

  ghost function FirstFitFrom(blocks: seq<Block>, end: int, size: nat, from: nat): (i: nat)
    requires from <= |blocks|
    ensures from <= i <= |blocks|
    ensures i < |blocks| ==> Suits(blocks, end, i, size)
    ensures forall j :: from <= j < i ==> !Suits(blocks, end, j, size)
    decreases |blocks| - from
  {
    if from == |blocks| || Suits(blocks, end, from, size) then from
    else FirstFitFrom(blocks, end, size, from + 1)
  }

  /** Is the gap between the header at `b` and the aligned address `a` wide enough to stay behind as a block (line 76)? */
  predicate GapSplits(b: int, a: int) {
    a - (b + HEADER) - HEADER > 0
  }

  /** Is the rest behind the payload wide enough to become a free block (lines 79 and 105)? */
  predicate TailSplits(a: int, size: nat, next: int) {
    next - a - size - HEADER > 0
  }

  /** What a free block at `b` that reaches up to `next` is cut into when the payload goes to `a`. */
  function Pieces(b: int, a: int, size: nat, next: int): seq<Block> {
    (if GapSplits(b, a) then [Free(b)] else [])
    + [Used(a - HEADER, size)]
    + (if TailSplits(a, size, next) then [Free(a + size)] else [])
  }

  function Splice(blocks: seq<Block>, lo: int, hi: int, mid: seq<Block>): seq<Block>
    requires 0 <= lo <= hi <= |blocks|
  {
    blocks[..lo] + mid + blocks[hi..]
  }

  ghost function Carve(blocks: seq<Block>, end: int, i: int, size: nat): seq<Block>
    requires 0 <= i < |blocks|
  {
    var b := blocks[i].addr;
    Splice(blocks, i, i + 1, Pieces(b, Place(b, size), size, NextAddr(blocks, end, i)))
  }

  /** The block that an allocation hands out of block `i`. */
  ghost function Granted(blocks: seq<Block>, i: int, size: nat): Block
    requires 0 <= i < |blocks|
  {
    Used(Place(blocks[i].addr, size) - HEADER, size)
  }

  // ---------- replacing a stretch of blocks ----------

  /** `mid` lies in order between addresses `from` and `to`. */
  ghost predicate Strip(mid: seq<Block>, from: int, to: int) {
    && |mid| > 0
    && from <= mid[0].addr
    && (forall j :: 0 <= j < |mid| ==> Sits(mid, to, j))
  }

  lemma SpliceTiles(start: int, end: int, blocks: seq<Block>, lo: int, hi: int, mid: seq<Block>)
    requires Tiles(start, end, blocks) && 0 <= lo < hi <= |blocks|
    requires Strip(mid, if lo == 0 then start else blocks[lo].addr, NextAddr(blocks, end, hi - 1))
    requires lo == 0 && mid[0].Free? ==> mid[0].addr == start
    ensures Tiles(start, end, Splice(blocks, lo, hi, mid))
  {
    var after := Splice(blocks, lo, hi, mid);
    forall j | 0 <= j < |after|
      ensures Sits(after, end, j)
    {
      if j < lo {
        assert after[j] == blocks[j];
        assert Sits(blocks, end, j);
      } else if j < lo + |mid| {
        assert after[j] == mid[j - lo];
        assert Sits(mid, NextAddr(blocks, end, hi - 1), j - lo);
      } else {
        var o := j - lo - |mid| + hi;
        assert after[j] == blocks[o];
        assert Sits(blocks, end, o);
      }
    }
    assert lo > 0 ==> after[0] == blocks[0];
    assert lo == 0 ==> after[0] == mid[0];
  }

  lemma SpliceNoFreeNeighbours(blocks: seq<Block>, lo: int, hi: int, mid: seq<Block>)
    requires NoFreeNeighbours(blocks) && NoFreeNeighbours(mid)
    requires 0 <= lo < hi <= |blocks| && |mid| > 0
    requires lo > 0 ==> blocks[lo - 1].Used? || mid[0].Used?
    requires hi < |blocks| ==> mid[|mid| - 1].Used? || blocks[hi].Used?
    ensures NoFreeNeighbours(Splice(blocks, lo, hi, mid))
  {
    var after := Splice(blocks, lo, hi, mid);
    forall j | 0 < j < |after|
      ensures after[j - 1].Used? || after[j].Used?
    {
      if j < lo {
        assert after[j - 1] == blocks[j - 1] && after[j] == blocks[j];
      } else if lo < j < lo + |mid| {
        assert after[j - 1] == mid[j - lo - 1] && after[j] == mid[j - lo];
      } else if lo + |mid| < j {
        var o := j - lo - |mid| + hi;
        assert after[j - 1] == blocks[o - 1] && after[j] == blocks[o];
      }
    }
  }

  // ---------- live allocations ----------

  ghost function Live(blocks: seq<Block>): set<Block> {
    set b | b in blocks && b.Used?
  }

  /** Replacing a stretch exchanges the allocations of that stretch and no others. */
  lemma LiveSplice(start: int, end: int, blocks: seq<Block>, lo: int, hi: int, mid: seq<Block>)
    requires Tiles(start, end, blocks) && 0 <= lo <= hi <= |blocks|
    ensures Live(Splice(blocks, lo, hi, mid)) == Live(blocks) - Live(blocks[lo..hi]) + Live(mid)
  {
    assert blocks == blocks[..lo] + blocks[lo..hi] + blocks[hi..];
    forall x | x in blocks[lo..hi]
      ensures x !in blocks[..lo] && x !in blocks[hi..]
    {
      var k :| lo <= k < hi && blocks[k] == x;
      if x in blocks[..lo] {
        var j :| 0 <= j < lo && blocks[j] == x;
        Ordered(start, end, blocks, j, k);
      }
      if x in blocks[hi..] {
        var j :| hi <= j < |blocks| && blocks[j] == x;
        Ordered(start, end, blocks, k, j);
      }
    }
  }

  /** Payloads of different allocations never meet, and no payload meets any header of the chain. */
  lemma PayloadsApart(start: int, end: int, blocks: seq<Block>, i: int, j: int)
    requires Tiles(start, end, blocks) && 0 <= i < |blocks| && 0 <= j < |blocks| && i != j && blocks[i].Used?
    ensures var p := blocks[i].addr + HEADER;
            var q := blocks[j].addr;
            p + blocks[i].size <= q || q + HEADER + Payload(blocks[j]) <= blocks[i].addr
  {
    if i < j {
      Ordered(start, end, blocks, i, j);
    } else {
      Ordered(start, end, blocks, j, i);
    }
  }

  /** Cutting a free block keeps the heap in order, and exactly one block becomes used. */
  lemma CarveKeepsHeap(start: int, end: int, blocks: seq<Block>, i: int, size: nat)
    requires HeapOk(start, end, blocks) && 0 <= i < |blocks| && Suits(blocks, end, i, size)
    ensures HeapOk(start, end, Carve(blocks, end, i, size))
    ensures Live(Carve(blocks, end, i, size)) == Live(blocks) + {Granted(blocks, i, size)}
  {
    var b := blocks[i].addr;
    var next := NextAddr(blocks, end, i);
    var a := Place(b, size);
    var mid := Pieces(b, a, size, next);
    PlaceIsAligned(b, size);
    PiecesStrip(b, a, size, next);
    SpliceTiles(start, end, blocks, i, i + 1, mid);
    SpliceNoFreeNeighbours(blocks, i, i + 1, mid);
    LiveSplice(start, end, blocks, i, i + 1, mid);
    assert Live(mid) == {Granted(blocks, i, size)};
    assert blocks[i..i + 1] == [blocks[i]];
  }

  lemma PiecesStrip(b: int, a: int, size: nat, next: int)
    requires b + HEADER <= a && a + size <= next && a % Alignment(size) == 0
    ensures var mid := Pieces(b, a, size, next);
            && Strip(mid, b, next)
            && (mid[0].Free? ==> mid[0].addr == b)
            && NoFreeNeighbours(mid) && AllAligned(mid)
  {
  }

  /**
    What a cut leaves unused: at most twelve bytes behind the payload, or the whole rest is a free block; and in front
    of the new header as much, or the found block is still there.
   */
  lemma CutWastesLittle(start: int, end: int, blocks: seq<Block>, i: int, size: nat) returns (j: nat)
    requires HeapOk(start, end, blocks) && 0 <= i < |blocks| && Suits(blocks, end, i, size)
    ensures var after, b, a, next := Carve(blocks, end, i, size), blocks[i].addr, Place(blocks[i].addr, size), NextAddr(blocks, end, i);
            && j < |after| && after[j] == Used(a - 12, size)
            && (if next - (a + size) <= 12 then NextAddr(after, end, j) == next
                else j + 1 < |after| && after[j + 1] == Free(a + size) && NextAddr(after, end, j + 1) == next)
            && (if a - 12 - b <= 12 then j == i else j == i + 1 && after[i] == Free(b))
  {
    var b, a, next := blocks[i].addr, Place(blocks[i].addr, size), NextAddr(blocks, end, i);
    var mid := Pieces(b, a, size, next);
    var after := Splice(blocks, i, i + 1, mid);
    j := if a - 12 - b <= 12 then i else i + 1;
    assert forall k :: 0 <= k < |mid| ==> after[i + k] == mid[k];
    assert i + 1 < |blocks| ==> after[i + |mid|] == blocks[i + 1];
    assert after[j] == mid[j - i];
  }

  // ---------- release ----------

  /** The stretch that giving back used block `i` melts into one free block: free neighbours join it. */
  ghost function MeltLo(blocks: seq<Block>, i: int): int
    requires 0 <= i < |blocks|
  {
    if i > 0 && blocks[i - 1].Free? then i - 1 else i
  }

  ghost function MeltHi(blocks: seq<Block>, i: int): int
    requires 0 <= i < |blocks|
  {
    if i + 1 < |blocks| && blocks[i + 1].Free? then i + 2 else i + 1
  }

  /** The first block always starts the heap once it is free, whatever gap lay before its header (line 148). */
  ghost function Melted(blocks: seq<Block>, start: int, i: int): Block
    requires 0 <= i < |blocks|
  {
    Free(if MeltLo(blocks, i) == 0 then start else blocks[MeltLo(blocks, i)].addr)
  }

  ghost function Release(blocks: seq<Block>, start: int, i: int): seq<Block>
    requires 0 <= i < |blocks|
  {
    Splice(blocks, MeltLo(blocks, i), MeltHi(blocks, i), [Melted(blocks, start, i)])
  }

  /** Giving a block back keeps the heap in order, and exactly that block stops being used. */
  lemma ReleaseKeepsHeap(start: int, end: int, blocks: seq<Block>, i: int)
    requires HeapOk(start, end, blocks) && 0 <= i < |blocks| && blocks[i].Used?
    ensures HeapOk(start, end, Release(blocks, start, i))
    ensures Live(Release(blocks, start, i)) == Live(blocks) - {blocks[i]}
  {
    var lo, hi := MeltLo(blocks, i), MeltHi(blocks, i);
    var mid := [Melted(blocks, start, i)];
    InHeap(start, end, blocks, lo);
    assert Sits(blocks, end, hi - 1);
    if lo < hi - 1 {
      Ordered(start, end, blocks, lo, hi - 1);
    }
    SpliceTiles(start, end, blocks, lo, hi, mid);
    SpliceNoFreeNeighbours(blocks, lo, hi, mid);
    LiveSplice(start, end, blocks, lo, hi, mid);
    assert blocks[i] in blocks[lo..hi];
    assert forall b :: b in blocks[lo..hi] && b.Used? ==> b == blocks[i];
    assert Live(blocks[lo..hi]) == {blocks[i]};
  }

  /** Freeing is complete: with nothing allocated the heap is one free block again. */
  lemma NothingLiveMeansOneFreeBlock(start: int, end: int, blocks: seq<Block>)
    requires HeapOk(start, end, blocks) && Live(blocks) == {}
    ensures blocks == [Free(start)]
  {
    if |blocks| > 1 {
      OneOfTwoUsed(blocks);
    }
    assert forall j :: 0 <= j < |blocks| && blocks[j].Used? ==> blocks[j] in Live(blocks);
  }

  lemma OneOfTwoUsed(blocks: seq<Block>)
    requires NoFreeNeighbours(blocks) && |blocks| > 1
    ensures blocks[0].Used? || blocks[1].Used?
  {
  }

  /** The block at an address. */
  ghost function IndexOf(blocks: seq<Block>, b: Block): (i: nat)
    requires b in blocks
    ensures i < |blocks| && blocks[i] == b
  {
    if blocks[0] == b then 0 else 1 + IndexOf(blocks[1..], b)
  }
}
