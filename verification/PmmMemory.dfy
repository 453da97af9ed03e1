/** The bytes of memory as an i386 sees them: words are four bytes, the lowest first. */
module PmmMemory {
  import opened Words

  /** What memory holds, by address; an address without an entry reads as zero. */
  type Memory = map<int, byte>

  function Byte(m: Memory, k: int): byte {
    if k in m then m[k] else 0
  }

  function Word(m: Memory, a: int): (w: int)
    ensures 0 <= w < TWO_32
    ensures w == 0 <==> Byte(m, a) == 0 && Byte(m, a + 1) == 0 && Byte(m, a + 2) == 0 && Byte(m, a + 3) == 0
  {
    Byte(m, a) + 0x100 * Byte(m, a + 1) + 0x1_0000 * Byte(m, a + 2) + 0x100_0000 * Byte(m, a + 3)
  }

  /** No byte outside [lo, hi) changed. */
  ghost predicate Outside(m: Memory, m': Memory, lo: int, hi: int) {
    forall k {:trigger Byte(m', k)} :: k < lo || k >= hi ==> Byte(m', k) == Byte(m, k)
  }

  ghost predicate SameBytes(m: Memory, m': Memory, lo: int, hi: int) {
    forall k {:trigger Byte(m', k)} :: lo <= k < hi ==> Byte(m', k) == Byte(m, k)
  }

  lemma OutsideTwice(m0: Memory, m1: Memory, m2: Memory, s: int, t: int, n: int, lo: int, hi: int)
    requires Outside(m0, m1, s, s + n) && Outside(m1, m2, t, t + n) && hi <= s && hi <= t
    ensures SameBytes(m0, m2, lo, hi)
  {
    forall k | lo <= k < hi
      ensures Byte(m2, k) == Byte(m0, k)
    {
      assert Byte(m1, k) == Byte(m0, k);
    }
  }

  function StoreByte(m: Memory, a: int, v: byte): (m': Memory)
    ensures Byte(m', a) == v && Outside(m, m', a, a + 1)
  {
    m[a := v]
  }

  /** The i-th byte of a word. */
  function Part(v: int, i: nat): byte {
    (if i == 0 then v else if i == 1 then v / 0x100 else if i == 2 then v / 0x1_0000 else v / 0x100_0000) % 0x100
  }

  function StoreWord(m: Memory, a: int, v: int): (m': Memory)
    ensures Outside(m, m', a, a + 4)
    ensures 0 <= v < TWO_32 ==> Word(m', a) == v
  {
    var m' := m[a := Part(v, 0)][a + 1 := Part(v, 1)][a + 2 := Part(v, 2)][a + 3 := Part(v, 3)];
    PartsMakeWord(v);
    m'
  }

  lemma PartsMakeWord(v: int)
    ensures 0 <= v < TWO_32 ==> v == Part(v, 0) + 0x100 * Part(v, 1) + 0x1_0000 * Part(v, 2) + 0x100_0000 * Part(v, 3)
  {
  }

  lemma StoredPart(m: Memory, a: int, v: int, i: nat)
    requires i < 4
    ensures Byte(StoreWord(m, a, v), a + i) == Part(v, i)
  {
  }

  lemma PartsOfSum(b0: byte, b1: byte, b2: byte, b3: byte)
    ensures var v := b0 + 0x100 * b1 + 0x1_0000 * b2 + 0x100_0000 * b3;
            Part(v, 0) == b0 && Part(v, 1) == b1 && Part(v, 2) == b2 && Part(v, 3) == b3
  {
    var v := b0 + 0x100 * b1 + 0x1_0000 * b2 + 0x100_0000 * b3;
    Residue(v, 0x100, b1 + 0x100 * b2 + 0x1_0000 * b3, b0);
    Residue(b1 + 0x100 * b2 + 0x1_0000 * b3, 0x100, b2 + 0x100 * b3, b1);
    Residue(v, 0x1_0000, b2 + 0x100 * b3, b0 + 0x100 * b1);
    Residue(b2 + 0x100 * b3, 0x100, b3, b2);
    Residue(v, 0x100_0000, b3, b0 + 0x100 * b1 + 0x1_0000 * b2);
  }

  /** What a store puts at `k` depends on what was at `k` and nowhere else. */
  lemma StoreIsLocal(m: Memory, m': Memory, a: int, v: int, k: int)
    requires Byte(m', k) == Byte(m, k)
    ensures Byte(StoreWord(m', a, v), k) == Byte(StoreWord(m, a, v), k)
  {
    if a <= k < a + 4 {
      StoredPart(m, a, v, k - a);
      StoredPart(m', a, v, k - a);
    }
  }

  lemma WordOfSameBytes(m: Memory, m': Memory, a: int)
    requires forall i :: a <= i < a + 4 ==> Byte(m', i) == Byte(m, i)
    ensures Word(m', a) == Word(m, a)
  {
  }

  /** Storing the word that is there changes no byte. */
  lemma StoreSameWord(m: Memory, a: int, k: int)
    ensures Byte(StoreWord(m, a, Word(m, a)), k) == Byte(m, k)
  {
    PartsOfSum(Byte(m, a), Byte(m, a + 1), Byte(m, a + 2), Byte(m, a + 3));
    if a <= k < a + 4 {
      StoredPart(m, a, Word(m, a), k - a);
    }
  }
}
