/** File contents of src/fs/kvfs.c: every file is a growable buffer behind a slot of one table. */
module Kvfs {
  import opened Words

  const KVFS_MAX_FILE: int := 1024
  const O_WRONLY: bv32 := 0x2
  const O_APPEND: bv32 := 0x10
  const NEWLINE: int := 10

  // ---------- byte sequences ----------

  /** `s` with `b` laid over it at `p`; bytes between the end of `s` and `p` are zero. */
  function Overlay(s: seq<byte>, p: nat, b: seq<byte>): (r: seq<byte>)
  {
    seq(if p + |b| > |s| then p + |b| else |s|,
        k requires k >= 0 => if p <= k < p + |b| then b[k - p] else if k < |s| then s[k] else 0)
  }

  /** What a read of at most `n` bytes at `p` delivers: a short read is filled up by one newline. */
  function Delivered(s: seq<byte>, p: nat, n: nat): seq<byte> {
    var got := if p >= |s| then [] else if p + n <= |s| then s[p..p + n] else s[p..];
    if |got| < n then got + [NEWLINE] else got
  }

  /** The rest of the file as far as asked for, and behind the end of the file one newline. */
  lemma DeliveredExactly(s: seq<byte>, p: nat, n: nat)
    ensures var buf, rest := Delivered(s, p, n), if p < |s| then |s| - p else 0;
            && |buf| == (if n <= rest then n else rest + 1)
            && (forall k :: 0 <= k < |buf| && k < rest ==> buf[k] == s[p + k])
            && (n > rest ==> buf[rest] == 10)
  {
  }

  /** What was written is read back, whatever was there before; when more is asked for at the end of the file, with a newline. */
  lemma WrittenIsReadBack(s: seq<byte>, p: nat, b: seq<byte>, more: nat)
    ensures b <= Delivered(Overlay(s, p, b), p, |b| + more)
    ensures more == 0 ==> Delivered(Overlay(s, p, b), p, |b| + more) == b
    ensures more > 0 && p + |b| >= |s| ==> Delivered(Overlay(s, p, b), p, |b| + more) == b + [10]
  {
    var t := Overlay(s, p, b);
    DeliveredExactly(t, p, |b| + more);
    assert forall k :: 0 <= k < |b| ==> t[p + k] == b[k];
  }

  lemma AppendedAtTheEnd(s: seq<byte>, b: seq<byte>)
    ensures Overlay(s, |s|, b) == s + b
  {
  }

  /** A record written in two pieces is the record written at once. */
  lemma PiecewiseWrite(s: seq<byte>, p: nat, a: seq<byte>, b: seq<byte>)
    ensures Overlay(Overlay(s, p, a), p + |a|, b) == Overlay(s, p, a + b)
  {
    var l, r := Overlay(Overlay(s, p, a), p + |a|, b), Overlay(s, p, a + b);
    assert |l| == |r|;
    forall k | 0 <= k < |l|
      ensures l[k] == r[k]
    {
    }
  }

  /** Writes to ranges that do not meet can be exchanged. */
  lemma DisjointWritesCommute(s: seq<byte>, p: nat, a: seq<byte>, q: nat, b: seq<byte>)
    requires p + |a| <= q
    ensures Overlay(Overlay(s, p, a), q, b) == Overlay(Overlay(s, q, b), p, a)
  {
  }

  // ---------- whole histories of writes ----------

  datatype Patch = Patch(at: nat, bytes: seq<byte>)

  /** The contents after some writes to contents `s`. */
  function Replay(s: seq<byte>, writes: seq<Patch>): seq<byte> {
    if writes == [] then s
    else
      var last := writes[|writes| - 1];
      Overlay(Replay(s, writes[..|writes| - 1]), last.at, last.bytes)
  }

  predicate Covers(w: Patch, k: nat) {
    w.at <= k < w.at + |w.bytes|
  }

  /** Over any history every byte is the one that was written to its place last. */
  lemma {:induction false} LastWriteWins(s: seq<byte>, writes: seq<Patch>, k: nat, i: nat)
    requires i < |writes| && Covers(writes[i], k)
    requires forall j :: i < j < |writes| ==> !Covers(writes[j], k)
    ensures k < |Replay(s, writes)| && Replay(s, writes)[k] == writes[i].bytes[k - writes[i].at]
    decreases |writes|
  {
    if i < |writes| - 1 {
      LastWriteWins(s, writes[..|writes| - 1], k, i);
    }
  }

  /** Bytes that no write ever reached are the original ones, or zero where the file had not been. */
  lemma {:induction false} NeverWritten(s: seq<byte>, writes: seq<Patch>, k: nat)
    requires k < |Replay(s, writes)| && forall j :: 0 <= j < |writes| ==> !Covers(writes[j], k)
    ensures Replay(s, writes)[k] == if k < |s| then s[k] else 0
    decreases |writes|
  {
    if writes != [] {
      var before := writes[..|writes| - 1];
      if k < |Replay(s, before)| {
        NeverWritten(s, before, k);
      } else {
        LengthGrows(s, before);
      }
    }
  }

  /** The contents end where the original ones did or where some write did, whichever is furthest. */
  lemma {:induction false} LengthGrows(s: seq<byte>, writes: seq<Patch>)
    ensures |s| <= |Replay(s, writes)|
    ensures forall i :: 0 <= i < |writes| ==> writes[i].at + |writes[i].bytes| <= |Replay(s, writes)|
    ensures |Replay(s, writes)| == |s| || exists i :: 0 <= i < |writes| && |Replay(s, writes)| == writes[i].at + |writes[i].bytes|
    decreases |writes|
  {
    if writes != [] {
      var before, last := writes[..|writes| - 1], writes[|writes| - 1];
      LengthGrows(s, before);
      if |Replay(s, writes)| == |Replay(s, before)| && |Replay(s, before)| != |s| {
        var i :| 0 <= i < |before| && |Replay(s, before)| == before[i].at + |before[i].bytes|;
        assert writes[i] == before[i];
      }
    }
  }

  // ---------- the driver ----------

  /** struct kvfs_file_node: `buf` spans from `start` to `end`. */
  datatype Slot = Slot(inuse: bool, buf: array?<byte>)

  class Inode {
    var ino: int
    var size: int

    constructor ()
    {
      ino, size := -1, 0;
    }
  }

  class File {
    const inode: Inode
    const mode: bv32
    var pos: int

    constructor (inode: Inode, mode: bv32)
      ensures this.inode == inode && this.mode == mode && pos == 0
    {
      this.inode, this.mode, pos := inode, mode, 0;
    }

    /** kvfs_llseek with SEEK_SET, SEEK_CUR, SEEK_END, or anything else. */
    method Seek(offset: int, whence: int) returns (r: int)
      modifies this`pos
      ensures pos == match whence case 0 => offset case 1 => old(pos) + offset case 2 => inode.size + offset case _ => old(pos)
      ensures r == if 0 <= whence <= 2 then pos else -1
    {
      match whence
      case 0 => pos := offset; r := pos;
      case 1 => pos := pos + offset; r := pos;
      case 2 => pos := inode.size + offset; r := pos;
      case _ => r := -1;
    }
  }

  class Kvfs {
    const files: array<Slot>

    ghost function Buffers(): set<object>
      reads this, files
    {
      set i | 0 <= i < files.Length && files[i].buf != null :: files[i].buf
    }

    /** No two slots share a buffer. */
    ghost predicate Valid()
      reads this, files
    {
      && files.Length == KVFS_MAX_FILE
      && forall i, j :: 0 <= i < j < files.Length && files[i].buf != null ==> files[i].buf != files[j].buf
    }

    ghost function Contents(i: int): seq<byte>
      requires 0 <= i < files.Length
      reads this, files, Buffers()
    {
      Bytes(files[i].buf)
    }

    static ghost function Bytes(buf: array?<byte>): seq<byte>
      reads buf
    {
      if buf == null then [] else buf[..]
    }

    /** An inode that kvfs_create set up and kvfs_write kept. */
    ghost predicate Holds(ip: Inode)
      reads this, files, Buffers(), ip
    {
      0 <= ip.ino < files.Length && files[ip.ino].inuse && ip.size == |Contents(ip.ino)|
    }

    constructor ()
      ensures Valid() && fresh(files) && forall i :: 0 <= i < files.Length ==> files[i] == Slot(false, null)
    {
      files := new Slot[KVFS_MAX_FILE](_ => Slot(false, null));
    }

    /** kvfs_create: the first slot that is free, or failure when there is none. */
    method Create(ip: Inode) returns (failed: bool)
      requires Valid()
      modifies files, ip
      ensures Valid()
      ensures failed <==> forall i :: 0 <= i < files.Length ==> old(files[i].inuse)
      ensures failed ==> files[..] == old(files[..]) && ip.ino == old(ip.ino) && ip.size == old(ip.size)
      ensures !failed ==>
                && Holds(ip) && ip.size == 0 && !old(files[..])[ip.ino].inuse
                && (forall j :: 0 <= j < ip.ino ==> old(files[j].inuse))
                && files[..] == old(files[..])[ip.ino := Slot(true, null)]
    {
      var i := 0;
      while i < KVFS_MAX_FILE && files[i].inuse
        invariant 0 <= i <= KVFS_MAX_FILE
        invariant forall j :: 0 <= j < i ==> files[j].inuse
      {
        i := i + 1;
      }
      if i >= KVFS_MAX_FILE {
        return true;
      }
      files[i] := Slot(true, null);
      ip.ino := i;
      ip.size := 0;
      return false;
    }

    /** kvfs_read does not move the position. */
    method Read(fp: File, count: nat) returns (buf: seq<byte>)
      requires Valid() && Holds(fp.inode) && fp.pos >= 0
      ensures buf == Delivered(Contents(fp.inode.ino), fp.pos, count)
      ensures var s, p := Contents(fp.inode.ino), fp.pos;
              var rest := if p < |s| then |s| - p else 0;
              && |buf| == (if count <= rest then count else rest + 1)
              && (forall k :: 0 <= k < |buf| && k < rest ==> buf[k] == s[p + k])
              && (count > rest ==> buf[rest] == 10)
    {
      var from := files[fp.inode.ino].buf;
      var end := if from == null then 0 else from.Length;
      var at := fp.pos;
      buf := [];
      while end - at > 0 && |buf| < count
        invariant at == fp.pos + |buf| && |buf| <= count
        invariant |buf| > 0 ==> at <= end
        invariant forall k :: 0 <= k < |buf| ==> buf[k] == Contents(fp.inode.ino)[fp.pos + k]
        decreases end - at
      {
        buf := buf + [from[at]];
        at := at + 1;
      }
      if |buf| < count {
        buf := buf + [NEWLINE];
      }
      DeliveredExactly(Contents(fp.inode.ino), fp.pos, count);
    }

    /** Lines 240-250: a buffer with `b` laid over the old one at `p`, the old one itself when it is long enough. */
    static method Lay(buf: array?<byte>, size: int, p: nat, b: seq<byte>) returns (r: array?<byte>)
      requires size == |Bytes(buf)|
      modifies if buf == null then {} else {buf}
      ensures r == buf || fresh(r)
      ensures Bytes(r) == Overlay(old(Bytes(buf)), p, b)
    {
      r := buf;
      if p + |b| > size {
        r := new byte[p + |b|](k => 0);
        if buf != null {
          forall k | 0 <= k < size {
            r[k] := buf[k];
          }
        }
      }
      if r != null {
        forall k | 0 <= k < |b| {
          r[p + k] := b[k];
        }
      }
      assert Bytes(r) == Overlay(old(Bytes(buf)), p, b);
    }

    /**
      kvfs_write.  With O_APPEND the position first moves to the end, even when writing is not permitted; a
      permitted write lays the bytes over the contents there, and no other file changes.
     */
    method Write(fp: File, b: seq<byte>) returns (count: int)
      requires Valid() && Holds(fp.inode) && (fp.mode & O_APPEND != 0 || fp.pos >= 0)
      modifies files, fp, fp.inode, Buffers()
      ensures Valid() && Holds(fp.inode) && fp.inode.ino == old(fp.inode.ino)
      ensures var p := if fp.mode & O_APPEND != 0 then old(fp.inode.size) else old(fp.pos);
              if fp.mode & O_WRONLY == 0 then
                count == 0 && fp.pos == p && Contents(fp.inode.ino) == old(Contents(fp.inode.ino))
              else
                count == |b| && fp.pos == p + |b|
                && Contents(fp.inode.ino) == Overlay(old(Contents(fp.inode.ino)), p, b)
      ensures forall i :: 0 <= i < files.Length && i != fp.inode.ino ==>
                files[i] == old(files[i]) && Contents(i) == old(Contents(i))
    {
      var i := fp.inode.ino;
      var buf := files[i].buf;
      if fp.mode & O_APPEND != 0 {
        fp.pos := fp.inode.size;
      }
      if fp.mode & O_WRONLY == 0 {
        return 0;
      }
      var p := fp.pos;
      buf := Lay(buf, fp.inode.size, p, b);
      if fp.inode.size < p + |b| {
        fp.inode.size := p + |b|;
      }
      files[i] := Slot(files[i].inuse, buf);
      fp.pos := fp.pos + |b|;
      return |b|;
    }

    /** Writing and going back to where it was written. */
    method WriteAndRewind(fp: File, b: seq<byte>) returns (n: int)
      requires Valid() && Holds(fp.inode) && fp.pos >= 0 && fp.mode & O_WRONLY != 0
      modifies files, fp, fp.inode, Buffers()
      ensures Valid() && Holds(fp.inode) && n == |b|
      ensures fp.pos == old(if fp.mode & O_APPEND != 0 then fp.inode.size else fp.pos)
      ensures fp.pos >= 0 && Contents(fp.inode.ino) == Overlay(old(Contents(fp.inode.ino)), fp.pos, b)
    {
      n := Write(fp, b);
      var at := fp.Seek(-n, 1);
    }

    /**
      Writing, going back and reading delivers what was written; when more is asked for and the file ends there, then
      one newline behind it.
     */
    method WriteThenRead(fp: File, b: seq<byte>, more: nat) returns (r: seq<byte>)
      requires Valid() && Holds(fp.inode) && fp.pos >= 0 && fp.mode & O_WRONLY != 0
      modifies files, fp, fp.inode, Buffers()
      ensures b <= r
      ensures more == 0 ==> r == b
      ensures more > 0 && (fp.mode & O_APPEND != 0 || old(fp.pos) + |b| >= old(fp.inode.size)) ==> r == b + [10]
    {
      ghost var s := Contents(fp.inode.ino);
      var n := WriteAndRewind(fp, b);
      r := Read(fp, n + more);
      WrittenIsReadBack(s, fp.pos, b, more);
    }
  }
}
