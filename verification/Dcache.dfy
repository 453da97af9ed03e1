/**
  The tree of dentries and the mount table of src/fs/path.c and src/vfs.c, and the walk of a path over them.
  Dentries and mounts live in stores keyed by address; addresses are handed out in rising order and never reused.
 */
module Dcache {
  import opened Wrappers

  datatype Inode = Inode(uid: int, gid: int, acl: bv16)

  datatype Dentry = Dentry(name: string, parent: int, subdirs: seq<int>, mounted: int, isdir: bool, inode: Inode)

  datatype Mount = Mount(root: int, mountpoint: int, parent: int)

  /**
    `list` is the list of mounts from mnt_head on; `root` and `rootmnt` are root_dentry and &root_mnt.  `roots` holds the
    inodes that file systems will give to the roots of their trees, by the address of the root.
   */
  datatype Vfs = Vfs(d: map<int, Dentry>, m: map<int, Mount>, list: seq<int>, root: int, rootmnt: int, next: int, roots: map<int, Inode>)

  /** struct nameidata */
  datatype Nd = Nd(dentry: int, mnt: int)

  /** `Panic` is the halt with "VFS found a mount issue". */
  datatype Found = NotFound | Panic | At(nd: Nd)

  const NIL: int := 0

  // ---------- one step of a walk ----------

  /** The first entry of a list of siblings with the given name. */
  function ChildIn(d: map<int, Dentry>, siblings: seq<int>, name: string): int {
    if siblings == [] then NIL
    else if siblings[0] in d && d[siblings[0]].name == name then siblings[0]
    else ChildIn(d, siblings[1..], name)
  }

  function Child(v: Vfs, x: int, name: string): int {
    if x in v.d then ChildIn(v.d, v.d[x].subdirs, name) else NIL
  }

  /** The first mount on dentry `c`, which is the last one that was made. */
  function FirstMount(m: map<int, Mount>, list: seq<int>, c: int): int {
    if list == [] then NIL
    else if list[0] in m && m[list[0]].mountpoint == c then list[0]
    else FirstMount(m, list[1..], c)
  }

  /** do_lookup, when the file system knows no names beyond its dentries. */
  function DoLookup(v: Vfs, nd: Nd, name: string): Found {
    var c := Child(v, nd.dentry, name);
    if c !in v.d then NotFound
    else if v.d[c].isdir && v.d[c].mounted != 0 then
      var i := FirstMount(v.m, v.list, c);
      if i !in v.m then Panic else At(Nd(v.m[i].root, i))
    else At(Nd(c, nd.mnt))
  }

  predicate IsTop(v: Vfs, x: int) {
    x in v.d && v.d[x].parent == x
  }

  /** follow_dotdot */
  function DotDot(v: Vfs, nd: Nd): Nd {
    if nd.dentry == v.root || nd.dentry !in v.d then nd
    else
      var at := if IsTop(v, nd.dentry) && nd.mnt in v.m then Nd(v.m[nd.mnt].mountpoint, v.m[nd.mnt].parent) else nd;
      Nd(if at.dentry in v.d then v.d[at.dentry].parent else NIL, at.mnt)
  }

  predicate IsDots(c: string) {
    c == "." || c == ".."
  }

  function Step(v: Vfs, nd: Nd, c: string): Found {
    if c == "." then At(nd) else if c == ".." then At(DotDot(v, nd)) else DoLookup(v, nd, c)
  }

  predicate IsDir(v: Vfs, x: int) {
    x in v.d && v.d[x].isdir
  }

  /** The walk: a left fold of `Step` over the components, in which every step starts from a directory. */
  function Walk(v: Vfs, nd: Nd, comps: seq<string>): Option<Nd>
    decreases |comps|
  {
    if comps == [] then Some(nd)
    else if !IsDir(v, nd.dentry) then None
    else
      match Step(v, nd, comps[0])
      case At(n) => Walk(v, n, comps[1..])
      case _ => None
  }

  /** What a lookup answers: the end of the walk, which must be a directory if asked for. */
  function Resolve(v: Vfs, nd: Nd, comps: seq<string>, mustDir: bool): Option<Nd> {
    match Walk(v, nd, comps)
    case Some(n) => if mustDir && !IsDir(v, n.dentry) then None else Some(n)
    case None => None
  }

  lemma {:induction false} WalkConcat(v: Vfs, nd: Nd, a: seq<string>, b: seq<string>)
    ensures Walk(v, nd, a + b) == match Walk(v, nd, a) case Some(n) => Walk(v, n, b) case None => None
    decreases |a|
  {
    if a == [] {
      assert a + b == b;
    } else {
      assert (a + b)[1..] == a[1..] + b;
      match Step(v, nd, a[0])
      case At(n) => WalkConcat(v, n, a[1..], b);
      case _ =>
    }
  }

  function NoDots(comps: seq<string>): seq<string> {
    if comps == [] then [] else (if comps[0] == "." then [] else [comps[0]]) + NoDots(comps[1..])
  }

  /** A "." matters only at the end of a path, where it asks for a directory. */
  lemma {:induction false} DotsDoNotMatter(v: Vfs, nd: Nd, comps: seq<string>, mustDir: bool)
    requires comps != [] && comps[|comps| - 1] == "." ==> mustDir
    ensures Resolve(v, nd, comps, mustDir) == Resolve(v, nd, NoDots(comps), mustDir)
    decreases |comps|
  {
    if comps != [] {
      var rest := comps[1..];
      assert rest != [] ==> rest[|rest| - 1] == comps[|comps| - 1];
      if comps[0] == "." {
        DotsDoNotMatter(v, nd, rest, mustDir);
        assert [] + NoDots(rest) == NoDots(rest);
        if !IsDir(v, nd.dentry) {
          assert NoDots(rest) == [] || Walk(v, nd, NoDots(rest)) == None;
          if NoDots(rest) == [] && rest != [] {
            OnlyDots(rest);
          }
        }
      } else {
        assert ([comps[0]] + NoDots(rest))[1..] == NoDots(rest);
        match Step(v, nd, comps[0])
        case At(n) => DotsDoNotMatter(v, n, rest, mustDir);
        case _ =>
      }
    }
  }

  lemma {:induction false} OnlyDots(comps: seq<string>)
    requires NoDots(comps) == [] && comps != []
    ensures comps[|comps| - 1] == "."
  {
    if |comps| > 1 {
      OnlyDots(comps[1..]);
    }
  }

  // ---------- the invariant ----------

  /** The top of the tree that holds dentry `x`. */
  function Top(d: map<int, Dentry>, x: int): int
    decreases x
  {
    if x in d && 0 <= d[x].parent < x then Top(d, d[x].parent) else x
  }

  /** How many mounts of the list, other than the root mount, are on dentry `c`. */
  function Mounts(v: Vfs, list: seq<int>, c: int): nat {
    if list == [] then 0
    else (if list[0] in v.m && list[0] != v.rootmnt && v.m[list[0]].mountpoint == c then 1 else 0) + Mounts(v, list[1..], c)
  }

  ghost predicate DistinctNames(d: map<int, Dentry>, siblings: seq<int>) {
    forall i, j :: 0 <= i < j < |siblings| && siblings[i] in d && siblings[j] in d ==> d[siblings[i]].name != d[siblings[j]].name
  }

  ghost predicate DentryOk(v: Vfs, x: int)
    requires x in v.d
  {
    var e := v.d[x];
    && NIL < x < v.next
    && NIL < e.parent <= x && e.parent in v.d && v.d[e.parent].isdir
    && (e.parent != x ==> x in v.d[e.parent].subdirs && !IsDots(e.name))
    && (forall c :: c in e.subdirs ==> c in v.d && v.d[c].parent == x && x < c)
    && (e.subdirs != [] ==> e.isdir)
    && DistinctNames(v.d, e.subdirs)
    && e.mounted == Mounts(v, v.list, x)
  }

  ghost predicate MountOk(v: Vfs, i: int)
  {
    && NIL < i < v.next && i in v.m && IsTop(v, v.m[i].root)
    && (i == v.rootmnt ==> v.m[i].root == v.root)
    && (i != v.rootmnt ==>
          && v.m[i].root != v.root
          && IsDir(v, v.m[i].mountpoint) && !IsTop(v, v.m[i].mountpoint)
          && v.m[i].mountpoint < v.m[i].root && v.m[i].parent < i
          && v.m[i].parent in v.list && v.m[i].parent in v.m
          && Top(v.d, v.m[i].mountpoint) == v.m[v.m[i].parent].root)
  }

  ghost predicate SameRootSameMount(v: Vfs, i: int, j: int) {
    i in v.list && j in v.list && i in v.m && j in v.m && v.m[i].root == v.m[j].root ==> i == j
  }

  ghost predicate Ok(v: Vfs) {
    && IsTop(v, v.root) && v.rootmnt in v.list && v.rootmnt in v.m && v.m[v.rootmnt].mountpoint == v.root
    && (forall x {:trigger DentryOk(v, x)} :: x in v.d ==> DentryOk(v, x))
    && (forall i {:trigger MountOk(v, i)} :: i in v.list ==> MountOk(v, i))
    && (forall i, j :: SameRootSameMount(v, i, j))
    && (forall i :: i in v.m ==> i in v.list)
    && Distinct(v.list)
  }

  ghost predicate Distinct(list: seq<int>) {
    forall i, j :: 0 <= i < j < |list| ==> list[i] != list[j]
  }

  /** nd->mnt always owns the tree that holds nd->dentry. */
  ghost predicate NdOk(v: Vfs, nd: Nd) {
    nd.dentry in v.d && nd.mnt in v.list && nd.mnt in v.m && Top(v.d, nd.dentry) == v.m[nd.mnt].root
  }

  /** Addresses in use are below the next one to be handed out. */
  lemma NextIsFresh(v: Vfs)
    requires Ok(v)
    ensures forall x :: x in v.d ==> NIL < x < v.next
    ensures forall i :: i in v.list || i in v.m ==> NIL < i < v.next
    ensures NIL < v.next
  {
    forall x | x in v.d
      ensures NIL < x < v.next
    {
      assert DentryOk(v, x);
    }
    forall i | i in v.list || i in v.m
      ensures NIL < i < v.next
    {
      assert MountOk(v, i);
    }
  }

  // ---------- steps keep it ----------

  lemma {:induction false} ChildIsSibling(d: map<int, Dentry>, siblings: seq<int>, name: string)
    ensures var c := ChildIn(d, siblings, name);
            if c == NIL then true else c in siblings && c in d && d[c].name == name
  {
    if siblings != [] && !(siblings[0] in d && d[siblings[0]].name == name) {
      ChildIsSibling(d, siblings[1..], name);
    }
  }

  lemma {:induction false} FirstMountIsListed(v: Vfs, list: seq<int>, c: int)
    ensures var i := FirstMount(v.m, list, c);
            i != NIL ==> i in list && i in v.m && v.m[i].mountpoint == c
    ensures Mounts(v, list, c) > 0 && NIL !in list ==> FirstMount(v.m, list, c) != NIL
  {
    if list != [] {
      assert list[0] in list;
      FirstMountIsListed(v, list[1..], c);
    }
  }

  lemma ChildFacts(v: Vfs, x: int, name: string)
    requires Ok(v) && x in v.d && Child(v, x, name) in v.d
    ensures var c := Child(v, x, name);
            c != NIL && v.d[c].parent == x && x < c && v.d[c].name == name && v.d[x].isdir && c in v.d[x].subdirs
  {
    assert DentryOk(v, x) && DentryOk(v, Child(v, x, name));
    ChildIsSibling(v.d, v.d[x].subdirs, name);
  }

  /** The mount that a step by name crosses into. */
  lemma CrossingFacts(v: Vfs, c: int)
    requires Ok(v) && c in v.d && v.d[c].mounted != 0 && v.d[c].parent < c
    ensures var i := FirstMount(v.m, v.list, c);
            && i in v.list && i in v.m && i != v.rootmnt && v.m[i].mountpoint == c && MountOk(v, i)
  {
    assert DentryOk(v, c);
    FirstMountIsListed(v, v.list, c);
    NextIsFresh(v);
    assert MountOk(v, FirstMount(v.m, v.list, c));
  }

  /** A dentry that is mounted on always has its mount in the list, so the lookup never panics. */
  lemma LookupNeverPanics(v: Vfs, nd: Nd, name: string)
    requires Ok(v) && nd.dentry in v.d
    ensures DoLookup(v, nd, name) != Panic
  {
    var c := Child(v, nd.dentry, name);
    if c in v.d {
      ChildFacts(v, nd.dentry, name);
      if v.d[c].isdir && v.d[c].mounted != 0 {
        CrossingFacts(v, c);
      }
    }
  }

  lemma TopOfTop(v: Vfs, x: int)
    requires IsTop(v, x)
    ensures Top(v.d, x) == x
  {
  }

  lemma {:induction false} TopIsTop(v: Vfs, x: int)
    requires Ok(v) && x in v.d
    ensures IsTop(v, Top(v.d, x)) && Top(v.d, x) <= x
    decreases x
  {
    assert DentryOk(v, x);
    if v.d[x].parent < x {
      TopIsTop(v, v.d[x].parent);
    }
  }

  /** Looking up a name leads to a dentry that the new mount owns. */
  lemma LookupKeepsNdOk(v: Vfs, nd: Nd, name: string)
    requires Ok(v) && NdOk(v, nd) && DoLookup(v, nd, name).At?
    ensures NdOk(v, DoLookup(v, nd, name).nd)
  {
    var c := Child(v, nd.dentry, name);
    ChildFacts(v, nd.dentry, name);
    assert DentryOk(v, c) && DentryOk(v, nd.dentry);
    if v.d[c].isdir && v.d[c].mounted != 0 {
      CrossingFacts(v, c);
      TopOfTop(v, v.m[FirstMount(v.m, v.list, c)].root);
    }
  }

  lemma DotDotKeepsNdOk(v: Vfs, nd: Nd)
    requires Ok(v) && NdOk(v, nd)
    ensures NdOk(v, DotDot(v, nd)) && (IsDir(v, nd.dentry) ==> IsDir(v, DotDot(v, nd).dentry))
  {
    assert DentryOk(v, nd.dentry) && MountOk(v, nd.mnt);
    if nd.dentry != v.root && IsTop(v, nd.dentry) {
      TopOfTop(v, nd.dentry);
      assert MountOk(v, v.m[nd.mnt].parent);
      assert DentryOk(v, v.m[nd.mnt].mountpoint);
    }
  }

  /** From the root of a mounted tree, ".." leads beside its mountpoint. */
  lemma DotDotFromMount(v: Vfs, i: int)
    requires Ok(v) && i in v.list && i in v.m && i != v.rootmnt
    ensures v.m[i].mountpoint in v.d && DotDot(v, Nd(v.m[i].root, i)) == Nd(v.d[v.m[i].mountpoint].parent, v.m[i].parent)
  {
    assert MountOk(v, i);
  }

  /** ".." takes back any step by name, also across a mount. */
  lemma DotDotUndoesLookup(v: Vfs, nd: Nd, name: string)
    requires Ok(v) && NdOk(v, nd) && DoLookup(v, nd, name).At?
    ensures DotDot(v, DoLookup(v, nd, name).nd) == nd
  {
    var c := Child(v, nd.dentry, name);
    ChildFacts(v, nd.dentry, name);
    if v.d[c].isdir && v.d[c].mounted != 0 {
      CrossingFacts(v, c);
      var i := FirstMount(v.m, v.list, c);
      DotDotFromMount(v, i);
      assert DentryOk(v, nd.dentry);
      assert Top(v.d, c) == Top(v.d, nd.dentry);
      assert SameRootSameMount(v, v.m[i].parent, nd.mnt);
      assert v.m[i].parent == nd.mnt && v.d[c].parent == nd.dentry;
      assert DoLookup(v, nd, name) == At(Nd(v.m[i].root, i));
    } else {
      assert c != v.root && !IsTop(v, c) && v.d[c].parent == nd.dentry;
      assert DoLookup(v, nd, name) == At(Nd(c, nd.mnt));
    }
  }

  lemma StepKeepsNdOk(v: Vfs, nd: Nd, c: string)
    requires Ok(v) && NdOk(v, nd) && Step(v, nd, c).At?
    ensures NdOk(v, Step(v, nd, c).nd)
  {
    if c == ".." {
      DotDotKeepsNdOk(v, nd);
    } else if c != "." {
      LookupKeepsNdOk(v, nd, c);
    }
  }

  lemma {:induction false} WalkKeepsNdOk(v: Vfs, nd: Nd, comps: seq<string>)
    requires Ok(v) && NdOk(v, nd) && Walk(v, nd, comps).Some?
    ensures NdOk(v, Walk(v, nd, comps).value)
    decreases |comps|
  {
    if comps != [] {
      StepKeepsNdOk(v, nd, comps[0]);
      WalkKeepsNdOk(v, Step(v, nd, comps[0]).nd, comps[1..]);
    }
  }
}
