/** Mounting and unmounting: the state changes of vfs_mount and vfs_unmount in src/vfs.c and what walks see of them. */
module DcacheMount {
  import opened Dcache
  import opened Wrappers
  import opened DcacheMake

  const ROOT_ACL: bv16 := 0x0755

  /** The inode that the file system's own mount function gives to a new root. */
  function RootInode(v: Vfs): Inode {
    if v.next in v.roots then v.roots[v.next] else Inode(0, 0, ROOT_ACL)
  }

  /** Lines 137-152 for a resolved directory: a tree with an empty root is hung on it. */
  function MountStep(v: Vfs, nd: Nd): Vfs
    requires nd.dentry in v.d
  {
    var root, id := v.next, v.next + 1;
    v.(d := v.d[root := Dentry("", root, [], 0, true, RootInode(v))]
              [nd.dentry := v.d[nd.dentry].(mounted := v.d[nd.dentry].mounted + 1)],
       m := v.m[id := Mount(root, nd.dentry, nd.mnt)], list := [id] + v.list, next := v.next + 2)
  }

  /** Where walks continue that step onto the mountpoint. */
  function NewRoot(v: Vfs): Nd {
    Nd(v.next, v.next + 1)
  }

  function Without(list: seq<int>, i: int): seq<int> {
    if list == [] then [] else if list[0] == i then list[1..] else [list[0]] + Without(list[1..], i)
  }

  /** Lines 193-206 for a mount that was found. */
  function UnmountStep(v: Vfs, i: int): Vfs
    requires i in v.m && v.m[i].mountpoint in v.d
  {
    var c := v.m[i].mountpoint;
    v.(d := v.d[c := v.d[c].(mounted := v.d[c].mounted - 1)], m := v.m - {i}, list := Without(v.list, i))
  }

  // ---------- mounting ----------

  lemma {:induction false} MountsAgree(v: Vfs, v': Vfs, list: seq<int>, c: int)
    requires v'.rootmnt == v.rootmnt && forall i :: i in list ==> i in v.m && i in v'.m && v'.m[i] == v.m[i]
    ensures Mounts(v', list, c) == Mounts(v, list, c)
    ensures FirstMount(v'.m, list, c) == FirstMount(v.m, list, c)
  {
    if list != [] {
      assert list[0] in list;
      MountsAgree(v, v', list[1..], c);
    }
  }

  /** In the list of mounts nothing but the new mount changed. */
  lemma OldMountsAgree(v: Vfs, nd: Nd, c: int)
    requires Ok(v) && nd.dentry in v.d
    ensures var v' := MountStep(v, nd);
            && Mounts(v', v'.list, c) == (if c == nd.dentry then 1 else 0) + Mounts(v, v.list, c)
            && FirstMount(v'.m, v'.list, c) == if c == nd.dentry then v.next + 1 else FirstMount(v.m, v.list, c)
  {
    var v' := MountStep(v, nd);
    NextIsFresh(v);
    forall i | i in v.list
      ensures i in v.m && i < v.next
    {
      assert MountOk(v, i);
    }
    assert v'.list[1..] == v.list;
    MountsAgree(v, v', v.list, c);
    assert v.rootmnt in v.list;
  }

  lemma NewIdsAreFree(v: Vfs)
    requires Ok(v)
    ensures v.next !in v.d && NIL !in v.d && v.next != NIL && v.next + 1 !in v.m
  {
    NextIsFresh(v);
  }

  /** A dentry that was there before the mount: only the count of the mountpoint changes. */
  lemma MountedEntry(v: Vfs, at: Nd, x: int)
    requires at.dentry in v.d && x in v.d && x != v.next
    ensures x in MountStep(v, at).d
    ensures MountStep(v, at).d[x] == v.d[x].(mounted := v.d[x].mounted + if x == at.dentry then 1 else 0)
  {
  }

  /**
    An empty tree hangs on the directory of `at`: its root is a nameless directory, its own parent; the mount is the
    first of the list and leads back to the mount that was crossed before; the directory counts one mount more.
   */
  ghost predicate MountedAt(v: Vfs, at: Nd, v': Vfs)
    requires at.dentry in v.d
  {
    var x, j := v.next, v.next + 1;
    && v' == v.(d := v'.d, m := v'.m, list := [j] + v.list, next := x + 2)
    && (forall y :: y in v'.d <==> y in v.d || y == x)
    && (forall y :: y in v.d && y in v'.d ==>
          v'.d[y] == v.d[y].(mounted := v.d[y].mounted + if y == at.dentry then 1 else 0))
    && v'.d[x] == Dentry("", x, [], 0, true, if x in v.roots then v.roots[x] else Inode(0, 0, 0x0755))
    && (forall i :: i in v'.m <==> i in v.m || i == j)
    && (forall i :: i in v.m && i in v'.m ==> v'.m[i] == v.m[i]) && v'.m[j] == Mount(x, at.dentry, at.mnt)
  }

  lemma MountedExactly(v: Vfs, at: Nd)
    requires Ok(v) && at.dentry in v.d
    ensures MountedAt(v, at, MountStep(v, at))
  {
    NewIdsAreFree(v);
  }

  lemma MountedChildren(v: Vfs, nd: Nd, y: int, name: string)
    requires Ok(v) && nd.dentry in v.d && y in v.d
    ensures Child(MountStep(v, nd), y, name) == Child(v, y, name)
  {
    var v' := MountStep(v, nd);
    NextIsFresh(v);
    assert DentryOk(v, y);
    forall c | c in v.d[y].subdirs
      ensures c in v'.d && v'.d[c].name == v.d[c].name
    {
      assert DentryOk(v, c);
    }
    ChildInFrame(v.d, v'.d, v.d[y].subdirs, name);
  }

  lemma MountedDentryOk(v: Vfs, nd: Nd, y: int)
    requires Ok(v) && IsDir(v, nd.dentry) && y in MountStep(v, nd).d
    ensures DentryOk(MountStep(v, nd), y)
  {
    if y == v.next {
      MountedRootOk(v, nd);
    } else {
      OldDentryOk(v, nd, y);
    }
  }

  lemma MountedRootOk(v: Vfs, nd: Nd)
    requires Ok(v) && IsDir(v, nd.dentry)
    ensures DentryOk(MountStep(v, nd), v.next)
  {
    NextIsFresh(v);
    OldMountsAgree(v, nd, v.next);
    forall i | i in v.list && i in v.m && i != v.rootmnt
      ensures v.m[i].mountpoint != v.next
    {
      assert MountOk(v, i);
    }
    NotMountedOn(v, v.list, v.next);
  }

  /** `x` has the same name and place in both trees. */
  ghost predicate SamePlace(d: map<int, Dentry>, d': map<int, Dentry>, x: int) {
    x in d ==> x in d' && d[x].(mounted := 0) == d'[x].(mounted := 0)
  }

  /** When only counts of mounts change, a dentry whose own count is right stays in order. */
  lemma SamePlaceSameOrder(v: Vfs, v': Vfs, y: int)
    requires y in v.d && DentryOk(v, y) && v.next <= v'.next && forall x :: SamePlace(v.d, v'.d, x)
    requires y in v'.d && v'.d[y].mounted == Mounts(v', v'.list, y)
    ensures DentryOk(v', y)
  {
    var e := v.d[y];
    assert SamePlace(v.d, v'.d, y) && SamePlace(v.d, v'.d, e.parent);
    forall c | c in e.subdirs
      ensures c in v'.d && v'.d[c].parent == y && v'.d[c].name == v.d[c].name
    {
      assert SamePlace(v.d, v'.d, c);
    }
    SameNamesDistinct(v.d, v'.d, e.subdirs);
  }

  lemma SameNamesDistinct(d: map<int, Dentry>, d': map<int, Dentry>, siblings: seq<int>)
    requires DistinctNames(d, siblings) && forall c :: c in siblings ==> c in d && c in d' && d'[c].name == d[c].name
    ensures DistinctNames(d', siblings)
  {
    forall i, j | 0 <= i < j < |siblings| && siblings[i] in d' && siblings[j] in d'
      ensures d'[siblings[i]].name != d'[siblings[j]].name
    {
      var a, b := siblings[i], siblings[j];
      assert a in siblings && b in siblings;
      assert d[a].name != d[b].name;
    }
  }

  lemma OldDentryOk(v: Vfs, nd: Nd, y: int)
    requires Ok(v) && IsDir(v, nd.dentry) && y in v.d
    ensures y in MountStep(v, nd).d && DentryOk(MountStep(v, nd), y)
  {
    var v' := MountStep(v, nd);
    NewIdsAreFree(v);
    forall x
      ensures SamePlace(v.d, v'.d, x)
    {
      if x in v.d {
        MountedEntry(v, nd, x);
      }
    }
    assert DentryOk(v, y);
    OldMountsAgree(v, nd, y);
    MountedEntry(v, nd, y);
    SamePlaceSameOrder(v, v', y);
  }

  lemma MountedMountOk(v: Vfs, nd: Nd, i: int)
    requires Ok(v) && NdOk(v, nd) && IsDir(v, nd.dentry) && i in MountStep(v, nd).list
    ensures i != v.next + 1 ==> MountOk(MountStep(v, nd), i)
    ensures i == v.next + 1 ==> (MountOk(MountStep(v, nd), i) <==> !IsTop(v, nd.dentry))
  {
    var v' := MountStep(v, nd);
    NextIsFresh(v);
    forall y | y in v.d
      ensures y in v'.d && v'.d[y].parent == v.d[y].parent
    {
    }
    if i == v.next + 1 {
      assert MountOk(v, v.rootmnt) && DentryOk(v, v.root) && MountOk(v, nd.mnt);
      TopFrame(v, v'.d, nd.dentry);
    } else {
      assert i in v.list;
      assert MountOk(v, i);
      if i != v.rootmnt {
        assert MountOk(v, v.m[i].parent);
        TopFrame(v, v'.d, v.m[i].mountpoint);
      }
    }
  }

  /** The new mount is put in front of the list. */
  lemma MountedList(v: Vfs, v': Vfs, id: int, mount: Mount)
    requires Distinct(v.list) && id !in v.list && id !in v.m && (forall i :: i in v.m ==> i in v.list)
    requires v.rootmnt in v.list && v.rootmnt in v.m
    requires v'.list == [id] + v.list && v'.m == v.m[id := mount] && v'.rootmnt == v.rootmnt
    ensures Distinct(v'.list) && (forall i :: i in v'.m ==> i in v'.list)
    ensures v'.rootmnt in v'.list && v'.rootmnt in v'.m && v'.m[v'.rootmnt] == v.m[v.rootmnt]
  {
    DistinctCons(id, v.list);
    assert v'.list[0] == id && v'.list[1..] == v.list;
    assert forall i :: i in v.list ==> i in v'.list;
  }

  lemma MountedOk(v: Vfs, nd: Nd)
    requires Ok(v) && NdOk(v, nd) && IsDir(v, nd.dentry) && !IsTop(v, nd.dentry)
    ensures Ok(MountStep(v, nd))
  {
    var v' := MountStep(v, nd);
    NextIsFresh(v);
    MountedList(v, v', v.next + 1, Mount(v.next, nd.dentry, nd.mnt));
    MountedRows(v, nd);
    assert v.root != v.next && v.root != nd.dentry;
  }

  lemma MountedRows(v: Vfs, nd: Nd)
    requires Ok(v) && NdOk(v, nd) && IsDir(v, nd.dentry) && !IsTop(v, nd.dentry)
    ensures var v' := MountStep(v, nd);
            && (forall y {:trigger DentryOk(v', y)} :: y in v'.d ==> DentryOk(v', y))
            && (forall i {:trigger MountOk(v', i)} :: i in v'.list ==> MountOk(v', i))
            && (forall i, j :: SameRootSameMount(v', i, j))
  {
    var v' := MountStep(v, nd);
    forall y | y in v'.d
      ensures DentryOk(v', y)
    {
      MountedDentryOk(v, nd, y);
    }
    forall i | i in v'.list
      ensures MountOk(v', i)
    {
      MountedMountOk(v, nd, i);
    }
    forall i, j
      ensures SameRootSameMount(v', i, j)
    {
      MountedRoots(v, nd, i, j);
    }
  }

  lemma DistinctCons(i: int, list: seq<int>)
    requires Distinct(list) && i !in list
    ensures Distinct([i] + list)
  {
  }

  /** Mounting keeps the mount table in order exactly when the directory is not itself the root of a tree; see `PathLeadsToNewRoot` for what a walk sees. */
  lemma MountKeepsOk(v: Vfs, nd: Nd)
    requires Ok(v) && NdOk(v, nd) && IsDir(v, nd.dentry)
    ensures Ok(MountStep(v, nd)) <==> !IsTop(v, nd.dentry)
  {
    if IsTop(v, nd.dentry) {
      MountedMountOk(v, nd, v.next + 1);
      assert !MountOk(MountStep(v, nd), v.next + 1) && v.next + 1 in MountStep(v, nd).list;
    } else {
      MountedOk(v, nd);
    }
  }

  lemma MountedRoots(v: Vfs, nd: Nd, i: int, j: int)
    requires Ok(v) && nd.dentry in v.d
    ensures SameRootSameMount(MountStep(v, nd), i, j)
  {
    NextIsFresh(v);
    assert SameRootSameMount(v, i, j);
    if i in v.list {
      assert MountOk(v, i);
    }
    if j in v.list {
      assert MountOk(v, j);
    }
  }

  /** Which mount a step onto dentry `c` finds. */
  lemma MountedCrossing(v: Vfs, at: Nd, c: int)
    requires Ok(v) && at.dentry in v.d && c in v.d
    ensures var v', i := MountStep(v, at), FirstMount(v.m, v.list, c);
            FirstMount(v'.m, v'.list, c) == (if c == at.dentry then v.next + 1 else i)
            && v.next + 1 in v'.m && v'.m[v.next + 1].root == v.next
            && (i in v.m <==> i in v'.m) && (i in v.m ==> v'.m[i] == v.m[i])
  {
    NextIsFresh(v);
    OldMountsAgree(v, at, c);
    FirstMountIsListed(v, v.list, c);
  }

  /** One step by name: onto the mountpoint it leads to the new root, anywhere else it is as before. */
  lemma LookupWhileMounted(v: Vfs, at: Nd, nd: Nd, name: string)
    requires Ok(v) && IsDir(v, at.dentry) && NdOk(v, nd)
    ensures DoLookup(MountStep(v, at), nd, name)
            == if Child(v, nd.dentry, name) == at.dentry then At(NewRoot(v)) else DoLookup(v, nd, name)
  {
    var v', c := MountStep(v, at), Child(v, nd.dentry, name);
    MountedChildren(v, at, nd.dentry, name);
    if c in v.d {
      assert c != v.next && v.d[c].mounted >= 0 by {
        assert DentryOk(v, c);
      }
      MountedEntry(v, at, c);
      MountedCrossing(v, at, c);
    } else {
      NoChild(v, nd.dentry, name);
      assert NIL !in v'.d;
    }
  }

  lemma NoChild(v: Vfs, x: int, name: string)
    requires Ok(v) && x in v.d && Child(v, x, name) !in v.d
    ensures Child(v, x, name) == NIL && NIL !in v.d && v.next != NIL
  {
    NextIsFresh(v);
    ChildIsSibling(v.d, v.d[x].subdirs, name);
  }

  lemma DotDotWhileMounted(v: Vfs, at: Nd, nd: Nd)
    requires Ok(v) && at.dentry in v.d && NdOk(v, nd)
    ensures DotDot(MountStep(v, at), nd) == DotDot(v, nd)
  {
    NextIsFresh(v);
    assert MountOk(v, nd.mnt) && DentryOk(v, nd.dentry);
    if IsTop(v, nd.dentry) && nd.dentry != v.root {
      TopOfTop(v, nd.dentry);
    }
  }

  /** The walk steps onto dentry `c` by name. */
  ghost predicate Meets(v: Vfs, nd: Nd, comps: seq<string>, c: int)
    decreases |comps|
  {
    && comps != [] && IsDir(v, nd.dentry)
    && ((!IsDots(comps[0]) && Child(v, nd.dentry, comps[0]) == c)
        || (Step(v, nd, comps[0]).At? && Meets(v, Step(v, nd, comps[0]).nd, comps[1..], c)))
  }

  lemma StepWhileMounted(v: Vfs, at: Nd, nd: Nd, c: string)
    requires Ok(v) && IsDir(v, at.dentry) && NdOk(v, nd)
    requires IsDots(c) || Child(v, nd.dentry, c) != at.dentry
    ensures Step(MountStep(v, at), nd, c) == Step(v, nd, c)
  {
    if c == ".." {
      DotDotWhileMounted(v, at, nd);
    } else if c != "." {
      LookupWhileMounted(v, at, nd, c);
    }
  }

  /** A walk that never steps onto the mountpoint does not notice the mount. */
  lemma {:induction false} OtherWalksAreUnchanged(v: Vfs, at: Nd, nd: Nd, comps: seq<string>)
    requires Ok(v) && IsDir(v, at.dentry) && NdOk(v, nd)
    requires !Meets(v, nd, comps, at.dentry)
    ensures Walk(MountStep(v, at), nd, comps) == Walk(v, nd, comps)
    decreases |comps|
  {
    NextIsFresh(v);
    if comps != [] && IsDir(v, nd.dentry) {
      StepWhileMounted(v, at, nd, comps[0]);
      if Step(v, nd, comps[0]).At? {
        StepKeepsNdOk(v, nd, comps[0]);
        OtherWalksAreUnchanged(v, at, Step(v, nd, comps[0]).nd, comps[1..]);
      }
    }
  }

  /** A walk that steps onto the mountpoint continues from the root of the mounted tree. */
  lemma WalkContinuesInMount(v: Vfs, at: Nd, nd: Nd, a: seq<string>, c: string, b: seq<string>)
    requires Ok(v) && IsDir(v, at.dentry) && NdOk(v, nd)
    requires !Meets(v, nd, a, at.dentry) && Walk(v, nd, a).Some? && !IsDots(c)
    requires var x := Walk(v, nd, a).value.dentry; IsDir(v, x) && Child(v, x, c) == at.dentry
    ensures Walk(MountStep(v, at), nd, a + [c] + b) == Walk(MountStep(v, at), NewRoot(v), b)
  {
    var v' := MountStep(v, at);
    OtherWalksAreUnchanged(v, at, nd, a);
    WalkKeepsNdOk(v, nd, a);
    var x := Walk(v, nd, a).value;
    LookupWhileMounted(v, at, x, c);
    WalkConcat(v', nd, a, [c] + b);
    assert a + [c] + b == a + ([c] + b);
    assert ([c] + b)[1..] == b;
    NextIsFresh(v);
  }

  /**
    After a mount on the directory that a path ends in by name, the path leads to the mounted root exactly when that
    directory was not itself the root of a mounted tree: a second mount on the same path is never seen.
   */
  lemma PathLeadsToNewRoot(v: Vfs, at: Nd, nd: Nd, a: seq<string>, c: string)
    requires Ok(v) && IsDir(v, at.dentry) && NdOk(v, nd) && !IsDots(c)
    requires Walk(v, nd, a + [c]) == Some(at) && !Meets(v, nd, a, at.dentry)
    ensures Walk(MountStep(v, at), nd, a + [c]) == Some(NewRoot(v)) <==> !IsTop(v, at.dentry)
  {
    var v' := MountStep(v, at);
    NextIsFresh(v);
    WalkConcat(v, nd, a, [c]);
    WalkConcat(v', nd, a, [c]);
    OtherWalksAreUnchanged(v, at, nd, a);
    WalkKeepsNdOk(v, nd, a);
    var x := Walk(v, nd, a).value;
    LookupWhileMounted(v, at, x, c);
    ChildFacts(v, x.dentry, c);
    assert [c][1..] == [];
    var d := Child(v, x.dentry, c);
    if v.d[d].isdir && v.d[d].mounted != 0 {
      CrossingFacts(v, d);
    }
  }

  // ---------- unmounting ----------

  /** `v'` shows the same dentries and mounts, perhaps with dentries nothing leads to. */
  ghost predicate SameView(v: Vfs, v': Vfs) {
    && v'.m == v.m && v'.list == v.list && v'.root == v.root && v'.rootmnt == v.rootmnt && NIL !in v'.d
    && (forall x :: x in v.d ==> x in v'.d && v'.d[x] == v.d[x])
  }

  lemma SameStep(v: Vfs, v': Vfs, nd: Nd, c: string)
    requires Ok(v) && SameView(v, v') && NdOk(v, nd)
    ensures Step(v', nd, c) == Step(v, nd, c)
  {
    if c == ".." {
      assert MountOk(v, nd.mnt);
      if IsTop(v, nd.dentry) && nd.dentry != v.root {
        TopOfTop(v, nd.dentry);
      }
    } else if c != "." {
      assert DentryOk(v, nd.dentry);
      ChildInFrame(v.d, v'.d, v.d[nd.dentry].subdirs, c);
      ChildIsSibling(v.d, v.d[nd.dentry].subdirs, c);
      NextIsFresh(v);
    }
  }

  lemma {:induction false} SameWalk(v: Vfs, v': Vfs, nd: Nd, comps: seq<string>)
    requires Ok(v) && SameView(v, v') && NdOk(v, nd)
    ensures Walk(v', nd, comps) == Walk(v, nd, comps)
    decreases |comps|
  {
    if comps != [] && IsDir(v, nd.dentry) {
      SameStep(v, v', nd, comps[0]);
      if Step(v, nd, comps[0]).At? {
        StepKeepsNdOk(v, nd, comps[0]);
        SameWalk(v, v', Step(v, nd, comps[0]).nd, comps[1..]);
      }
    }
  }

  /** Without the mount just made, the table is the one before. */
  lemma UnmountedTable(v: Vfs, at: Nd)
    requires at.dentry in v.d && v.next !in v.d && NIL !in v.d && v.next != NIL && v.next + 1 !in v.m
    ensures SameView(v, UnmountStep(MountStep(v, at), v.next + 1))
  {
    var v1 := MountStep(v, at);
    var u := UnmountStep(v1, v.next + 1);
    assert v1.list[1..] == v.list;
    forall x | x in v.d
      ensures x in u.d && u.d[x] == v.d[x]
    {
      MountedEntry(v, at, x);
    }
  }

  /** Mounting and unmounting again leaves the result of every walk as it was. */
  lemma UnmountUndoesMount(v: Vfs, at: Nd, nd: Nd, comps: seq<string>)
    requires Ok(v) && IsDir(v, at.dentry) && NdOk(v, nd)
    ensures SameView(v, UnmountStep(MountStep(v, at), v.next + 1))
    ensures Walk(UnmountStep(MountStep(v, at), v.next + 1), nd, comps) == Walk(v, nd, comps)
  {
    NewIdsAreFree(v);
    UnmountedTable(v, at);
    SameWalk(v, UnmountStep(MountStep(v, at), v.next + 1), nd, comps);
  }

  /** A dentry of `v` in a tree that grew after the mount and lost it again. */
  lemma GrownEntry(v: Vfs, at: Nd, w: Vfs, x: int)
    requires at.dentry in v.d && v.next !in v.d && x in v.d && Grows(MountStep(v, at), w)
    requires v.next + 1 in w.m && w.m[v.next + 1].mountpoint == at.dentry && at.dentry in w.d
    ensures GrowsAt(v, UnmountStep(w, v.next + 1), x)
  {
    assert GrowsAt(MountStep(v, at), w, x);
  }

  lemma GrownChild(v: Vfs, at: Nd, w: Vfs, x: int, name: string)
    requires Ok(v) && at.dentry in v.d && Grows(MountStep(v, at), w) && x in v.d && Child(v, x, name) in v.d
    requires x in w.d && forall c :: c in w.d[x].subdirs ==> c in w.d
    requires v.next + 1 in w.m && w.m[v.next + 1].mountpoint in w.d
    ensures Child(UnmountStep(w, v.next + 1), x, name) == Child(v, x, name)
  {
    var v1, c := MountStep(v, at), Child(v, x, name);
    MountedChildren(v, at, x, name);
    assert x in v1.d && c in v1.d;
    assert Child(w, x, name) == c;
    ChildInFrame(w.d, UnmountStep(w, v.next + 1).d, w.d[x].subdirs, name);
  }

  /** The mount is still in the table, in front of the mounts of `v`. */
  lemma GrownTable(v: Vfs, at: Nd, w: Vfs)
    requires at.dentry in v.d && Grows(MountStep(v, at), w) && v.next + 1 !in v.m
    ensures v.next + 1 in w.m && w.m[v.next + 1].mountpoint == at.dentry && at.dentry in w.d
    ensures var u := UnmountStep(w, v.next + 1);
            u.m == v.m && u.list == v.list && u.root == v.root && u.rootmnt == v.rootmnt
  {
    assert GrowsAt(MountStep(v, at), w, at.dentry);
    assert ([v.next + 1] + v.list)[1..] == v.list;
  }

  lemma SubdirsExist(v: Vfs, x: int)
    requires Ok(v) && x in v.d
    ensures forall c :: c in v.d[x].subdirs ==> c in v.d
  {
    assert DentryOk(v, x);
  }

  /** A tree that grew after the mount, without the mount, is the tree before the mount, grown. */
  lemma GrownAfterUnmount(v: Vfs, at: Nd, w: Vfs)
    requires Ok(v) && IsDir(v, at.dentry) && Ok(w) && Grows(MountStep(v, at), w)
    ensures v.next + 1 in w.m && w.m[v.next + 1].mountpoint in w.d
    ensures Grows(v, UnmountStep(w, v.next + 1))
  {
    NewIdsAreFree(v);
    GrownTable(v, at, w);
    var u := UnmountStep(w, v.next + 1);
    forall x | x in v.d
      ensures GrowsAt(v, u, x)
    {
      GrownEntry(v, at, w, x);
    }
    forall x, name | x in v.d && Child(v, x, name) in v.d
      ensures Child(u, x, name) == Child(v, x, name)
    {
      GrownEntry(v, at, w, x);
      SubdirsExist(w, x);
      GrownChild(v, at, w, x, name);
    }
  }

  /** However the tree has grown since the mount, unmounting restores every walk that resolved before the mount. */
  lemma UnmountRestoresOldWalks(v: Vfs, at: Nd, w: Vfs, nd: Nd, comps: seq<string>)
    requires Ok(v) && IsDir(v, at.dentry) && Ok(w) && Grows(MountStep(v, at), w)
    requires NdOk(v, nd) && Walk(v, nd, comps).Some?
    ensures v.next + 1 in w.m && w.m[v.next + 1].mountpoint in w.d
    ensures Walk(UnmountStep(w, v.next + 1), nd, comps) == Walk(v, nd, comps)
  {
    GrownAfterUnmount(v, at, w);
    GrowsWalk(v, UnmountStep(w, v.next + 1), nd, comps);
  }

  lemma {:induction false} WithoutMembers(list: seq<int>, i: int)
    requires Distinct(list)
    ensures Distinct(Without(list, i)) && forall j :: j in Without(list, i) <==> j in list && j != i
  {
    if list != [] {
      var rest := list[1..];
      assert forall j :: j in list <==> j == list[0] || j in rest;
      assert Distinct(rest);
      assert list[0] !in rest;
      WithoutMembers(rest, i);
    }
  }

  lemma {:induction false} MountsWithout(v: Vfs, v': Vfs, list: seq<int>, i: int, c: int)
    requires Distinct(list) && v'.rootmnt == v.rootmnt && v'.m == v.m - {i} && i != v.rootmnt
    ensures Mounts(v', Without(list, i), c)
            == Mounts(v, list, c) - if i in list && i in v.m && v.m[i].mountpoint == c then 1 else 0
  {
    if list != [] {
      var rest := list[1..];
      assert list[0] !in rest && Distinct(rest);
      if list[0] == i {
        MountsNotIn(v, v', rest, i, c);
      } else {
        MountsWithout(v, v', rest, i, c);
        assert i in list <==> i in rest;
        assert Without(list, i)[1..] == Without(rest, i);
      }
    }
  }

  lemma {:induction false} MountsNotIn(v: Vfs, v': Vfs, list: seq<int>, i: int, c: int)
    requires v'.rootmnt == v.rootmnt && v'.m == v.m - {i} && i !in list
    ensures Mounts(v', list, c) == Mounts(v, list, c)
  {
    if list != [] {
      MountsNotIn(v, v', list[1..], i, c);
    }
  }

  ghost predicate HasChildMount(v: Vfs, i: int) {
    exists j :: j in v.list && j in v.m && j != i && j != v.rootmnt && v.m[j].parent == i
  }

  lemma UnmountedMountOk(v: Vfs, i: int, j: int)
    requires Ok(v) && i in v.list && i in v.m && i != v.rootmnt && v.m[i].mountpoint in v.d
    requires j in v.list && j != i && j in v.m && (j != v.rootmnt ==> v.m[j].parent != i)
    ensures MountOk(UnmountStep(v, i), j)
  {
    var v' := UnmountStep(v, i);
    assert MountOk(v, j);
    WithoutMembers(v.list, i);
    if j != v.rootmnt {
      TopFrame(v, v'.d, v.m[j].mountpoint);
    }
  }

  lemma UnmountedOk(v: Vfs, i: int)
    requires Ok(v) && i in v.list && i in v.m && v.m[i].mountpoint in v.d && i != v.rootmnt && !HasChildMount(v, i)
    ensures Ok(UnmountStep(v, i))
  {
    var v' := UnmountStep(v, i);
    WithoutMembers(v.list, i);
    assert MountOk(v, i);
    forall x
      ensures SamePlace(v.d, v'.d, x)
    {
    }
    forall y | y in v'.d
      ensures DentryOk(v', y)
    {
      assert DentryOk(v, y);
      MountsWithout(v, v', v.list, i, y);
      SamePlaceSameOrder(v, v', y);
    }
    forall j | j in v'.list
      ensures MountOk(v', j)
    {
      assert MountOk(v, j);
      UnmountedMountOk(v, i, j);
    }
    forall j, k
      ensures SameRootSameMount(v', j, k)
    {
      assert SameRootSameMount(v, j, k);
    }
  }

  /**
    Unmounting keeps the mount table in order exactly when it is not the root file system that goes and no other
    mount hangs in the tree that goes.
   */
  lemma UnmountKeepsOk(v: Vfs, i: int)
    requires Ok(v) && i in v.list && i in v.m && v.m[i].mountpoint in v.d
    ensures Ok(UnmountStep(v, i)) <==> i != v.rootmnt && !HasChildMount(v, i)
  {
    var v' := UnmountStep(v, i);
    WithoutMembers(v.list, i);
    if i == v.rootmnt {
      assert v.rootmnt !in v'.list;
    } else if HasChildMount(v, i) {
      var j :| j in v.list && j in v.m && j != i && j != v.rootmnt && v.m[j].parent == i;
      assert !MountOk(v', j) && j in v'.list;
    } else {
      UnmountedOk(v, i);
    }
  }
}
