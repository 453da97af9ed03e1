/** Mounting on a path and unmounting the same path again: vfs_mount and vfs_unmount of src/vfs.c name a mount only by a path. */
module DcacheRemount {
  import opened Dcache
  import opened Wrappers
  import opened DcacheMake
  import opened DcacheMount
  import opened DcacheRuns

  /** The first mount of the list whose root is `x` (lines 183-186). */
  function FirstRooted(m: map<int, Mount>, list: seq<int>, x: int): int {
    if list == [] then NIL
    else if list[0] in m && m[list[0]].root == x then list[0]
    else FirstRooted(m, list[1..], x)
  }

  /** vfs_unmount by a caller who may: the table afterwards, or failure. */
  function UnmountBy(v: Vfs, nd: Nd, comps: seq<string>, mustDir: bool): Option<Vfs> {
    match Resolve(v, nd, comps, mustDir)
    case None => None
    case Some(n) =>
      var i := FirstRooted(v.m, v.list, n.dentry);
      if i in v.m && v.m[i].mountpoint in v.d then Some(UnmountStep(v, i)) else None
  }

  lemma {:induction false} FirstRootedIsListed(m: map<int, Mount>, list: seq<int>, x: int)
    ensures var i := FirstRooted(m, list, x); i != NIL ==> i in list && i in m && m[i].root == x
    ensures forall i :: i in list && i in m && m[i].root == x && NIL !in list ==> FirstRooted(m, list, x) != NIL
  {
    if list != [] {
      assert list[0] in list;
      FirstRootedIsListed(m, list[1..], x);
    }
  }

  /** In an orderly table at most one mount has a given root. */
  lemma RootedIs(v: Vfs, i: int)
    requires Ok(v) && i in v.list && i in v.m
    ensures FirstRooted(v.m, v.list, v.m[i].root) == i
  {
    NextIsFresh(v);
    FirstRootedIsListed(v.m, v.list, v.m[i].root);
    assert SameRootSameMount(v, FirstRooted(v.m, v.list, v.m[i].root), i);
  }

  /** Every walk ends where it did. */
  ghost predicate WalksAsBefore(v: Vfs, v': Vfs) {
    forall nd, comps {:trigger Walk(v', nd, comps)} :: NdOk(v, nd) ==> Walk(v', nd, comps) == Walk(v, nd, comps)
  }

  ghost predicate Undone(v: Vfs, u: Option<Vfs>) {
    u.Some? && WalksAsBefore(v, u.value)
  }

  // ---------- the tree in which something is mounted ----------

  lemma {:induction false} FirstRootedFrame(m: map<int, Mount>, m': map<int, Mount>, list: seq<int>, x: int)
    requires forall i :: i in list ==> i in m && i in m' && m'[i] == m[i]
    ensures FirstRooted(m', list, x) == FirstRooted(m, list, x)
  {
    if list != [] {
      assert list[0] in list;
      FirstRootedFrame(m, m', list[1..], x);
    }
  }

  /** Which mount is found by its root after one more was made. */
  lemma RootedAfterMount(v: Vfs, at: Nd, x: int)
    requires Ok(v) && at.dentry in v.d
    ensures var v1 := MountStep(v, at);
            FirstRooted(v1.m, v1.list, x) == if x == v.next then v.next + 1 else FirstRooted(v.m, v.list, x)
  {
    var v1 := MountStep(v, at);
    NextIsFresh(v);
    assert v1.list[0] == v.next + 1 && v1.list[1..] == v.list;
    forall i | i in v.list
      ensures i in v.m && i in v1.m && v1.m[i] == v.m[i]
    {
      assert MountOk(v, i);
    }
    FirstRootedFrame(v.m, v1.m, v.list, x);
  }

  /** No step by name leads onto the root of a tree, so a mount there is never seen. */
  lemma {:induction false} TopsAreNeverMet(v: Vfs, nd: Nd, comps: seq<string>, x: int)
    requires Ok(v) && NdOk(v, nd) && IsTop(v, x)
    ensures !Meets(v, nd, comps, x)
    decreases |comps|
  {
    if comps != [] && IsDir(v, nd.dentry) {
      if Child(v, nd.dentry, comps[0]) in v.d {
        ChildFacts(v, nd.dentry, comps[0]);
      }
      if Step(v, nd, comps[0]).At? {
        StepKeepsNdOk(v, nd, comps[0]);
        TopsAreNeverMet(v, Step(v, nd, comps[0]).nd, comps[1..], x);
      }
    }
  }

  lemma HiddenMount(v: Vfs, at: Nd, nd: Nd, comps: seq<string>)
    requires Ok(v) && NdOk(v, nd) && IsTop(v, at.dentry) && IsDir(v, at.dentry)
    ensures Walk(MountStep(v, at), nd, comps) == Walk(v, nd, comps)
  {
    TopsAreNeverMet(v, nd, comps, at.dentry);
    OtherWalksAreUnchanged(v, at, nd, comps);
  }

  lemma NewRootIsNew(v: Vfs, nd: Nd)
    requires Ok(v) && NdOk(v, nd)
    ensures nd != NewRoot(v) && nd.dentry != v.next
  {
    NextIsFresh(v);
  }

  // ---------- undone ----------

  /** What an unmount does that finds mount `i` by its root. */
  lemma UnmountFinds(v: Vfs, nd: Nd, comps: seq<string>, mustDir: bool, n: Nd, i: int)
    requires Walk(v, nd, comps) == Some(n) && IsDir(v, n.dentry)
    requires FirstRooted(v.m, v.list, n.dentry) == i && i in v.m && v.m[i].mountpoint in v.d
    ensures UnmountBy(v, nd, comps, mustDir) == Some(UnmountStep(v, i))
  {
  }

  lemma NewMountIsThere(v: Vfs, at: Nd)
    requires at.dentry in v.d && v.next !in v.d
    ensures var v1, j := MountStep(v, at), v.next + 1;
            IsDir(v1, v.next) && j in v1.m && v1.m[j].mountpoint == at.dentry && at.dentry in v1.d && v1.list[0] == j && v1.list[1..] == v.list
  {
  }

  lemma NewMountUndone(v: Vfs, at: Nd, nd: Nd, comps: seq<string>, mustDir: bool)
    requires Ok(v) && NdOk(v, at) && IsDir(v, at.dentry) && NdOk(v, nd)
    requires Walk(MountStep(v, at), nd, comps) == Some(NewRoot(v)) && Walk(v, nd, comps) == Some(at)
    ensures !IsTop(v, at.dentry)
    ensures UnmountBy(MountStep(v, at), nd, comps, mustDir) == Some(UnmountStep(MountStep(v, at), v.next + 1))
    ensures Undone(v, UnmountBy(MountStep(v, at), nd, comps, mustDir))
    ensures Ok(UnmountStep(MountStep(v, at), v.next + 1))
  {
    var v1, j := MountStep(v, at), v.next + 1;
    if IsTop(v, at.dentry) {
      HiddenMount(v, at, nd, comps);
      NewRootIsNew(v, at);
    }
    NewIdsAreFree(v);
    NewMountIsThere(v, at);
    RootedAfterMount(v, at, v.next);
    UnmountFinds(v1, nd, comps, mustDir, NewRoot(v), j);
    NewMountGone(v, at);
  }

  lemma NewMountGone(v: Vfs, at: Nd)
    requires Ok(v) && NdOk(v, at) && IsDir(v, at.dentry) && !IsTop(v, at.dentry)
    ensures WalksAsBefore(v, UnmountStep(MountStep(v, at), v.next + 1)) && Ok(UnmountStep(MountStep(v, at), v.next + 1))
  {
    var u := UnmountStep(MountStep(v, at), v.next + 1);
    forall n, c | NdOk(v, n)
      ensures Walk(u, n, c) == Walk(v, n, c)
    {
      UnmountUndoesMount(v, at, n, c);
    }
    MountKeepsOk(v, at);
    NoChildYet(v, at);
    UnmountKeepsOk(MountStep(v, at), v.next + 1);
  }

  lemma NoChildYet(v: Vfs, at: Nd)
    requires Ok(v) && at.dentry in v.d
    ensures !HasChildMount(MountStep(v, at), v.next + 1)
  {
    var v1 := MountStep(v, at);
    NextIsFresh(v);
    forall j | j in v1.list && j in v1.m && j != v.next + 1 && j != v1.rootmnt
      ensures v1.m[j].parent != v.next + 1
    {
      assert j in v.list;
      assert MountOk(v, j);
    }
  }

  // ---------- not undone ----------

  /** The mount at the head of the list is the one a step by name finds. */
  lemma HeadIsFound(u: Vfs, nd: Nd, name: string, c: int, j: int)
    requires Child(u, nd.dentry, name) == c && IsDir(u, c) && u.d[c].mounted != 0 && IsDir(u, nd.dentry) && !IsDots(name)
    requires u.list != [] && u.list[0] == j && j in u.m && u.m[j].mountpoint == c
    ensures Walk(u, nd, [name]) == Some(Nd(u.m[j].root, j))
  {
    assert [name][1..] == [];
    assert FirstMount(u.m, u.list, c) == j;
    assert DoLookup(u, nd, name) == At(Nd(u.m[j].root, j));
  }

  /** After another mount went, the new one is still at the head of the list, and its mountpoint still counts it. */
  lemma HeadStays(v: Vfs, at: Nd, i: int)
    requires Ok(v) && IsDir(v, at.dentry) && i in v.list && i in v.m && v.m[i].mountpoint in v.d
    requires i != v.rootmnt || v.m[i].mountpoint != at.dentry
    ensures var u, j := UnmountStep(MountStep(v, at), i), v.next + 1;
            && u.list != [] && u.list[0] == j && j in u.m && u.m[j] == Mount(v.next, at.dentry, at.mnt)
            && IsDir(u, at.dentry) && u.d[at.dentry].mounted != 0
  {
    var x := at.dentry;
    NextIsFresh(v);
    NewMountIsThere(v, at);
    MountedEntry(v, at, x);
    assert DentryOk(v, x);
    MountCounted(v, v.list, i, x);
  }

  /** When another mount went, a step by name onto the directory still crosses into the new tree. */
  lemma StillMounted(v: Vfs, at: Nd, i: int)
    requires Ok(v) && NdOk(v, at) && IsDir(v, at.dentry) && !IsTop(v, at.dentry)
    requires i in v.list && i in v.m && v.m[i].mountpoint in v.d
    ensures !WalksAsBefore(v, UnmountStep(MountStep(v, at), i))
  {
    var x := at.dentry;
    var p, name := Nd(v.d[x].parent, at.mnt), v.d[x].name;
    var u := UnmountStep(MountStep(v, at), i);
    OnlyChildOfThatName(v, x);
    ParentStays(v, at, i, p);
    SameNamesAfterBoth(v, at, i, p.dentry, name);
    HeadStays(v, at, i);
    HeadIsFound(u, p, name, x, v.next + 1);
    if Walk(v, p, [name]).Some? {
      WalkKeepsNdOk(v, p, [name]);
      NewRootIsNew(v, Walk(v, p, [name]).value);
    }
  }

  lemma ParentStays(v: Vfs, at: Nd, i: int, p: Nd)
    requires Ok(v) && NdOk(v, at) && i in v.m && v.m[i].mountpoint in v.d && i in v.list
    requires p == Nd(v.d[at.dentry].parent, at.mnt) && !IsTop(v, at.dentry)
    ensures NdOk(v, p) && IsDir(UnmountStep(MountStep(v, at), i), p.dentry) && (i == v.rootmnt ==> v.m[i].mountpoint != at.dentry)
  {
    NewIdsAreFree(v);
    assert DentryOk(v, at.dentry);
    MountedEntry(v, at, p.dentry);
  }

  lemma SameNamesAfterBoth(v: Vfs, at: Nd, i: int, y: int, name: string)
    requires Ok(v) && at.dentry in v.d && y in v.d && i in v.m && v.m[i].mountpoint in v.d && i in v.list
    ensures i in MountStep(v, at).m && v.m[i] == MountStep(v, at).m[i]
    ensures Child(UnmountStep(MountStep(v, at), i), y, name) == Child(v, y, name)
  {
    NewIdsAreFree(v);
    MountedChildren(v, at, y, name);
    SameNamesInMounted(v, at, y);
    SameNamesInUnmounted(MountStep(v, at), i, y, name);
  }

  /** A dentry below another is what its name leads to from there. */
  lemma OnlyChildOfThatName(v: Vfs, x: int)
    requires Ok(v) && x in v.d && !IsTop(v, x)
    ensures v.d[x].parent in v.d && Child(v, v.d[x].parent, v.d[x].name) == x && !IsDots(v.d[x].name)
  {
    assert DentryOk(v, x);
    var p := v.d[x].parent;
    assert DentryOk(v, p);
    forall c | c in v.d[p].subdirs
      ensures c in v.d
    {
    }
    NamedIsFound(v.d, v.d[p].subdirs, x);
  }

  lemma {:induction false} NamedIsFound(d: map<int, Dentry>, siblings: seq<int>, x: int)
    requires x in siblings && DistinctNames(d, siblings) && forall c :: c in siblings ==> c in d
    ensures ChildIn(d, siblings, d[x].name) == x
  {
    if siblings[0] != x {
      var k :| 0 < k < |siblings| && siblings[k] == x;
      assert siblings[0] in siblings;
      var rest := siblings[1..];
      assert rest[k - 1] == x;
      forall a, b | 0 <= a < b < |rest| && rest[a] in d && rest[b] in d
        ensures d[rest[a]].name != d[rest[b]].name
      {
        assert rest[a] == siblings[a + 1] && rest[b] == siblings[b + 1];
      }
      NamedIsFound(d, rest, x);
    }
  }

  lemma {:induction false} MountCounted(v: Vfs, list: seq<int>, i: int, c: int)
    ensures i in list && i in v.m && i != v.rootmnt && v.m[i].mountpoint == c ==> Mounts(v, list, c) > 0
  {
    if list != [] && list[0] != i {
      MountCounted(v, list[1..], i, c);
    }
  }

  lemma SameNamesInUnmounted(v: Vfs, i: int, y: int, name: string)
    requires i in v.m && v.m[i].mountpoint in v.d && y in v.d && forall c :: c in v.d[y].subdirs ==> c in v.d
    ensures Child(UnmountStep(v, i), y, name) == Child(v, y, name)
  {
    ChildInFrame(v.d, UnmountStep(v, i).d, v.d[y].subdirs, name);
  }

  /** When the tree went that `at` is the root of, ".." no longer leads out of it. */
  lemma TreeIsGone(v: Vfs, at: Nd)
    requires Ok(v) && NdOk(v, at) && IsDir(v, at.dentry) && IsTop(v, at.dentry) && at.dentry != v.root
    requires v.m[at.mnt].mountpoint in v.d
    ensures !WalksAsBefore(v, UnmountStep(MountStep(v, at), at.mnt))
  {
    var u := UnmountStep(MountStep(v, at), at.mnt);
    TreeEntry(v, at);
    UpFromTop(u, at);
    TopOfTop(v, at.dentry);
    assert MountOk(v, at.mnt);
    assert [".."][1..] == [];
    assert DotDot(v, at).mnt == v.m[at.mnt].parent < at.mnt;
    assert Walk(v, at, [".."]) == Some(DotDot(v, at));
  }

  /** The root of the tree that went is still its own parent, and no mount leads out of it. */
  lemma TreeEntry(v: Vfs, at: Nd)
    requires Ok(v) && NdOk(v, at) && IsDir(v, at.dentry) && IsTop(v, at.dentry) && v.m[at.mnt].mountpoint in v.d
    ensures var u := UnmountStep(MountStep(v, at), at.mnt);
            IsTop(u, at.dentry) && IsDir(u, at.dentry) && at.mnt !in u.m
  {
    NewIdsAreFree(v);
    MountedEntry(v, at, at.dentry);
  }

  lemma UpFromTop(u: Vfs, at: Nd)
    requires IsTop(u, at.dentry) && IsDir(u, at.dentry) && at.mnt !in u.m
    ensures Walk(u, at, [".."]) == Some(at)
  {
    assert [".."][1..] == [];
    assert DotDot(u, at) == at;
  }

  // ---------- "/" ----------

  lemma {:induction false} FirstMountWithout(m: map<int, Mount>, m': map<int, Mount>, list: seq<int>, i: int, c: int)
    requires m' == m - {i} && (i in m ==> m[i].mountpoint != c) && Distinct(list)
    ensures FirstMount(m', Without(list, i), c) == FirstMount(m, list, c)
  {
    if list != [] {
      var rest := list[1..];
      assert list[0] !in rest && Distinct(rest);
      if list[0] == i {
        FirstMountNotIn(m, m', rest, i, c);
      } else {
        FirstMountWithout(m, m', rest, i, c);
        assert Without(list, i)[1..] == Without(rest, i);
      }
    }
  }

  lemma {:induction false} FirstMountNotIn(m: map<int, Mount>, m': map<int, Mount>, list: seq<int>, i: int, c: int)
    requires m' == m - {i} && i !in list
    ensures FirstMount(m', list, c) == FirstMount(m, list, c)
  {
    if list != [] {
      FirstMountNotIn(m, m', list[1..], i, c);
    }
  }

  /** "/" was counted once more and once less. */
  lemma RootGoneDentry(v: Vfs, at: Nd, x: int)
    requires Ok(v) && at.dentry == v.root && x in v.d
    ensures var u := UnmountStep(MountStep(v, at), v.rootmnt);
            x in u.d && u.d[x] == v.d[x] && u.root == v.root && NIL !in u.d
  {
    NewIdsAreFree(v);
    MountedEntry(v, at, x);
  }

  lemma RootGoneDotDot(v: Vfs, at: Nd, nd: Nd)
    requires Ok(v) && at.dentry == v.root && at.dentry in v.d && NdOk(v, nd) && v.rootmnt in v.m && v.m[v.rootmnt].mountpoint in v.d
    ensures DotDot(UnmountStep(MountStep(v, at), v.rootmnt), nd) == DotDot(v, nd)
  {
    var u := UnmountStep(MountStep(v, at), v.rootmnt);
    RootGoneDentry(v, at, nd.dentry);
    if IsTop(v, nd.dentry) && nd.dentry != v.root {
      TopOfTop(v, nd.dentry);
      NextIsFresh(v);
      assert MountOk(v, nd.mnt) && MountOk(v, v.rootmnt);
      assert nd.mnt != v.rootmnt && nd.mnt in u.m && u.m[nd.mnt] == v.m[nd.mnt];
      RootGoneDentry(v, at, v.m[nd.mnt].mountpoint);
    }
  }

  lemma RootGoneNames(v: Vfs, at: Nd, y: int, c: string)
    requires Ok(v) && at.dentry == v.root && at.dentry in v.d && y in v.d && v.rootmnt in v.m && v.m[v.rootmnt].mountpoint in v.d
    ensures Child(UnmountStep(MountStep(v, at), v.rootmnt), y, c) == Child(v, y, c)
  {
    SameNamesAfterBoth(v, at, v.rootmnt, y, c);
  }

  /** A step by name onto dentry `x` reads the same in both tables. */
  lemma SameCrossing(v: Vfs, u: Vfs, nd: Nd, c: string, x: int)
    requires x == Child(v, nd.dentry, c) == Child(u, nd.dentry, c) && x in v.d && x in u.d && u.d[x] == v.d[x]
    requires var i := FirstMount(v.m, v.list, x);
             FirstMount(u.m, u.list, x) == i && (v.d[x].isdir && v.d[x].mounted != 0 ==> i in v.m && i in u.m && u.m[i] == v.m[i])
    ensures DoLookup(u, nd, c) == DoLookup(v, nd, c)
  {
  }

  lemma RootGoneLookup(v: Vfs, at: Nd, nd: Nd, c: string)
    requires Ok(v) && at.dentry == v.root && at.dentry in v.d && NdOk(v, nd) && v.rootmnt in v.m && v.m[v.rootmnt].mountpoint in v.d
    ensures DoLookup(UnmountStep(MountStep(v, at), v.rootmnt), nd, c) == DoLookup(v, nd, c)
  {
    RootGoneNames(v, at, nd.dentry, c);
    var x := Child(v, nd.dentry, c);
    if x in v.d {
      ChildFacts(v, nd.dentry, c);
      RootGoneDentry(v, at, x);
      RootGoneMount(v, at, x);
      if v.d[x].isdir && v.d[x].mounted != 0 {
        CrossingFacts(v, x);
        RootGoneEntry(v, at, FirstMount(v.m, v.list, x));
      }
      SameCrossing(v, UnmountStep(MountStep(v, at), v.rootmnt), nd, c, x);
    } else {
      NoChild(v, nd.dentry, c);
      RootGoneDentry(v, at, nd.dentry);
    }
  }

  lemma RootGoneEntry(v: Vfs, at: Nd, i: int)
    requires Ok(v) && at.dentry == v.root && i in v.list && i in v.m && i != v.rootmnt
    ensures var u := UnmountStep(MountStep(v, at), v.rootmnt);
            i in u.m && u.m[i] == v.m[i]
  {
    NewIdsAreFree(v);
  }

  /** One step after "/" was mounted on and unmounted: it is the root mount that is gone, and nobody notices. */
  lemma RootGoneStep(v: Vfs, at: Nd, nd: Nd, c: string)
    requires Ok(v) && NdOk(v, at) && IsDir(v, at.dentry) && at.dentry == v.root && NdOk(v, nd)
    ensures Step(UnmountStep(MountStep(v, at), v.rootmnt), nd, c) == Step(v, nd, c)
  {
    if c == ".." {
      RootGoneDotDot(v, at, nd);
    } else if c != "." {
      RootGoneLookup(v, at, nd, c);
    }
  }

  lemma SameNamesInMounted(v: Vfs, at: Nd, y: int)
    requires Ok(v) && at.dentry in v.d && y in v.d
    ensures y in MountStep(v, at).d && MountStep(v, at).d[y].subdirs == v.d[y].subdirs
    ensures forall c :: c in v.d[y].subdirs ==> c in MountStep(v, at).d
  {
    NextIsFresh(v);
    assert DentryOk(v, y);
  }

  lemma RootGoneMount(v: Vfs, at: Nd, x: int)
    requires Ok(v) && at.dentry == v.root && x in v.d && x != v.root
    ensures var u := UnmountStep(MountStep(v, at), v.rootmnt);
            FirstMount(u.m, u.list, x) == FirstMount(v.m, v.list, x)
  {
    var v1 := MountStep(v, at);
    assert v.next + 1 !in v.list && v.rootmnt != v.next + 1 by {
      NextIsFresh(v);
    }
    OldMountsAgree(v, at, x);
    ListWithoutRoot(v, v1.m, v1.list, v.next + 1, x);
  }

  lemma ListWithoutRoot(v: Vfs, m: map<int, Mount>, list: seq<int>, j: int, x: int)
    requires Distinct(v.list) && j !in v.list && list == [j] + v.list && v.rootmnt in m && m[v.rootmnt].mountpoint != x
    ensures FirstMount(m - {v.rootmnt}, Without(list, v.rootmnt), x) == FirstMount(m, list, x)
  {
    DistinctCons(j, v.list);
    FirstMountWithout(m, m - {v.rootmnt}, list, v.rootmnt, x);
  }

  lemma {:induction false} RootGoneWalk(v: Vfs, at: Nd, nd: Nd, comps: seq<string>)
    requires Ok(v) && NdOk(v, at) && IsDir(v, at.dentry) && at.dentry == v.root && NdOk(v, nd)
    ensures Walk(UnmountStep(MountStep(v, at), v.rootmnt), nd, comps) == Walk(v, nd, comps)
    decreases |comps|
  {
    RootGoneDentry(v, at, nd.dentry);
    if comps != [] && IsDir(v, nd.dentry) {
      RootGoneStep(v, at, nd, comps[0]);
      if Step(v, nd, comps[0]).At? {
        StepKeepsNdOk(v, nd, comps[0]);
        RootGoneWalk(v, at, Step(v, nd, comps[0]).nd, comps[1..]);
      }
    }
  }

  /** The root mount is what "/" finds, and it is not in the list afterwards. */
  lemma RootMountFound(v: Vfs, at: Nd)
    requires Ok(v) && IsDir(v, at.dentry) && at.dentry == v.root
    ensures var v1 := MountStep(v, at);
            && FirstRooted(v1.m, v1.list, at.dentry) == v.rootmnt && v.rootmnt in v1.m && v1.m[v.rootmnt].mountpoint in v1.d
            && IsDir(v1, at.dentry) && IsTop(v, at.dentry)
    ensures !Ok(UnmountStep(MountStep(v, at), v.rootmnt))
  {
    NewIdsAreFree(v);
    assert MountOk(v, v.rootmnt);
    RootedAfterMount(v, at, v.root);
    RootedIs(v, v.rootmnt);
    MountedEntry(v, at, at.dentry);
    RootMountGone(MountStep(v, at), v.rootmnt);
  }

  lemma RootMountGone(v: Vfs, i: int)
    requires i == v.rootmnt && i in v.m && v.m[i].mountpoint in v.d
    ensures !Ok(UnmountStep(v, i))
  {
  }

  /** Mounting on "/" and unmounting "/" takes the root mount out of the table; all walks stay, the table is broken. */
  lemma RootMountIsLost(v: Vfs, at: Nd, nd: Nd, comps: seq<string>, mustDir: bool)
    requires Ok(v) && NdOk(v, at) && IsDir(v, at.dentry) && NdOk(v, nd) && at.dentry == v.root && Walk(v, nd, comps) == Some(at)
    ensures UnmountBy(MountStep(v, at), nd, comps, mustDir) == Some(UnmountStep(MountStep(v, at), v.rootmnt))
    ensures WalksAsBefore(v, UnmountStep(MountStep(v, at), v.rootmnt)) && !Ok(UnmountStep(MountStep(v, at), v.rootmnt))
  {
    var v1 := MountStep(v, at);
    RootMountFound(v, at);
    HiddenMount(v, at, nd, comps);
    UnmountFinds(v1, nd, comps, mustDir, at, v.rootmnt);
    forall n, c | NdOk(v, n)
      ensures Walk(UnmountStep(v1, v.rootmnt), n, c) == Walk(v, n, c)
    {
      RootGoneWalk(v, at, n, c);
    }
  }

  // ---------- the exact condition ----------

  /** The mount that goes when the path does not lead to the new root. */
  lemma OtherMountGoes(v: Vfs, at: Nd, nd: Nd, comps: seq<string>, mustDir: bool)
    requires Ok(v) && NdOk(v, at) && IsDir(v, at.dentry) && NdOk(v, nd) && Walk(v, nd, comps) == Some(at)
    requires Walk(MountStep(v, at), nd, comps) != Some(NewRoot(v)) && at.dentry != v.root
    ensures !Undone(v, UnmountBy(MountStep(v, at), nd, comps, mustDir))
  {
    var v1 := MountStep(v, at);
    NextIsFresh(v);
    if Resolve(v1, nd, comps, mustDir).Some? {
      var n := Resolve(v1, nd, comps, mustDir).value;
      var i := FirstRooted(v1.m, v1.list, n.dentry);
      FirstRootedIsListed(v1.m, v1.list, n.dentry);
      if i in v1.m && v1.m[i].mountpoint in v1.d {
        if IsTop(v, at.dentry) {
          HiddenMount(v, at, nd, comps);
          RootedAfterMount(v, at, at.dentry);
          TopOfTop(v, at.dentry);
          RootedIs(v, at.mnt);
          assert MountOk(v, at.mnt);
          TreeIsGone(v, at);
        } else {
          MountKeepsOk(v, at);
          MountKeepsNdOk(v, at, nd);
          WalkKeepsNdOk(v1, nd, comps);
          OnlyNewRootThere(v, at, n);
          RootedAfterMount(v, at, n.dentry);
          FirstRootedIsListed(v.m, v.list, n.dentry);
          assert MountOk(v, i);
          StillMounted(v, at, i);
        }
      }
    }
  }

  lemma MountKeepsNdOk(v: Vfs, at: Nd, nd: Nd)
    requires Ok(v) && at.dentry in v.d && NdOk(v, nd)
    ensures NdOk(MountStep(v, at), nd)
  {
    NextIsFresh(v);
    TopFrame(v, MountStep(v, at).d, nd.dentry);
  }

  /** Whoever stands on the new root stands there by way of the new mount. */
  lemma OnlyNewRootThere(v: Vfs, at: Nd, n: Nd)
    requires Ok(v) && at.dentry in v.d && Ok(MountStep(v, at)) && NdOk(MountStep(v, at), n) && n != NewRoot(v)
    ensures n.dentry != v.next
  {
    var v1 := MountStep(v, at);
    NextIsFresh(v);
    assert SameRootSameMount(v1, n.mnt, v.next + 1);
    if n.dentry == v.next {
      TopOfTop(v1, v.next);
    }
  }

  /**
    Mounting on a path and unmounting that path succeeds and restores every walk exactly when the path leads to the
    new root in between, or is "/"; and it leaves the table in order exactly in the first case.
   */
  lemma RemountExactly(v: Vfs, at: Nd, nd: Nd, comps: seq<string>, mustDir: bool)
    requires Ok(v) && NdOk(v, nd) && Resolve(v, nd, comps, mustDir) == Some(at) && IsDir(v, at.dentry)
    ensures var v1 := MountStep(v, at);
            var u, leads := UnmountBy(v1, nd, comps, mustDir), Walk(v1, nd, comps) == Some(NewRoot(v));
            && (Undone(v, u) <==> leads || at.dentry == v.root)
            && (Undone(v, u) && Ok(u.value) <==> leads)
  {
    WalkKeepsNdOk(v, nd, comps);
    var v1 := MountStep(v, at);
    if Walk(v1, nd, comps) == Some(NewRoot(v)) {
      NewMountUndone(v, at, nd, comps, mustDir);
    } else if at.dentry == v.root {
      RootMountIsLost(v, at, nd, comps, mustDir);
    } else {
      OtherMountGoes(v, at, nd, comps, mustDir);
    }
  }

  // ---------- what a caller can check beforehand ----------

  /** Where ".." leads from the new root: beside the directory that was mounted on. */
  function Beside(v: Vfs, at: Nd): Nd {
    Nd(if at.dentry in v.d then v.d[at.dentry].parent else NIL, at.mnt)
  }

  /**
    In the tree as it is before the mount: the path, once the directory of `at` stands for an empty tree, ends at the
    root of that tree.  `inside` says that the walk stands there.
   */
  ghost predicate Enters(v: Vfs, at: Nd, nd: Nd, comps: seq<string>, inside: bool)
    decreases |comps|
  {
    if comps == [] then inside
    else if inside then
      if comps[0] == "." then Enters(v, at, nd, comps[1..], true)
      else comps[0] == ".." && Enters(v, at, Beside(v, at), comps[1..], false)
    else
      && IsDir(v, nd.dentry)
      && if !IsDots(comps[0]) && Child(v, nd.dentry, comps[0]) == at.dentry then Enters(v, at, nd, comps[1..], true)
         else Step(v, nd, comps[0]).At? && Enters(v, at, Step(v, nd, comps[0]).nd, comps[1..], false)
  }

  lemma StepFromNewRoot(v: Vfs, at: Nd, c: string)
    requires Ok(v) && NdOk(v, at) && IsDir(v, at.dentry) && !IsTop(v, at.dentry)
    ensures var v1 := MountStep(v, at);
            && IsDir(v1, v.next) && NdOk(v, Beside(v, at)) && IsDir(v, Beside(v, at).dentry)
            && Step(v1, NewRoot(v), c) == if c == "." then At(NewRoot(v)) else if c == ".." then At(Beside(v, at)) else NotFound
  {
    NextIsFresh(v);
    assert DentryOk(v, at.dentry);
  }

  /** The walk after the mount, foretold before it. */
  lemma {:induction false} EntersExactly(v: Vfs, at: Nd, nd: Nd, comps: seq<string>, inside: bool)
    requires Ok(v) && NdOk(v, at) && IsDir(v, at.dentry) && NdOk(v, nd) && (inside ==> !IsTop(v, at.dentry))
    ensures Walk(MountStep(v, at), if inside then NewRoot(v) else nd, comps) == Some(NewRoot(v)) <==> Enters(v, at, nd, comps, inside)
    decreases |comps|
  {
    var v1 := MountStep(v, at);
    NextIsFresh(v);
    if comps != [] {
      var c, rest := comps[0], comps[1..];
      if inside {
        StepFromNewRoot(v, at, c);
        if c == "." {
          EntersExactly(v, at, nd, rest, true);
        } else if c == ".." {
          EntersExactly(v, at, Beside(v, at), rest, false);
        }
      } else if IsDir(v, nd.dentry) {
        if !IsDots(c) && Child(v, nd.dentry, c) == at.dentry {
          LookupWhileMounted(v, at, nd, c);
          ChildFacts(v, nd.dentry, c);
          EntersExactly(v, at, nd, rest, true);
        } else {
          StepWhileMounted(v, at, nd, c);
          if Step(v, nd, c).At? {
            StepKeepsNdOk(v, nd, c);
            EntersExactly(v, at, Step(v, nd, c).nd, rest, false);
          }
        }
      }
    }
  }

  /** A path that ends in ".." never enters, so its mount cannot be undone by it. */
  lemma {:induction false} DotDotNeverEnters(v: Vfs, at: Nd, nd: Nd, comps: seq<string>, inside: bool)
    requires comps != [] && comps[|comps| - 1] == ".."
    ensures !Enters(v, at, nd, comps, inside)
    decreases |comps|
  {
    var rest := comps[1..];
    if rest != [] {
      assert rest[|rest| - 1] == "..";
      DotDotNeverEnters(v, at, nd, rest, true);
      DotDotNeverEnters(v, at, Beside(v, at), rest, false);
      if Step(v, nd, comps[0]).At? {
        DotDotNeverEnters(v, at, Step(v, nd, comps[0]).nd, rest, false);
      }
    }
  }

  predicate Upward(comps: seq<string>) {
    exists k :: 0 <= k < |comps| && comps[k] == ".."
  }

  /** Steps by name lead to younger dentries, also into mounts. */
  lemma {:induction false} NamesLeadDown(v: Vfs, nd: Nd, comps: seq<string>)
    requires Ok(v) && NdOk(v, nd) && !Upward(comps) && Walk(v, nd, comps).Some?
    ensures var e := Walk(v, nd, comps).value;
            if NoDots(comps) == [] then e == nd else nd.dentry < e.dentry
    decreases |comps|
  {
    if comps != [] {
      var c, rest := comps[0], comps[1..];
      assert c != "..";
      assert forall k :: 0 <= k < |rest| ==> rest[k] == comps[k + 1];
      StepKeepsNdOk(v, nd, c);
      var n := Step(v, nd, c).nd;
      NamesLeadDown(v, n, rest);
      if c != "." {
        NameLeadsDown(v, nd, c);
      }
    }
  }

  lemma NameLeadsDown(v: Vfs, nd: Nd, c: string)
    requires Ok(v) && NdOk(v, nd) && DoLookup(v, nd, c).At?
    ensures var x, n := Child(v, nd.dentry, c), DoLookup(v, nd, c).nd;
            nd.dentry < x <= n.dentry && (x == n.dentry ==> n == Nd(x, nd.mnt)) && !IsTop(v, x) && (x != n.dentry ==> IsTop(v, n.dentry))
  {
    var x := Child(v, nd.dentry, c);
    ChildFacts(v, nd.dentry, c);
    if v.d[x].isdir && v.d[x].mounted != 0 {
      CrossingFacts(v, x);
    }
  }

  lemma {:induction false} DotsStayInside(v: Vfs, at: Nd, nd: Nd, comps: seq<string>)
    requires NoDots(comps) == []
    ensures Enters(v, at, nd, comps, true)
    decreases |comps|
  {
    if comps != [] {
      DotsStayInside(v, at, nd, comps[1..]);
    }
  }

  /**
    The exact condition for a path without "..": it names a directory, that is, has a component other than ".", and
    the directory is not the root of a mounted tree.
   */
  lemma {:induction false} NamedDirectoryEnters(v: Vfs, at: Nd, nd: Nd, comps: seq<string>)
    requires Ok(v) && NdOk(v, nd) && !Upward(comps) && Walk(v, nd, comps) == Some(at)
    ensures Enters(v, at, nd, comps, false) <==> NoDots(comps) != [] && !IsTop(v, at.dentry)
    decreases |comps|
  {
    if comps != [] {
      var c, rest := comps[0], comps[1..];
      assert c != "..";
      assert forall k :: 0 <= k < |rest| ==> rest[k] == comps[k + 1];
      StepKeepsNdOk(v, nd, c);
      var n := Step(v, nd, c).nd;
      NamesLeadDown(v, n, rest);
      if c == "." {
        NamedDirectoryEnters(v, at, nd, rest);
      } else {
        NameLeadsDown(v, nd, c);
        if Child(v, nd.dentry, c) == at.dentry {
          assert NoDots(rest) == [];
          DotsStayInside(v, at, nd, rest);
        } else {
          NamedDirectoryEnters(v, at, n, rest);
        }
      }
    }
  }

  // ---------- paths that do not do ----------

  /** A path that leads to the root of a mounted tree: the second mount stays, the first goes, and the table is broken. */
  lemma SecondMountIsNotUndone(v: Vfs, at: Nd, nd: Nd, comps: seq<string>, mustDir: bool)
    requires Ok(v) && NdOk(v, at) && IsDir(v, at.dentry) && NdOk(v, nd) && Walk(v, nd, comps) == Some(at)
    requires IsTop(v, at.dentry) && at.dentry != v.root
    ensures v.m[at.mnt].mountpoint in v.d
    ensures UnmountBy(MountStep(v, at), nd, comps, mustDir) == Some(UnmountStep(MountStep(v, at), at.mnt))
    ensures !WalksAsBefore(v, UnmountStep(MountStep(v, at), at.mnt)) && !Ok(UnmountStep(MountStep(v, at), at.mnt))
  {
    HiddenMount(v, at, nd, comps);
    OldMountFound(v, at, at.mnt);
    UnmountFinds(MountStep(v, at), nd, comps, mustDir, at, at.mnt);
    TreeIsGone(v, at);
    ParentIsGone(v, at);
  }

  /** A mount `i` whose root is `at` is still found by it after a mount on `at`. */
  lemma OldMountFound(v: Vfs, at: Nd, i: int)
    requires Ok(v) && NdOk(v, at) && IsTop(v, at.dentry) && i == at.mnt && IsDir(v, at.dentry)
    ensures var v1 := MountStep(v, at);
            FirstRooted(v1.m, v1.list, at.dentry) == i && i in v1.m && v1.m[i] == v.m[i]
            && v.m[i].mountpoint in v.d && v.m[i].mountpoint in v1.d && IsDir(v1, at.dentry)
  {
    TopOfTop(v, at.dentry);
    NextIsFresh(v);
    RootedAfterMount(v, at, at.dentry);
    RootedIs(v, i);
    assert MountOk(v, i);
    MountedEntry(v, at, at.dentry);
  }

  lemma ParentIsGone(v: Vfs, at: Nd)
    requires Ok(v) && NdOk(v, at) && v.m[at.mnt].mountpoint in v.d
    ensures !Ok(UnmountStep(MountStep(v, at), at.mnt))
  {
    var u, j := UnmountStep(MountStep(v, at), at.mnt), v.next + 1;
    NextIsFresh(v);
    NewMountIsThere(v, at);
    assert u.list[0] == j;
    Orphan(u, j);
  }

  lemma Orphan(u: Vfs, j: int)
    requires j in u.list && j in u.m && j != u.rootmnt && u.m[j].parent !in u.m
    ensures !Ok(u)
  {
    assert !MountOk(u, j);
  }

  const ANYONE := Inode(0, 0, ROOT_ACL)

  /** A root directory with one directory "d" in it, at address 3. */
  function OneDirectory(): Vfs {
    Create(Fresh(map[]), 1, "d", true, ANYONE)
  }

  lemma OneDirectoryIsOk()
    ensures Ok(OneDirectory()) && NdOk(OneDirectory(), Nd(1, 2)) && NdOk(OneDirectory(), Nd(3, 2))
    ensures Walk(OneDirectory(), Nd(1, 2), ["d"]) == Some(Nd(3, 2))
  {
    FreshIsOk(map[]);
    CreateKeepsOk(Fresh(map[]), 1, "d", true, ANYONE);
    CreatedChildren(Fresh(map[]), 1, "d", true, ANYONE, 1, "d");
    assert ["d"][1..] == [];
    WalkKeepsNdOk(OneDirectory(), Nd(1, 2), ["d"]);
  }

  /** The same with "d" mounted on. */
  function OneMount(): Vfs {
    MountStep(OneDirectory(), Nd(3, 2))
  }

  lemma OneMountIsOk()
    ensures Ok(OneMount()) && NdOk(OneMount(), Nd(1, 2)) && NdOk(OneMount(), Nd(4, 5)) && IsTop(OneMount(), 4) && IsDir(OneMount(), 4)
    ensures Walk(OneMount(), Nd(1, 2), ["d"]) == Some(Nd(4, 5)) && NewRoot(OneMount()) == Nd(6, 7)
  {
    OneDirectoryIsOk();
    var v0, root := OneDirectory(), Nd(1, 2);
    MountKeepsOk(v0, Nd(3, 2));
    MountKeepsNdOk(v0, Nd(3, 2), root);
    FreshIsOk(map[]);
    CreatedChildren(Fresh(map[]), 1, "d", true, ANYONE, 1, "d");
    LookupWhileMounted(v0, Nd(3, 2), root, "d");
    assert ["d"][1..] == [];
    WalkKeepsNdOk(OneMount(), root, ["d"]);
  }

  /** "d" mounted on twice: unmounting "d" takes the first mount, 5, although the second, 7, was made last. */
  lemma MountedTwice()
    ensures var v, at := OneMount(), Nd(4, 5);
            && Walk(v, Nd(1, 2), ["d"]) == Some(at) && 5 in v.m && v.m[5].mountpoint in v.d
            && UnmountBy(MountStep(v, at), Nd(1, 2), ["d"], false) == Some(UnmountStep(MountStep(v, at), 5))
            && !WalksAsBefore(v, UnmountStep(MountStep(v, at), 5))
  {
    OneMountIsOk();
    SecondMountIsNotUndone(OneMount(), Nd(4, 5), Nd(1, 2), ["d"], false);
  }

  /** "d" with a directory "x" in it, at address 4. */
  function TwoDirectories(): Vfs {
    Create(OneDirectory(), 3, "x", true, ANYONE)
  }

  lemma TwoDirectoriesAreOk()
    ensures var v := TwoDirectories();
            && Ok(v) && NdOk(v, Nd(1, 2)) && NdOk(v, Nd(3, 2)) && IsDir(v, 1) && IsDir(v, 3) && !IsTop(v, 3)
            && Child(v, 1, "d") == 3 && Step(v, Nd(1, 2), "d") == At(Nd(3, 2)) && Step(v, Nd(3, 2), "x") == At(Nd(4, 2))
  {
    OneDirectoryIsOk();
    FreshIsOk(map[]);
    var v0 := OneDirectory();
    assert DentryOk(v0, 3);
    CreateKeepsOk(v0, 3, "x", true, ANYONE);
    GrowsKeepsNdOk(v0, TwoDirectories(), Nd(1, 2));
    GrowsKeepsNdOk(v0, TwoDirectories(), Nd(3, 2));
    CreatedChildren(Fresh(map[]), 1, "d", true, ANYONE, 1, "d");
    CreatedChildren(v0, 3, "x", true, ANYONE, 1, "d");
    CreatedChildren(v0, 3, "x", true, ANYONE, 3, "x");
  }

  /** "d/x/..", which is "d": after the mount the path is not found any more, and unmounting it fails. */
  lemma MountedFromBelow()
    ensures var v, path := TwoDirectories(), ["d", "x", ".."];
            && Walk(v, Nd(1, 2), path) == Some(Nd(3, 2))
            && UnmountBy(MountStep(v, Nd(3, 2)), Nd(1, 2), path, false) == None
  {
    TwoDirectoriesAreOk();
    var v, at, path := TwoDirectories(), Nd(3, 2), ["d", "x", ".."];
    assert path[1..] == ["x", ".."] && ["x", ".."][1..] == [".."] && [".."][1..] == [];
    assert Walk(v, Nd(4, 2), [".."]) == Some(at);
    assert Walk(v, at, ["x", ".."]) == Some(at);
    LookupWhileMounted(v, at, Nd(1, 2), "d");
    StepFromNewRoot(v, at, "x");
    assert Walk(MountStep(v, at), NewRoot(v), ["x", ".."]) == None;
  }
}
