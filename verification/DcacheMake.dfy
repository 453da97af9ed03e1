/** Creating the missing components of a path: make_path of src/fs/path.c as a function of the tree. */
module DcacheMake {
  import opened Dcache
  import opened Wrappers

  // ---------- permission ----------

  /** Who is asking. */
  datatype Cred = Cred(uid: int, gid: int)

  /** check_acl for R_OK | W_OK: the owner's, the group's or the others' bits decide. */
  predicate Denied(who: Cred, ip: Inode) {
    var need: bv16 := if who.uid == ip.uid then 0x0600 else if who.gid == ip.gid then 0x0060 else 0x0006;
    ip.acl & need != need
  }

  // ---------- one new dentry ----------

  /** A new dentry becomes the first child of directory `x`. */
  function Create(v: Vfs, x: int, name: string, isdir: bool, inode: Inode): Vfs
    requires x in v.d
  {
    v.(d := v.d[v.next := Dentry(name, x, [], 0, isdir, inode)][x := v.d[x].(subdirs := [v.next] + v.d[x].subdirs)],
       next := v.next + 1)
  }

  /** Everything that could be found before is still found. */
  ghost predicate Grows(v: Vfs, v': Vfs) {
    && v'.m == v.m && v'.list == v.list && v'.root == v.root && v'.rootmnt == v.rootmnt
    && (forall x {:trigger GrowsAt(v, v', x)} :: x in v.d ==> GrowsAt(v, v', x))
    && (forall x, name :: x in v.d && Child(v, x, name) in v.d ==> Child(v', x, name) == Child(v, x, name))
  }

  ghost predicate GrowsAt(v: Vfs, v': Vfs, x: int)
    requires x in v.d
  {
    && x in v'.d && v'.d[x].name == v.d[x].name && v'.d[x].parent == v.d[x].parent
    && v'.d[x].mounted == v.d[x].mounted && v'.d[x].isdir == v.d[x].isdir
  }

  lemma GrowsTransitive(u: Vfs, v: Vfs, w: Vfs)
    requires Grows(u, v) && Grows(v, w)
    ensures Grows(u, w)
  {
    forall x | x in u.d
      ensures GrowsAt(u, w, x)
    {
      assert GrowsAt(u, v, x) && GrowsAt(v, w, x);
    }
    forall x, name | x in u.d && Child(u, x, name) in u.d
      ensures Child(w, x, name) == Child(u, x, name)
    {
      assert GrowsAt(u, v, x) && GrowsAt(u, v, Child(u, x, name));
    }
  }

  lemma {:induction false} ChildInFrame(d: map<int, Dentry>, d': map<int, Dentry>, siblings: seq<int>, name: string)
    requires forall c :: c in siblings ==> c in d && c in d' && d'[c].name == d[c].name
    ensures ChildIn(d', siblings, name) == ChildIn(d, siblings, name)
  {
    if siblings != [] {
      assert siblings[0] in siblings;
      ChildInFrame(d, d', siblings[1..], name);
    }
  }

  /** The dentries of `v` keep their parents in `d`. */
  ghost predicate ParentsKept(v: Vfs, d: map<int, Dentry>) {
    forall y {:trigger v.d[y]} {:trigger d[y]} :: y in v.d ==> y in d && d[y].parent == v.d[y].parent
  }

  lemma {:induction false} TopFrame(v: Vfs, d: map<int, Dentry>, x: int)
    requires Ok(v) && ParentsKept(v, d) && x in v.d
    ensures Top(d, x) == Top(v.d, x)
    decreases x
  {
    assert DentryOk(v, x);
    if v.d[x].parent < x {
      TopFrame(v, d, v.d[x].parent);
    }
  }

  lemma {:induction false} MountsFrame(v: Vfs, v': Vfs, list: seq<int>, c: int)
    requires v'.m == v.m && v'.rootmnt == v.rootmnt
    ensures Mounts(v', list, c) == Mounts(v, list, c)
  {
    if list != [] {
      MountsFrame(v, v', list[1..], c);
    }
  }

  lemma {:induction false} NotMountedOn(v: Vfs, list: seq<int>, c: int)
    requires forall i :: i in list && i in v.m && i != v.rootmnt ==> v.m[i].mountpoint != c
    ensures Mounts(v, list, c) == 0
  {
    if list != [] {
      assert list[0] in list;
      NotMountedOn(v, list[1..], c);
    }
  }

  lemma CreatedChildren(v: Vfs, x: int, name: string, isdir: bool, inode: Inode, y: int, nm: string)
    requires Ok(v) && IsDir(v, x) && y in v.d
    ensures var v' := Create(v, x, name, isdir, inode);
            Child(v', y, nm) == if y == x && nm == name then v.next else Child(v, y, nm)
  {
    var v' := Create(v, x, name, isdir, inode);
    assert DentryOk(v, y) && DentryOk(v, x);
    forall c | c in v.d[y].subdirs
      ensures c in v'.d && v'.d[c].name == v.d[c].name
    {
      assert DentryOk(v, c);
    }
    ChildInFrame(v.d, v'.d, v.d[y].subdirs, nm);
    if y == x {
      assert ([v.next] + v.d[x].subdirs)[1..] == v.d[x].subdirs;
    }
  }

  /** A name that is not there yet can be added; names stay unique and nothing that was found is lost. */
  lemma CreateKeepsOk(v: Vfs, x: int, name: string, isdir: bool, inode: Inode)
    requires Ok(v) && IsDir(v, x) && Child(v, x, name) !in v.d && !IsDots(name)
    ensures Ok(Create(v, x, name, isdir, inode)) && Grows(v, Create(v, x, name, isdir, inode))
  {
    var v' := Create(v, x, name, isdir, inode);
    NextIsFresh(v);
    forall y | y in v'.d
      ensures DentryOk(v', y)
    {
      CreatedDentryOk(v, x, name, isdir, inode, y);
    }
    forall i | i in v'.list
      ensures MountOk(v', i)
    {
      CreatedMountOk(v, x, name, isdir, inode, i);
    }
    forall i, j
      ensures SameRootSameMount(v', i, j)
    {
      assert SameRootSameMount(v, i, j);
    }
    CreateGrows(v, x, name, isdir, inode);
  }

  lemma CreateGrows(v: Vfs, x: int, name: string, isdir: bool, inode: Inode)
    requires Ok(v) && IsDir(v, x) && Child(v, x, name) !in v.d && v.next !in v.d
    ensures Grows(v, Create(v, x, name, isdir, inode))
  {
    var v' := Create(v, x, name, isdir, inode);
    forall y, nm | y in v.d && Child(v, y, nm) in v.d
      ensures Child(v', y, nm) == Child(v, y, nm)
    {
      CreatedChildren(v, x, name, isdir, inode, y, nm);
    }
  }

  lemma CreatedMountOk(v: Vfs, x: int, name: string, isdir: bool, inode: Inode, i: int)
    requires Ok(v) && IsDir(v, x) && v.next !in v.d && i in v.list
    ensures MountOk(Create(v, x, name, isdir, inode), i)
  {
    var v' := Create(v, x, name, isdir, inode);
    assert MountOk(v, i);
    if i != v.rootmnt {
      TopFrame(v, v'.d, v.m[i].mountpoint);
    }
  }

  lemma CreatedDentryOk(v: Vfs, x: int, name: string, isdir: bool, inode: Inode, y: int)
    requires Ok(v) && IsDir(v, x) && Child(v, x, name) !in v.d && v.next !in v.d && !IsDots(name)
    requires y in Create(v, x, name, isdir, inode).d
    ensures DentryOk(Create(v, x, name, isdir, inode), y)
  {
    var v' := Create(v, x, name, isdir, inode);
    assert DentryOk(v, x);
    MountsFrame(v, v', v.list, y);
    if y == v.next {
      forall i | i in v.list && i in v.m && i != v.rootmnt
        ensures v.m[i].mountpoint != y
      {
        assert MountOk(v, i);
      }
      NotMountedOn(v, v.list, y);
    } else {
      assert DentryOk(v, y);
      if y == x {
        NoSuchName(v.d, v.d[x].subdirs, name);
      }
    }
  }

  lemma {:induction false} NoSuchName(d: map<int, Dentry>, siblings: seq<int>, name: string)
    requires ChildIn(d, siblings, name) !in d
    ensures forall i :: 0 <= i < |siblings| && siblings[i] in d ==> d[siblings[i]].name != name
  {
    if siblings != [] {
      NoSuchName(d, siblings[1..], name);
      forall i | 0 <= i < |siblings| && siblings[i] in d
        ensures d[siblings[i]].name != name
      {
        assert i > 0 ==> siblings[i] == siblings[1..][i - 1];
      }
    }
  }

  // ---------- lookups in a grown tree ----------

  lemma GrowsKeepsNdOk(v: Vfs, v': Vfs, nd: Nd)
    requires Ok(v) && Grows(v, v') && NdOk(v, nd)
    ensures NdOk(v', nd)
  {
    forall y | y in v.d
      ensures y in v'.d && v'.d[y].parent == v.d[y].parent
    {
      assert GrowsAt(v, v', y);
    }
    TopFrame(v, v'.d, nd.dentry);
  }

  lemma GrowsStep(v: Vfs, v': Vfs, nd: Nd, c: string)
    requires Ok(v) && Grows(v, v') && NdOk(v, nd) && Step(v, nd, c).At?
    ensures Step(v', nd, c) == Step(v, nd, c)
  {
    assert GrowsAt(v, v', nd.dentry);
    if c == ".." {
      assert MountOk(v, nd.mnt);
      if IsTop(v, nd.dentry) && nd.dentry != v.root {
        TopOfTop(v, nd.dentry);
        assert GrowsAt(v, v', v.m[nd.mnt].mountpoint);
      }
    } else if c != "." {
      assert GrowsAt(v, v', Child(v, nd.dentry, c));
    }
  }

  /** Every path that resolved still resolves to the same dentry. */
  lemma {:induction false} GrowsWalk(v: Vfs, v': Vfs, nd: Nd, comps: seq<string>)
    requires Ok(v) && Grows(v, v') && NdOk(v, nd) && Walk(v, nd, comps).Some?
    ensures Walk(v', nd, comps) == Walk(v, nd, comps)
    decreases |comps|
  {
    if comps != [] {
      assert GrowsAt(v, v', nd.dentry);
      GrowsStep(v, v', nd, comps[0]);
      StepKeepsNdOk(v, nd, comps[0]);
      GrowsWalk(v, v', Step(v, nd, comps[0]).nd, comps[1..]);
    }
  }

  // ---------- make_path ----------

  /** The tree afterwards, the free inode slots of kvfs, and the answer. */
  datatype Made = Made(v: Vfs, slots: nat, answer: Option<Nd>)

  /** What make_path is asked for: a directory or a file, by whom, with which mode, and whether the path ends in '/'. */
  datatype Request = Request(wantDir: bool, trailing: bool, who: Cred, mode: bv16)

  /** Lines 149-192: the component is found or made. */
  function FindOrMake(v: Vfs, slots: nat, nd: Nd, c: string, last: bool, q: Request): Made {
    match DoLookup(v, nd, c)
    case At(n) => Made(v, slots, Some(n))
    case Panic => Made(v, slots, None)
    case NotFound =>
      if nd.dentry !in v.d || Denied(q.who, v.d[nd.dentry].inode) then Made(v, slots, None)
      else
        var inode := Inode(q.who.uid, q.who.gid, q.mode);
        if last && !q.wantDir then
          if slots == 0 then Made(v, slots, None)
          else Made(Create(v, nd.dentry, c, false, inode), slots - 1, Some(Nd(v.next, nd.mnt)))
        else Made(Create(v, nd.dentry, c, true, inode), slots, Some(Nd(v.next, nd.mnt)))
  }

  function Make(v: Vfs, slots: nat, nd: Nd, comps: seq<string>, q: Request): Made
    decreases |comps|
  {
    if comps == [] then Made(v, slots, if q.wantDir then Some(nd) else None)
    else
      var c, last := comps[0], |comps| == 1;
      if last && q.trailing && !q.wantDir then Made(v, slots, None)
      else if IsDots(c) then
        var n := if c == ".." then DotDot(v, nd) else nd;
        if last then Made(v, slots, if q.wantDir then Some(n) else None) else Make(v, slots, n, comps[1..], q)
      else
        var r := FindOrMake(v, slots, nd, c, last, q);
        if r.answer == None then r
        else if !last then
          if IsDir(r.v, r.answer.value.dentry) then Make(r.v, r.slots, r.answer.value, comps[1..], q) else r.(answer := None)
        else if IsDir(r.v, r.answer.value.dentry) == q.wantDir then r else r.(answer := None)
  }

  lemma FindOrMakeIsFound(v: Vfs, slots: nat, nd: Nd, c: string, last: bool, q: Request)
    requires Ok(v) && NdOk(v, nd) && IsDir(v, nd.dentry) && !IsDots(c)
    ensures var r := FindOrMake(v, slots, nd, c, last, q);
            && Ok(r.v) && Grows(v, r.v) && NdOk(r.v, nd) && IsDir(r.v, nd.dentry)
            && (r.answer.Some? ==> Step(r.v, nd, c) == At(r.answer.value) && NdOk(r.v, r.answer.value))
  {
    var r := FindOrMake(v, slots, nd, c, last, q);
    if r.v == v {
      assert forall x :: x in v.d ==> GrowsAt(v, v, x);
      if r.answer.Some? {
        LookupKeepsNdOk(v, nd, c);
      }
    } else {
      var inode := Inode(q.who.uid, q.who.gid, q.mode);
      var isdir := !(last && !q.wantDir);
      assert Child(v, nd.dentry, c) !in v.d;
      CreateKeepsOk(v, nd.dentry, c, isdir, inode);
      CreatedChildren(v, nd.dentry, c, isdir, inode, nd.dentry, c);
      assert GrowsAt(v, r.v, nd.dentry) && DentryOk(r.v, v.next);
      GrowsKeepsNdOk(v, r.v, nd);
      LookupKeepsNdOk(r.v, nd, c);
    }
  }

  /**
    make_path keeps the tree in order and every path that resolved; and what it answers is what a lookup of the
    same path then finds, a directory or a file as asked.
   */
  lemma {:induction false} MadePathIsFound(v: Vfs, slots: nat, nd: Nd, comps: seq<string>, q: Request)
    requires Ok(v) && NdOk(v, nd) && IsDir(v, nd.dentry)
    ensures var r := Make(v, slots, nd, comps, q);
            && Ok(r.v) && Grows(v, r.v) && NdOk(r.v, nd)
            && (r.answer.Some? ==>
                  && Walk(r.v, nd, comps) == r.answer && NdOk(r.v, r.answer.value)
                  && IsDir(r.v, r.answer.value.dentry) == q.wantDir
                  && Resolve(r.v, nd, comps, q.trailing) == r.answer)
    decreases |comps|
  {
    var r := Make(v, slots, nd, comps, q);
    assert forall x :: x in v.d ==> GrowsAt(v, v, x);
    if comps != [] && !(|comps| == 1 && q.trailing && !q.wantDir) {
      var c, last := comps[0], |comps| == 1;
      if IsDots(c) {
        var n := if c == ".." then DotDot(v, nd) else nd;
        DotDotKeepsNdOk(v, nd);
        if !last {
          MadePathIsFound(v, slots, n, comps[1..], q);
          FirstStepStays(v, r.v, nd, comps, n);
          GrowsKeepsNdOk(v, r.v, nd);
        }
      } else {
        FindOrMakeIsFound(v, slots, nd, c, last, q);
        var f := FindOrMake(v, slots, nd, c, last, q);
        if f.answer.Some? && !last && IsDir(f.v, f.answer.value.dentry) {
          MadePathIsFound(f.v, f.slots, f.answer.value, comps[1..], q);
          GrowsTransitive(v, f.v, r.v);
          FirstStepStays(f.v, r.v, nd, comps, f.answer.value);
          GrowsKeepsNdOk(f.v, r.v, nd);
        }
      }
    }
  }

  lemma FirstStepStays(v: Vfs, v': Vfs, nd: Nd, comps: seq<string>, n: Nd)
    requires Ok(v) && Grows(v, v') && NdOk(v, nd) && IsDir(v, nd.dentry) && comps != []
    requires Step(v, nd, comps[0]) == At(n)
    ensures Walk(v', nd, comps) == Walk(v', n, comps[1..])
  {
    assert GrowsAt(v, v', nd.dentry);
    GrowsStep(v, v', nd, comps[0]);
  }

  // ---------- exactly what is made ----------

  /** The read and the write bit of the owner, of the group, or of others. */
  predicate MayChange(who: Cred, ip: Inode) {
    if who.uid == ip.uid then ip.acl & 0x0600 == 0x0600
    else if who.gid == ip.gid then ip.acl & 0x0060 == 0x0060
    else ip.acl & 0x0006 == 0x0006
  }

  lemma DeniedExactly(who: Cred, ip: Inode)
    ensures Denied(who, ip) <==> !MayChange(who, ip)
  {
  }

  /**
    `v'` is `v` with a chain of new dentries below `x`, at the next addresses in order, each a child of the one before;
    all are directories but perhaps the last.
   */
  ghost predicate Chained(v: Vfs, v': Vfs, x: int, names: seq<string>, lastIsDir: bool, inode: Inode) {
    var a, n := v.next, |names|;
    && v' == v.(d := v'.d, next := a + n)
    && (forall y :: y in v'.d <==> y in v.d || a <= y < a + n)
    && (forall y :: y in v.d && y in v'.d ==>
          v'.d[y] == if y == x && n > 0 then v.d[y].(subdirs := [a] + v.d[y].subdirs) else v.d[y])
    && (forall j :: 0 <= j < n ==> LinkAt(v', x, a, names, lastIsDir, inode, j))
  }

  ghost predicate LinkAt(v': Vfs, x: int, a: int, names: seq<string>, lastIsDir: bool, inode: Inode, j: int)
    requires 0 <= j < |names|
  {
    var last := j + 1 == |names|;
    a + j in v'.d
    && v'.d[a + j] == Dentry(names[j], if j == 0 then x else a + j - 1, if last then [] else [a + j + 1], 0, lastIsDir || !last, inode)
  }

  lemma NothingChained(v: Vfs, x: int, lastIsDir: bool, inode: Inode)
    ensures Chained(v, v, x, [], lastIsDir, inode)
  {
  }

  lemma CreatedIsChained(v: Vfs, x: int, c: string, isdir: bool, inode: Inode)
    requires x in v.d && v.next !in v.d
    ensures Chained(v, Create(v, x, c, isdir, inode), x, [c], isdir, inode)
  {
    var v' := Create(v, x, c, isdir, inode);
    assert LinkAt(v', x, v.next, [c], isdir, inode, 0);
  }

  /** One new directory, and a chain below it. */
  lemma ChainGrows(v: Vfs, v1: Vfs, v': Vfs, x: int, c: string, names: seq<string>, lastIsDir: bool, inode: Inode)
    requires x in v.d && v.next !in v.d && Chained(v, v1, x, [c], true, inode) && Chained(v1, v', v.next, names, lastIsDir, inode)
    requires names == [] ==> lastIsDir
    ensures Chained(v, v', x, [c] + names, lastIsDir, inode)
  {
    var a, all := v.next, [c] + names;
    assert LinkAt(v1, x, a, [c], true, inode, 0);
    assert v'.d[a].subdirs == if names == [] then [] else [a + 1];
    forall j | 0 <= j < |all|
      ensures LinkAt(v', x, a, all, lastIsDir, inode, j)
    {
      if j > 0 {
        LinkFurther(v', x, a, c, names, lastIsDir, inode, j);
      }
    }
  }

  lemma LinkFurther(v': Vfs, x: int, a: int, c: string, names: seq<string>, lastIsDir: bool, inode: Inode, j: int)
    requires 0 < j <= |names| && LinkAt(v', a, a + 1, names, lastIsDir, inode, j - 1)
    ensures LinkAt(v', x, a, [c] + names, lastIsDir, inode, j)
  {
  }

  /** One missing component: when it is made, what then is there, and what it costs. */
  lemma MissingNameIsMade(v: Vfs, slots: nat, nd: Nd, c: string, last: bool, q: Request)
    requires Ok(v) && IsDir(v, nd.dentry) && !IsDots(c) && Child(v, nd.dentry, c) !in v.d
    ensures var r, x, asDir := FindOrMake(v, slots, nd, c, last, q), nd.dentry, q.wantDir || !last;
            var ip := v.d[x].inode;
            && (r.answer.Some? <==>
                  && (if q.who.uid == ip.uid then ip.acl & 0x0600 == 0x0600
                      else if q.who.gid == ip.gid then ip.acl & 0x0060 == 0x0060
                      else ip.acl & 0x0006 == 0x0006)
                  && (asDir || slots > 0))
            && (r.answer == None ==> r.v == v && r.slots == slots)
            && (r.answer.Some? ==>
                  && r.answer == Some(Nd(v.next, nd.mnt)) && r.slots == slots - (if asDir then 0 else 1)
                  && Chained(v, r.v, x, [c], asDir, Inode(q.who.uid, q.who.gid, q.mode)))
  {
    NextIsFresh(v);
    DeniedExactly(q.who, v.d[nd.dentry].inode);
    CreatedIsChained(v, nd.dentry, c, q.wantDir || !last, Inode(q.who.uid, q.who.gid, q.mode));
  }

  /** A walk within a path leads make_path through directories that are there. */
  lemma {:induction false} MakeSkips(v: Vfs, slots: nat, nd: Nd, a: seq<string>, b: seq<string>, q: Request)
    requires Ok(v) && NdOk(v, nd) && Walk(v, nd, a).Some? && b != []
    ensures var at := Walk(v, nd, a).value;
            Make(v, slots, nd, a + b, q)
            == if a == [] || IsDir(v, at.dentry) then Make(v, slots, at, b, q) else Made(v, slots, None)
    decreases |a|
  {
    if a == [] {
      assert a + b == b;
    } else {
      var c, rest := a[0], a[1..];
      assert (a + b)[0] == c && (a + b)[1..] == rest + b;
      var n := Step(v, nd, c).nd;
      StepKeepsNdOk(v, nd, c);
      DotDotKeepsNdOk(v, nd);
      MakeSkips(v, slots, n, rest, b, q);
    }
  }

  /** All of the components from `k` on can be made: they are names, the first one is missing in the directory before it. */
  ghost predicate MissingFrom(v: Vfs, nd: Nd, comps: seq<string>, k: int) {
    && 0 <= k < |comps| && Walk(v, nd, comps[..k]).Some?
    && MissingIn(v, Walk(v, nd, comps[..k]).value, comps[k..])
  }

  ghost predicate MissingIn(v: Vfs, at: Nd, names: seq<string>) {
    && IsDir(v, at.dentry) && names != [] && Child(v, at.dentry, names[0]) !in v.d
    && forall j :: 0 <= j < |names| ==> !IsDots(names[j])
  }

  /**
    How many of the missing names are made: the directory that is there must allow it, the ones made must when more is
    to be made in them, and a file needs a free slot and a path without a slash at its end.
   */
  function HowMany(ip: Inode, slots: nat, n: nat, q: Request): nat
    requires n > 0
  {
    if !MayChange(q.who, ip) then 0
    else if n > 1 && !MayChange(q.who, Inode(q.who.uid, q.who.gid, q.mode)) then 1
    else if q.wantDir || (slots > 0 && !q.trailing) then n
    else n - 1
  }

  /** What make_path makes of some missing names below `at`: the tree, the slots left, and whether all were made. */
  ghost predicate MadeBelow(v: Vfs, slots: nat, at: Nd, names: seq<string>, q: Request, v': Vfs, slots': nat, all: bool)
    requires at.dentry in v.d && names != []
  {
    var n, k := |names|, HowMany(v.d[at.dentry].inode, slots, |names|, q);
    && Chained(v, v', at.dentry, names[..k], q.wantDir || k < n, Inode(q.who.uid, q.who.gid, q.mode))
    && slots' == slots - (if all && !q.wantDir then 1 else 0)
    && (all <==> k == n)
  }

  /** And its answer: the last of the new dentries, if all were made. */
  ghost predicate MakesBelow(v: Vfs, slots: nat, at: Nd, names: seq<string>, q: Request, r: Made)
    requires at.dentry in v.d && names != []
  {
    && MadeBelow(v, slots, at, names, q, r.v, r.slots, r.answer.Some?)
    && (r.answer.Some? ==> r.answer == Some(Nd(v.next + |names| - 1, at.mnt)))
  }

  /** A missing name with more behind it becomes a directory, from which the rest is made, or stops everything. */
  lemma FirstOfSeveral(v: Vfs, slots: nat, at: Nd, names: seq<string>, q: Request) returns (v1: Vfs)
    requires Ok(v) && NdOk(v, at) && IsDir(v, at.dentry) && |names| > 1
    requires !IsDots(names[0]) && Child(v, at.dentry, names[0]) !in v.d
    ensures !MayChange(q.who, v.d[at.dentry].inode) ==> Make(v, slots, at, names, q) == Made(v, slots, None)
    ensures MayChange(q.who, v.d[at.dentry].inode) ==>
              && var inode, n := Inode(q.who.uid, q.who.gid, q.mode), Nd(v.next, at.mnt);
              && Chained(v, v1, at.dentry, names[..1], true, inode)
              && Ok(v1) && NdOk(v1, n) && v1.d[v.next].inode == inode
              && (MissingIn(v, at, names) ==> MissingIn(v1, n, names[1..]))
              && Make(v, slots, at, names, q) == Make(v1, slots, n, names[1..], q)
  {
    var c, rest, r := names[0], names[1..], FindOrMake(v, slots, at, names[0], false, q);
    assert names[..1] == [c];
    v1 := r.v;
    MissingNameIsMade(v, slots, at, c, false, q);
    DeniedExactly(q.who, v.d[at.dentry].inode);
    if r.answer.Some? {
      FindOrMakeIsFound(v, slots, at, c, false, q);
      assert LinkAt(v1, at.dentry, v.next, [c], true, Inode(q.who.uid, q.who.gid, q.mode), 0);
      assert forall j :: 0 <= j < |rest| ==> rest[j] == names[j + 1];
      EmptyDirectory(v1, v.next, rest[0]);
    }
  }

  lemma EmptyDirectory(v: Vfs, x: int, name: string)
    requires Ok(v) && x in v.d && v.d[x].subdirs == []
    ensures Child(v, x, name) !in v.d
  {
    NextIsFresh(v);
  }

  lemma LastIsMade(v: Vfs, slots: nat, at: Nd, names: seq<string>, q: Request)
    requires Ok(v) && NdOk(v, at) && MissingIn(v, at, names) && |names| == 1
    ensures MakesBelow(v, slots, at, names, q, Make(v, slots, at, names, q))
  {
    var c, inode := names[0], Inode(q.who.uid, q.who.gid, q.mode);
    var k := HowMany(v.d[at.dentry].inode, slots, 1, q);
    assert names[..k] == if k == 1 then [c] else [];
    NothingChained(v, at.dentry, q.wantDir || k < 1, inode);
    MissingNameIsMade(v, slots, at, c, true, q);
    var r := FindOrMake(v, slots, at, c, true, q);
    if r.answer.Some? {
      assert LinkAt(r.v, at.dentry, v.next, [c], q.wantDir, inode, 0);
    }
  }

  /** The exact outcome for names that are missing below a directory. */
  lemma {:induction false} MissingNamesAreMade(v: Vfs, slots: nat, at: Nd, names: seq<string>, q: Request)
    requires Ok(v) && NdOk(v, at) && MissingIn(v, at, names)
    ensures MakesBelow(v, slots, at, names, q, Make(v, slots, at, names, q))
    decreases |names|
  {
    if |names| == 1 {
      LastIsMade(v, slots, at, names, q);
    } else {
      var v1 := FirstOfSeveral(v, slots, at, names, q);
      var inode, rest, n := Inode(q.who.uid, q.who.gid, q.mode), names[1..], Nd(v.next, at.mnt);
      if MayChange(q.who, v.d[at.dentry].inode) {
        MissingNamesAreMade(v1, slots, n, rest, q);
        MadeBehind(v, v1, slots, at, names, q, Make(v1, slots, n, rest, q));
      } else {
        NothingChained(v, at.dentry, true, inode);
      }
    }
  }

  lemma MadeBehind(v: Vfs, v1: Vfs, slots: nat, at: Nd, names: seq<string>, q: Request, r: Made)
    requires Ok(v) && IsDir(v, at.dentry) && |names| > 1 && MayChange(q.who, v.d[at.dentry].inode)
    requires var inode := Inode(q.who.uid, q.who.gid, q.mode);
             && Chained(v, v1, at.dentry, names[..1], true, inode) && v.next in v1.d && v1.d[v.next].inode == inode
    requires MakesBelow(v1, slots, Nd(v.next, at.mnt), names[1..], q, r)
    ensures MakesBelow(v, slots, at, names, q, r)
  {
    var inode, rest := Inode(q.who.uid, q.who.gid, q.mode), names[1..];
    var k := HowMany(inode, slots, |rest|, q);
    OneMore(v.d[at.dentry].inode, slots, |names|, q);
    var c, later, lastIsDir := names[0], rest[..k], q.wantDir || k < |rest|;
    NewIdIsFree(v);
    FirstAndLater(names, k);
    ChainGrows(v, v1, r.v, at.dentry, c, later, lastIsDir, inode);
    assert Chained(v, r.v, at.dentry, names[..k + 1], lastIsDir, inode);
    assert v1.next == v.next + 1;
  }

  lemma FirstAndLater(names: seq<string>, k: nat)
    requires k < |names|
    ensures names[..1] == [names[0]] && [names[0]] + names[1..][..k] == names[..k + 1]
  {
  }

  lemma OneMore(ip: Inode, slots: nat, n: nat, q: Request)
    requires n > 1 && MayChange(q.who, ip)
    ensures HowMany(ip, slots, n, q) == 1 + HowMany(Inode(q.who.uid, q.who.gid, q.mode), slots, n - 1, q)
  {
  }

  lemma NewIdIsFree(v: Vfs)
    requires Ok(v)
    ensures v.next !in v.d
  {
    NextIsFresh(v);
  }

  /** The exact outcome of make_path for any path of which the end is missing. */
  lemma MissingPathIsMade(v: Vfs, slots: nat, nd: Nd, comps: seq<string>, k: nat, q: Request)
    requires Ok(v) && NdOk(v, nd) && MissingFrom(v, nd, comps, k)
    ensures Walk(v, nd, comps) == None
    ensures MakesBelow(v, slots, Walk(v, nd, comps[..k]).value, comps[k..], q, Make(v, slots, nd, comps, q))
  {
    var a, b, at := comps[..k], comps[k..], Walk(v, nd, comps[..k]).value;
    assert a + b == comps;
    WalkKeepsNdOk(v, nd, a);
    WalkConcat(v, nd, a, b);
    MakeSkips(v, slots, nd, a, b, q);
    MissingNamesAreMade(v, slots, at, b, q);
  }

  lemma MissingEndIsMade(v: Vfs, slots: nat, nd: Nd, comps: seq<string>, q: Request)
    requires Ok(v) && NdOk(v, nd)
    ensures forall k :: MissingFrom(v, nd, comps, k) ==>
              && Walk(v, nd, comps) == None
              && MakesBelow(v, slots, Walk(v, nd, comps[..k]).value, comps[k..], q, Make(v, slots, nd, comps, q))
  {
    forall k | MissingFrom(v, nd, comps, k)
      ensures Walk(v, nd, comps) == None
      ensures MakesBelow(v, slots, Walk(v, nd, comps[..k]).value, comps[k..], q, Make(v, slots, nd, comps, q))
    {
      MissingPathIsMade(v, slots, nd, comps, k, q);
    }
  }

  /** And for a path that is there: it is answered if it is of the kind asked for, and nothing is made. */
  lemma ExistingPathIsAnswered(v: Vfs, slots: nat, nd: Nd, comps: seq<string>, q: Request)
    requires Ok(v) && NdOk(v, nd) && IsDir(v, nd.dentry) && Walk(v, nd, comps).Some?
    ensures var at := Walk(v, nd, comps).value;
            var fits := if q.wantDir then IsDir(v, at.dentry)
                        else comps != [] && !q.trailing && !IsDots(comps[|comps| - 1]) && !IsDir(v, at.dentry);
            Make(v, slots, nd, comps, q) == Made(v, slots, if fits then Some(at) else None)
  {
    if comps != [] {
      var last := |comps| - 1;
      var a, b := comps[..last], comps[last..];
      assert a + b == comps && b == [comps[last]] && b[1..] == [];
      WalkConcat(v, nd, a, b);
      WalkKeepsNdOk(v, nd, a);
      var at := Walk(v, nd, a).value;
      DotDotKeepsNdOk(v, at);
      MakeSkips(v, slots, nd, a, b, q);
    }
  }
}
