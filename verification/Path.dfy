/** src/fs/path.c on character strings, and the path operations of src/vfs.c. */
module Path {
  import opened Dcache
  import opened Wrappers
  import opened DcacheMake
  import opened DcacheMount
  import opened DcacheRemount
  import DcacheRuns

  // ---------- components ----------

  /** The first position from `i` on that holds no '/'. */
  function SkipSlashes(p: string, i: nat): (j: nat)
    requires i <= |p|
    ensures i <= j <= |p| && (j < |p| ==> p[j] != '/') && (forall k :: i <= k < j ==> p[k] == '/')
    decreases |p| - i
  {
    if i < |p| && p[i] == '/' then SkipSlashes(p, i + 1) else i
  }

  /** The first position from `i` on that holds a '/', or the end. */
  function NameEnd(p: string, i: nat): (j: nat)
    requires i <= |p|
    ensures i <= j <= |p| && (j < |p| ==> p[j] == '/') && (forall k :: i <= k < j ==> p[k] != '/')
    decreases |p| - i
  {
    if i < |p| && p[i] != '/' then NameEnd(p, i + 1) else i
  }

  /** The names between the slashes, from position `i` on. */
  function Comps(p: string, i: nat): seq<string>
    requires i <= |p|
    decreases |p| - i
  {
    var b := SkipSlashes(p, i);
    if b == |p| then [] else var e := NameEnd(p, b); assert b < e; [p[b..e]] + Comps(p, e)
  }

  predicate Absolute(p: string) {
    |p| > 0 && p[0] == '/'
  }

  predicate Trailing(p: string) {
    |p| > 0 && p[|p| - 1] == '/'
  }

  ghost predicate IsName(c: string) {
    |c| > 0 && '/' !in c
  }

  /** A path spelled with its components, each behind any positive number of slashes. */
  function Spell(comps: seq<string>, slashes: seq<nat>): string
    requires |slashes| == |comps|
  {
    if comps == [] then "" else Slashes(slashes[0] + 1) + comps[0] + Spell(comps[1..], slashes[1..])
  }

  function Slashes(n: nat): (s: string)
    ensures |s| == n && forall k :: 0 <= k < n ==> s[k] == '/'
  {
    if n == 0 then "" else "/" + Slashes(n - 1)
  }

  lemma SkipIs(p: string, i: nat, j: nat)
    requires i <= j <= |p| && (forall k :: i <= k < j ==> p[k] == '/') && (j < |p| ==> p[j] != '/')
    ensures SkipSlashes(p, i) == j
  {
    var s := SkipSlashes(p, i);
    assert j <= s <= j;
  }

  lemma EndIs(p: string, i: nat, j: nat)
    requires i <= j <= |p| && (forall k :: i <= k < j ==> p[k] != '/') && (j < |p| ==> p[j] == '/')
    ensures NameEnd(p, i) == j
  {
    var s := NameEnd(p, i);
    assert j <= s <= j;
  }

  /** Components behind slashes, and perhaps slashes behind them. */
  function Tail(comps: seq<string>, slashes: seq<nat>, behind: nat): string
    requires |slashes| == |comps|
  {
    Spell(comps, slashes) + Slashes(behind)
  }

  lemma TailStep(comps: seq<string>, slashes: seq<nat>, behind: nat)
    requires |slashes| == |comps| > 0
    ensures Tail(comps, slashes, behind) == Slashes(slashes[0] + 1) + comps[0] + Tail(comps[1..], slashes[1..], behind)
  {
  }

  lemma TailStartsWithSlash(comps: seq<string>, slashes: seq<nat>, behind: nat)
    requires |slashes| == |comps|
    ensures Tail(comps, slashes, behind) != "" ==> Tail(comps, slashes, behind)[0] == '/'
  {
    if comps != [] {
      TailStep(comps, slashes, behind);
    }
  }

  lemma Moved(front: string, s: string, c: string, tail: string)
    ensures front + (s + c + tail) == (front + s + c) + tail
  {
  }

  /** A name between slashes is the next component. */
  lemma NameStands(p: string, front: string, s: string, c: string, tail: string, i: nat, b: nat, e: nat)
    requires p == (front + s + c) + tail && IsName(c) && (forall k :: 0 <= k < |s| ==> s[k] == '/') && (tail != "" ==> tail[0] == '/')
    requires i == |front| && b == i + |s| && e == b + |c|
    ensures e <= |p| && Comps(p, i) == [c] + Comps(p, e)
  {
    assert forall k :: i <= k < b ==> p[k] == s[k - i];
    assert forall k :: b <= k < e ==> p[k] == c[k - b];
    assert c[0] in c;
    SkipIs(p, i, b);
    assert e < |p| ==> p[e] == tail[0];
    EndIs(p, b, e);
    assert p[b..e] == c;
  }

  /** How many slashes separate the components, or follow them, never matters. */
  lemma {:induction false} SpelledComponents(p: string, front: string, comps: seq<string>, slashes: seq<nat>, behind: nat, i: nat)
    requires |slashes| == |comps| && forall c :: c in comps ==> IsName(c)
    requires p == front + Tail(comps, slashes, behind) && i == |front|
    ensures Comps(p, i) == comps
    decreases |comps|
  {
    if comps == [] {
      assert forall k :: i <= k < |p| ==> p[k] == Slashes(behind)[k - i];
      SkipIs(p, i, |p|);
    } else {
      var s, c, rest, later := Slashes(slashes[0] + 1), comps[0], comps[1..], slashes[1..];
      var tail := Tail(rest, later, behind);
      assert c in comps;
      TailStep(comps, slashes, behind);
      TailStartsWithSlash(rest, later, behind);
      Moved(front, s, c, tail);
      var next := front + s + c;
      NameStands(p, front, s, c, tail, i, i + |s|, |next|);
      SpelledComponents(p, next, rest, later, behind, |next|);
      assert [c] + rest == comps;
    }
  }

  /** So for a path that does not begin with a slash; and only slashes at the end ask for a directory. */
  lemma SpelledRelative(p: string, c: string, comps: seq<string>, slashes: seq<nat>, behind: nat)
    requires |slashes| == |comps| && IsName(c) && forall x :: x in comps ==> IsName(x)
    requires p == c + Tail(comps, slashes, behind)
    ensures Comps(p, 0) == [c] + comps && !Absolute(p) && (Trailing(p) <==> behind > 0)
  {
    var tail := Tail(comps, slashes, behind);
    TailStartsWithSlash(comps, slashes, behind);
    assert p == ("" + "" + c) + tail && c[0] in c && p[0] == c[0];
    NameStands(p, "", "", c, tail, 0, 0, |c|);
    SpelledComponents(p, c, comps, slashes, behind, |c|);
    EndsInName(p, c, comps, slashes, behind);
  }

  lemma {:induction false} EndsInName(p: string, front: string, comps: seq<string>, slashes: seq<nat>, behind: nat)
    requires |slashes| == |comps| && front != "" && front[|front| - 1] != '/' && forall x :: x in comps ==> IsName(x)
    requires p == front + Tail(comps, slashes, behind)
    ensures p != "" && (p[|p| - 1] == '/' <==> behind > 0)
    decreases |comps|
  {
    if comps == [] {
      assert behind > 0 ==> p[|p| - 1] == Slashes(behind)[behind - 1];
    } else {
      var s, c := Slashes(slashes[0] + 1), comps[0];
      assert c in comps && c[|c| - 1] in c;
      TailStep(comps, slashes, behind);
      Moved(front, s, c, Tail(comps[1..], slashes[1..], behind));
      EndsInName(p, front + s + c, comps[1..], slashes[1..], behind);
    }
  }

  // ---------- the file system ----------

  const ACL_DEFAULT: bv16 := 0x0664
  const KVFS_MAX_FILE: nat := 1024
  const MAX_FILE_PER_THREAD: nat := 256

  lemma GrowsKeepsDir(v: Vfs, v': Vfs, nd: Nd)
    requires Ok(v) && Grows(v, v') && NdOk(v, nd) && IsDir(v, nd.dentry)
    ensures NdOk(v', nd) && IsDir(v', nd.dentry)
  {
    GrowsKeepsNdOk(v, v', nd);
    assert GrowsAt(v, v', nd.dentry);
  }

  lemma MountKeepsNd(v: Vfs, at: Nd, nd: Nd)
    requires Ok(v) && at.dentry in v.d && NdOk(v, nd) && IsDir(v, nd.dentry)
    ensures NdOk(MountStep(v, at), nd) && IsDir(MountStep(v, at), nd.dentry)
  {
    NextIsFresh(v);
    TopFrame(v, MountStep(v, at).d, nd.dentry);
  }

  lemma ListedMounts(v: Vfs)
    requires Ok(v)
    ensures forall k :: 0 <= k < |v.list| ==> v.list[k] in v.m && v.m[v.list[k]].mountpoint in v.d
  {
    forall k | 0 <= k < |v.list|
      ensures v.list[k] in v.m && v.m[v.list[k]].mountpoint in v.d
    {
      assert MountOk(v, v.list[k]);
    }
  }

  lemma UnmountAndNd(v: Vfs, i: int, nd: Nd)
    requires Ok(v) && i in v.list && i in v.m && v.m[i].mountpoint in v.d && NdOk(v, nd) && IsDir(v, nd.dentry)
    ensures NdOk(UnmountStep(v, i), nd) <==> nd.mnt != i
    ensures IsDir(UnmountStep(v, i), nd.dentry)
  {
    WithoutMembers(v.list, i);
    TopFrame(v, UnmountStep(v, i).d, nd.dentry);
  }

  lemma AfterUnmount(v: Vfs, i: int, x: int, root: Nd, pwd: Nd)
    requires Ok(v) && i == FirstRooted(v.m, v.list, x) && i != NIL
    requires NdOk(v, root) && NdOk(v, pwd) && IsDir(v, root.dentry) && IsDir(v, pwd.dentry)
    ensures i in v.m && v.m[i].mountpoint in v.d
    ensures var u := UnmountStep(v, i);
            Ok(u) && NdOk(u, root) && NdOk(u, pwd) && IsDir(u, root.dentry) && IsDir(u, pwd.dentry)
            <==> i != v.rootmnt && !HasChildMount(v, i) && root.mnt != i && pwd.mnt != i
  {
    FirstRootedIsListed(v.m, v.list, x);
    assert MountOk(v, i);
    UnmountKeepsOk(v, i);
    UnmountAndNd(v, i, root);
    UnmountAndNd(v, i, pwd);
  }

  class FileSystem {
    var v: Vfs              // the dentries and mounts
    var root: Nd            // current->fs.root and rootmnt
    var pwd: Nd             // current->fs.pwd and pwdmnt
    var who: Cred           // current->uid and gid
    var slots: nat          // inode slots that kvfs has left
    var fds: seq<Option<int>>    // current->file_descriptors, by the dentry each one is open on

    ghost predicate Valid()
      reads this
    {
      && Ok(v) && NdOk(v, root) && NdOk(v, pwd) && IsDir(v, root.dentry) && IsDir(v, pwd.dentry)
    }

    /** vfs_init, with the first thread's root and working directory as os_run sets them. */
    constructor (who: Cred, roots: map<int, Inode>)
      ensures Valid() && root == pwd == Nd(1, 2) && this.who == who && v == DcacheRuns.Fresh(roots) && slots == 1024
      ensures v.d == map[1 := Dentry("", 1, [], 0, true, Inode(0, 0, 0x0755))] && v.m.Keys == {2} && v.list == [2]
      ensures |fds| == MAX_FILE_PER_THREAD && forall k :: 0 <= k < |fds| ==> (fds[k] != None <==> k < 3)
    {
      DcacheRuns.FreshIsOk(roots);
      v, root, pwd, this.who, slots := DcacheRuns.Fresh(roots), Nd(1, 2), Nd(1, 2), who, KVFS_MAX_FILE;
      fds := seq(MAX_FILE_PER_THREAD, k => if k < 3 then Some(NIL) else None);
    }

    /** Where the walk of a path starts. */
    function Origin(path: string): Nd
      reads this
    {
      if Absolute(path) then root else pwd
    }

    /** What a lookup of `path` means: the walk over its components, ending in a directory if a slash ends the path. */
    function Meaning(path: string): Option<Nd>
      reads this
    {
      Resolve(v, Origin(path), Comps(path, 0), Trailing(path))
    }

    /** path_lookup: the cursor moves over the string while the dentry moves through the tree. */
    method PathLookup(path: string, directory: bool) returns (r: Option<Nd>)
      requires Valid()
      ensures r == Resolve(v, Origin(path), Comps(path, 0), directory || Trailing(path))
      ensures var mustDir := directory || (path != "" && path[|path| - 1] == '/');
              r == Resolve(v, if path != "" && path[0] == '/' then root else pwd, Comps(path, 0), mustDir)
    {
      var nd := Origin(path);
      var i := SkipAll(path, 0);
      FirstComponent(path, i);
      if i == |path| {
        return Some(nd);
      }
      var flag := directory;
      ghost var mustDir := directory || Trailing(path);
      ghost var goal := Resolve(v, nd, Comps(path, 0), mustDir);
      while true
        invariant i < |path| && path[i] != '/' && flag == directory
        invariant Standing(v, nd) && Resolve(v, nd, Comps(path, i), mustDir) == goal
        decreases |path| - i
      {
        var name, next, slash := Take(path, i);
        OneStep(v, nd, Comps(path, i), mustDir);
        if slash && next == |path| {
          flag := true;
        }
        if name == "." || name == ".." {
          if name == ".." {
            nd := DotDot(v, nd);
          }
          if next == |path| {
            return Some(nd);
          }
        } else {
          var found := DoLookup(v, nd, name);
          if found == NotFound {
            return None;
          }
          nd := found.nd;
          if next < |path| {
            if !v.d[nd.dentry].isdir {
              return None;
            }
          } else {
            if flag && !v.d[nd.dentry].isdir {
              return None;
            }
            return Some(nd);
          }
        }
        i := next;
      }
    }

    /** The component at the cursor, where the next one starts, and whether a slash follows it. */
    static method Take(p: string, i: nat) returns (name: string, next: nat, slash: bool)
      requires i < |p| && p[i] != '/'
      ensures i < next <= |p| && (next < |p| ==> p[next] != '/')
      ensures Comps(p, i) == [name] + Comps(p, next) && (next == |p| <==> Comps(p, next) == [])
      ensures next == |p| ==> (slash <==> Trailing(p))
    {
      var e := FindEnd(p, i);
      name := p[i..e];
      next := SkipAll(p, e);
      slash := e < |p|;
      NextComponent(p, i, e, next);
    }

    /** make_path: as `Make` says, which is to find or make one component after the other. */
    method MakePath(path: string, wantDir: bool, mode: bv16) returns (r: Option<Nd>)
      requires Valid()
      modifies this`v, this`slots
      ensures Valid()
      ensures Made(v, slots, r) == Make(old(v), old(slots), old(Origin(path)), Comps(path, 0), Request(wantDir, Trailing(path), who, mode))
      ensures forall k :: MissingFrom(old(v), old(Origin(path)), Comps(path, 0), k) ==>
                MakesBelow(old(v), old(slots), Walk(old(v), old(Origin(path)), Comps(path, 0)[..k]).value, Comps(path, 0)[k..],
                           Request(wantDir, Trailing(path), who, mode), Made(v, slots, r))
    {
      ghost var q := Request(wantDir, Trailing(path), who, mode);
      MissingEndIsMade(v, slots, Origin(path), Comps(path, 0), q);
      ghost var goal := Make(v, slots, Origin(path), Comps(path, 0), q);
      MadePathIsFound(v, slots, Origin(path), Comps(path, 0), q);
      GrowsKeepsDir(v, goal.v, root);
      GrowsKeepsDir(v, goal.v, pwd);
      r := MakeComponents(path, wantDir, mode, q);
    }

    method MakeComponents(path: string, wantDir: bool, mode: bv16, ghost q: Request) returns (r: Option<Nd>)
      requires Standing(v, Origin(path)) && q == Request(wantDir, Trailing(path), who, mode)
      modifies this`v, this`slots
      ensures Made(v, slots, r) == Make(old(v), old(slots), old(Origin(path)), Comps(path, 0), q)
    {
      ghost var goal := Make(v, slots, Origin(path), Comps(path, 0), q);
      var nd := Origin(path);
      var i := SkipAll(path, 0);
      FirstComponent(path, i);
      if i == |path| {
        return if wantDir then Some(nd) else None;
      }
      while true
        invariant i < |path| && path[i] != '/'
        invariant Standing(v, nd) && Make(v, slots, nd, Comps(path, i), q) == goal
        decreases |path| - i
      {
        var name, next, slash := Take(path, i);
        MakeOne(v, slots, nd, Comps(path, i), q);
        if slash && next == |path| && !wantDir {
          return None;
        }
        if name == "." || name == ".." {
          if name == ".." {
            nd := DotDot(v, nd);
          }
          if next == |path| {
            return if wantDir then Some(nd) else None;
          }
        } else {
          var n := FindOrCreate(nd, name, next == |path|, wantDir, mode, q);
          if n == None {
            return None;
          }
          nd := n.value;
          if next < |path| {
            if !v.d[nd.dentry].isdir {
              return None;
            }
          } else if v.d[nd.dentry].isdir != wantDir {
            return None;
          } else {
            return Some(nd);
          }
        }
        i := next;
      }
    }

    /** Lines 149-192: one component. */
    method FindOrCreate(nd: Nd, name: string, last: bool, wantDir: bool, mode: bv16, ghost q: Request) returns (r: Option<Nd>)
      requires Ok(v) && NdOk(v, nd) && q.wantDir == wantDir && q.who == who && q.mode == mode
      modifies this`v, this`slots
      ensures Made(v, slots, r) == FindOrMake(old(v), old(slots), nd, name, last, q)
    {
      LookupNeverPanics(v, nd, name);
      var found := DoLookup(v, nd, name);
      if found.At? {
        return Some(found.nd);
      }
      if Denied(who, v.d[nd.dentry].inode) {
        return None;
      }
      var inode := Inode(who.uid, who.gid, mode);
      var made := v.next;
      if last && !wantDir {
        if slots == 0 {
          return None;
        }
        slots := slots - 1;
        v := Create(v, nd.dentry, name, false, inode);
      } else {
        v := Create(v, nd.dentry, name, true, inode);
      }
      return Some(Nd(made, nd.mnt));
    }

    /** vfs_mkdir: the directory must not exist before, and can be found afterwards. */
    method Mkdir(path: string, mode: bv16) returns (r: int)
      requires Valid()
      modifies this`v, this`slots
      ensures Valid() && (r == 0 || r == -1) && Grows(old(v), v)
      ensures old(Meaning(path)).Some? ==> r == -1 && v == old(v)
      ensures old(Meaning(path)) == None ==>
                var m := Make(old(v), old(slots), old(Origin(path)), Comps(path, 0), Request(true, Trailing(path), who, mode));
                v == m.v && (r == 0 <==> m.answer.Some?)
      ensures r == 0 ==> Meaning(path).Some? && IsDir(v, Meaning(path).value.dentry)
      ensures forall k :: MissingFrom(old(v), old(Origin(path)), Comps(path, 0), k) ==>
                var at, names := Walk(old(v), old(Origin(path)), Comps(path, 0)[..k]).value, Comps(path, 0)[k..];
                && (r == 0 <==> MayChange(who, old(v).d[at.dentry].inode)
                                && (|names| > 1 ==> MayChange(who, Inode(who.uid, who.gid, mode))))
                && MadeBelow(old(v), old(slots), at, names, Request(true, Trailing(path), who, mode), v, slots, r == 0)
    {
      assert forall x :: x in v.d ==> GrowsAt(v, v, x);
      MissingEndIsMade(v, slots, Origin(path), Comps(path, 0), Request(true, Trailing(path), who, mode));
      var found := PathLookup(path, false);
      if found.Some? {
        return -1;
      }
      MadePathIsFound(v, slots, Origin(path), Comps(path, 0), Request(true, Trailing(path), who, mode));
      var made := MakePath(path, true, mode);
      return if made.Some? then 0 else -1;
    }

    /** vfs_open: the first free descriptor is bound to the file of that path, which is made when it is missing. */
    method Open(path: string) returns (fd: int)
      requires Valid()
      modifies this`v, this`slots, this`fds
      ensures Valid() && Grows(old(v), v) && |fds| == |old(fds)|
      ensures var m := Make(old(v), old(slots), old(Origin(path)), Comps(path, 0), Request(false, Trailing(path), who, ACL_DEFAULT));
              v == m.v && (fd == -1 <==> m.answer == None || forall k :: 0 <= k < |fds| ==> old(fds)[k] != None)
      ensures fd == -1 ==> fds == old(fds)
      ensures fd != -1 ==>
                && Meaning(path).Some? && !IsDir(v, Meaning(path).value.dentry)
                && 0 <= fd < |fds| && old(fds)[fd] == None && (forall k :: 0 <= k < fd ==> old(fds)[k] != None)
                && fds == old(fds)[fd := Some(Meaning(path).value.dentry)]
      ensures forall k :: MissingFrom(old(v), old(Origin(path)), Comps(path, 0), k) ==>
                var at, names := Walk(old(v), old(Origin(path)), Comps(path, 0)[..k]).value, Comps(path, 0)[k..];
                var all := MayChange(who, old(v).d[at.dentry].inode) && old(slots) > 0 && !Trailing(path);
                && (fd != -1 <==> all && exists j :: 0 <= j < |fds| && old(fds)[j] == None)
                && MadeBelow(old(v), old(slots), at, names, Request(false, Trailing(path), who, 0x0664), v, slots, all)
    {
      MadePathIsFound(v, slots, Origin(path), Comps(path, 0), Request(false, Trailing(path), who, ACL_DEFAULT));
      var made := MakePath(path, false, ACL_DEFAULT);
      if made == None {
        return -1;
      }
      fd := FreeDescriptor();
      if fd == |fds| {
        return -1;
      }
      fds := fds[fd := Some(made.value.dentry)];
    }

    /** Lines 237-241: the first descriptor that is free, or their number. */
    method FreeDescriptor() returns (fd: int)
      ensures 0 <= fd <= |fds| && (forall k :: 0 <= k < fd ==> fds[k] != None) && (fd < |fds| ==> fds[fd] == None)
    {
      fd := 0;
      while fd < |fds|
        invariant 0 <= fd <= |fds| && forall k :: 0 <= k < fd ==> fds[k] != None
      {
        if fds[fd] == None {
          break;
        }
        fd := fd + 1;
      }
    }

    /** vfs_mount of a file system whose own mount function gives it an empty root, or fails. */
    method MountOn(path: string, mountable: bool) returns (r: int)
      requires Valid()
      modifies this`v
      ensures r == 0 <==> (who.uid == 0 || who.gid == 0) && mountable
                          && old(Meaning(path)).Some? && IsDir(old(v), old(Meaning(path)).value.dentry)
      ensures r != 0 ==> r == -1 && v == old(v)
      ensures r == 0 ==> v == MountStep(old(v), old(Meaning(path)).value)
      ensures r == 0 ==> (Valid() <==> !IsTop(old(v), old(Meaning(path)).value.dentry))
      ensures r == 0 ==> MountedAt(old(v), old(Meaning(path)).value, v)
    {
      if who.uid != 0 && who.gid != 0 {
        return -1;
      }
      var at := PathLookup(path, false);
      if at == None || !IsDir(v, at.value.dentry) || !mountable {
        return -1;
      }
      WalkKeepsNdOk(v, Origin(path), Comps(path, 0));
      MountKeepsOk(v, at.value);
      MountedExactly(v, at.value);
      MountKeepsNd(v, at.value, root);
      MountKeepsNd(v, at.value, pwd);
      v := MountStep(v, at.value);
      return 0;
    }

    /** vfs_unmount: the first mount whose root the path leads to is taken out of the list. */
    method Unmount(path: string) returns (r: int)
      requires Valid()
      modifies this`v
      ensures var u := UnmountBy(old(v), old(Origin(path)), Comps(path, 0), Trailing(path));
              && (r == 0 <==> (who.uid == 0 || who.gid == 0) && u.Some?)
              && (if r == 0 then v == u.value else r == 1 && v == old(v))
      ensures r == 0 ==>
                var i := FirstRooted(old(v).m, old(v).list, old(Meaning(path)).value.dentry);
                Valid() <==> i != old(v).rootmnt && !HasChildMount(old(v), i) && root.mnt != i && pwd.mnt != i
    {
      if who.uid != 0 && who.gid != 0 {
        return 1;
      }
      var at := PathLookup(path, false);
      if at == None {
        return 1;
      }
      NextIsFresh(v);
      var i := FindRooted(at.value.dentry);
      if i == NIL {
        return 1;
      }
      AfterUnmount(v, i, at.value.dentry, root, pwd);
      v := UnmountStep(v, i);
      return 0;
    }

    /** Lines 183-191: the first mount with that root. */
    method FindRooted(x: int) returns (i: int)
      requires Valid()
      ensures i == FirstRooted(v.m, v.list, x)
    {
      ListedMounts(v);
      NextIsFresh(v);
      var k := 0;
      while k < |v.list| && v.m[v.list[k]].root != x
        invariant 0 <= k <= |v.list| && FirstRooted(v.m, v.list, x) == FirstRooted(v.m, v.list[k..], x)
      {
        assert v.list[k..][1..] == v.list[k + 1..];
        k := k + 1;
      }
      i := if k < |v.list| then v.list[k] else NIL;
    }

    /**
      vfs_mount and then vfs_unmount of the same path.  When the directory is not the root of a tree, the second call
      succeeds and restores every walk exactly when the path, seen before the first call, enters the directory by name.
     */
    method MountAndUnmount(path: string, mountable: bool) returns (mounted: int, unmounted: int)
      requires Valid()
      modifies this`v
      ensures mounted == 0 ==> old(Meaning(path)).Some?
      ensures mounted == 0 && !IsTop(old(v), old(Meaning(path)).value.dentry) ==>
                (unmounted == 0 && WalksAsBefore(old(v), v)
                 <==> Enters(old(v), old(Meaning(path)).value, old(Origin(path)), Comps(path, 0), false))
    {
      var before, from := v, Origin(path);
      ghost var comps, mustDir := Comps(path, 0), Trailing(path);
      var at := PathLookup(path, false);
      mounted := MountOn(path, mountable);
      unmounted := 1;
      if mounted == 0 {
        var nd := at.value;
        RemountExactly(before, nd, from, comps, mustDir);
        WalkKeepsNdOk(before, from, comps);
        EntersExactly(before, nd, from, comps, false);
        if !IsTop(before, nd.dentry) {
          unmounted := Unmount(path);
        }
      }
    }

    /** Move the cursor over slashes. */
    static method SkipAll(p: string, i: nat) returns (j: nat)
      requires i <= |p|
      ensures j == SkipSlashes(p, i)
    {
      j := i;
      while j < |p| && p[j] == '/'
        invariant i <= j <= |p| && SkipSlashes(p, i) == SkipSlashes(p, j)
      {
        j := j + 1;
      }
    }

    /** Move the cursor to the end of a name. */
    static method FindEnd(p: string, i: nat) returns (j: nat)
      requires i <= |p|
      ensures j == NameEnd(p, i)
    {
      j := i;
      while j < |p| && p[j] != '/'
        invariant i <= j <= |p| && NameEnd(p, i) == NameEnd(p, j)
      {
        j := j + 1;
      }
    }
  }

  /** The component at the cursor and what follows it. */
  lemma NextComponent(p: string, i: nat, e: nat, next: nat)
    requires i < |p| && p[i] != '/' && e == NameEnd(p, i) && next == SkipSlashes(p, e)
    ensures i < e && Comps(p, i) == [p[i..e]] + Comps(p, next) && Comps(p, e) == Comps(p, next)
    ensures next < |p| ==> Comps(p, next) != []
    ensures next == |p| ==> Comps(p, next) == [] && (Trailing(p) <==> e < |p|)
  {
    SkipIs(p, i, i);
    SkipIs(p, next, next);
  }

  lemma FirstComponent(p: string, i: nat)
    requires i == SkipSlashes(p, 0)
    ensures Comps(p, 0) == Comps(p, i) && (i == |p| ==> Comps(p, 0) == [])
  {
    SkipIs(p, i, i);
  }

  /** In the middle of a walk: on a directory that the mount owns. */
  ghost predicate Standing(v: Vfs, nd: Nd) {
    Ok(v) && NdOk(v, nd) && IsDir(v, nd.dentry)
  }

  /** What the next component of a lookup leads to. */
  lemma OneStep(v: Vfs, nd: Nd, comps: seq<string>, mustDir: bool)
    requires Standing(v, nd) && comps != []
    ensures Step(v, nd, comps[0]) != Panic
    ensures Step(v, nd, comps[0]) == NotFound ==> Resolve(v, nd, comps, mustDir) == None
    ensures Step(v, nd, comps[0]).At? ==>
              var n := Step(v, nd, comps[0]).nd;
              && Resolve(v, nd, comps, mustDir) == Resolve(v, n, comps[1..], mustDir)
              && NdOk(v, n) && n.dentry in v.d
              && (IsDots(comps[0]) ==> IsDir(v, n.dentry))
  {
    if IsDots(comps[0]) {
      DotDotKeepsNdOk(v, nd);
    } else {
      LookupNeverPanics(v, nd, comps[0]);
    }
    if Step(v, nd, comps[0]).At? {
      StepKeepsNdOk(v, nd, comps[0]);
    }
  }

  /** What the next component of a path to be made leads to. */
  lemma MakeOne(v: Vfs, slots: nat, nd: Nd, comps: seq<string>, q: Request)
    requires Standing(v, nd) && comps != []
    ensures IsDots(comps[0]) ==> Standing(v, if comps[0] == ".." then DotDot(v, nd) else nd)
    ensures !IsDots(comps[0]) ==>
              var f := FindOrMake(v, slots, nd, comps[0], |comps| == 1, q);
              Ok(f.v) && (f.answer.Some? ==> NdOk(f.v, f.answer.value) && f.answer.value.dentry in f.v.d)
  {
    if IsDots(comps[0]) {
      DotDotKeepsNdOk(v, nd);
    } else {
      FindOrMakeIsFound(v, slots, nd, comps[0], |comps| == 1, q);
    }
  }
}
