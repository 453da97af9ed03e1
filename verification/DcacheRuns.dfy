/** Whole runs of path creation, mounting and unmounting. */
module DcacheRuns {
  import opened Dcache
  import opened DcacheMake
  import opened DcacheMount

  datatype Event =
    | Made(nd: Nd, comps: seq<string>, slots: nat, q: Request)
    | Mounted(nd: Nd)
    | Unmounted(i: int)

  /** The callers' side of the contract: nothing is mounted on the root of a tree, "/" stays, inner mounts go first. */
  ghost predicate Possible(v: Vfs, e: Event) {
    match e
    case Made(nd, comps, slots, q) => NdOk(v, nd) && IsDir(v, nd.dentry)
    case Mounted(nd) => NdOk(v, nd) && IsDir(v, nd.dentry) && !IsTop(v, nd.dentry)
    case Unmounted(i) => i in v.list && i in v.m && v.m[i].mountpoint in v.d && i != v.rootmnt && !HasChildMount(v, i)
  }

  ghost function Apply(v: Vfs, e: Event): Vfs
    requires Possible(v, e)
  {
    match e
    case Made(nd, comps, slots, q) => Make(v, slots, nd, comps, q).v
    case Mounted(nd) => MountStep(v, nd)
    case Unmounted(i) => UnmountStep(v, i)
  }

  ghost predicate RunsAt(states: seq<Vfs>, events: seq<Event>, k: int)
    requires |states| == |events| + 1 && 0 <= k < |events|
  {
    Possible(states[k], events[k]) && states[k + 1] == Apply(states[k], events[k])
  }

  ghost predicate IsRun(states: seq<Vfs>, events: seq<Event>) {
    |states| == |events| + 1 && forall k :: 0 <= k < |events| ==> RunsAt(states, events, k)
  }

  /** vfs_init: a root directory and the mount that owns it. */
  function Fresh(roots: map<int, Inode>): Vfs {
    Vfs(map[1 := Dentry("", 1, [], 0, true, Inode(0, 0, ROOT_ACL))], map[2 := Mount(1, 1, NIL)], [2], 1, 2, 3, roots)
  }

  lemma FreshIsOk(roots: map<int, Inode>)
    ensures Ok(Fresh(roots)) && NdOk(Fresh(roots), Nd(1, 2)) && IsDir(Fresh(roots), 1)
  {
    var v := Fresh(roots);
    assert DentryOk(v, 1) && MountOk(v, 2);
  }

  /** In the first directory user 0 can make directories and files, and nobody else can. */
  lemma FirstName(roots: map<int, Inode>, slots: nat, name: string, q: Request)
    requires !IsDots(name) && slots > 0 && !q.trailing
    ensures var r := Make(Fresh(roots), slots, Nd(1, 2), [name], q).answer;
            (r.Some? <==> q.who.uid == 0) && (r.Some? ==> r.value == Nd(3, 2))
  {
    var v, at := Fresh(roots), Nd(1, 2);
    FreshIsOk(roots);
    EmptyDirectory(v, 1, name);
    MissingNamesAreMade(v, slots, at, [name], q);
    OwnerOnly(q.who);
  }

  lemma OwnerOnly(who: Cred)
    ensures MayChange(who, Inode(0, 0, ROOT_ACL)) <==> who.uid == 0
  {
  }

  lemma {:induction false} EveryRunIsOk(states: seq<Vfs>, events: seq<Event>, n: nat)
    requires IsRun(states, events) && Ok(states[0]) && n <= |events|
    ensures Ok(states[n])
    decreases n
  {
    if n > 0 {
      EveryRunIsOk(states, events, n - 1);
      assert RunsAt(states, events, n - 1);
      var v := states[n - 1];
      match events[n - 1]
      case Made(nd, comps, slots, q) => MadePathIsFound(v, slots, nd, comps, q);
      case Mounted(nd) => MountKeepsOk(v, nd);
      case Unmounted(i) => UnmountKeepsOk(v, i);
    }
  }

  /**
    Over every run: d_mounted of every dentry is the number of mounts on it, no walk ever panics over a missing
    mount, and ".." takes every step by name back.
   */
  lemma MountTableIsSound(states: seq<Vfs>, events: seq<Event>, n: nat, nd: Nd, name: string)
    requires IsRun(states, events) && Ok(states[0]) && n <= |events| && NdOk(states[n], nd)
    ensures forall x :: x in states[n].d ==> states[n].d[x].mounted == Mounts(states[n], states[n].list, x)
    ensures DoLookup(states[n], nd, name) != Panic
    ensures DoLookup(states[n], nd, name).At? ==> DotDot(states[n], DoLookup(states[n], nd, name).nd) == nd
  {
    EveryRunIsOk(states, events, n);
    var v := states[n];
    forall x | x in v.d
      ensures v.d[x].mounted == Mounts(v, v.list, x)
    {
      assert DentryOk(v, x);
    }
    LookupNeverPanics(v, nd, name);
    if DoLookup(v, nd, name).At? {
      DotDotUndoesLookup(v, nd, name);
    }
  }
}
