/** Paths, the walk along them without a cache, and the dentry tree of
    `kernel/filesystem/virtual.c`. */
module PathSpec {
  import opened Wrappers

  const NAME_MAX: nat := 256
  const ENOENT: int := 2

  /** The first position from `i` on that holds no slash, and the first that holds one. */
  function SkipSlashes(p: string, i: nat): (j: nat)
    requires i <= |p|
    ensures i <= j <= |p|
    decreases |p| - i
  {
    if i < |p| && p[i] == '/' then SkipSlashes(p, i + 1) else i
  }

  function NameEnd(p: string, i: nat): (j: nat)
    requires i <= |p|
    ensures i <= j <= |p|
    ensures i < |p| && p[i] != '/' ==> i < j
    decreases |p| - i
  {
    if i < |p| && p[i] != '/' then NameEnd(p, i + 1) else i
  }

  /** The names of a path from `i` on. */
  function NamesFrom(p: string, i: nat): seq<string>
    requires i <= |p|
    decreases |p| - i
  {
    var b := SkipSlashes(p, i);
    if b == |p| then []
    else
      NotSlash(p, i);
      [p[b..NameEnd(p, b)]] + NamesFrom(p, NameEnd(p, b))
  }

  function Names(p: string): seq<string> { NamesFrom(p, 0) }

  lemma {:induction false} NotSlash(p: string, i: nat)
    requires i <= |p|
    ensures SkipSlashes(p, i) < |p| ==> p[SkipSlashes(p, i)] != '/'
    decreases |p| - i
  {
    if i < |p| && p[i] == '/' {
      NotSlash(p, i + 1);
    }
  }

  /** A file name: not empty, without slashes. */
  predicate IsName(n: string) {
    n != [] && '/' !in n
  }

  /** Names joined by single slashes, with one in front. */
  function Join(names: seq<string>): string {
    if names == [] then [] else "/" + names[0] + Join(names[1..])
  }

  lemma {:induction false} NameEndIs(p: string, i: nat, n: string)
    requires i + |n| <= |p| && p[i..i + |n|] == n && '/' !in n && (i + |n| < |p| ==> p[i + |n|] == '/')
    ensures NameEnd(p, i) == i + |n|
    decreases |n|
  {
    if n != [] {
      assert p[i] == n[0];
      assert p[i + 1..i + 1 + |n[1..]|] == n[1..];
      NameEndIs(p, i + 1, n[1..]);
    }
  }

  /** A path made from names has just these names. */
  lemma {:induction false} NamesOfJoin(pre: string, names: seq<string>)
    requires forall n :: n in names ==> IsName(n)
    ensures NamesFrom(pre + Join(names), |pre|) == names
    decreases |names|
  {
    var p := pre + Join(names);
    if names != [] {
      var n := names[0];
      assert n in names && IsName(n);
      assert Join(names) == "/" + n + Join(names[1..]);
      assert p[|pre|] == '/' && p[|pre| + 1] == n[0];
      assert SkipSlashes(p, |pre| + 1) == |pre| + 1;
      assert p[|pre| + 1..|pre| + 1 + |n|] == n;
      NameEndIs(p, |pre| + 1, n);
      assert p == (pre + "/" + n) + Join(names[1..]);
      NamesOfJoin(pre + "/" + n, names[1..]);
    }
  }

  /** The walk without a cache: one lookup for each name. */
  function Walk(lookup: (nat, string) -> Option<nat>, inode: nat, names: seq<string>): Option<nat>
    decreases |names|
  {
    if names == [] then Some(inode)
    else match lookup(inode, names[0])
      case None => None
      case Some(child) => Walk(lookup, child, names[1..])
  }

  class Dentry {
    const name: string
    const parent: Dentry?
    var inode: nat
    var subdirs: seq<Dentry>

    /** `virt_fs_dentry_alloc` */
    constructor (name: string, parent: Dentry?)
      ensures this.name == name && this.parent == parent && subdirs == []
    {
      this.name, this.parent := name, parent;
      inode, subdirs := 0, [];
    }
  }

  // the children of every cached dentry, and its inode
  type Tree = map<Dentry, seq<Dentry>>
  type Inodes = map<Dentry, nat>

  function FirstNamed(ds: seq<Dentry>, name: string): Option<Dentry> {
    if ds == [] then None else if ds[0].name == name then Some(ds[0]) else FirstNamed(ds[1..], name)
  }

  function Child(t: Tree, d: Dentry, name: string): Option<Dentry> {
    if d in t then FirstNamed(t[d], name) else None
  }

  /** The dentry at the end of a path that is in the cache. */
  function Reach(t: Tree, d: Dentry, names: seq<string>): Option<Dentry> {
    if names == [] then Some(d)
    else match Child(t, d, names[0])
      case None => None
      case Some(child) => Reach(t, child, names[1..])
  }

  /** Cached children are what lookup returns, and siblings have different names. */
  ghost predicate Faithful(lookup: (nat, string) -> Option<nat>, t: Tree, inodes: Inodes) {
    && inodes.Keys == t.Keys
    && (forall d, k :: d in t && 0 <= k < |t[d]| ==>
          && t[d][k] in t && t[d][k].parent == d
          && lookup(inodes[d], t[d][k].name) == Some(inodes[t[d][k]]))
    && (forall d, j, k :: d in t && 0 <= j < k < |t[d]| ==> t[d][j].name != t[d][k].name)
  }

  /** Dentries and children are added, none is taken away or changed. */
  ghost predicate Grown(t: Tree, inodes: Inodes, t': Tree, inodes': Inodes) {
    && (forall d :: d in t ==> d in t' && t[d] <= t'[d])
    && (forall d :: d in inodes ==> d in inodes' && inodes'[d] == inodes[d])
  }

  lemma {:induction false} FirstNamedIs(ds: seq<Dentry>, name: string)
    ensures match FirstNamed(ds, name)
            case None => forall k :: 0 <= k < |ds| ==> ds[k].name != name
            case Some(d) => d.name == name && exists k :: 0 <= k < |ds| && ds[k] == d
  {
    if ds != [] && ds[0].name != name {
      FirstNamedIs(ds[1..], name);
      assert forall k :: 1 <= k < |ds| ==> ds[k] == ds[1..][k - 1];
    }
  }

  lemma {:induction false} FirstNamedKept(ds: seq<Dentry>, more: seq<Dentry>, name: string)
    requires ds <= more && FirstNamed(ds, name).Some?
    ensures FirstNamed(more, name) == FirstNamed(ds, name)
  {
    if ds[0].name != name {
      FirstNamedKept(ds[1..], more[1..], name);
    }
  }

  /** What is in the cache stays there: a path once resolved leads to the same dentry ever after. */
  lemma {:induction false} ReachKept(t: Tree, inodes: Inodes, t': Tree, inodes': Inodes, d: Dentry, names: seq<string>)
    requires Grown(t, inodes, t', inodes') && Reach(t, d, names).Some?
    ensures Reach(t', d, names) == Reach(t, d, names)
    decreases |names|
  {
    if names != [] {
      FirstNamedKept(t[d], t'[d], names[0]);
      ReachKept(t, inodes, t', inodes', Child(t, d, names[0]).value, names[1..]);
    }
  }

  lemma GrownTwice(t: Tree, inodes: Inodes, t1: Tree, inodes1: Inodes, t2: Tree, inodes2: Inodes)
    requires Grown(t, inodes, t1, inodes1) && Grown(t1, inodes1, t2, inodes2)
    ensures Grown(t, inodes, t2, inodes2)
  {
  }

  lemma ChildIs(lookup: (nat, string) -> Option<nat>, t: Tree, inodes: Inodes, d: Dentry, name: string)
    requires Faithful(lookup, t, inodes) && d in t && Child(t, d, name).Some?
    ensures Child(t, d, name).value in t && lookup(inodes[d], name) == Some(inodes[Child(t, d, name).value])
  {
    FirstNamedIs(t[d], name);
    var k :| 0 <= k < |t[d]| && t[d][k] == Child(t, d, name).value;
  }

  /** What the cache leads to is what the walk without it finds. */
  lemma {:induction false} ReachIsWalk(lookup: (nat, string) -> Option<nat>, t: Tree, inodes: Inodes, d: Dentry,
                                       names: seq<string>)
    requires Faithful(lookup, t, inodes) && d in t && Reach(t, d, names).Some?
    ensures Reach(t, d, names).value in t && Walk(lookup, inodes[d], names) == Some(inodes[Reach(t, d, names).value])
    decreases |names|
  {
    if names != [] {
      ChildIs(lookup, t, inodes, d, names[0]);
      ReachIsWalk(lookup, t, inodes, Child(t, d, names[0]).value, names[1..]);
    }
  }

  lemma {:induction false} ReachOne(t: Tree, d: Dentry, names: seq<string>, name: string)
    requires Reach(t, d, names).Some?
    ensures Reach(t, d, names + [name]) == Child(t, Reach(t, d, names).value, name)
    decreases |names|
  {
    if names == [] {
      assert [name][1..] == [];
    } else {
      assert (names + [name])[1..] == names[1..] + [name];
      ReachOne(t, Child(t, d, names[0]).value, names[1..], name);
    }
  }

  lemma {:induction false} WalkPart(lookup: (nat, string) -> Option<nat>, inode: nat, a: seq<string>, b: seq<string>)
    requires Walk(lookup, inode, a).Some?
    ensures Walk(lookup, inode, a + b) == Walk(lookup, Walk(lookup, inode, a).value, b)
    decreases |a|
  {
    if a == [] {
      assert a + b == b;
    } else {
      assert (a + b)[1..] == a[1..] + b;
      WalkPart(lookup, lookup(inode, a[0]).value, a[1..], b);
    }
  }

  lemma {:induction false} ReachPart(t: Tree, d: Dentry, a: seq<string>, b: seq<string>)
    requires Reach(t, d, a + b).Some?
    ensures Reach(t, d, a).Some? && Reach(t, Reach(t, d, a).value, b) == Reach(t, d, a + b)
    decreases |a|
  {
    if a == [] {
      assert a + b == b;
    } else {
      assert (a + b)[1..] == a[1..] + b;
      ReachPart(t, Child(t, d, a[0]).value, a[1..], b);
    }
  }

  /** A looked-up child is put behind its siblings. */
  lemma AddedChild(lookup: (nat, string) -> Option<nat>, t: Tree, inodes: Inodes, d: Dentry, c: Dentry, inode: nat)
    requires Faithful(lookup, t, inodes) && d in t && c !in t && c.parent == d
    requires Child(t, d, c.name) == None && lookup(inodes[d], c.name) == Some(inode)
    ensures var t', inodes' := t[d := t[d] + [c]][c := []], inodes[c := inode];
            Faithful(lookup, t', inodes') && Grown(t, inodes, t', inodes') && Child(t', d, c.name) == Some(c)
  {
    FirstNamedIs(t[d], c.name);
    FirstNamedLast(t[d], c);
  }

  lemma {:induction false} FirstNamedLast(ds: seq<Dentry>, c: Dentry)
    requires FirstNamed(ds, c.name) == None
    ensures FirstNamed(ds + [c], c.name) == Some(c)
  {
    if ds != [] {
      assert (ds + [c])[1..] == ds[1..] + [c];
      FirstNamedLast(ds[1..], c);
    }
  }

  datatype Mount = Mount(id: nat, mount: Dentry)

  function FirstMount(mounts: seq<Mount>, d: Dentry): Option<Mount> {
    if mounts == [] then None else if mounts[0].mount == d then Some(mounts[0]) else FirstMount(mounts[1..], d)
  }

  function MountAt(mounts: seq<Mount>, d: Dentry, m: Mount): Mount {
    match FirstMount(mounts, d)
    case None => m
    case Some(found) => found
  }

  /** The mount a path ends in: that of the last mount point on the way. */
  function MountAlong(mounts: seq<Mount>, t: Tree, d: Dentry, names: seq<string>, m: Mount): Mount
    decreases |names|
  {
    if names == [] then m
    else match Child(t, d, names[0])
      case None => m
      case Some(child) => MountAlong(mounts, t, child, names[1..], MountAt(mounts, child, m))
  }

  lemma {:induction false} MountOne(mounts: seq<Mount>, t: Tree, d: Dentry, names: seq<string>, name: string, m: Mount)
    requires Reach(t, d, names + [name]).Some?
    ensures MountAlong(mounts, t, d, names + [name], m)
            == MountAt(mounts, Reach(t, d, names + [name]).value, MountAlong(mounts, t, d, names, m))
    decreases |names|
  {
    if names == [] {
      assert [name][1..] == [];
    } else {
      assert (names + [name])[1..] == names[1..] + [name];
      var child := Child(t, d, names[0]).value;
      MountOne(mounts, t, child, names[1..], name, MountAt(mounts, child, m));
    }
  }

  lemma {:induction false} MountKept(mounts: seq<Mount>, t: Tree, inodes: Inodes, t': Tree, inodes': Inodes, d: Dentry,
                                     names: seq<string>, m: Mount)
    requires Grown(t, inodes, t', inodes') && Reach(t, d, names).Some?
    ensures MountAlong(mounts, t', d, names, m) == MountAlong(mounts, t, d, names, m)
    decreases |names|
  {
    if names != [] {
      FirstNamedKept(t[d], t'[d], names[0]);
      var child := Child(t, d, names[0]).value;
      MountKept(mounts, t, inodes, t', inodes', child, names[1..], MountAt(mounts, child, m));
    }
  }

  lemma SkipTwice(p: string, i: nat)
    requires i <= |p|
    ensures SkipSlashes(p, SkipSlashes(p, i)) == SkipSlashes(p, i) && NamesFrom(p, SkipSlashes(p, i)) == NamesFrom(p, i)
  {
    SkipAgain(p, i);
  }

  lemma {:induction false} SkipAgain(p: string, i: nat)
    requires i <= |p|
    ensures SkipSlashes(p, SkipSlashes(p, i)) == SkipSlashes(p, i)
    decreases |p| - i
  {
    if i < |p| && p[i] == '/' {
      SkipAgain(p, i + 1);
    }
  }

  lemma ChildInTree(t: Tree, d: Dentry, name: string)
    requires d in t
    ensures Child(t, d, name) == FirstNamed(t[d], name)
  {
  }

  lemma GrownNot(t: Tree, inodes: Inodes)
    ensures Grown(t, inodes, t, inodes)
  {
  }

  lemma MountOf(mounts: seq<Mount>, d: Dentry, m: Mount)
    ensures MountAt(mounts, d, m) == if FirstMount(mounts, d).Some? then FirstMount(mounts, d).value else m
  {
  }

  /** The way along a path after the names `done`, with `rest` to go: `t0` and `n0` are the cache
      before, `t` and `n` the cache now. */
  ghost predicate OnPath(mounts: seq<Mount>, t0: Tree, n0: Inodes, t: Tree, n: Inodes, start: Dentry, m0: Mount,
                         done: seq<string>, rest: seq<string>, d: Dentry, m: Mount) {
    && Grown(t0, n0, t, n) && Reach(t, start, done) == Some(d)
    && m == MountAlong(mounts, t, start, done, m0)
    && (Reach(t0, start, done + rest).Some? ==> t == t0 && n == n0)
  }

  lemma PathStarts(mounts: seq<Mount>, t: Tree, n: Inodes, start: Dentry, m: Mount, names: seq<string>)
    ensures OnPath(mounts, t, n, t, n, start, m, [], names, start, m)
  {
  }

  lemma PathGoesOn(mounts: seq<Mount>, t0: Tree, n0: Inodes, t: Tree, n: Inodes, start: Dentry, m0: Mount,
                   done: seq<string>, rest: seq<string>, d: Dentry, m: Mount, name: string, t1: Tree, n1: Inodes,
                   d1: Dentry, m1: Mount)
    requires OnPath(mounts, t0, n0, t, n, start, m0, done, [name] + rest, d, m)
    requires Grown(t, n, t1, n1) && Child(t1, d, name) == Some(d1) && m1 == MountAt(mounts, d1, m)
    requires Child(t, d, name).Some? ==> t1 == t && n1 == n
    ensures OnPath(mounts, t0, n0, t1, n1, start, m0, done + [name], rest, d1, m1)
    ensures done + ([name] + rest) == done + [name] + rest
  {
    hide Child, MountAt;
    GrownTwice(t0, n0, t, n, t1, n1);
    ReachKept(t, n, t1, n1, start, done);
    ReachOne(t1, start, done, name);
    MountKept(mounts, t, n, t1, n1, start, done, m0);
    MountOne(mounts, t1, start, done, name, m0);
    assert done + [name] + rest == done + ([name] + rest);
    if Reach(t0, start, done + [name] + rest).Some? {
      ReachPart(t, start, done, [name] + rest);
      ReachFirst(t, d, name, rest);
    }
  }

  lemma ReachFirst(t: Tree, d: Dentry, name: string, rest: seq<string>)
    requires Reach(t, d, [name] + rest).Some?
    ensures Child(t, d, name).Some?
  {
  }

  /** The walk without the cache, from where the path has got to. */
  lemma WalkFrom(lookup: (nat, string) -> Option<nat>, mounts: seq<Mount>, t0: Tree, n0: Inodes, t: Tree, n: Inodes,
                 start: Dentry, m0: Mount, done: seq<string>, rest: seq<string>, d: Dentry, m: Mount)
    requires OnPath(mounts, t0, n0, t, n, start, m0, done, rest, d, m) && Faithful(lookup, t, n) && start in t0 &&
             start in n0
    ensures d in t && d in n && Walk(lookup, n0[start], done + rest) == Walk(lookup, n[d], rest)
  {
    hide Walk;
    ReachIsWalk(lookup, t, n, start, done);
    WalkPart(lookup, n0[start], done, rest);
  }

  lemma NotThere(lookup: (nat, string) -> Option<nat>, t: Tree, n: Inodes, start: Dentry, names: seq<string>)
    requires Faithful(lookup, t, n) && start in t && start in n && Walk(lookup, n[start], names) == None
    ensures Reach(t, start, names) == None
  {
    if Reach(t, start, names).Some? {
      ReachIsWalk(lookup, t, n, start, names);
    }
  }

  lemma WalkFails(lookup: (nat, string) -> Option<nat>, inode: nat, name: string, rest: seq<string>)
    requires lookup(inode, name) == None
    ensures Walk(lookup, inode, [name] + rest) == None
  {
  }

  lemma WalkEnds(lookup: (nat, string) -> Option<nat>, inode: nat)
    ensures Walk(lookup, inode, []) == Some(inode)
  {
  }

  lemma NamesEnd(p: string)
    ensures NamesFrom(p, |p|) == []
  {
  }

  lemma OnPathGrown(mounts: seq<Mount>, t0: Tree, n0: Inodes, t: Tree, n: Inodes, start: Dentry, m0: Mount,
                    done: seq<string>, rest: seq<string>, d: Dentry, m: Mount)
    requires OnPath(mounts, t0, n0, t, n, start, m0, done, rest, d, m)
    ensures Grown(t0, n0, t, n) && Reach(t, start, done) == Some(d) && m == MountAlong(mounts, t, start, done, m0)
    ensures Reach(t0, start, done + rest).Some? ==> t == t0 && n == n0
    ensures rest == [] ==> done + rest == done
  {
  }
}
