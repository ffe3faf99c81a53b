/** Path resolution over the dentry cache: `virt_fs_path_find` and `virt_fs_mount_get` of
    `kernel/filesystem/virtual.c`, for opens without O_CREAT. */
module DentryCache {
  import opened Wrappers
  import opened PathSpec

  class VirtFs {
    // virt_fs_mount_list, the process's fs->mount and fs->root, and the file system's lookup
    const mounts: seq<Mount>
    const fsMount: Mount
    const root: Dentry
    const lookup: (nat, string) -> Option<nat>
    // nameidata
    var dentry: Dentry
    var mount: Mount

    // every cached dentry with its children, and with its inode
    ghost var children: Tree
    ghost var inodes: Inodes

    constructor (mounts: seq<Mount>, fsMount: Mount, root: Dentry, lookup: (nat, string) -> Option<nat>)
      requires fsMount.mount == root && root.subdirs == []
      ensures Valid() && children == map[root := []] && inodes == map[root := root.inode]
      ensures this.mounts == mounts && this.fsMount == fsMount && this.root == root && this.lookup == lookup
    {
      this.mounts, this.fsMount, this.root, this.lookup := mounts, fsMount, root, lookup;
      dentry, mount := root, fsMount;
      new;
      children, inodes := map[], map[];
      children := children[root := []];
      inodes := inodes[root := root.inode];
    }

    /** The ghost maps tell what is in the dentries. */
    ghost predicate Tied()
      reads this`children, this`inodes, children.Keys
    {
      inodes.Keys == children.Keys && forall d :: d in children ==> d.subdirs == children[d] && d.inode == inodes[d]
    }

    ghost predicate Valid()
      reads this, children.Keys
    {
      && Tied() && root in children && fsMount.mount in children && dentry in children
      && Faithful(lookup, children, inodes)
    }

    /** Where a path starts. */
    function Start(path: string): Dentry {
      if path != [] && path[0] == '/' then fsMount.mount else root
    }

    /** `virt_fs_mount_get` */
    method MountGet(d: Dentry) returns (m: Option<Mount>)
      ensures m == FirstMount(mounts, d)
    {
      var i := 0;
      while i < |mounts|
        invariant i <= |mounts| && FirstMount(mounts, d) == FirstMount(mounts[i..], d)
      {
        if mounts[i].mount == d {
          return Some(mounts[i]);
        }
        i := i + 1;
      }
      return None;
    }

    /** The search of `virt_fs_path_find` among the children of a dentry. */
    method FindChild(d: Dentry, name: string) returns (child: Option<Dentry>)
      ensures child == FirstNamed(d.subdirs, name)
    {
      var i := 0;
      while i < |d.subdirs|
        invariant i <= |d.subdirs| && FirstNamed(d.subdirs, name) == FirstNamed(d.subdirs[i..], name)
      {
        if d.subdirs[i].name == name {
          return Some(d.subdirs[i]);
        }
        i := i + 1;
      }
      return None;
    }

    /** The parsing of one name of a path: it ends before `i`, and the next one starts there. */
    method NextName(path: string, i0: nat) returns (name: string, i: nat)
      requires i0 < |path| && path[i0] != '/'
      ensures i0 < i <= |path| && NamesFrom(path, i0) == [name] + NamesFrom(path, i)
      ensures i < |path| ==> path[i] != '/'
    {
      i, name := i0, [];
      while i < |path| && path[i] != '/'
        invariant i0 <= i <= |path| && name == path[i0..i] && NameEnd(path, i) == NameEnd(path, i0)
      {
        name := name + [path[i]];
        i := i + 1;
      }
      ghost var end := i;
      while i < |path| && path[i] == '/'
        invariant end <= i <= |path| && SkipSlashes(path, i) == SkipSlashes(path, end)
      {
        i := i + 1;
      }
      SkipTwice(path, end);
    }

    /** A name that is not cached is looked up, and cached if it is found. */
    method LookUp(name: string) returns (found: bool)
      requires Valid() && Child(children, dentry, name) == None
      modifies this`dentry, this`children, this`inodes, dentry`subdirs
      ensures Valid() && (forall d :: d in children ==> d in old(children) || fresh(d))
      ensures Grown(old(children), old(inodes), children, inodes)
      ensures found <==> lookup(old(dentry.inode), name).Some?
      ensures found ==> Child(children, old(dentry), name) == Some(dentry)
      ensures !found ==> dentry == old(dentry) && children == old(children) && inodes == old(inodes)
    {
      hide Faithful, Grown, Child, FirstNamed;
      GrownNot(children, inodes);
      var c := new Dentry(name, dentry);
      var inode := lookup(dentry.inode, c.name);
      if inode.None? {
        return false;
      }
      AddedChild(lookup, children, inodes, dentry, c, inode.value);
      c.inode := inode.value;
      dentry.subdirs := dentry.subdirs + [c];
      children := children[dentry := children[dentry] + [c]][c := []];
      inodes := inodes[c := inode.value];
      dentry := c;
      return true;
    }

    /** One name of a path: the cached child, or one that lookup finds and that is cached then. */
    method Descend(name: string) returns (found: bool)
      requires Valid()
      modifies this`dentry, this`mount, this`children, this`inodes, dentry`subdirs
      ensures Valid() && (forall d :: d in children ==> d in old(children) || fresh(d))
      ensures Grown(old(children), old(inodes), children, inodes)
      ensures found <==> lookup(old(dentry.inode), name).Some?
      ensures found ==>
              Child(children, old(dentry), name) == Some(dentry) &&
              mount == MountAt(mounts, dentry, old(mount))
      ensures !found ==> dentry == old(dentry)
      ensures !found || Child(old(children), old(dentry), name).Some? ==>
              children == old(children) &&
              inodes == old(inodes)
    {
      hide Faithful, Grown, Child, FirstNamed, FirstMount, MountAt;
      ChildInTree(children, dentry, name);
      GrownNot(children, inodes);
      var child := FindChild(dentry, name);
      if child.Some? {
        ChildIs(lookup, children, inodes, dentry, name);
        dentry := child.value;
      } else {
        found := LookUp(name);
        if !found {
          return;
        }
      }
      MountOf(mounts, dentry, mount);
      var m := MountGet(dentry);
      if m.Some? {
        mount := m.value;
      }
      return true;
    }

    /** Where `virt_fs_path_find` starts: at the root of the file system for an absolute path. */
    method Begin(path: string) returns (i: nat)
      requires Valid()
      modifies this`dentry, this`mount
      ensures Valid() && dentry == Start(path) && mount == fsMount && i <= |path|
      ensures if path == [] || path[0] != '/' then i == 0
              else SkipSlashes(path, i) == SkipSlashes(path, 0) && (i < |path| ==> path[i] != '/')
    {
      hide Faithful;
      mount := fsMount;
      i := 0;
      if path != [] && path[0] == '/' {
        dentry := fsMount.mount;
        while i < |path| && path[i] == '/'
          invariant i <= |path| && SkipSlashes(path, i) == SkipSlashes(path, 0)
        {
          i := i + 1;
        }
      } else {
        dentry := root;
      }
    }

    /** `virt_fs_path_find`: the cache does not show.  The result is that of a walk without it, what
        was cached stays cached, and a path that is cached already leads to the same dentry and adds
        none.  Domain: names of less than 256 characters, no O_CREAT. */
    method PathFind(path: string) returns (r: int)
      requires Valid() && forall n :: n in Names(path) ==> |n| < NAME_MAX
      modifies this, children.Keys
      ensures Valid() && (forall d :: d in children ==> d in old(children) || fresh(d))
      ensures Grown(old(children), old(inodes), children, inodes)
      ensures Start(path) in old(inodes)
      ensures r == if Walk(lookup, old(inodes)[Start(path)], Names(path)).Some? then 0 else -ENOENT
      ensures r == 0 ==> Walk(lookup, old(inodes)[Start(path)], Names(path)) == Some(dentry.inode)
      ensures r == 0 ==> Reach(children, Start(path), Names(path)) == Some(dentry)
      ensures r == 0 ==> mount == MountAlong(mounts, children, Start(path), Names(path), fsMount)
      ensures Reach(old(children), Start(path), Names(path)).Some? ==>
              r == 0 && children == old(children) &&
              inodes == old(inodes)
    {
      hide Faithful, Grown, Child, Names, NamesFrom, Reach, Walk, MountAlong, MountAt, OnPath;
      ghost var names, start, t0: Tree, n0: Inodes := Names(path), Start(path), children, inodes;
      StartCached(path);
      var i := Begin(path);
      FirstName(path, i);
      PathStarts(mounts, t0, n0, start, fsMount, NamesFrom(path, i));
      ghost var done: seq<string> := [];
      while i < |path|
        invariant i <= |path| && (i < |path| ==> path[i] != '/')
        invariant names == done + NamesFrom(path, i)
        invariant Valid() && (forall d :: d in children ==> d in old(children) || fresh(d))
        invariant OnPath(mounts, t0, n0, children, inodes, start, fsMount, done, NamesFrom(path, i), dentry, mount)
      {
        ghost var d, m, t: Tree, n: Inodes, rest := dentry, mount, children, inodes, NamesFrom(path, i);
        WalkFrom(lookup, mounts, t0, n0, t, n, start, fsMount, done, rest, d, m);
        var name;
        name, i := NextName(path, i);
        var found := Descend(name);
        if !found {
          WalkFails(lookup, n[d], name, NamesFrom(path, i));
          NotThere(lookup, t0, n0, start, names);
          OnPathGrown(mounts, t0, n0, t, n, start, fsMount, done, rest, d, m);
          return -ENOENT;
        }
        PathGoesOn(mounts, t0, n0, t, n, start, fsMount, done, NamesFrom(path, i), d, m, name, children, inodes,
                   dentry, mount);
        done := done + [name];
      }
      NamesEnd(path);
      WalkFrom(lookup, mounts, t0, n0, children, inodes, start, fsMount, done, [], dentry, mount);
      WalkEnds(lookup, dentry.inode);
      OnPathGrown(mounts, t0, n0, children, inodes, start, fsMount, done, [], dentry, mount);
      return 0;
    }

    lemma StartCached(path: string)
      requires Valid()
      ensures Start(path) in children && Start(path) in inodes
    {
    }

    lemma FirstName(path: string, i: nat)
      requires i <= |path|
      requires if path == [] || path[0] != '/' then i == 0
               else SkipSlashes(path, i) == SkipSlashes(path, 0) && (i < |path| ==> path[i] != '/')
      ensures Names(path) == [] + NamesFrom(path, i) && (i < |path| ==> path[i] != '/')
    {
      SkipTwice(path, 0);
      SkipTwice(path, i);
    }
  }

  /** An empty path, which POSIX has no file for, leads to the process's root. */
  method EmptyPath(fs: VirtFs) returns (r: int)
    requires fs.Valid()
    modifies fs, fs.children.Keys
    ensures fs.Valid() && r == 0 && fs.dentry == fs.root && fs.mount == fs.fsMount
    ensures fs.children == old(fs.children) && fs.inodes == old(fs.inodes)
  {
    hide Faithful;
    assert Names("") == [];
    r := fs.PathFind("");
  }
}
