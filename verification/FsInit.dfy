/** `fs_init`: the three file systems and where they are mounted. */
module FsInit {
  import opened CTypes
  import opened FsPath
  import opened FsTree
  import opened FsOps
  import opened FsImage
  import opened NodefsModule
  import opened Mounts
  import opened Vfs

  /** `VFS_MOUNT_MAX`. */
  const MOUNTS := 4
  const SLASH_PROC: cstring := [47, 112, 114, 111, 99]

  /** A directory at `path` for a mount point, if it can be made. */
  function WithDirectory(nodes: Nodes, path: cstring): Nodes
    requires |nodes| > 0
  {
    if Resolve(nodes, path).Some? then nodes
    else match Create(nodes, path, Dir)
      case None => nodes
      case Some(made) => made.0
  }

  /** Making mount points disturbs nothing that is there. */
  lemma WithDirectoryKeeps(nodes: Nodes, path: cstring)
    requires Tree(nodes)
    ensures |nodes| > 0 && Tree(WithDirectory(nodes, path)) && |WithDirectory(nodes, path)| == |nodes|
    ensures forall i :: 0 <= i < |nodes| && nodes[i].used ==> WithDirectory(nodes, path)[i] == nodes[i]
  {
    hide Tree, Create, Resolve;
    RootIsDirectory(nodes);
    CreateRefines(nodes, path, Dir);
    if Create(nodes, path, Dir).Some? {
      forall i: nat | i < |nodes| && nodes[i].used ensures Create(nodes, path, Dir).value.0[i] == nodes[i] {
        CreateKeeps(nodes, path, Dir, i);
      }
    }
  }

  /** The mount point is there afterwards exactly if it was, or if a directory can be made there. */
  lemma WithDirectoryMakes(nodes: Nodes, path: cstring)
    requires Tree(nodes) && Absolute(path)
    ensures |nodes| > 0 && Tree(WithDirectory(nodes, path))
    ensures var cs, view := Components(path), View(nodes);
      View(WithDirectory(nodes, path)) ==
        if cs !in view && CanHold(view, cs) && exists i :: 0 < i < |nodes| && !nodes[i].used then view[cs := Directory] else view
  {
    hide Tree, Create, View, CanHold;
    RootIsDirectory(nodes);
    InView(nodes, Components(path));
    CreateRefines(nodes, path, Dir);
  }

  /** A freshly formatted file system holds the root directory and nothing else. */
  lemma FormattedIsEmpty(n: nat)
    requires n > 0
    ensures Tree(Formatted(n)) && View(Formatted(n)) == imap[[] := Directory]
  {
    var nodes := Formatted(n);
    FormattedIsTree(n);
    RootInView(nodes);
    forall cs: seq<cstring> ensures cs in View(nodes) <==> cs == [] {
      InView(nodes, cs);
      OnlyRoot(nodes, cs);
    }
  }

  lemma {:induction false} OnlyRoot(nodes: Nodes, cs: seq<cstring>)
    requires |nodes| > 0 && forall i :: 0 < i < |nodes| ==> nodes[i] == ZERO_NODE
    requires nodes[0].parent == -1
    ensures Lookup(nodes, cs).Some? <==> cs == []
    decreases |cs|
  {
    if cs != [] {
      OnlyRoot(nodes, cs[..|cs| - 1]);
    }
  }

  /** A device that does not start with the four bytes `1SFP` boots to a fresh format, and any boot has a root directory. */
  lemma BadMagicFormats(blocks: seq<Block>, n: nat)
    requires n > 0 && BlockCount(ImageSize(n)) <= |blocks|
    ensures |blocks| > 0 && (blocks[0][..4] != [0x31, 0x53, 0x46, 0x50] ==> BootNodes(blocks, n) == Formatted(n))
    ensures |BootNodes(blocks, n)| == n && BootNodes(blocks, n)[0].used && BootNodes(blocks, n)[0].kind == Dir
  {
    var image := ReadBack(blocks, ImageSize(n));
    forall i | 0 <= i < 4 ensures image[i] == blocks[0][i] {
    }
    assert image[..4] == blocks[0][..4];
    FourBytes(image[..4]);
  }

  lemma FourBytes(b: seq<byte>)
    requires |b| == 4
    ensures LoadWord(b) == PFS_MAGIC ==> b == [0x31, 0x53, 0x46, 0x50]
  {
    if LoadWord(b) == PFS_MAGIC {
      assert b[3] == 0x50;
      assert b[2] == 0x46;
      assert b[1] == 0x53;
    }
  }

  /** A name below the root is a mount point. */
  lemma NameIsMountPoint(path: cstring, name: cstring)
    requires path == [SLASH] + name && ComponentName(name)
    ensures MountPoint(path)
  {
    JoinedUnfold([name]);
    JoinedUnfold([]);
    assert [name][1..] == [] && Joined([name]) == path;
  }

  /** `vfs_mount`: the lowest free entry, whose index the file system remembers. */
  method MountAt(mounts: seq<Option<Mount>>, path: cstring, ctx: Nodefs) returns (ok: bool, after: seq<Option<Mount>>)
    modifies ctx`mountIdx
    ensures !ok ==> after == mounts && ctx.mountIdx == old(ctx.mountIdx)
    ensures !ok <==> path == [] || path[0] != SLASH || |path| >= FS_PATH_MAX || forall i :: 0 <= i < |mounts| ==> mounts[i].Some?
    ensures ok ==>
      && 0 <= ctx.mountIdx < |mounts| && mounts[ctx.mountIdx].None?
      && (forall i :: 0 <= i < ctx.mountIdx ==> mounts[i].Some?)
      && after == mounts[ctx.mountIdx := Some(Mount(path, ctx))]
  {
    if |path| == 0 || |path| >= FS_PATH_MAX || path[0] != SLASH {
      return false, mounts;
    }
    for i := 0 to |mounts|
      invariant ctx.mountIdx == old(ctx.mountIdx) && forall j :: 0 <= j < i ==> mounts[j].Some?
    {
      if mounts[i].None? {
        ctx.mountIdx := i;
        return true, mounts[i := Some(Mount(path, ctx))];
      }
    }
    return false, mounts;
  }

  /** The directory of a mount point, before something is mounted on it. */
  method EnsureDirectory(ctx: Nodefs, path: cstring)
    requires ctx.Valid() && |ctx.nodes| > 0
    modifies ctx`nodes, ctx.disk
    ensures ctx.Valid() && ctx.nodes == WithDirectory(old(ctx.nodes), path)
  {
    hide Tree, Tidy, Create, Resolve;
    var found := ctx.ResolvePath(path);
    if found.None? {
      var made := ctx.MakeDir(path);
    }
  }

  /** What the device holds is no image, or the image of a tree. */
  ghost predicate Bootable(blocks: seq<Block>, n: nat)
    requires n > 0
  {
    BlockCount(ImageSize(n)) <= |blocks| ==> Tree(BootNodes(blocks, n)) && Tidy(BootNodes(blocks, n))
  }

  /** `fs_init` up to the mounts: the three instances. */
  method NewInstances(disk: Disk, n: nat) returns (ok: bool, rootfs: Nodefs, tmpfs: Nodefs, procfs: Nodefs)
    requires 0 < n < 0x8000_0000 && Bootable(disk.blocks, n)
    modifies disk
    ensures fresh({rootfs, tmpfs, procfs}) && rootfs != tmpfs && rootfs != procfs && tmpfs != procfs
    ensures {rootfs.disk, tmpfs.disk, procfs.disk} == {disk}
    ensures ok ==> rootfs.Valid() && tmpfs.Valid() && procfs.Valid() && BlockCount(ImageSize(n)) <= |old(disk.blocks)|
    ensures ok ==> rootfs.nodes == BootNodes(old(disk.blocks), n) && tmpfs.nodes == procfs.nodes == Formatted(n)
  {
    hide Tree, Tidy, BootNodes;
    rootfs := new Nodefs(true, disk, n);
    tmpfs := new Nodefs(false, disk, n);
    procfs := new Nodefs(false, disk, n);
    ok := rootfs.Load();
  }

  /** The mounts of `fs_init`, which cannot fail: there are more entries than file systems. */
  method MountAll(rootfs: Nodefs, tmpfs: Nodefs, procfs: Nodefs) returns (mounts: seq<Option<Mount>>)
    requires rootfs.Valid() && |rootfs.nodes| > 0 && rootfs != tmpfs && rootfs != procfs && tmpfs != procfs
    modifies rootfs, rootfs.disk, tmpfs`mountIdx, procfs`mountIdx
    ensures rootfs.Valid() && rootfs.mountIdx == 0 && tmpfs.mountIdx == 1 && procfs.mountIdx == 2
    ensures |WithDirectory(old(rootfs.nodes), SLASH_TMP)| > 0
    ensures rootfs.nodes == WithDirectory(WithDirectory(old(rootfs.nodes), SLASH_TMP), SLASH_PROC)
    ensures mounts == [Some(Mount([SLASH], rootfs)), Some(Mount(SLASH_TMP, tmpfs)), Some(Mount(SLASH_PROC, procfs)), None]
  {
    hide Tree, Tidy, WithDirectory;
    var none: seq<Option<Mount>> := seq(MOUNTS, _ => None);
    var ok, one, two;
    WithDirectoryKeeps(rootfs.nodes, SLASH_TMP);
    ok, one := MountAt(none, [SLASH], rootfs);
    assert none[0].None? && one[0] == Some(Mount([SLASH], rootfs));
    EnsureDirectory(rootfs, SLASH_TMP);
    ok, two := MountAt(one, SLASH_TMP, tmpfs);
    assert one[1].None? && two[1] == Some(Mount(SLASH_TMP, tmpfs));
    EnsureDirectory(rootfs, SLASH_PROC);
    ok, mounts := MountAt(two, SLASH_PROC, procfs);
    assert two[2].None?;
  }

  lemma RootMounted(table: Table)
    requires |table.Paths()| > 0 && table.Paths()[0] == Some([SLASH])
    ensures |table.mounts| > 0 && table.mounts[0].Some? && table.mounts[0].value.path == [SLASH]
  {
  }

  /**
   `fs_init`; false is a panic.  The root file system is what the device holds,
   with the mount points added; `/tmp` and `/proc` are new file systems.
   */
  method Init(disk: Disk, n: nat, procs: nat, perProc: nat) returns (ok: bool, table: Table?)
    requires 0 < n < 0x8000_0000 && Bootable(disk.blocks, n)
    modifies disk
    ensures ok ==>
      && table != null && table.Valid() && table.Uniform() && |table.fds| == procs
      && (forall pid :: 0 <= pid < procs ==> table.fds[pid] == seq(perProc, _ => UNUSED_FD))
      && table.Paths() == [Some([SLASH]), Some(SLASH_TMP), Some(SLASH_PROC), None]
      && BlockCount(ImageSize(n)) <= |old(disk.blocks)|
      && table.AllNodes() == [WithDirectory(WithDirectory(BootNodes(old(disk.blocks), n), SLASH_TMP), SLASH_PROC),
                              Formatted(n), Formatted(n), []]
  {
    hide Tree, Tidy, BootNodes, WithDirectory, Formatted;
    table := null;
    var rootfs, tmpfs, procfs;
    ok, rootfs, tmpfs, procfs := NewInstances(disk, n);
    if !ok {
      return;
    }
    RootIsDirectory(rootfs.nodes);
    WithDirectoryKeeps(rootfs.nodes, SLASH_TMP);
    var mounts := MountAll(rootfs, tmpfs, procfs);
    NameIsMountPoint(SLASH_TMP, SLASH_TMP[1..]);
    NameIsMountPoint(SLASH_PROC, SLASH_PROC[1..]);
    table := new Table(procs, perProc, mounts);
  }
}
