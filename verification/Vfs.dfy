/** Mounts and the descriptor table: the fs_* entry points of fs.c. */
module Vfs {
  import opened CTypes
  import opened FsPath
  import opened FsTree
  import opened FsOps
  import opened FsData
  import opened FsImage
  import opened NodefsModule
  import opened Mounts

  // ----- mounts -----

  datatype Mount = Mount(path: cstring, ctx: Nodefs)

  // ----- open files -----

  /** Node `i` is the same file as before, up to its contents. */
  predicate SameFile(before: Nodes, after: Nodes, i: nat) {
    i < |before| == |after| && after[i] == before[i].(size := after[i].size, data := after[i].data)
  }

  /** Every node that a descriptor has open on mount `m` is the same file as before. */
  ghost predicate OpenFilesKept(fds: seq<seq<Fd>>, m: int, before: Nodes, after: Nodes) {
    |after| == |before| && forall i :: 0 <= i < |before| && NodeOpen(fds, m, i) ==> SameFile(before, after, i)
  }

  lemma OpenKeeps(nodes: Nodes, path: cstring, flags: nat, i: nat)
    requires Tree(nodes) && i < |nodes| && nodes[i].used
    ensures SameFile(nodes, FsOps.Open(nodes, path, flags).0, i)
  {
  }

  lemma CreateKeeps(nodes: Nodes, path: cstring, kind: Kind, i: nat)
    requires Tree(nodes) && i < |nodes| && nodes[i].used && Create(nodes, path, kind).Some?
    ensures Create(nodes, path, kind).value.0[i] == nodes[i]
  {
  }

  lemma UnlinkKeeps(nodes: Nodes, path: cstring, fds: seq<seq<Fd>>, m: nat, i: nat)
    requires Tree(nodes) && i < |nodes| && NodeOpen(fds, m, i) && Unlink(nodes, path, Busy(fds, m)).Some?
    ensures i < |Unlink(nodes, path, Busy(fds, m)).value| && Unlink(nodes, path, Busy(fds, m)).value[i] == nodes[i]
  {
  }

  lemma RmdirKeeps(nodes: Nodes, path: cstring, i: nat)
    requires Tree(nodes) && i < |nodes| && nodes[i].kind == File && Rmdir(nodes, path).Some?
    ensures Rmdir(nodes, path).value[i] == nodes[i]
  {
  }

  lemma RootAlwaysThere(nodes: Nodes)
    requires Tree(nodes)
    ensures Resolve(nodes, [SLASH]) == Some(0) && nodes[0].kind == Dir
  {
    ComponentsOfPrinted([]);
    assert Printed([]) == [SLASH];
  }

  const UNUSED_FD := Fd(false, -1, -1, 0, 0)

  datatype ReadResult = Failed | Console | Data(bytes: seq<byte>)

  /**
   A process without a free descriptor gets -1 from `fs_open`, but by `Table.Open`
   the nodes have still become those of `FsOps.Open`: here a new file at `/a`.
   */
  lemma OpenCreatesAnyway()
    ensures Tree(Formatted(2)) && Tree(FsOps.Open(Formatted(2), [SLASH, 97], O_CREAT).0)
    ensures View(FsOps.Open(Formatted(2), [SLASH, 97], O_CREAT).0) != View(Formatted(2))
  {
    hide Tree, View, FsOps.Open;
    var nodes, a: cstring := Formatted(2), [97];
    FormattedIsTree(2);
    OpenChangesMapIff(nodes, [SLASH, 97], O_CREAT);
    JoinedUnfold([a]);
    JoinedUnfold([]);
    assert [a][1..] == [] && Printed([a]) == [SLASH, 97];
    ComponentsOfPrinted([a]);
    assert [a][..0] == [];
    RootInView(nodes);
    InView(nodes, [a]);
    assert nodes[1] == ZERO_NODE;
  }

  lemma KeptFromSame(fds: seq<seq<Fd>>, m: nat, before: Nodes, after: Nodes)
    requires before == after || (|after| == |before| && forall i: nat :: i < |before| && NodeOpen(fds, m, i) ==> SameFile(before, after, i))
    ensures OpenFilesKept(fds, m, before, after)
  {
  }

  lemma SliceFits(c: seq<byte>, offset: nat, size: nat)
    ensures |Slice(c, offset, size)| > 0 ==> offset + |Slice(c, offset, size)| <= |c|
  {
  }

  lemma NodeData(nodes: Nodes, i: nat)
    requires Tree(nodes) && i < |nodes|
    ensures DataOk(nodes[i])
  {
  }

  lemma SizeFits(nodes: Nodes, i: nat)
    requires Tree(nodes) && i < |nodes|
    ensures nodes[i].size <= FS_FILE_MAX_SIZE == |nodes[i].data|
  {
    assert DataOk(nodes[i]);
  }

  lemma FittingNothing(offset: nat, buf: seq<byte>)
    ensures offset >= FS_FILE_MAX_SIZE ==> Fitting(offset, buf) == []
  {
  }

  lemma ShortestMount(mount: cstring)
    requires MountPoint(mount) && Matches(mount, [SLASH])
    ensures mount == [SLASH]
  {
  }

  class Table {
    /** `fd_table`, one row per process slot. */
    var fds: seq<seq<Fd>>
    const mounts: seq<Option<Mount>>

    /** The tables `fs_init` leaves: no descriptors, and file systems mounted at their indices. */
    constructor (procs: nat, perProc: nat, mounts: seq<Option<Mount>>)
      requires forall i :: 0 <= i < |mounts| && mounts[i].Some? ==>
        mounts[i].value.ctx.Valid() && mounts[i].value.ctx.mountIdx == i && MountPoint(mounts[i].value.path)
      ensures Valid() && this.mounts == mounts && |fds| == procs
      ensures forall pid :: 0 <= pid < procs ==> fds[pid] == seq(perProc, _ => UNUSED_FD)
    {
      this.mounts := mounts;
      fds := seq(procs, _ => seq(perProc, _ => UNUSED_FD));
    }

    ghost function Ctxs(): set<Nodefs> {
      set i | 0 <= i < |mounts| && mounts[i].Some? :: mounts[i].value.ctx
    }

    ghost function Disks(): set<Disk> {
      set i | 0 <= i < |mounts| && mounts[i].Some? :: mounts[i].value.ctx.disk
    }

    ghost predicate MountOk(i: nat)
      requires i < |mounts|
      reads Ctxs()
    {
      mounts[i].Some? ==>
        && mounts[i].value.ctx in Ctxs() && mounts[i].value.ctx.Valid() && mounts[i].value.ctx.mountIdx == i
        && MountPoint(mounts[i].value.path)
    }

    /** The nodes under mount `i`. */
    ghost function NodesAt(i: nat): Nodes
      requires i < |mounts| && mounts[i].Some?
      reads Ctxs()
    {
      assert mounts[i].value.ctx in Ctxs();
      mounts[i].value.ctx.nodes
    }

    /** A used descriptor names a file in use on a mount in use, at an offset within the size limit. */
    ghost predicate FdOk(f: Fd)
      reads Ctxs()
    {
      f.used ==>
        && 0 <= f.mount < |mounts| && mounts[f.mount].Some?
        && 0 < f.node < |NodesAt(f.mount)| && NodesAt(f.mount)[f.node].used && NodesAt(f.mount)[f.node].kind == File
        && f.offset <= FS_FILE_MAX_SIZE
    }

    ghost predicate Valid()
      reads this`fds, Ctxs()
    {
      && (forall i :: 0 <= i < |mounts| ==> MountOk(i))
      && (forall pid, fd :: 0 <= pid < |fds| && 0 <= fd < |fds[pid]| ==> FdOk(fds[pid][fd]))
    }

    ghost function Paths(): seq<Option<cstring>> {
      seq(|mounts|, i requires 0 <= i < |mounts| => if mounts[i].Some? then Some(mounts[i].value.path) else None)
    }

    /** `path` belongs to mount `m`. */
    ghost predicate Routed(path: cstring, m: nat) {
      && Absolute(path) && m < |mounts| && mounts[m].Some? && BestMount(Paths(), path, Some(m))
      && Matches(mounts[m].value.path, path)
    }

    ghost predicate Unrouted(path: cstring) {
      !Absolute(path) || BestMount(Paths(), path, None)
    }

    /** `path` as mount `m` sees it. */
    ghost function SubpathAt(path: cstring, m: nat): cstring
      requires Routed(path, m)
    {
      Subpath(mounts[m].value.path, path)
    }

    /** `vfs_resolve_mount`: the longest matching mount, and the path inside it. */
    method ResolveMount(path: cstring) returns (r: Option<nat>, sub: cstring)
      ensures r.None? <==> Unrouted(path)
      ensures r.Some? ==> Routed(path, r.value) && sub == SubpathAt(path, r.value)
    {
      sub := path;
      if !(|path| > 0 && path[0] == SLASH) {
        return None, sub;
      }
      r := None;
      for i := 0 to |mounts|
        invariant match r
          case None => forall j :: 0 <= j < i && mounts[j].Some? ==> !Matches(mounts[j].value.path, path)
          case Some(m) =>
            && m < i && mounts[m].Some? && Matches(mounts[m].value.path, path)
            && forall j :: 0 <= j < i && j != m && mounts[j].Some? && Matches(mounts[j].value.path, path) ==>
                 if j < m then |mounts[j].value.path| < |mounts[m].value.path| else |mounts[j].value.path| <= |mounts[m].value.path|
      {
        if mounts[i].None? {
          continue;
        }
        if !Matches(mounts[i].value.path, path) {
          continue;
        }
        if r.None? || |mounts[i].value.path| > |mounts[r.value].value.path| {
          r := Some(i);
        }
      }
      if r.Some? {
        sub := Subpath(mounts[r.value].value.path, path);
        RoutedIsMount(path, r.value);
      }
    }

    // ----- descriptors -----

    predicate ValidFd(pid: int, fd: int)
      reads this
    {
      0 <= pid < |fds| && 0 <= fd < |fds[pid]|
    }

    /** `vfs_alloc_fd`: the lowest free descriptor. */
    method AllocFd(pid: int, mount: int, node: int, offset: nat, flags: nat) returns (r: int)
      modifies this`fds
      ensures r == -1 ==> fds == old(fds) && (0 <= pid < |fds| ==> forall fd :: 0 <= fd < |fds[pid]| ==> fds[pid][fd].used)
      ensures r != -1 ==>
        && 0 <= pid < |old(fds)| && 0 <= r < |old(fds)[pid]| && !old(fds)[pid][r].used
        && (forall fd :: 0 <= fd < r ==> old(fds)[pid][fd].used)
        && fds == old(fds)[pid := old(fds)[pid][r := Fd(true, mount, node, offset, flags)]]
    {
      if pid < 0 || pid >= |fds| {
        return -1;
      }
      for fd := 0 to |fds[pid]|
        invariant fds == old(fds) && forall f :: 0 <= f < fd ==> fds[pid][f].used
      {
        if !fds[pid][fd].used {
          fds := fds[pid := fds[pid][fd := Fd(true, mount, node, offset, flags)]];
          return fd;
        }
      }
      return -1;
    }

    /** `fs_close`. */
    method Close(pid: int, fd: int) returns (ok: bool)
      requires Valid()
      modifies this`fds
      ensures Valid()
      ensures ok <==> old(ValidFd(pid, fd)) && old(fds)[pid][fd].used
      ensures fds == if ok then old(fds)[pid := old(fds)[pid][fd := UNUSED_FD]] else old(fds)
    {
      if pid < 0 || pid >= |fds| || fd < 0 || fd >= |fds[pid]| || !fds[pid][fd].used {
        return false;
      }
      fds := fds[pid := fds[pid][fd := UNUSED_FD]];
      return true;
    }

    /** `fs_dup2`. */
    method Dup2(pid: int, oldFd: int, newFd: int) returns (r: int)
      requires Valid()
      modifies this`fds
      ensures Valid()
      ensures var able := old(ValidFd(pid, oldFd)) && old(fds)[pid][oldFd].used && old(ValidFd(pid, newFd));
        && r == (if able then newFd else -1)
        && fds == if able then old(fds)[pid := old(fds)[pid][newFd := old(fds)[pid][oldFd]]] else old(fds)
    {
      hide Tree, Tidy;
      if !(0 <= pid < |fds|) || !(0 <= oldFd < |fds[pid]|) || !fds[pid][oldFd].used || !(0 <= newFd < |fds[pid]|) {
        return -1;
      }
      if oldFd == newFd {
        assert fds[pid][newFd := fds[pid][oldFd]] == fds[pid];
        return newFd;
      }
      if fds[pid][newFd].used {
        var closed := Close(pid, newFd);
      }
      fds := fds[pid := fds[pid][newFd := fds[pid][oldFd].(used := true)]];
      assert fds[pid] == old(fds)[pid][newFd := old(fds)[pid][oldFd]];
      return newFd;
    }

    /** `fs_fork_copy_fds`: the child gets the parent's descriptors. */
    method ForkCopyFds(parent: int, child: int) returns (ok: bool)
      requires Valid() && (0 <= child < |fds| && 0 <= parent < |fds| ==> |fds[child]| == |fds[parent]|)
      modifies this`fds
      ensures Valid() && |fds| == |old(fds)|
      ensures ok <==> 0 <= parent < |old(fds)| && 0 <= child < |old(fds)|
      ensures fds == if ok then old(fds)[child := old(fds)[parent]] else old(fds)
    {
      if parent < 0 || parent >= |fds| || child < 0 || child >= |fds| {
        return false;
      }
      var n := |fds[parent]|;
      for fd := 0 to n
        invariant |fds| == |old(fds)| && |fds[child]| == n && fds[parent] == old(fds)[parent]
        invariant forall f :: 0 <= f < fd ==> fds[child][f] == old(fds)[parent][f]
        invariant forall f :: fd <= f < n ==> fds[child][f] == old(fds)[child][f]
        invariant forall p :: 0 <= p < |fds| && p != child ==> fds[p] == old(fds)[p]
      {
        fds := fds[child := fds[child][fd := fds[parent][fd]]];
      }
      assert fds[child] == old(fds)[parent];
      assert fds == old(fds)[child := old(fds)[parent]];
      return true;
    }

    /** `fs_on_process_recycle`. */
    method OnProcessRecycle(pid: int)
      requires Valid()
      modifies this`fds
      ensures Valid() && |fds| == |old(fds)|
      ensures !(0 <= pid < |fds|) ==> fds == old(fds)
      ensures 0 <= pid < |fds| ==>
        && |fds[pid]| == |old(fds)[pid]|
        && (forall fd :: 0 <= fd < |fds[pid]| ==> fds[pid][fd] == UNUSED_FD)
        && forall p :: 0 <= p < |fds| && p != pid ==> fds[p] == old(fds)[p]
    {
      if pid < 0 || pid >= |fds| {
        return;
      }
      for fd := 0 to |fds[pid]|
        invariant |fds| == |old(fds)| && |fds[pid]| == |old(fds)[pid]| && Valid()
        invariant forall f :: 0 <= f < fd ==> fds[pid][f] == UNUSED_FD
        invariant forall p :: 0 <= p < |fds| && p != pid ==> fds[p] == old(fds)[p]
      {
        fds := fds[pid := fds[pid][fd := UNUSED_FD]];
      }
    }

    // ----- files -----

    /** The file systems other than mount `m`'s are as before. */
    twostate predicate OthersSame(m: nat)
      reads Ctxs()
    {
      forall i: nat :: i < |mounts| && mounts[i].Some? && i != m ==> NodesAt(i) == old(NodesAt(i))
    }

    twostate predicate AllSame()
      reads Ctxs()
    {
      forall i: nat :: i < |mounts| && mounts[i].Some? ==> NodesAt(i) == old(NodesAt(i))
    }

    /** No operation turns an open descriptor to another file. */
    twostate predicate DescriptorsKept()
      reads Ctxs()
    {
      forall i: nat :: i < |mounts| && mounts[i].Some? ==> OpenFilesKept(old(fds), i, old(NodesAt(i)), NodesAt(i))
    }

    /** One file system changed and kept its open files: all descriptors are as good as before. */
    twostate lemma StillValid(m: nat)
      requires old(Valid()) && m < |mounts| && mounts[m].Some? && fds == old(fds)
      requires forall c: Nodefs :: c in Ctxs() && c != mounts[m].value.ctx ==> c.nodes == old(c.nodes) && c.mountIdx == old(c.mountIdx)
      requires mounts[m].value.ctx.Valid() && mounts[m].value.ctx.mountIdx == m
      requires OpenFilesKept(fds, m, old(NodesAt(m)), NodesAt(m))
      ensures Valid() && OthersSame(m) && DescriptorsKept()
    {
      hide Tree, Tidy;
      assert old(MountOk(m));
      forall i: nat | i < |mounts| && mounts[i].Some? && i != m
        ensures NodesAt(i) == old(NodesAt(i)) && MountOk(i)
      {
        assert old(MountOk(i));
        assert mounts[i].value.ctx != mounts[m].value.ctx;
      }
      forall pid, fd | 0 <= pid < |fds| && 0 <= fd < |fds[pid]| ensures FdOk(fds[pid][fd]) {
        var f := fds[pid][fd];
        assert old(FdOk(f));
        if f.used && f.mount == m {
          assert IsOpen(f, m, f.node);
          assert NodeOpen(fds, m, f.node);
        }
      }
    }

    /** Everything a descriptor names on mount `m` is a file in use. */
    lemma OpenIsFile(m: nat, i: nat)
      requires Valid() && m < |mounts| && mounts[m].Some? && NodeOpen(fds, m, i)
      ensures i < |NodesAt(m)| && NodesAt(m)[i].used && NodesAt(m)[i].kind == File
    {
      var pid, fd :| 0 <= pid < |fds| && 0 <= fd < |fds[pid]| && IsOpen(fds[pid][fd], m, i);
      assert FdOk(fds[pid][fd]);
    }

    /** `fs_open`: a descriptor, or -1; `m` is the mount it went to. */
    method Open(pid: int, path: cstring, flags: nat) returns (r: int, ghost m: nat)
      requires Valid()
      modifies this`fds, Ctxs(), Disks()
      ensures Valid() && |fds| == |old(fds)| && DescriptorsKept()
      ensures r == -1 ==> fds == old(fds)
      ensures
        if !(0 <= pid < |old(fds)|) || Unrouted(path) then r == -1 && AllSame()
        else
          && Routed(path, m) && OthersSame(m) && |old(NodesAt(m))| > 0
          && var (next, node) := FsOps.Open(old(NodesAt(m)), SubpathAt(path, m), flags);
          && NodesAt(m) == next
          && if r == -1 then
               node.None? || mounts[m].value.ctx.persistent || forall fd :: 0 <= fd < |old(fds)[pid]| ==> old(fds)[pid][fd].used
             else
               && node.Some? && 0 <= r < |old(fds)[pid]| && !old(fds)[pid][r].used
               && (forall fd :: 0 <= fd < r ==> old(fds)[pid][fd].used)
               && mounts[m].value.ctx.Valid() && (next != old(NodesAt(m)) ==> mounts[m].value.ctx.Synced())
               && fds == old(fds)[pid := old(fds)[pid][r := Fd(true, m, node.value, 0, flags)]]
    {
      hide Tree, Tidy, FsOps.Open, Routed, Unrouted, SubpathAt, OpenFilesKept;
      m := 0;
      if pid < 0 || pid >= |fds| {
        NothingChanged();
        return -1, m;
      }
      var found, sub := ResolveMount(path);
      if found.None? {
        NothingChanged();
        return -1, m;
      }
      m := found.value;
      RoutedIsMount(path, m);
      HasRoot(m);
      var node := OpenOn(found.value, sub, flags);
      if node.None? {
        return -1, m;
      }
      r := AllocFd(pid, found.value, node.value, 0, flags);
    }

    lemma RoutedIsMount(path: cstring, m: nat)
      requires Routed(path, m)
      ensures m < |mounts| && mounts[m].Some? && !Unrouted(path)
    {
      assert Paths()[m] == Some(mounts[m].value.path);
    }

    lemma HasRoot(m: nat)
      requires Valid() && m < |mounts| && mounts[m].Some?
      ensures |NodesAt(m)| > 0 && mounts[m].value.ctx.Valid() && mounts[m].value.ctx in Ctxs()
    {
      assert MountOk(m);
    }

    twostate lemma NothingChanged()
      requires forall c: Nodefs :: c in Ctxs() ==> c.nodes == old(c.nodes)
      ensures DescriptorsKept() && AllSame()
    {
    }

    /** `nodefs_open` on mount `m`, as seen by the descriptors. */
    method OpenOn(m: nat, sub: cstring, flags: nat) returns (node: Option<nat>)
      requires Valid() && m < |mounts| && mounts[m].Some? && |NodesAt(m)| > 0
      modifies Ctxs(), Disks()
      ensures Valid() && DescriptorsKept() && OthersSame(m) && NodesAt(m) == FsOps.Open(old(NodesAt(m)), sub, flags).0
      ensures mounts[m].value.ctx.Valid()
      ensures node.Some? && NodesAt(m) != old(NodesAt(m)) ==> mounts[m].value.ctx.Synced()
      ensures node.None? ==> FsOps.Open(old(NodesAt(m)), sub, flags).1.None? || mounts[m].value.ctx.persistent
      ensures node.Some? ==>
        && node == FsOps.Open(old(NodesAt(m)), sub, flags).1
        && 0 < node.value < |NodesAt(m)| && NodesAt(m)[node.value].used && NodesAt(m)[node.value].kind == File
    {
      hide Tree, Tidy, FsOps.Open, OthersSame, DescriptorsKept;
      var ctx := mounts[m].value.ctx;
      assert MountOk(m) && ctx in Ctxs() && ctx.disk in Disks();
      ghost var before := ctx.nodes;
      OpenRefines(before, sub, flags);
      forall i: nat | i < |before| && NodeOpen(fds, m, i) ensures SameFile(before, FsOps.Open(before, sub, flags).0, i) {
        OpenIsFile(m, i);
        OpenKeeps(before, sub, flags, i);
      }
      node := ctx.OpenNode(sub, flags);
      StillValid(m);
    }

    /** `fs_read`: the bytes at the descriptor's own offset, which moves past them. */
    method Read(pid: int, fd: int, size: nat) returns (r: ReadResult)
      requires Valid()
      modifies this`fds
      ensures Valid()
      ensures !old(ValidFd(pid, fd)) ==> r == Failed && fds == old(fds)
      ensures old(ValidFd(pid, fd)) ==>
        var f := old(fds)[pid][fd];
        if !f.used then fds == old(fds) && r == (if fd == 0 then Console else Failed)
        else if !Bit(f.flags, O_RDONLY) then fds == old(fds) && r == Failed
        else
          && 0 <= f.mount < |mounts| && mounts[f.mount].Some? && 0 <= f.node < |NodesAt(f.mount)|
          && var n := NodesAt(f.mount)[f.node];
          && n.size <= |n.data| && r == Data(Slice(Bytes(n), f.offset, size))
          && fds == old(fds)[pid := old(fds)[pid][fd := f.(offset := f.offset + |r.bytes|)]]
    {
      hide Tree, Tidy, Slice;
      if pid < 0 || pid >= |fds| || fd < 0 || fd >= |fds[pid]| {
        return Failed;
      }
      var f := fds[pid][fd];
      if !f.used {
        return if fd == 0 then Console else Failed;
      }
      if !Bit(f.flags, O_RDONLY) {
        return Failed;
      }
      assert FdOk(f);
      var got, next := ReadOn(f.mount, f.node, f.offset, size);
      fds := fds[pid := fds[pid][fd := f.(offset := next)]];
      return Data(got);
    }

    /** `nodefs_read` on mount `m`, for a node that a descriptor names. */
    method ReadOn(m: nat, node: nat, offset: nat, size: nat) returns (got: seq<byte>, next: nat)
      requires Valid() && m < |mounts| && mounts[m].Some? && offset <= FS_FILE_MAX_SIZE
      requires 0 < node < |NodesAt(m)| && NodesAt(m)[node].used && NodesAt(m)[node].kind == File
      ensures NodesAt(m)[node].size <= |NodesAt(m)[node].data|
      ensures got == Slice(Bytes(NodesAt(m)[node]), offset, size) && next == offset + |got| <= FS_FILE_MAX_SIZE
    {
      hide Tree, Tidy, Slice;
      HasRoot(m);
      var ctx := mounts[m].value.ctx;
      var r, after := ctx.ReadNode(node, offset, size);
      SliceFits(Bytes(ctx.nodes[node]), offset, size);
      SizeFits(ctx.nodes, node);
      return r.value, after;
    }

    /** `fs_write`: the count, or -1; the console stands in for an unused descriptor 1. */
    method Write(pid: int, fd: int, buf: seq<byte>) returns (r: int, console: bool)
      requires Valid()
      modifies this`fds, Ctxs(), Disks()
      ensures Valid() && |fds| == |old(fds)| && DescriptorsKept()
      ensures !old(ValidFd(pid, fd)) ==> r == -1 && !console && fds == old(fds) && AllSame()
      ensures old(ValidFd(pid, fd)) ==>
        var f := old(fds)[pid][fd];
        if !f.used then fds == old(fds) && AllSame() && console == (fd == 1) && r == (if fd == 1 then |buf| else -1)
        else if !Bit(f.flags, O_WRONLY) then fds == old(fds) && AllSame() && r == -1 && !console
        else
          && !console && 0 <= f.mount < |mounts| && mounts[f.mount].Some? && OthersSame(f.mount)
          && 0 <= f.node < |old(NodesAt(f.mount))| && DataOk(old(NodesAt(f.mount))[f.node])
          && NodesAt(f.mount) == old(NodesAt(f.mount))[f.node := WriteNode(old(NodesAt(f.mount))[f.node], f.offset, buf)]
          && DataOk(NodesAt(f.mount)[f.node])
          && Stores(Bytes(old(NodesAt(f.mount))[f.node]), Bytes(NodesAt(f.mount)[f.node]), f.offset, buf, |Fitting(f.offset, buf)|)
          && fds == old(fds)[pid := old(fds)[pid][fd := f.(offset := f.offset + |Fitting(f.offset, buf)|)]]
          && (r == |Fitting(f.offset, buf)| || (r == -1 && mounts[f.mount].value.ctx.persistent))
          && mounts[f.mount].value.ctx.Valid() && (r != -1 && f.offset < FS_FILE_MAX_SIZE ==> mounts[f.mount].value.ctx.Synced())
    {
      hide Tree, Tidy, WriteNode, Fitting, DataOk, Stores, OpenFilesKept;
      console := false;
      if pid < 0 || pid >= |fds| || fd < 0 || fd >= |fds[pid]| {
        NothingChanged();
        return -1, console;
      }
      var f := fds[pid][fd];
      if !f.used {
        NothingChanged();
        return if fd == 1 then |buf| else -1, fd == 1;
      }
      if !Bit(f.flags, O_WRONLY) {
        NothingChanged();
        return -1, console;
      }
      assert FdOk(f);
      HasRoot(f.mount);
      FittingFits(f.offset, buf);
      FittingNothing(f.offset, buf);
      var next;
      r, next := WriteOn(f.mount, f.node, f.offset, buf);
      fds := fds[pid := fds[pid][fd := f.(offset := next)]];
    }

    /** `nodefs_write` on mount `m`, as seen by the descriptors. */
    method WriteOn(m: nat, node: int, offset: nat, buf: seq<byte>) returns (r: int, next: nat)
      requires Valid() && m < |mounts| && mounts[m].Some?
      requires 0 < node < |NodesAt(m)| && NodesAt(m)[node].used && NodesAt(m)[node].kind == File
      modifies Ctxs(), Disks()
      ensures Valid() && DescriptorsKept() && OthersSame(m) && DataOk(old(NodesAt(m))[node])
      ensures NodesAt(m) == old(NodesAt(m))[node := WriteNode(old(NodesAt(m))[node], offset, buf)]
      ensures DataOk(NodesAt(m)[node])
      ensures Stores(Bytes(old(NodesAt(m))[node]), Bytes(NodesAt(m)[node]), offset, buf, |Fitting(offset, buf)|)
      ensures next == offset + |Fitting(offset, buf)|
      ensures r == |Fitting(offset, buf)| || (r == -1 && mounts[m].value.ctx.persistent)
      ensures mounts[m].value.ctx.Valid() && (r != -1 && offset < FS_FILE_MAX_SIZE ==> mounts[m].value.ctx.Synced())
    {
      hide Tree, Tidy, DataOk, WriteNode, Fitting, Stores, Table.DescriptorsKept, Table.OthersSame;
      HasRoot(m);
      var ctx := mounts[m].value.ctx;
      assert MountOk(m) && ctx.disk in Disks();
      ghost var before := ctx.nodes;
      NodeData(before, node);
      WriteRefines(before[node], offset, buf);
      r, next := ctx.WriteFile(node, offset, buf);
      StillValid(m);
    }

    /** `fs_mkdir`. */
    method MakeDirectory(path: cstring) returns (ok: bool, ghost m: nat)
      requires Valid()
      modifies Ctxs(), Disks()
      ensures Valid() && DescriptorsKept()
      ensures
        if Unrouted(path) then !ok && AllSame()
        else
          && Routed(path, m) && OthersSame(m) && |old(NodesAt(m))| > 0 && mounts[m].value.ctx.Valid()
          && match Create(old(NodesAt(m)), SubpathAt(path, m), Dir)
             case None => !ok && NodesAt(m) == old(NodesAt(m))
             case Some(made) =>
               NodesAt(m) == made.0 && (ok ==> mounts[m].value.ctx.Synced()) && (!mounts[m].value.ctx.persistent ==> ok)
    {
      hide Tree, Tidy, Create, Routed, Unrouted, SubpathAt, OpenFilesKept;
      m := 0;
      var found, sub := ResolveMount(path);
      if found.None? {
        NothingChanged();
        return false, m;
      }
      m := found.value;
      RoutedIsMount(path, m);
      HasRoot(m);
      var ctx := mounts[found.value].value.ctx;
      assert MountOk(m) && ctx.disk in Disks();
      ghost var before := ctx.nodes;
      CreateRefines(before, sub, Dir);
      if Create(before, sub, Dir).Some? {
        forall i: nat | i < |before| && NodeOpen(fds, m, i) ensures SameFile(before, Create(before, sub, Dir).value.0, i) {
          OpenIsFile(m, i);
          CreateKeeps(before, sub, Dir, i);
        }
        KeptFromSame(fds, m, before, Create(before, sub, Dir).value.0);
      }
      KeptFromSame(fds, m, before, before);
      ok := ctx.MakeDir(sub);
      StillValid(m);
    }

    /** `fs_unlink`. */
    method Remove(path: cstring) returns (ok: bool, ghost m: nat)
      requires Valid()
      modifies Ctxs(), Disks()
      ensures Valid() && DescriptorsKept()
      ensures
        if Unrouted(path) then !ok && AllSame()
        else
          && Routed(path, m) && OthersSame(m) && |old(NodesAt(m))| > 0 && mounts[m].value.ctx.Valid()
          && match Unlink(old(NodesAt(m)), SubpathAt(path, m), Busy(fds, m))
             case None => !ok && NodesAt(m) == old(NodesAt(m))
             case Some(next) =>
               NodesAt(m) == next && (ok ==> mounts[m].value.ctx.Synced()) && (!mounts[m].value.ctx.persistent ==> ok)
    {
      hide Tree, Tidy, Unlink, Routed, Unrouted, SubpathAt, OpenFilesKept;
      m := 0;
      var found, sub := ResolveMount(path);
      if found.None? {
        NothingChanged();
        return false, m;
      }
      m := found.value;
      RoutedIsMount(path, m);
      HasRoot(m);
      var ctx := mounts[found.value].value.ctx;
      assert MountOk(m) && ctx.disk in Disks();
      ghost var before := ctx.nodes;
      ghost var after := Unlink(before, sub, Busy(fds, m));
      if after.Some? {
        forall i: nat | i < |before| && NodeOpen(fds, m, i) ensures SameFile(before, after.value, i) {
          UnlinkKeeps(before, sub, fds, m, i);
        }
        KeptFromSame(fds, m, before, after.value);
      }
      KeptFromSame(fds, m, before, before);
      ok := ctx.UnlinkFile(sub, fds);
      StillValid(m);
    }

    /** `fs_rmdir`. */
    method RemoveDirectory(path: cstring) returns (ok: bool, ghost m: nat)
      requires Valid()
      modifies Ctxs(), Disks()
      ensures Valid() && DescriptorsKept()
      ensures
        if Unrouted(path) then !ok && AllSame()
        else
          && Routed(path, m) && OthersSame(m) && |old(NodesAt(m))| > 0 && mounts[m].value.ctx.Valid()
          && match Rmdir(old(NodesAt(m)), SubpathAt(path, m))
             case None => !ok && NodesAt(m) == old(NodesAt(m))
             case Some(next) =>
               NodesAt(m) == next && (ok ==> mounts[m].value.ctx.Synced()) && (!mounts[m].value.ctx.persistent ==> ok)
    {
      hide Tree, Tidy, Rmdir, Routed, Unrouted, SubpathAt, OpenFilesKept;
      m := 0;
      var found, sub := ResolveMount(path);
      if found.None? {
        NothingChanged();
        return false, m;
      }
      m := found.value;
      RoutedIsMount(path, m);
      HasRoot(m);
      var ctx := mounts[found.value].value.ctx;
      assert MountOk(m) && ctx.disk in Disks();
      ghost var before := ctx.nodes;
      ghost var after := Rmdir(before, sub);
      if after.Some? {
        forall i: nat | i < |before| && NodeOpen(fds, m, i) ensures SameFile(before, after.value, i) {
          OpenIsFile(m, i);
          RmdirKeeps(before, sub, i);
        }
        KeptFromSame(fds, m, before, after.value);
      }
      KeptFromSame(fds, m, before, before);
      ok := ctx.RemoveDir(sub);
      StillValid(m);
    }

    /** `fs_get_root_entry`: it fails only if nothing is mounted at the root. */
    method GetRootEntry() returns (r: Option<(nat, nat)>)
      requires Valid()
      ensures r.None? <==> forall i :: 0 <= i < |mounts| ==> mounts[i].None? || mounts[i].value.path != [SLASH]
      ensures r.Some? ==> r.value.0 < |mounts| && mounts[r.value.0].Some? && mounts[r.value.0].value.path == [SLASH] && r.value.1 == 0
    {
      hide Tree, Tidy, Resolve;
      var found, sub := ResolveMount([SLASH]);
      if found.None? {
        assert forall i :: 0 <= i < |mounts| && mounts[i].Some? ==> Paths()[i] == Some(mounts[i].value.path);
        return None;
      }
      RoutedIsMount([SLASH], found.value);
      HasRoot(found.value);
      assert MountOk(found.value);
      ShortestMount(mounts[found.value].value.path);
      var ctx := mounts[found.value].value.ctx;
      RootAlwaysThere(ctx.nodes);
      var node := ctx.ResolvePath(sub);
      if node.None? || ctx.nodes[node.value].kind != Dir {
        assert false;
      }
      return Some((found.value, node.value));
    }

    /** The node arrays of all mounts. */
    ghost function AllNodes(): (all: seq<Nodes>)
      reads Ctxs()
      ensures |all| == |mounts|
    {
      seq(|mounts|, i requires 0 <= i < |mounts| reads Ctxs() => if mounts[i].Some? then NodesAt(i) else [])
    }

    /** Only mount `m` changed. */
    twostate lemma NodesNow(m: nat)
      requires m < |mounts| && mounts[m].Some? && OthersSame(m)
      ensures AllNodes() == old(AllNodes())[m := NodesAt(m)]
    {
      forall i: nat | i < |mounts| ensures AllNodes()[i] == old(AllNodes())[m := NodesAt(m)][i] {
        if i != m && mounts[i].Some? {
          assert NodesAt(i) == old(NodesAt(i));
        }
      }
    }

    twostate lemma NodesSame()
      requires AllSame()
      ensures AllNodes() == old(AllNodes())
    {
      forall i: nat | i < |mounts| ensures AllNodes()[i] == old(AllNodes())[i] {
        if mounts[i].Some? {
          assert NodesAt(i) == old(NodesAt(i));
        }
      }
    }

    ghost predicate Uniform()
      reads this`fds
    {
      forall p, q :: 0 <= p < |fds| && 0 <= q < |fds| ==> |fds[p]| == |fds[q]|
    }
  }
}
