/** Runs over the descriptor table: descriptors stay on their files, and files behave as byte strings. */
module VfsRuns {
  import opened CTypes
  import opened FsPath
  import opened FsTree
  import opened FsOps
  import opened FsData
  import opened FsImage
  import opened NodefsModule
  import opened Mounts
  import opened Vfs

  /** What processes ask of the file system; `Fork` and `Recycle` come from the process table. */
  datatype Op =
    | Fork(parent: nat, child: nat)
    | Recycle(pid: nat)
    | OpenAt(pid: nat, path: cstring, flags: nat)
    | CloseFd(pid: nat, fd: nat)
    | ReadFd(pid: nat, fd: nat, size: nat)
    | WriteFd(pid: nat, fd: nat, buf: seq<byte>)
    | DupFd(pid: nat, oldFd: nat, newFd: nat)
    | MkdirAt(path: cstring)
    | UnlinkAt(path: cstring)
    | RmdirAt(path: cstring)

  /** The descriptor table and the node arrays of all mounts. */
  datatype Snapshot = Snapshot(table: seq<seq<Fd>>, nodes: seq<Nodes>)

  ghost function Now(t: Table): Snapshot
    reads t`fds, t.Ctxs()
  {
    Snapshot(t.fds, t.AllNodes())
  }

  predicate HasFd(s: Snapshot, pid: nat, fd: nat) {
    pid < |s.table| && fd < |s.table[pid]|
  }

  predicate Usable(s: Snapshot, pid: nat, fd: nat, mode: nat)
    requires mode > 0
  {
    HasFd(s, pid, fd) && s.table[pid][fd].used && Bit(s.table[pid][fd].flags, mode)
  }

  /** Every node that a descriptor names is a file in use. */
  ghost predicate Good(s: Snapshot) {
    forall m: nat, i: nat :: NodeOpen(s.table, m, i) ==> GoodFile(s, m, i)
  }

  ghost predicate GoodFile(s: Snapshot, m: nat, i: nat) {
    && m < |s.nodes| && Tree(s.nodes[m]) && i < |s.nodes[m]|
    && s.nodes[m][i].used && s.nodes[m][i].kind == File && DataOk(s.nodes[m][i])
  }

  // ----- descriptors -----

  predicate SameDescriptor(f: Fd, g: Fd) {
    g == f.(offset := g.offset)
  }

  /** The operation closes or replaces this descriptor. */
  predicate Touches(op: Op, pid: nat, fd: nat) {
    match op
    case CloseFd(p, f) => p == pid && f == fd
    case DupFd(p, _, f) => p == pid && f == fd
    case Recycle(p) => p == pid
    case Fork(_, child) => child == pid
    case _ => false
  }

  predicate Touched(ops: seq<Op>, pid: nat, fd: nat) {
    exists k :: 0 <= k < |ops| && Touches(ops[k], pid, fd)
  }

  /** How far the operation moves a descriptor that it does not close; `out` is what it read. */
  function Moves(op: Op, s: Snapshot, pid: nat, fd: nat, out: seq<byte>): nat
    requires HasFd(s, pid, fd)
  {
    match op
    case ReadFd(p, f, _) => if p == pid && f == fd then |out| else 0
    case WriteFd(p, f, buf) =>
      if p == pid && f == fd && Usable(s, pid, fd, O_WRONLY) then |Fitting(s.table[pid][fd].offset, buf)| else 0
    case _ => 0
  }

  ghost predicate OffsetStep(op: Op, s: Snapshot, t: Snapshot, out: seq<byte>) {
    && |t.table| == |s.table|
    && forall pid: nat, fd: nat :: HasFd(s, pid, fd) && s.table[pid][fd].used && !Touches(op, pid, fd) ==>
         && HasFd(t, pid, fd)
         && t.table[pid][fd] == s.table[pid][fd].(offset := s.table[pid][fd].offset + Moves(op, s, pid, fd, out))
  }

  /** The operation may bring descriptors of this process into use. */
  predicate Opens(op: Op, pid: nat) {
    match op
    case OpenAt(p, _, _) => p == pid
    case DupFd(p, _, _) => p == pid
    case Fork(_, child) => child == pid
    case _ => false
  }

  /** A descriptor comes into use only by an open, dup2 or fork in its process, and none outlives a recycling. */
  ghost predicate UseStep(op: Op, s: Snapshot, t: Snapshot) {
    forall pid: nat, fd: nat :: HasFd(t, pid, fd) && t.table[pid][fd].used ==>
      Opens(op, pid) || (HasFd(s, pid, fd) && s.table[pid][fd].used && op != Recycle(pid))
  }

  // ----- files -----

  /** What happens to the bytes of one file. */
  datatype Event = Quiet | Wrote(offset: nat, buf: seq<byte>) | Emptied

  function ApplyEvent(b: seq<byte>, e: Event): seq<byte> {
    match e
    case Quiet => b
    case Emptied => []
    case Wrote(offset, buf) => WriteBytes(b, offset, buf)
  }

  /** What `op` does to node `i` of mount `m`: it writes through a descriptor on it, or truncates it. */
  function EventOf(op: Op, s: Snapshot, mounts: seq<Option<cstring>>, m: nat, i: nat): Event {
    match op
    case WriteFd(pid, fd, buf) =>
      if Usable(s, pid, fd, O_WRONLY) && IsOpen(s.table[pid][fd], m, i) then Wrote(s.table[pid][fd].offset, buf) else Quiet
    case OpenAt(pid, path, flags) =>
      if pid < |s.table| && Bit(flags, O_TRUNC) && Bit(flags, O_WRONLY) && PathIs(s, mounts, path, m, i) then Emptied else Quiet
    case _ => Quiet
  }

  /** `path` leads to node `i` of mount `m`. */
  predicate PathIs(s: Snapshot, mounts: seq<Option<cstring>>, path: cstring, m: nat, i: nat) {
    && Absolute(path) && m < |mounts| && m < |s.nodes| && |s.nodes[m]| > 0
    && BestMount(mounts, path, Some(m)) && Resolve(s.nodes[m], Subpath(mounts[m].value, path)) == Some(i)
  }

  function BytesAt(s: Snapshot, m: nat, i: nat): seq<byte> {
    if m < |s.nodes| && i < |s.nodes[m]| && s.nodes[m][i].size <= |s.nodes[m][i].data| then Bytes(s.nodes[m][i]) else []
  }

  /** Every open file stays the same file, and its bytes change as its event says. */
  ghost predicate FileStep(op: Op, s: Snapshot, t: Snapshot, mounts: seq<Option<cstring>>) {
    && |t.nodes| == |s.nodes|
    && forall m: nat, i: nat :: NodeOpen(s.table, m, i) ==>
         && m < |s.nodes| && SameFile(s.nodes[m], t.nodes[m], i)
         && BytesAt(t, m, i) == ApplyEvent(BytesAt(s, m, i), EventOf(op, s, mounts, m, i))
  }

  /** A read delivers the bytes at the descriptor's own offset. */
  predicate ReadStep(op: Op, s: Snapshot, out: seq<byte>) {
    if op.ReadFd? && Usable(s, op.pid, op.fd, O_RDONLY) then
      var f := s.table[op.pid][op.fd];
      f.mount >= 0 && f.node >= 0 && out == Slice(BytesAt(s, f.mount, f.node), f.offset, op.size)
    else out == []
  }

  ghost predicate StepOk(op: Op, s: Snapshot, t: Snapshot, mounts: seq<Option<cstring>>, out: seq<byte>) {
    OffsetStep(op, s, t, out) && UseStep(op, s, t) && FileStep(op, s, t, mounts) && ReadStep(op, s, out)
  }

  // ----- steps by what they change -----

  /** Open files keep their nodes, byte for byte. */
  lemma QuietFiles(op: Op, s: Snapshot, t: Snapshot, mounts: seq<Option<cstring>>)
    requires Good(s) && |t.nodes| == |s.nodes|
    requires forall m: nat, i: nat :: m < |s.nodes| && NodeOpen(s.table, m, i) && GoodFile(s, m, i) ==>
      |t.nodes[m]| == |s.nodes[m]| && t.nodes[m][i] == s.nodes[m][i]
    requires forall m: nat, i: nat :: NodeOpen(s.table, m, i) ==> EventOf(op, s, mounts, m, i) == Quiet
    ensures FileStep(op, s, t, mounts)
  {
    hide Tree, EventOf, NodeOpen;
  }

  /** `s` with the node array of mount `m` replaced. */
  function WithNodes(s: Snapshot, m: nat, nodes: Nodes): seq<Nodes>
    requires m < |s.nodes|
  {
    s.nodes[m := nodes]
  }

  lemma WriteFiles(s: Snapshot, t: Snapshot, mounts: seq<Option<cstring>>, pid: nat, fd: nat, buf: seq<byte>)
    requires Good(s) && Usable(s, pid, fd, O_WRONLY)
    requires var f := s.table[pid][fd]; f.mount >= 0 && f.node >= 0 && GoodFile(s, f.mount, f.node)
    requires var f := s.table[pid][fd];
      t.nodes == WithNodes(s, f.mount, s.nodes[f.mount][f.node := WriteNode(s.nodes[f.mount][f.node], f.offset, buf)])
    ensures FileStep(WriteFd(pid, fd, buf), s, t, mounts)
  {
    hide Tree, NodeOpen, WriteNode, Overwrite, Fitting, DataOk;
    var f := s.table[pid][fd];
    var n := s.nodes[f.mount][f.node];
    WriteRefines(n, f.offset, buf);
    SizeOf(n);
    SizeOf(WriteNode(n, f.offset, buf));
  }

  lemma SizeOf(n: Node)
    requires DataOk(n)
    ensures n.size <= |n.data|
  {
  }

  lemma OpenFilesStep(s: Snapshot, t: Snapshot, mounts: seq<Option<cstring>>, pid: nat, path: cstring, flags: nat, m: nat)
    requires Good(s) && pid < |s.table| && m < |s.nodes| == |mounts| && |s.nodes[m]| > 0 && Tree(s.nodes[m])
    requires Absolute(path) && BestMount(mounts, path, Some(m))
    requires t.nodes == WithNodes(s, m, FsOps.Open(s.nodes[m], Subpath(mounts[m].value, path), flags).0)
    ensures FileStep(OpenAt(pid, path, flags), s, t, mounts)
  {
    hide Tree, NodeOpen, BestMount, FsOps.Open, DataOk, Resolve, Subpath;
    BestMatches(mounts, path, m);
    var sub := Subpath(mounts[m].value, path);
    forall k: nat, i: nat | NodeOpen(s.table, k, i)
      ensures k < |s.nodes| && SameFile(s.nodes[k], t.nodes[k], i)
      ensures BytesAt(t, k, i) == ApplyEvent(BytesAt(s, k, i), EventOf(OpenAt(pid, path, flags), s, mounts, k, i))
    {
      assert GoodFile(s, k, i);
      if k == m {
        OpenOneFile(s.nodes[m], sub, flags, i);
      } else if k < |mounts| {
        OneBest(mounts, path, m, k);
      }
    }
  }

  lemma BestMatches(mounts: seq<Option<cstring>>, path: cstring, m: nat)
    requires BestMount(mounts, path, Some(m))
    ensures m < |mounts| && mounts[m].Some? && Matches(mounts[m].value, path)
  {
  }

  lemma OneBest(mounts: seq<Option<cstring>>, path: cstring, m: nat, k: nat)
    requires BestMount(mounts, path, Some(m)) && m != k
    ensures !BestMount(mounts, path, Some(k))
  {
  }

  /** An open changes a file that was there only by truncating it. */
  lemma OpenOneFile(nodes: Nodes, sub: cstring, flags: nat, i: nat)
    requires Tree(nodes) && i < |nodes| && nodes[i].used && nodes[i].kind == File && DataOk(nodes[i])
    ensures var next := FsOps.Open(nodes, sub, flags).0;
      && SameFile(nodes, next, i) && next[i].size <= |next[i].data| && nodes[i].size <= |nodes[i].data|
      && Bytes(next[i]) ==
        if Bit(flags, O_TRUNC) && Bit(flags, O_WRONLY) && Resolve(nodes, sub) == Some(i) then [] else Bytes(nodes[i])
  {
    hide Tree, Resolve, ParentLeaf, Child;
    SizeOf(nodes[i]);
    TruncateNode(nodes[i]);
    OpenKeeps(nodes, sub, flags, i);
  }

  // ----- one operation -----

  lemma TableIsGood(t: Table)
    requires t.Valid()
    ensures Good(Now(t)) && |t.AllNodes()| == |t.mounts| == |t.Paths()|
    ensures forall m: nat :: m < |t.mounts| && t.mounts[m].Some? ==>
      t.AllNodes()[m] == t.NodesAt(m) && t.Paths()[m] == Some(t.mounts[m].value.path) && Tree(t.NodesAt(m)) && |t.NodesAt(m)| > 0
  {
    hide Tree, Tidy;
    forall m: nat | m < |t.mounts| && t.mounts[m].Some? ensures Tree(t.NodesAt(m)) && |t.NodesAt(m)| > 0 {
      assert t.MountOk(m);
      RootIsDirectory(t.NodesAt(m));
    }
    forall m: nat, i: nat | NodeOpen(t.fds, m, i) ensures GoodFile(Now(t), m, i) {
      var pid, fd :| 0 <= pid < |t.fds| && 0 <= fd < |t.fds[pid]| && IsOpen(t.fds[pid][fd], m, i);
      assert t.FdOk(t.fds[pid][fd]);
      NodeData(t.NodesAt(m), i);
    }
  }

  /** An open changes at most one descriptor, one that was not in use. */
  lemma OpenOffsets(s: Snapshot, t: Snapshot, pid: nat, path: cstring, flags: nat, r: int, f: Fd)
    requires r == -1 ==> t.table == s.table
    requires r != -1 ==>
      && pid < |s.table| && 0 <= r < |s.table[pid]| && !s.table[pid][r].used
      && t.table == s.table[pid := s.table[pid][r := f]]
    ensures OffsetStep(OpenAt(pid, path, flags), s, t, []) && UseStep(OpenAt(pid, path, flags), s, t)
    ensures |t.table| == |s.table| && forall p :: 0 <= p < |s.table| ==> |t.table[p]| == |s.table[p]|
  {
  }

  method PerformOpen(t: Table, pid: nat, path: cstring, flags: nat)
    requires t.Valid()
    modifies t`fds, t.Ctxs(), t.Disks()
    ensures t.Valid() && StepOk(OpenAt(pid, path, flags), old(Now(t)), Now(t), t.Paths(), [])
    ensures |t.fds| == |old(t.fds)| && forall p :: 0 <= p < |t.fds| ==> |t.fds[p]| == |old(t.fds)[p]|
  {
    hide Tree, Tidy, FsOps.Open, Good, FileStep, OffsetStep, UseStep, EventOf;
    ghost var s, op := Now(t), OpenAt(pid, path, flags);
    TableIsGood(t);
    var r, m := t.Open(pid, path, flags);
    OpenOffsets(s, Now(t), pid, path, flags, r, if r == -1 then UNUSED_FD else t.fds[pid][r]);
    if pid >= |t.fds| || t.Unrouted(path) {
      t.NodesSame();
      UnroutedIsQuiet(t, s, pid, path, flags);
      QuietFiles(op, s, Now(t), t.Paths());
    } else {
      t.RoutedIsMount(path, m);
      t.NodesNow(m);
      OpenFilesStep(s, Now(t), t.Paths(), pid, path, flags, m);
    }
  }

  lemma UnroutedIsQuiet(t: Table, s: Snapshot, pid: nat, path: cstring, flags: nat)
    requires pid >= |s.table| || t.Unrouted(path)
    ensures forall m: nat, i: nat :: EventOf(OpenAt(pid, path, flags), s, t.Paths(), m, i) == Quiet
  {
  }

  /** A write moves its own descriptor by what it wrote. */
  lemma WriteOffsets(s: Snapshot, t: Snapshot, pid: nat, fd: nat, buf: seq<byte>)
    requires t.table == if !Usable(s, pid, fd, O_WRONLY) then s.table else
      var f := s.table[pid][fd];
      s.table[pid := s.table[pid][fd := f.(offset := f.offset + |Fitting(f.offset, buf)|)]]
    ensures OffsetStep(WriteFd(pid, fd, buf), s, t, []) && UseStep(WriteFd(pid, fd, buf), s, t)
    ensures |t.table| == |s.table| && forall p :: 0 <= p < |s.table| ==> |t.table[p]| == |s.table[p]|
  {
    hide Fitting;
  }

  method PerformWrite(t: Table, pid: nat, fd: nat, buf: seq<byte>)
    requires t.Valid()
    modifies t`fds, t.Ctxs(), t.Disks()
    ensures t.Valid() && StepOk(WriteFd(pid, fd, buf), old(Now(t)), Now(t), t.Paths(), [])
    ensures |t.fds| == |old(t.fds)| && forall p :: 0 <= p < |t.fds| ==> |t.fds[p]| == |old(t.fds)[p]|
  {
    hide Tree, Tidy, Good, FileStep, WriteNode, Fitting, Stores, EventOf, GoodFile, DataOk, OffsetStep, UseStep;
    ghost var s, op := Now(t), WriteFd(pid, fd, buf);
    TableIsGood(t);
    var r, console := t.Write(pid, fd, buf);
    WriteOffsets(s, Now(t), pid, fd, buf);
    if Usable(s, pid, fd, O_WRONLY) {
      ghost var f := s.table[pid][fd];
      t.NodesNow(f.mount);
      DescriptorIsGood(s, pid, fd);
      WriteFiles(s, Now(t), t.Paths(), pid, fd, buf);
    } else {
      t.NodesSame();
      UnusableIsQuiet(s, t.Paths(), pid, fd, buf);
      SameNodes(op, s, Now(t), t.Paths());
    }
  }

  lemma UnusableIsQuiet(s: Snapshot, mounts: seq<Option<cstring>>, pid: nat, fd: nat, buf: seq<byte>)
    requires !Usable(s, pid, fd, O_WRONLY)
    ensures forall m: nat, i: nat :: EventOf(WriteFd(pid, fd, buf), s, mounts, m, i) == Quiet
  {
  }

  lemma DescriptorIsGood(s: Snapshot, pid: nat, fd: nat)
    requires Good(s) && HasFd(s, pid, fd) && s.table[pid][fd].used && s.table[pid][fd].mount >= 0 && s.table[pid][fd].node >= 0
    ensures GoodFile(s, s.table[pid][fd].mount, s.table[pid][fd].node)
  {
    var f := s.table[pid][fd];
    assert IsOpen(f, f.mount, f.node);
    assert NodeOpen(s.table, f.mount, f.node);
  }

  lemma SameTable(op: Op, s: Snapshot, t: Snapshot)
    requires t.table == s.table && !op.ReadFd? && !op.WriteFd? && !op.Recycle?
    ensures OffsetStep(op, s, t, []) && UseStep(op, s, t)
  {
  }

  lemma NoEvents(op: Op, s: Snapshot, mounts: seq<Option<cstring>>)
    requires !op.WriteFd? && !op.OpenAt?
    ensures forall m: nat, i: nat :: EventOf(op, s, mounts, m, i) == Quiet
  {
  }

  /** The nodes are as they were. */
  lemma SameNodes(op: Op, s: Snapshot, t: Snapshot, mounts: seq<Option<cstring>>)
    requires Good(s) && t.nodes == s.nodes
    requires forall m: nat, i: nat :: NodeOpen(s.table, m, i) ==> EventOf(op, s, mounts, m, i) == Quiet
    ensures FileStep(op, s, t, mounts)
  {
    hide Good, EventOf, NodeOpen, GoodFile;
    QuietFiles(op, s, t, mounts);
  }

  method PerformRead(t: Table, pid: nat, fd: nat, size: nat) returns (out: seq<byte>)
    requires t.Valid()
    modifies t`fds
    ensures t.Valid() && StepOk(ReadFd(pid, fd, size), old(Now(t)), Now(t), t.Paths(), out)
    ensures |t.fds| == |old(t.fds)| && forall p :: 0 <= p < |t.fds| ==> |t.fds[p]| == |old(t.fds)[p]|
  {
    hide Tree, Tidy, Good, FileStep, Slice, EventOf, Bytes;
    ghost var s, op := Now(t), ReadFd(pid, fd, size);
    TableIsGood(t);
    var r := t.Read(pid, fd, size);
    out := if r.Data? then r.bytes else [];
    NoEvents(op, s, t.Paths());
    SameNodes(op, s, Now(t), t.Paths());
  }

  method PerformMkdir(t: Table, path: cstring)
    requires t.Valid()
    modifies t.Ctxs(), t.Disks()
    ensures t.Valid() && StepOk(MkdirAt(path), old(Now(t)), Now(t), t.Paths(), [])
  {
    hide Tree, Tidy, Good, FileStep, OffsetStep, UseStep, EventOf, GoodFile, Create;
    ghost var s, op := Now(t), MkdirAt(path);
    TableIsGood(t);
    NoEvents(op, s, t.Paths());
    var ok, m := t.MakeDirectory(path);
    SameTable(op, s, Now(t));
    if t.Unrouted(path) {
      t.NodesSame();
      SameNodes(op, s, Now(t), t.Paths());
    } else {
      t.RoutedIsMount(path, m);
      t.NodesNow(m);
      KeptByCreate(s, m, t.SubpathAt(path, m));
      ReplacedNodes(op, s, Now(t), t.Paths(), m, t.NodesAt(m));
    }
  }

  /** Mount `m` has other nodes, but its open files are what they were. */
  lemma ReplacedNodes(op: Op, s: Snapshot, t: Snapshot, mounts: seq<Option<cstring>>, m: nat, next: Nodes)
    requires Good(s) && m < |s.nodes| && t.nodes == WithNodes(s, m, next) && FilesKept(s, m, next)
    requires forall m: nat, i: nat :: NodeOpen(s.table, m, i) ==> EventOf(op, s, mounts, m, i) == Quiet
    ensures FileStep(op, s, t, mounts)
  {
    hide Good, EventOf, NodeOpen, GoodFile;
    QuietFiles(op, s, t, mounts);
  }

  ghost predicate FilesKept(s: Snapshot, m: nat, next: Nodes)
    requires m < |s.nodes|
  {
    forall i: nat :: NodeOpen(s.table, m, i) && GoodFile(s, m, i) ==> |next| == |s.nodes[m]| && next[i] == s.nodes[m][i]
  }

  lemma KeptByCreate(s: Snapshot, m: nat, sub: cstring)
    requires m < |s.nodes| && |s.nodes[m]| > 0
    ensures FilesKept(s, m, s.nodes[m])
    ensures Create(s.nodes[m], sub, Dir).Some? ==> FilesKept(s, m, Create(s.nodes[m], sub, Dir).value.0)
  {
    hide Create, NodeOpen, Tree;
    if Create(s.nodes[m], sub, Dir).Some? {
      forall i: nat | NodeOpen(s.table, m, i) && GoodFile(s, m, i)
        ensures Create(s.nodes[m], sub, Dir).value.0[i] == s.nodes[m][i]
      {
        CreateKeeps(s.nodes[m], sub, Dir, i);
      }
    }
  }

  method PerformUnlink(t: Table, path: cstring)
    requires t.Valid()
    modifies t.Ctxs(), t.Disks()
    ensures t.Valid() && StepOk(UnlinkAt(path), old(Now(t)), Now(t), t.Paths(), [])
  {
    hide Tree, Tidy, Good, FileStep, OffsetStep, UseStep, EventOf, GoodFile, Unlink;
    ghost var s, op := Now(t), UnlinkAt(path);
    TableIsGood(t);
    NoEvents(op, s, t.Paths());
    var ok, m := t.Remove(path);
    SameTable(op, s, Now(t));
    if t.Unrouted(path) {
      t.NodesSame();
      SameNodes(op, s, Now(t), t.Paths());
    } else {
      t.RoutedIsMount(path, m);
      t.NodesNow(m);
      KeptByUnlink(s, m, t.SubpathAt(path, m));
      ReplacedNodes(op, s, Now(t), t.Paths(), m, t.NodesAt(m));
    }
  }

  lemma KeptByUnlink(s: Snapshot, m: nat, sub: cstring)
    requires m < |s.nodes| && |s.nodes[m]| > 0
    ensures FilesKept(s, m, s.nodes[m])
    ensures var r := Unlink(s.nodes[m], sub, Busy(s.table, m)); r.Some? ==> FilesKept(s, m, r.value)
  {
    hide Unlink, NodeOpen, Tree;
    var r := Unlink(s.nodes[m], sub, Busy(s.table, m));
    if r.Some? {
      forall i: nat | NodeOpen(s.table, m, i) && GoodFile(s, m, i) ensures r.value[i] == s.nodes[m][i] {
        UnlinkKeeps(s.nodes[m], sub, s.table, m, i);
      }
    }
  }

  method PerformRmdir(t: Table, path: cstring)
    requires t.Valid()
    modifies t.Ctxs(), t.Disks()
    ensures t.Valid() && StepOk(RmdirAt(path), old(Now(t)), Now(t), t.Paths(), [])
  {
    hide Tree, Tidy, Good, FileStep, OffsetStep, UseStep, EventOf, GoodFile, Rmdir;
    ghost var s, op := Now(t), RmdirAt(path);
    TableIsGood(t);
    NoEvents(op, s, t.Paths());
    var ok, m := t.RemoveDirectory(path);
    SameTable(op, s, Now(t));
    if t.Unrouted(path) {
      t.NodesSame();
      SameNodes(op, s, Now(t), t.Paths());
    } else {
      t.RoutedIsMount(path, m);
      t.NodesNow(m);
      KeptByRmdir(s, m, t.SubpathAt(path, m));
      ReplacedNodes(op, s, Now(t), t.Paths(), m, t.NodesAt(m));
    }
  }

  lemma KeptByRmdir(s: Snapshot, m: nat, sub: cstring)
    requires m < |s.nodes| && |s.nodes[m]| > 0
    ensures FilesKept(s, m, s.nodes[m])
    ensures var r := Rmdir(s.nodes[m], sub); r.Some? ==> FilesKept(s, m, r.value)
  {
    hide Rmdir, NodeOpen, Tree;
    var r := Rmdir(s.nodes[m], sub);
    if r.Some? {
      forall i: nat | NodeOpen(s.table, m, i) && GoodFile(s, m, i) ensures r.value[i] == s.nodes[m][i] {
        RmdirKeeps(s.nodes[m], sub, i);
      }
    }
  }

  predicate OnTableOnly(op: Op) {
    op.Fork? || op.Recycle? || op.CloseFd? || op.DupFd?
  }

  /** The descriptor table after an operation on it alone. */
  function TableAfter(op: Op, table: seq<seq<Fd>>): (next: seq<seq<Fd>>)
    requires OnTableOnly(op)
    ensures |next| == |table|
  {
    match op
    case Fork(parent, child) => if parent < |table| && child < |table| then table[child := table[parent]] else table
    case Recycle(pid) => if pid < |table| then table[pid := seq(|table[pid]|, _ => UNUSED_FD)] else table
    case CloseFd(pid, fd) => if pid < |table| && fd < |table[pid]| then table[pid := table[pid][fd := Closed(table[pid][fd])]] else table
    case DupFd(pid, a, b) =>
      if pid < |table| && a < |table[pid]| && b < |table[pid]| && table[pid][a].used then table[pid := table[pid][b := table[pid][a]]]
      else table
  }

  function Closed(f: Fd): Fd {
    if f.used then UNUSED_FD else f
  }

  lemma TableOffsets(op: Op, s: Snapshot, t: Snapshot)
    requires OnTableOnly(op) && t.table == TableAfter(op, s.table)
    requires forall p, q :: 0 <= p < |s.table| && 0 <= q < |s.table| ==> |s.table[p]| == |s.table[q]|
    ensures OffsetStep(op, s, t, []) && UseStep(op, s, t)
    ensures forall p, q :: 0 <= p < |t.table| && 0 <= q < |t.table| ==> |t.table[p]| == |t.table[q]|
  {
  }

  method ChangeTable(t: Table, op: Op)
    requires t.Valid() && t.Uniform() && OnTableOnly(op)
    modifies t`fds
    ensures t.Valid() && t.fds == TableAfter(op, old(t.fds))
  {
    hide Tree, Tidy;
    match op {
      case Fork(parent, child) =>
        var ok := t.ForkCopyFds(parent, child);
      case Recycle(pid) =>
        t.OnProcessRecycle(pid);
        if pid < |t.fds| {
          assert t.fds[pid] == seq(|old(t.fds)[pid]|, _ => UNUSED_FD);
        }
        assert t.fds == TableAfter(op, old(t.fds));
      case CloseFd(pid, fd) =>
        var ok := t.Close(pid, fd);
        if !ok && pid < |t.fds| && fd < |t.fds[pid]| {
          assert t.fds[pid] == old(t.fds)[pid][fd := Closed(old(t.fds)[pid][fd])];
        }
        assert t.fds == TableAfter(op, old(t.fds));
      case DupFd(pid, oldFd, newFd) =>
        var r := t.Dup2(pid, oldFd, newFd);
    }
  }

  method PerformOnTable(t: Table, op: Op)
    requires t.Valid() && t.Uniform() && OnTableOnly(op)
    modifies t`fds
    ensures t.Valid() && t.Uniform() && StepOk(op, old(Now(t)), Now(t), t.Paths(), [])
    ensures t.fds == TableAfter(op, old(t.fds))
  {
    hide Tree, Tidy, Good, FileStep, OffsetStep, UseStep, EventOf, GoodFile, TableAfter;
    ghost var s := Now(t);
    TableIsGood(t);
    NoEvents(op, s, t.Paths());
    ChangeTable(t, op);
    TableOffsets(op, s, Now(t));
    SameNodes(op, s, Now(t), t.Paths());
  }

  method Perform(t: Table, op: Op) returns (out: seq<byte>)
    requires t.Valid() && t.Uniform()
    modifies t`fds, t.Ctxs(), t.Disks()
    ensures t.Valid() && t.Uniform() && StepOk(op, old(Now(t)), Now(t), t.Paths(), out)
  {
    hide Tree, Tidy, StepOk;
    out := [];
    match op {
      case OpenAt(pid, path, flags) =>
        PerformOpen(t, pid, path, flags);
      case ReadFd(pid, fd, size) =>
        out := PerformRead(t, pid, fd, size);
      case WriteFd(pid, fd, buf) =>
        PerformWrite(t, pid, fd, buf);
      case MkdirAt(path) =>
        PerformMkdir(t, path);
      case UnlinkAt(path) =>
        PerformUnlink(t, path);
      case RmdirAt(path) =>
        PerformRmdir(t, path);
      case _ =>
        PerformOnTable(t, op);
    }
  }

  // ----- runs -----

  /** The states of a run, before each operation and at the end, and what each operation read. */
  ghost predicate IsTrace(ops: seq<Op>, outs: seq<seq<byte>>, trace: seq<Snapshot>, mounts: seq<Option<cstring>>) {
    && |outs| == |ops| && |trace| == |ops| + 1
    && forall k: nat :: k < |ops| ==> StepOk(ops[k], trace[k], trace[k + 1], mounts, outs[k])
  }

  /** Any sequence of operations by any processes; every descriptor stays good throughout. */
  method Run(t: Table, ops: seq<Op>) returns (outs: seq<seq<byte>>, ghost trace: seq<Snapshot>)
    requires t.Valid() && t.Uniform()
    modifies t`fds, t.Ctxs(), t.Disks()
    ensures t.Valid() && t.Uniform() && IsTrace(ops, outs, trace, t.Paths())
    ensures trace[0] == old(Now(t)) && trace[|ops|] == Now(t)
  {
    hide StepOk, Now;
    outs := [];
    trace := [Now(t)];
    for k := 0 to |ops|
      invariant t.Valid() && t.Uniform() && |outs| == k && |trace| == k + 1
      invariant trace[0] == old(Now(t)) && trace[k] == Now(t)
      invariant forall j: nat :: j < k ==> StepOk(ops[j], trace[j], trace[j + 1], t.Paths(), outs[j])
    {
      var out := Perform(t, ops[k]);
      outs := outs + [out];
      trace := trace + [Now(t)];
    }
  }

  predicate InUse(s: Snapshot, pid: nat, fd: nat) {
    HasFd(s, pid, fd) && s.table[pid][fd].used && s.table[pid][fd].mount >= 0 && s.table[pid][fd].node >= 0
  }

  /** How far the first `k` operations moved a descriptor. */
  ghost function Travel(ops: seq<Op>, outs: seq<seq<byte>>, trace: seq<Snapshot>, pid: nat, fd: nat, k: nat): nat
    requires k <= |ops| == |outs| && |trace| == |ops| + 1
  {
    if k == 0 || !HasFd(trace[k - 1], pid, fd) then 0
    else Travel(ops, outs, trace, pid, fd, k - 1) + Moves(ops[k - 1], trace[k - 1], pid, fd, outs[k - 1])
  }

  /** The bytes of a file after `k` operations, as its events alone make them. */
  ghost function Replay(ops: seq<Op>, trace: seq<Snapshot>, mounts: seq<Option<cstring>>, m: nat, i: nat, k: nat): seq<byte>
    requires k <= |ops| && |trace| == |ops| + 1
  {
    if k == 0 then BytesAt(trace[0], m, i)
    else ApplyEvent(Replay(ops, trace, mounts, m, i, k - 1), EventOf(ops[k - 1], trace[k - 1], mounts, m, i))
  }

  lemma UseOpens(s: Snapshot, pid: nat, fd: nat)
    requires InUse(s, pid, fd)
    ensures NodeOpen(s.table, s.table[pid][fd].mount, s.table[pid][fd].node)
  {
    var f := s.table[pid][fd];
    assert IsOpen(f, f.mount, f.node);
  }

  /**
   Until it is closed or replaced, a descriptor stays on its file, whatever is
   unlinked, removed or created meanwhile, and only its own reads and writes move
   it; and the file behaves as a byte string under the writes and truncations of
   all processes, through forked and duplicated descriptors alike.
   */
  lemma {:induction false} DescriptorStays(ops: seq<Op>, outs: seq<seq<byte>>, trace: seq<Snapshot>, mounts: seq<Option<cstring>>,
                                           pid: nat, fd: nat, k: nat)
    requires IsTrace(ops, outs, trace, mounts) && k <= |ops|
    requires InUse(trace[0], pid, fd) && forall j: nat :: j < k ==> !Touches(ops[j], pid, fd)
    requires trace[0].table[pid][fd].mount < |trace[0].nodes|
    requires trace[0].table[pid][fd].node < |trace[0].nodes[trace[0].table[pid][fd].mount]|
    ensures var f := trace[0].table[pid][fd];
      && InUse(trace[k], pid, fd) && f.mount < |trace[k].nodes|
      && trace[k].table[pid][fd] == f.(offset := f.offset + Travel(ops, outs, trace, pid, fd, k))
      && SameFile(trace[0].nodes[f.mount], trace[k].nodes[f.mount], f.node)
      && BytesAt(trace[k], f.mount, f.node) == Replay(ops, trace, mounts, f.mount, f.node, k)
  {
    hide Moves, EventOf, NodeOpen, ApplyEvent, BytesAt, Touches;
    if k > 0 {
      DescriptorStays(ops, outs, trace, mounts, pid, fd, k - 1);
      UseOpens(trace[k - 1], pid, fd);
      assert StepOk(ops[k - 1], trace[k - 1], trace[k - 1 + 1], mounts, outs[k - 1]);
    }
  }

  /** So its next read delivers what the byte string holds at its own offset. */
  lemma ReadsTheString(ops: seq<Op>, outs: seq<seq<byte>>, trace: seq<Snapshot>, mounts: seq<Option<cstring>>,
                       pid: nat, fd: nat, k: nat, size: nat)
    requires IsTrace(ops, outs, trace, mounts) && k < |ops| && ops[k] == ReadFd(pid, fd, size)
    requires InUse(trace[0], pid, fd) && forall j: nat :: j < k ==> !Touches(ops[j], pid, fd)
    requires trace[0].table[pid][fd].mount < |trace[0].nodes|
    requires trace[0].table[pid][fd].node < |trace[0].nodes[trace[0].table[pid][fd].mount]|
    requires Bit(trace[0].table[pid][fd].flags, O_RDONLY)
    ensures var f := trace[0].table[pid][fd];
      outs[k] == Slice(Replay(ops, trace, mounts, f.mount, f.node, k), f.offset + Travel(ops, outs, trace, pid, fd, k), size)
  {
    hide Replay, Travel, FileStep, OffsetStep, BytesAt, Slice, Touches, SameFile;
    DescriptorStays(ops, outs, trace, mounts, pid, fd, k);
    assert StepOk(ops[k], trace[k], trace[k + 1], mounts, outs[k]);
  }

  // ----- what two steps in a row do -----

  /** A write through a descriptor moves it and changes its file, as on a byte string. */
  lemma WriteStep(s: Snapshot, t: Snapshot, mounts: seq<Option<cstring>>, pid: nat, fd: nat, buf: seq<byte>)
    requires StepOk(WriteFd(pid, fd, buf), s, t, mounts, []) && InUse(s, pid, fd) && Usable(s, pid, fd, O_WRONLY)
    ensures var f := s.table[pid][fd];
      && InUse(t, pid, fd) && t.table[pid][fd] == f.(offset := f.offset + |Fitting(f.offset, buf)|)
      && BytesAt(t, f.mount, f.node) == WriteBytes(BytesAt(s, f.mount, f.node), f.offset, buf)
  {
    hide BytesAt, WriteBytes, Fitting;
    UseOpens(s, pid, fd);
  }

  /** Two writes in a row through one descriptor are one write of both buffers. */
  lemma TwoWrites(s: Snapshot, t: Snapshot, u: Snapshot, mounts: seq<Option<cstring>>, pid: nat, fd: nat, a: seq<byte>, b: seq<byte>)
    requires StepOk(WriteFd(pid, fd, a), s, t, mounts, []) && StepOk(WriteFd(pid, fd, b), t, u, mounts, [])
    requires InUse(s, pid, fd) && Usable(s, pid, fd, O_WRONLY)
    ensures var f := s.table[pid][fd];
      && InUse(u, pid, fd) && u.table[pid][fd] == f.(offset := f.offset + |Fitting(f.offset, a + b)|)
      && BytesAt(u, f.mount, f.node) == WriteBytes(BytesAt(s, f.mount, f.node), f.offset, a + b)
  {
    hide BytesAt, WriteBytes, Fitting, StepOk;
    var f := s.table[pid][fd];
    WriteStep(s, t, mounts, pid, fd, a);
    WriteStep(t, u, mounts, pid, fd, b);
    WriteTwice(BytesAt(s, f.mount, f.node), f.offset, a, b);
  }

  /** What one process writes, another reads back through its own descriptor at the same place of the file. */
  lemma WrittenIsRead(s: Snapshot, t: Snapshot, u: Snapshot, mounts: seq<Option<cstring>>, pid: nat, fd: nat, buf: seq<byte>,
                      reader: nat, rfd: nat, out: seq<byte>)
    requires StepOk(WriteFd(pid, fd, buf), s, t, mounts, []) && InUse(s, pid, fd) && Usable(s, pid, fd, O_WRONLY)
    requires InUse(t, reader, rfd) && Usable(t, reader, rfd, O_RDONLY)
    requires t.table[reader][rfd].mount == s.table[pid][fd].mount && t.table[reader][rfd].node == s.table[pid][fd].node
    requires t.table[reader][rfd].offset == s.table[pid][fd].offset
    requires StepOk(ReadFd(reader, rfd, |Fitting(s.table[pid][fd].offset, buf)|), t, u, mounts, out)
    ensures out == Fitting(s.table[pid][fd].offset, buf)
  {
    hide BytesAt, WriteBytes, Fitting, Slice;
    var f := s.table[pid][fd];
    WriteStep(s, t, mounts, pid, fd, buf);
    WriteThenRead(BytesAt(s, f.mount, f.node), f.offset, buf);
  }
}
