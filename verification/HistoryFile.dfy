/** The history through the file system: `history_write` to a file, `history_load` from it. */
module HistoryFile {
  import opened CTypes
  import opened FsPath
  import opened FsTree
  import opened FsOps
  import opened FsData
  import opened History
  import opened HistoryRing
  import opened NodefsModule
  import opened Vfs
  import VfsRuns

  /** The buffer of `history_load`. */
  const CHUNK := 256

  /** What a loop of reads from `offset` on delivers, up to the first empty read. */
  function Reads(bytes: seq<byte>, offset: nat): seq<seq<byte>>
    requires offset <= |bytes|
    decreases |bytes| - offset
  {
    var got := Slice(bytes, offset, CHUNK);
    if got == [] then [got] else [got] + Reads(bytes, offset + |got|)
  }

  lemma {:induction false} ReadsDeliver(bytes: seq<byte>, offset: nat)
    requires offset <= |bytes|
    ensures Stream(Reads(bytes, offset)) == bytes[offset..]
    decreases |bytes| - offset
  {
    hide Slice, Stream, Reads;
    var got := Slice(bytes, offset, CHUNK);
    NextRead(bytes, offset);
    if got != [] {
      ReadsDeliver(bytes, offset + |got|);
      StreamCons(got, Reads(bytes, offset + |got|));
    } else {
      StreamCons(got, []);
      assert [got] + [] == [got];
    }
  }

  lemma NextRead(bytes: seq<byte>, offset: nat)
    requires offset <= |bytes|
    ensures var got := Slice(bytes, offset, CHUNK);
      && offset + |got| <= |bytes| && bytes[offset..] == got + bytes[offset + |got|..]
      && (got == [] ==> offset == |bytes|)
      && Reads(bytes, offset) == if got == [] then [got] else [got] + Reads(bytes, offset + |got|)
  {
  }

  lemma StreamCons(c: seq<byte>, rest: seq<seq<byte>>)
    ensures Stream([c] + rest) == if c == [] then [] else c + Stream(rest)
  {
    assert ([c] + rest)[1..] == rest;
  }

  /** The file after a truncating open and one write of `text`. */
  function Saved(n: Node, text: seq<byte>): Node
    requires DataOk(n)
  {
    TruncateNode(n);
    WriteNode(Truncated(n), 0, text)
  }

  lemma SavedHolds(n: Node, text: seq<byte>)
    requires DataOk(n) && |text| <= FS_FILE_MAX_SIZE
    ensures DataOk(Saved(n, text)) && Bytes(Saved(n, text)) == text
  {
    TruncateNode(n);
    WriteRefines(Truncated(n), 0, text);
    assert Overwrite([], 0, text) == text;
  }

  /**
   Saving the history to any file and loading it again: since the serializer's
   buffer is as large as a file may be, nothing is cut off, and the longest suffix
   that fits comes back, exactly if it has no carriage return.
   */
  lemma HistorySurvives(entries: seq<cstring>, max: nat, k: nat, n: Node)
    requires max > 0 && AllStored(entries) && |entries| <= max && FitsFrom(entries, FS_FILE_MAX_SIZE, k) && DataOk(n)
    ensures var file := Saved(n, Encode(entries[k..]));
      && DataOk(file)
      && (Decode(Stream(Reads(Bytes(file), 0)), max) == entries[k..] <==> NoReturns(entries[k..]))
  {
    hide Encode, Decode, Saved, Reads, Stream, DataOk, NoReturns;
    var text := Encode(entries[k..]);
    SavedHolds(n, text);
    ReadsDeliver(text, 0);
    assert text[0..] == text;
    SaveThenLoad(entries, max, FS_FILE_MAX_SIZE, k, Reads(text, 0));
  }

  // ----- through descriptors -----

  /** "/.history" */
  const HISTORY_PATH: cstring := [47, 46, 104, 105, 115, 116, 111, 114, 121]
  const SAVE_FLAGS := O_CREAT + O_WRONLY + O_TRUNC

  /** The history file is there and holds `text`. */
  ghost predicate FileHolds(t: Table, m: nat, text: seq<byte>)
    reads t.Ctxs()
  {
    t.Routed(HISTORY_PATH, m) && m < |t.mounts| && t.mounts[m].Some? && NodesHold(t.NodesAt(m), t.SubpathAt(HISTORY_PATH, m), text)
  }

  ghost predicate NodesHold(nodes: Nodes, sub: cstring, text: seq<byte>) {
    && |nodes| > 0 && Tree(nodes) && Resolve(nodes, sub).Some?
    && var n := nodes[Resolve(nodes, sub).value];
    n.kind == File && n.size <= |n.data| && Bytes(n) == text
  }

  /** A creating, truncating open leaves an empty file. */
  lemma OpensEmpty(nodes: Nodes, sub: cstring)
    requires Tree(nodes) && |nodes| > 0 && FsOps.Open(nodes, sub, SAVE_FLAGS).1.Some?
    ensures var (next, node) := FsOps.Open(nodes, sub, SAVE_FLAGS);
      NodesHold(next, sub, []) && Resolve(next, sub) == node && 0 < node.value && next[node.value].used && DataOk(next[node.value])
  {
    hide Tree, View, FsOps.Open, DataOk;
    OpenRefines(nodes, sub, SAVE_FLAGS);
    var (next, node) := FsOps.Open(nodes, sub, SAVE_FLAGS);
    InView(next, Components(sub));
    SizeOf(next[node.value]);
    assert View(next)[Components(sub)] == Contents([]);
  }

  lemma SizeOf(n: Node)
    requires DataOk(n)
    ensures n.size <= |n.data|
  {
  }

  lemma WritesText(nodes: Nodes, sub: cstring, i: nat, text: seq<byte>)
    requires NodesHold(nodes, sub, []) && Resolve(nodes, sub) == Some(i) && 0 < i && nodes[i].used && DataOk(nodes[i])
    requires |text| <= FS_FILE_MAX_SIZE
    ensures NodesHold(nodes[i := WriteNode(nodes[i], 0, text)], sub, text)
  {
    hide Tree, Overwrite, WriteNode, DataOk;
    var n := WriteNode(nodes[i], 0, text);
    WriteRefines(nodes[i], 0, text);
    SizeOf(n);
    OverNothing(text);
    RewrittenIsTree(nodes, nodes[i := n], i, n);
    LookupRewritten(nodes, nodes[i := n], i, n, Components(sub));
  }

  lemma OverNothing(text: seq<byte>)
    ensures |text| <= FS_FILE_MAX_SIZE ==> Fitting(0, text) == text && Overwrite([], 0, text) == text
  {
  }

  /** What can keep the history from being written: no process, no mount, no room, or a disk behind the mount. */
  ghost predicate SaveCanFail(t: Table, pid: int, m: nat)
    reads t`fds, t.Ctxs()
  {
    || !(0 <= pid < |t.fds|) || t.Unrouted(HISTORY_PATH)
    || (m < |t.mounts| && t.mounts[m].Some? && t.Routed(HISTORY_PATH, m) && |t.NodesAt(m)| > 0 &&
        (|| t.mounts[m].value.ctx.persistent
         || FsOps.Open(t.NodesAt(m), t.SubpathAt(HISTORY_PATH, m), SAVE_FLAGS).1.None?
         || forall fd :: 0 <= fd < |t.fds[pid]| ==> t.fds[pid][fd].used))
  }

  /** The open of `history_write`: a descriptor at the start of an empty file. */
  method OpenToSave(t: Table, pid: int) returns (fd: int, ghost m: nat, ghost node: nat)
    requires t.Valid()
    modifies t`fds, t.Ctxs(), t.Disks()
    ensures t.Valid() && fd >= -1
    ensures fd >= 0 ==>
      && t.ValidFd(pid, fd) && t.fds[pid][fd] == Fd(true, m, node, 0, SAVE_FLAGS) && FileHolds(t, m, [])
      && m < |t.mounts| && t.mounts[m].Some? && t.Routed(HISTORY_PATH, m)
      && |t.NodesAt(m)| > node > 0 && Resolve(t.NodesAt(m), t.SubpathAt(HISTORY_PATH, m)) == Some(node)
      && t.NodesAt(m)[node].used && DataOk(t.NodesAt(m)[node])
    ensures fd < 0 || t.mounts[m].value.ctx.persistent ==> old(SaveCanFail(t, pid, m))
  {
    hide Tree, FsOps.Open, NodesHold, DataOk, Resolve;
    VfsRuns.TableIsGood(t);
    fd, m := t.Open(pid, HISTORY_PATH, SAVE_FLAGS);
    node := 0;
    if fd >= 0 {
      t.RoutedIsMount(HISTORY_PATH, m);
      ghost var sub := t.SubpathAt(HISTORY_PATH, m);
      OpensEmpty(old(t.NodesAt(m)), sub);
      node := Resolve(t.NodesAt(m), sub).value;
    }
  }

  /** `history_write`; true if the whole text was written. */
  method WriteHistory(t: Table, pid: int, ring: Ring) returns (ok: bool, ghost m: nat, ghost start: nat)
    requires t.Valid() && ring.Valid()
    modifies t`fds, t.Ctxs(), t.Disks()
    ensures t.Valid() && ring.Valid() && start <= |ring.Entries()|
    ensures !ok ==> old(SaveCanFail(t, pid, m))
    ensures ok ==>
      FitsFrom(ring.Entries(), FS_FILE_MAX_SIZE, start) && FileHolds(t, m, Encode(ring.Entries()[start..]))
  {
    hide Tree, Encode, FitsFrom, AllStored, InOrder, FileHolds, SaveCanFail, Resolve, DataOk;
    var fd, n;
    ghost var node;
    start := 0;
    fd, m, node := OpenToSave(t, pid);
    if fd < 0 {
      return false, m, start;
    }
    var buf := new byte[FS_FILE_MAX_SIZE](_ => 0);
    n, start := ring.Serialize(buf);
    ok := WriteText(t, pid, fd, buf[..n], m, node);
    var closed := t.Close(pid, fd);
  }

  /** The write of `history_write`. */
  method WriteText(t: Table, pid: int, fd: int, text: seq<byte>, ghost m: nat, ghost node: nat) returns (ok: bool)
    requires t.Valid() && t.ValidFd(pid, fd) && t.fds[pid][fd] == Fd(true, m, node, 0, SAVE_FLAGS) && FileHolds(t, m, [])
    requires |text| <= FS_FILE_MAX_SIZE && t.Routed(HISTORY_PATH, m) && m < |t.mounts| && t.mounts[m].Some?
    requires |t.NodesAt(m)| > node > 0 && Resolve(t.NodesAt(m), t.SubpathAt(HISTORY_PATH, m)) == Some(node)
    requires t.NodesAt(m)[node].used && DataOk(t.NodesAt(m)[node])
    modifies t`fds, t.Ctxs(), t.Disks()
    ensures t.Valid() && FileHolds(t, m, text) && (ok || t.mounts[m].value.ctx.persistent)
  {
    hide Tree, NodesHold, WriteNode, Fitting, DataOk, Resolve, Table.DescriptorsKept, Table.Routed, Table.SubpathAt;
    OverNothing(text);
    WritesText(t.NodesAt(m), t.SubpathAt(HISTORY_PATH, m), node, text);
    var w, console := t.Write(pid, fd, text);
    ok := w == |text|;
  }

  lemma {:induction false} StreamSnoc(chunks: seq<seq<byte>>, c: seq<byte>)
    requires c != [] && forall i :: 0 <= i < |chunks| ==> chunks[i] != []
    ensures Stream(chunks + [c]) == Stream(chunks) + c
  {
    if chunks == [] {
      assert [] + [c] == [c] && [c][1..] == [];
    } else {
      StreamSnoc(chunks[1..], c);
      assert (chunks + [c])[1..] == chunks[1..] + [c];
      assert chunks[0] + (Stream(chunks[1..]) + c) == chunks[0] + Stream(chunks[1..]) + c;
    }
  }

  /** The read loop of `history_load`. */
  method ReadAll(t: Table, pid: int, fd: int, ghost m: nat, ghost node: nat, ghost text: seq<byte>) returns (chunks: seq<seq<byte>>)
    requires t.Valid() && t.ValidFd(pid, fd) && t.fds[pid][fd] == Fd(true, m, node, 0, O_RDONLY)
    requires m < |t.mounts| && t.mounts[m].Some? && node < |t.NodesAt(m)|
    requires t.NodesAt(m)[node].size <= |t.NodesAt(m)[node].data| && Bytes(t.NodesAt(m)[node]) == text
    modifies t`fds
    ensures t.Valid() && Stream(chunks) == text
  {
    hide Tree, Bytes, Stream;
    chunks := [];
    ghost var offset := 0;
    StreamOfNothing();
    assert text[..0] == [];
    while true
      invariant t.Valid() && t.ValidFd(pid, fd) && t.fds[pid][fd] == Fd(true, m, node, offset, O_RDONLY)
      invariant offset <= |text| && Stream(chunks) == text[..offset] && forall i :: 0 <= i < |chunks| ==> chunks[i] != []
      decreases |text| - offset
    {
      var r := t.Read(pid, fd, CHUNK);
      if !r.Data? || r.bytes == [] {
        assert text[..offset] == text;
        return;
      }
      StreamSnoc(chunks, r.bytes);
      assert text[..offset + |r.bytes|] == text[..offset] + r.bytes;
      chunks := chunks + [r.bytes];
      offset := offset + |r.bytes|;
    }
  }

  lemma StreamOfNothing()
    ensures Stream([]) == []
  {
  }

  lemma OpensToRead(nodes: Nodes, sub: cstring, text: seq<byte>)
    requires NodesHold(nodes, sub, text)
    ensures FsOps.Open(nodes, sub, O_RDONLY) == (nodes, Resolve(nodes, sub))
  {
    hide Tree, Resolve;
  }

  /** `history_load`; true if the file could be opened. */
  method LoadHistory(t: Table, pid: int, ring: Ring, ghost text: seq<byte>, ghost at: nat) returns (ok: bool)
    requires t.Valid() && ring.Valid() && FileHolds(t, at, text)
    modifies t`fds, t.Ctxs(), t.Disks(), ring
    ensures t.Valid() && ring.Valid() && |ring.lines| == |old(ring.lines)|
    ensures ring.Entries() == if ok then Decode(text, |ring.lines|) else old(ring.Entries())
    ensures !ok ==>
      || !(0 <= pid < |old(t.fds)|) || (at < |t.mounts| && t.mounts[at].Some? && t.mounts[at].value.ctx.persistent)
      || forall fd :: 0 <= fd < |old(t.fds)[pid]| ==> old(t.fds)[pid][fd].used
  {
    hide Tree, FsOps.Open, Decode, Stream, NodesHold, Table.DescriptorsKept, Table.OthersSame, AllStored, InOrder, Resolve;
    var fd;
    ghost var m;
    t.RoutedIsMount(HISTORY_PATH, at);
    HoldsBytes(t.NodesAt(at), t.SubpathAt(HISTORY_PATH, at), text);
    OpensToRead(t.NodesAt(at), t.SubpathAt(HISTORY_PATH, at), text);
    fd, m := t.Open(pid, HISTORY_PATH, O_RDONLY);
    if 0 <= pid < |t.fds| {
      OneMount(t, HISTORY_PATH, at, m);
    }
    if fd < 0 {
      return false;
    }
    ghost var sub := t.SubpathAt(HISTORY_PATH, m);
    HoldsBytes(t.NodesAt(m), sub, text);
    var chunks := ReadAll(t, pid, fd, m, Resolve(t.NodesAt(m), sub).value, text);
    ring.Load(chunks);
    var closed := t.Close(pid, fd);
    return true;
  }

  lemma HoldsBytes(nodes: Nodes, sub: cstring, text: seq<byte>)
    requires NodesHold(nodes, sub, text)
    ensures |nodes| > 0 && Resolve(nodes, sub).Some?
    ensures var n := nodes[Resolve(nodes, sub).value];
      n.size <= |n.data| && Bytes(n) == text
  {
  }

  lemma OneMount(t: Table, path: cstring, m: nat, k: nat)
    requires t.Routed(path, m) && t.Routed(path, k)
    ensures m == k
  {
    if m != k {
      VfsRuns.OneBest(t.Paths(), path, m, k);
    }
  }

  /**
   The shell saves its history and loads it again, through any table of
   descriptors: what comes back is the longest suffix that fits a file, exactly
   if that has no carriage return.
   */
  method SaveAndLoad(t: Table, pid: int, ring: Ring) returns (ok: bool, ghost start: nat)
    requires t.Valid() && ring.Valid()
    modifies t`fds, t.Ctxs(), t.Disks(), ring
    ensures t.Valid() && ring.Valid() && start <= |old(ring.Entries())|
    ensures ok ==>
      && FitsFrom(old(ring.Entries()), FS_FILE_MAX_SIZE, start)
      && (ring.Entries() == old(ring.Entries())[start..] <==> NoReturns(old(ring.Entries())[start..]))
    ensures !ok ==> ring.Entries() == old(ring.Entries())
  {
    hide Tree, Encode, Decode, FitsFrom, NoReturns, FileHolds;
    ghost var entries, m := ring.Entries(), 0;
    ok, m, start := WriteHistory(t, pid, ring);
    if !ok {
      return;
    }
    SuffixRoundTrip(entries, |ring.lines|, start);
    ok := LoadHistory(t, pid, ring, Encode(entries[start..]), m);
  }

  lemma SuffixRoundTrip(entries: seq<cstring>, max: nat, k: nat)
    requires max > 0 && AllStored(entries) && |entries| <= max && k <= |entries|
    ensures Decode(Encode(entries[k..]), max) == entries[k..] <==> NoReturns(entries[k..])
  {
    hide Encode, Decode, NoReturns;
    RoundTrip(entries[k..], max);
  }
}
