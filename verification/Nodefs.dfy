/** One nodefs instance with the loops of fs.c, each operation proved against FsOps and FsData. */
module NodefsModule {
  import opened CTypes
  import opened FsPath
  import opened FsTree
  import opened FsOps
  import opened FsData
  import opened FsImage

  /** `struct vfs_fd`. */
  datatype Fd = Fd(used: bool, mount: int, node: int, offset: nat, flags: nat)

  /** Some descriptor of some process has node `i` of mount `m` open. */
  predicate NodeOpen(fds: seq<seq<Fd>>, m: int, i: nat) {
    exists pid, fd :: 0 <= pid < |fds| && 0 <= fd < |fds[pid]| && IsOpen(fds[pid][fd], m, i)
  }

  /** The nodes of mount `m` that descriptors keep from being unlinked. */
  function Busy(fds: seq<seq<Fd>>, m: int): nat -> bool {
    (i: nat) => m >= 0 && NodeOpen(fds, m, i)
  }

  predicate IsOpen(f: Fd, m: int, i: nat) {
    f.used && f.mount == m && f.node == i
  }

  lemma FormattedIsTree(n: nat)
    requires n > 0
    ensures Tree(Formatted(n)) && forall i :: 0 < i < n ==> Formatted(n)[i] == ZERO_NODE
  {
    var nodes := Formatted(n);
    assert Depths(nodes, seq(n, _ => 0));
    forall i | 0 <= i < n ensures DataOk(nodes[i]) {
      assert nodes[i].data == Zeros(FS_FILE_MAX_SIZE);
    }
  }

  lemma RootIsDirectory(nodes: Nodes)
    requires Tree(nodes)
    ensures |nodes| > 0 && nodes[0].used && nodes[0].kind == Dir
  {
  }

  lemma DropHead<T>(s: seq<T>, k: nat, head: seq<T>, rest: seq<T>)
    requires k <= |s| && s[k..] == head + rest && |head| == 1
    ensures k < |s| && s[k] == head[0] && s[k + 1..] == rest
  {
    assert s[k..][0] == s[k] && s[k..][1..] == s[k + 1..];
  }

  lemma LookupNothing(nodes: Nodes)
    requires |nodes| > 0
    ensures Lookup(nodes, []) == Some(0)
  {
  }

  lemma LookupNext(nodes: Nodes, cs: seq<cstring>, k: nat)
    requires |nodes| > 0 && k < |cs| && Lookup(nodes, cs[..k]).Some?
    ensures Lookup(nodes, cs[..k + 1]) == Child(nodes, Lookup(nodes, cs[..k]).value, cs[k], 0)
  {
    assert cs[..k + 1][..k] == cs[..k];
  }

  lemma NoParentLeaf(nodes: Nodes, path: cstring)
    requires |nodes| > 0
    ensures !Absolute(path) || Components(path) == [] ==> ParentLeaf(nodes, path).None?
  {
  }

  lemma ParentLeafIs(nodes: Nodes, path: cstring, cur: nat)
    requires |nodes| > 0 && Absolute(path) && Components(path) != [] && cur < |nodes| && nodes[cur].kind == Dir
    requires var cs := Components(path); |cs[|cs| - 1]| < FS_NAME_MAX && Lookup(nodes, cs[..|cs| - 1]) == Some(cur)
    ensures var cs := Components(path); ParentLeaf(nodes, path) == Some((cur, cs[|cs| - 1]))
  {
  }

  lemma {:induction false} MissingPrefix(nodes: Nodes, cs: seq<cstring>, k: nat)
    requires |nodes| > 0 && k <= |cs| && Lookup(nodes, cs[..k]).None?
    ensures Lookup(nodes, cs).None?
    decreases |cs|
  {
    if k == |cs| {
      assert cs[..k] == cs;
    } else {
      assert cs[..|cs| - 1][..k] == cs[..k];
      MissingPrefix(nodes, cs[..|cs| - 1], k);
    }
  }

  /** Names in the tree are short, so a long component leads nowhere. */
  lemma LongNamesMissing(nodes: Nodes, cs: seq<cstring>, k: nat)
    requires Tree(nodes) && k < |cs| && |cs[k]| >= FS_NAME_MAX
    ensures Lookup(nodes, cs).None? && Lookup(nodes, cs[..k + 1]).None?
  {
    assert cs[..k + 1][..k] == cs[..k];
    if Lookup(nodes, cs[..k + 1]).Some? {
      var i := Lookup(nodes, cs[..k + 1]).value;
      LookupUsed(nodes, cs[..k + 1]);
      assert LinkOk(nodes, i);
    }
    MissingPrefix(nodes, cs, k + 1);
  }

  lemma LongNamesFail(nodes: Nodes, path: cstring, k: nat)
    requires Tree(nodes) && k < |Components(path)| && |Components(path)[k]| >= FS_NAME_MAX
    ensures ParentLeaf(nodes, path).None?
  {
    var cs := Components(path);
    if k < |cs| - 1 {
      LongNamesMissing(nodes, cs[..|cs| - 1], k);
    }
  }

  /** Only directories have anything below them. */
  lemma NoDirectoryFails(nodes: Nodes, path: cstring, k: nat)
    requires Tree(nodes) && 0 < k < |Components(path)|
    requires var r := Lookup(nodes, Components(path)[..k]); r.None? || nodes[r.value].kind != Dir
    ensures ParentLeaf(nodes, path).None?
  {
    var cs := Components(path);
    var up := cs[..|cs| - 1];
    assert up[..k] == cs[..k];
    if Lookup(nodes, cs[..k]).None? {
      MissingPrefix(nodes, up, k);
    } else if k == |up| {
      assert up[..k] == up;
    } else {
      assert up[..k + 1][..k] == up[..k];
      ChildlessUnlessDirectory(nodes, Lookup(nodes, cs[..k]).value, up[k]);
      MissingPrefix(nodes, up, k + 1);
    }
  }

  lemma ChildlessUnlessDirectory(nodes: Nodes, p: nat, c: cstring)
    requires Tree(nodes) && p < |nodes| && nodes[p].kind != Dir
    ensures Child(nodes, p, c, 0).None?
  {
    forall j | 0 <= j < |nodes| ensures !IsChild(nodes[j], p, c) {
      if j > 0 {
        assert LinkOk(nodes, j);
      }
    }
  }

  /** Slots that are not in use stay zeroed. */
  ghost predicate Tidy(nodes: Nodes) {
    |nodes| > 0 && |nodes[0].name| < FS_NAME_MAX && forall i :: 0 <= i < |nodes| && !nodes[i].used ==> nodes[i] == ZERO_NODE
  }

  lemma CreateShape(nodes: Nodes, path: cstring, kind: Kind)
    requires Tree(nodes) && Tidy(nodes)
    ensures Create(nodes, path, kind).Some? ==> Tidy(Create(nodes, path, kind).value.0)
  {
  }

  lemma OpenShape(nodes: Nodes, path: cstring, flags: nat)
    requires Tree(nodes) && Tidy(nodes)
    ensures Tree(FsOps.Open(nodes, path, flags).0) && Tidy(FsOps.Open(nodes, path, flags).0)
  {
    OpenRefines(nodes, path, flags);
    CreateShape(nodes, path, File);
    if Resolve(nodes, path).Some? {
      LookupUsed(nodes, Components(path));
    }
  }

  lemma WriteShape(nodes: Nodes, i: nat, n: Node)
    requires Tree(nodes) && 0 < i < |nodes| && nodes[i].used && nodes[i].kind == File
    requires DataOk(n) && n == nodes[i].(size := n.size, data := n.data)
    ensures Tree(nodes[i := n]) && (Tidy(nodes) ==> Tidy(nodes[i := n]))
  {
    RewrittenIsTree(nodes, nodes[i := n], i, n);
  }

  class Nodefs {
    var nodes: Nodes
    var mountIdx: int
    const persistent: bool
    const disk: Disk

    /** A tree that can be stored; slots not in use are zeroed. */
    ghost predicate Valid()
      reads this
    {
      Tree(nodes) && |nodes| < 0x8000_0000 && Tidy(nodes)
    }

    /** The last sync, if there is one to do, reached the device: a reboot would find `nodes`. */
    ghost predicate Synced()
      requires Valid()
      reads this, disk
    {
      persistent ==>
        BlockCount(ImageSize(|nodes|)) <= |disk.blocks| && BootNodes(disk.blocks, |nodes|) == nodes
    }

    /** `nodefs_init_instance` up to the branch on `persistent`; volatile instances are then ready. */
    constructor (persistent: bool, disk: Disk, n: nat)
      requires 0 < n < 0x8000_0000
      ensures this.persistent == persistent && this.disk == disk && mountIdx == -1 && |nodes| == n
      ensures !persistent ==> Valid() && nodes == Formatted(n)
    {
      this.persistent, this.disk, mountIdx := persistent, disk, -1;
      nodes := if persistent then seq(n, _ => ZERO_NODE) else Formatted(n);
      new;
      if !persistent {
        FormattedIsTree(n);
      }
    }

    /** The read loop of `nodefs_init_instance`. */
    method ReadImage(size: nat) returns (ok: bool, image: seq<byte>)
      requires BlockCount(size) <= |disk.blocks|
      ensures ok ==> image == ReadBack(disk.blocks, size)
    {
      image := [];
      for i := 0 to BlockCount(size)
        invariant |image| == if i * BLOCK_SIZE <= size then i * BLOCK_SIZE else size
        invariant forall k :: 0 <= k < |image| ==> image[k] == disk.blocks[k / BLOCK_SIZE][k % BLOCK_SIZE]
      {
        var b;
        ok, b := disk.ReadBlock(i);
        if !ok {
          return;
        }
        var remain := size - i * BLOCK_SIZE;
        image := image + b[..if remain > BLOCK_SIZE then BLOCK_SIZE else remain];
      }
      assert image == ReadBack(disk.blocks, size);
      ok := true;
    }

    /**
     The rest of `nodefs_init_instance` for a persistent instance; false is a
     panic.  The nodes become what the device holds if its magic and its root are
     right, and a fresh format, synced back, otherwise.
     */
    method Load() returns (ok: bool)
      requires persistent && 0 < |nodes| < 0x8000_0000
      modifies this`nodes, disk
      ensures |nodes| == |old(nodes)|
      ensures ok ==>
        && BlockCount(ImageSize(|nodes|)) <= |old(disk.blocks)| == |disk.blocks|
        && nodes == BootNodes(old(disk.blocks), |nodes|) == BootNodes(disk.blocks, |nodes|)
    {
      var n := |nodes|;
      var size := ImageSize(n);
      var blocks := BlockCount(size);
      if blocks > |disk.blocks| {
        return false;
      }
      var image;
      ok, image := ReadImage(size);
      if !ok {
        return;
      }
      if LoadWord(image[..4]) == PFS_MAGIC {
        nodes := ParseNodes(image[4..], n);
        if nodes[0].used && nodes[0].kind == Dir {
          return true;
        }
      }
      nodes := Formatted(n);
      FormattedIsTree(n);
      ok := Sync();
    }

    // ----- persistence -----

    /**
     `pfs_sync`.  However it ends, the device holds new blocks up to some point
     and old ones after it.
     */
    method Sync() returns (ok: bool)
      requires Valid()
      modifies disk
      ensures ok ==> Synced()
      ensures !persistent ==> ok && disk.blocks == old(disk.blocks)
      ensures AllStorable(nodes)
      ensures persistent ==>
        var image := ImageBytes(nodes);
        exists k :: 0 <= k <= BlockCount(|image|) && k <= |old(disk.blocks)| && (ok ==> k == BlockCount(|image|))
          && disk.blocks == Written(image, old(disk.blocks), k)
    {
      hide Tree, DataOk, Storable;
      TreesAreStorable(nodes);
      RootIsDirectory(nodes);
      if !persistent {
        return true;
      }
      var image := ImageBytes(nodes);
      var blocks := BlockCount(|image|);
      ghost var before := disk.blocks;
      assert Written(image, before, 0) == before;
      if blocks > |disk.blocks| {
        return false;
      }
      for i := 0 to blocks
        invariant |disk.blocks| == |before| && disk.blocks == Written(image, before, i)
      {
        ok := disk.WriteBlock(i, ImageBlock(image, i));
        if !ok {
          return;
        }
        assert disk.blocks == Written(image, before, i + 1);
      }
      SyncSurvives(nodes, before);
      return true;
    }

    // ----- scans -----

    method FindChild(parent: nat, name: cstring) returns (r: Option<nat>)
      ensures r == Child(nodes, parent, name, 0)
    {
      var i := 0;
      while i < |nodes|
        invariant i <= |nodes| && Child(nodes, parent, name, 0) == Child(nodes, parent, name, i)
      {
        if nodes[i].used && nodes[i].parent == parent && nodes[i].name == name {
          return Some(i);
        }
        i := i + 1;
      }
      return None;
    }

    method FindFree() returns (r: Option<nat>)
      requires |nodes| > 0
      ensures r == FreeNode(nodes, 1)
    {
      var i := 1;
      while i < |nodes|
        invariant 1 <= i <= |nodes| && FreeNode(nodes, 1) == FreeNode(nodes, i)
      {
        if !nodes[i].used {
          return Some(i);
        }
        i := i + 1;
      }
      return None;
    }

    method ResolvePath(path: cstring) returns (r: Option<nat>)
      requires Valid()
      ensures r == Resolve(nodes, path)
    {
      if !(|path| > 0 && path[0] == SLASH) {
        return None;
      }
      var cur, pos := 0, 0;
      ghost var cs := Components(path);
      ghost var k := 0;
      assert cs[0..] == cs;
      while true
        invariant pos <= |path| && k <= |cs| && ComponentsFrom(path, pos) == cs[k..]
        invariant Lookup(nodes, cs[..k]) == Some(cur)
        decreases |path| - pos
      {
        var t, next, name := NextComponent(path, pos);
        if t < 0 {
          assert cs[k..][0] == cs[k];
          LongNamesMissing(nodes, cs, k);
          return None;
        }
        if t == 0 {
          assert cs[..k] == cs;
          return Some(cur);
        }
        DropHead(cs, k, [name], ComponentsFrom(path, next));
        var child := FindChild(cur, name);
        LookupNext(nodes, cs, k);
        if child.None? {
          MissingPrefix(nodes, cs, k + 1);
          return None;
        }
        cur, pos, k := child.value, next, k + 1;
      }
    }

    /** `nodefs_resolve_parent_and_leaf`: walk with one component of look-ahead. */
    method ResolveParentAndLeaf(path: cstring) returns (r: Option<(nat, cstring)>)
      requires Valid()
      ensures r == ParentLeaf(nodes, path)
    {
      hide ComponentsFrom, Lookup, ParentLeaf, Tree, Tidy, ComponentName;
      RootIsDirectory(nodes);
      NoParentLeaf(nodes, path);
      if !(|path| > 0 && path[0] == SLASH) || |path| == 1 {
        if |path| == 1 && path[0] == SLASH {
          assert path == Printed([]);
          ComponentsOfPrinted([]);
        }
        return None;
      }
      ghost var cs := Components(path);
      var cur, pos := 0, 0;
      var t, next, comp := NextComponent(path, pos);
      if t <= 0 {
        if t < 0 {
          LongNamesFail(nodes, path, 0);
        }
        return None;
      }
      pos := next;
      ghost var k := 0;
      LookupNothing(nodes);
      assert cs[..0] == [];
      DropHead(cs, 0, [comp], ComponentsFrom(path, pos));
      while true
        invariant pos <= |path| && k < |cs| && cs[k] == comp && |comp| < FS_NAME_MAX
        invariant ComponentsFrom(path, pos) == cs[k + 1..]
        invariant Lookup(nodes, cs[..k]) == Some(cur) && nodes[cur].kind == Dir
        decreases |path| - pos
      {
        var more, saved, peek := NextComponent(path, pos);
        if more < 0 {
          LongNamesFail(nodes, path, k + 1);
          return None;
        }
        if more == 0 {
          ParentLeafIs(nodes, path, cur);
          return Some((cur, comp));
        }
        DropHead(cs, k + 1, [peek], ComponentsFrom(path, saved));
        var child := FindChild(cur, comp);
        LookupNext(nodes, cs, k);
        if child.None? || nodes[child.value].kind != Dir {
          NoDirectoryFails(nodes, path, k + 1);
          return None;
        }
        cur, pos, comp, k := child.value, saved, peek, k + 1;
      }
    }

    method IsNodeOpen(fds: seq<seq<Fd>>, node: nat) returns (open: bool)
      ensures open <==> mountIdx >= 0 && NodeOpen(fds, mountIdx, node)
    {
      if mountIdx < 0 {
        return false;
      }
      for pid := 0 to |fds|
        invariant forall p, f :: 0 <= p < pid && 0 <= f < |fds[p]| ==> !IsOpen(fds[p][f], mountIdx, node)
      {
        for fd := 0 to |fds[pid]|
          invariant forall f :: 0 <= f < fd ==> !IsOpen(fds[pid][f], mountIdx, node)
        {
          if !fds[pid][fd].used {
            continue;
          }
          if fds[pid][fd].mount == mountIdx && fds[pid][fd].node == node {
            assert IsOpen(fds[pid][fd], mountIdx, node);
            return true;
          }
        }
      }
      return false;
    }

    method IsDirEmpty(node: nat) returns (empty: bool)
      ensures empty <==> !HasChildren(nodes, node)
    {
      for i := 0 to |nodes|
        invariant forall j :: 0 <= j < i ==> !(nodes[j].used && nodes[j].parent == node)
      {
        if !nodes[i].used {
          continue;
        }
        if nodes[i].parent == node {
          return false;
        }
      }
      return true;
    }

    // ----- operations -----

    /** The shared body of the create half of `nodefs_open` and of `nodefs_mkdir`, without the sync. */
    method AddNode(path: cstring, kind: Kind) returns (r: Option<nat>)
      requires Valid() && kind != NoType
      modifies this`nodes
      ensures Valid() && |nodes| == |old(nodes)|
      ensures match Create(old(nodes), path, kind)
        case None => r == None && nodes == old(nodes)
        case Some((next, i)) => r == Some(i) && nodes == next
    {
      hide Tree, View;
      CreateRefines(nodes, path, kind);
      CreateShape(nodes, path, kind);
      var where := ResolveParentAndLeaf(path);
      if where.None? {
        return None;
      }
      var (parent, leaf) := where.value;
      var twin := FindChild(parent, leaf);
      if twin.Some? {
        return None;
      }
      var free := FindFree();
      if free.None? {
        return None;
      }
      nodes := nodes[free.value := NewNode(kind, parent, leaf)];
      return free;
    }

    /** `nodefs_mkdir`. */
    method MakeDir(path: cstring) returns (ok: bool)
      requires Valid()
      modifies this`nodes, disk
      ensures Valid() && |nodes| == |old(nodes)|
      ensures match Create(old(nodes), path, Dir)
        case None => !ok && nodes == old(nodes)
        case Some((next, i)) => nodes == next && (ok ==> Synced()) && (!persistent ==> ok)
    {
      hide Tree;
      var made := AddNode(path, Dir);
      if made.None? {
        return false;
      }
      ok := Sync();
    }

    /** `nodefs_open`: the node, at offset 0. */
    method OpenNode(path: cstring, flags: nat) returns (r: Option<nat>)
      requires Valid()
      modifies this`nodes, disk
      ensures Valid() && |nodes| == |old(nodes)|
      ensures var (next, i) := FsOps.Open(old(nodes), path, flags);
        && nodes == next
        && (i.None? ==> r == None)
        && (r.Some? ==> r == i && (next != old(nodes) || old(Synced()) ==> Synced()))
        && (!persistent ==> r == i)
    {
      hide Shape, Child, ParentLeaf;
      OpenShape(nodes, path, flags);
      var found := ResolvePath(path);
      if found.None? {
        if !Bit(flags, O_CREAT) {
          return None;
        }
        found := AddNode(path, File);
        if found.None? {
          return None;
        }
        var ok := Sync();
        if !ok {
          return None;
        }
      }
      var node := found.value;
      if nodes[node].kind != File {
        return None;
      }
      if Bit(flags, O_TRUNC) && Bit(flags, O_WRONLY) {
        ghost var before := nodes;
        nodes := nodes[node := nodes[node].(size := 0, data := Zeros(FS_FILE_MAX_SIZE))];
        assert nodes == FsOps.Open(old(nodes), path, flags).0;
        var ok := Sync();
        if !ok {
          return None;
        }
      }
      return Some(node);
    }

    /** `nodefs_read`: -1, or the bytes read; the offset moves past them. */
    method ReadNode(node: int, offset: nat, size: nat) returns (r: Option<seq<byte>>, next: nat)
      requires Valid()
      ensures r.Some? <==> 0 < node < |nodes| && nodes[node].used && nodes[node].kind == File
      ensures r.Some? ==>
        nodes[node].size <= |nodes[node].data| && r.value == Slice(Bytes(nodes[node]), offset, size) && next == offset + |r.value|
      ensures r.None? ==> next == offset
    {
      if node <= 0 || node >= |nodes| || !nodes[node].used || nodes[node].kind != File {
        return None, offset;
      }
      var n := nodes[node];
      assert DataOk(n);
      if offset >= n.size {
        return Some([]), offset;
      }
      var remain := n.size - offset;
      var count := if size > remain then remain else size;
      BytesStretch(n, offset, offset + count);
      return Some(n.data[offset..offset + count]), offset + count;
    }

    /** `nodefs_write`: the count or -1; the offset moves even when the sync fails. */
    method WriteFile(node: int, offset: nat, buf: seq<byte>) returns (r: int, next: nat)
      requires Valid()
      modifies this`nodes, disk
      ensures Valid() && |nodes| == |old(nodes)|
      ensures var writable := 0 < node < |nodes| && old(nodes)[node].used && old(nodes)[node].kind == File;
        if !writable then r == -1 && nodes == old(nodes) && next == offset
        else
          && DataOk(old(nodes)[node]) && nodes == old(nodes)[node := WriteNode(old(nodes)[node], offset, buf)]
          && next == offset + |Fitting(offset, buf)| && DataOk(nodes[node])
          && Stores(Bytes(old(nodes)[node]), Bytes(nodes[node]), offset, buf, next - offset)
          && (r == |Fitting(offset, buf)| || (persistent && r == -1))
          && (r >= 0 && offset < FS_FILE_MAX_SIZE ==> Synced())
    {
      hide Stores, WriteBytes, Bytes, Tidy;
      if node <= 0 || node >= |nodes| || !nodes[node].used || nodes[node].kind != File {
        return -1, offset;
      }
      ghost var before := nodes;
      var n := nodes[node];
      assert DataOk(n);
      WriteRefines(n, offset, buf);
      if offset >= FS_FILE_MAX_SIZE {
        assert nodes == before[node := n];
        return 0, offset;
      }
      WriteShape(nodes, node, WriteNode(n, offset, buf));
      var writable := FS_FILE_MAX_SIZE - offset;
      var count := if |buf| > writable then writable else |buf|;
      next := offset + count;
      assert Fitting(offset, buf) == buf[..count];
      var m := n.(data := Splice(n.data, offset, buf[..count]), size := if next > n.size then next else n.size);
      assert m == WriteNode(n, offset, buf);
      nodes := nodes[node := m];
      var ok := Sync();
      r := if ok then count else -1;
    }

    /** `nodefs_unlink`. */
    method UnlinkFile(path: cstring, fds: seq<seq<Fd>>) returns (ok: bool)
      requires Valid()
      modifies this`nodes, disk
      ensures Valid() && |nodes| == |old(nodes)|
      ensures match Unlink(old(nodes), path, Busy(fds, mountIdx))
        case None => !ok && nodes == old(nodes)
        case Some(next) => nodes == next && (ok ==> Synced()) && (!persistent ==> ok)
    {
      hide Tree, View;
      UnlinkRefines(nodes, path, Busy(fds, mountIdx));
      var node := ResolvePath(path);
      if node.None? || node.value == 0 {
        return false;
      }
      if nodes[node.value].kind != File {
        return false;
      }
      var open := IsNodeOpen(fds, node.value);
      if open {
        return false;
      }
      nodes := nodes[node.value := ZERO_NODE];
      ok := Sync();
    }

    /** `nodefs_rmdir`. */
    method RemoveDir(path: cstring) returns (ok: bool)
      requires Valid()
      modifies this`nodes, disk
      ensures Valid() && |nodes| == |old(nodes)|
      ensures match Rmdir(old(nodes), path)
        case None => !ok && nodes == old(nodes)
        case Some(next) => nodes == next && (ok ==> Synced()) && (!persistent ==> ok)
    {
      hide Tree, View;
      RmdirRefines(nodes, path);
      var node := ResolvePath(path);
      if node.None? || node.value == 0 {
        return false;
      }
      if nodes[node.value].kind != Dir {
        return false;
      }
      var empty := IsDirEmpty(node.value);
      if !empty {
        return false;
      }
      nodes := nodes[node.value := ZERO_NODE];
      ok := Sync();
    }

    /** `nodefs_readdir`: the slot of the `index`-th entry. */
    method ReadDir(path: cstring, index: nat) returns (r: Option<nat>)
      requires Valid()
      ensures match Resolve(nodes, path)
        case None => r == None
        case Some(dir) =>
          if nodes[dir].kind != Dir then r == None
          else var l := Listing(nodes, dir, 0); r == if index < |l| then Some(l[index]) else None
    {
      var found := ResolvePath(path);
      if found.None? || nodes[found.value].kind != Dir {
        return None;
      }
      var dir, seen, i := found.value, 0, 0;
      ghost var all := Listing(nodes, dir, 0);
      while i < |nodes|
        invariant i <= |nodes| && seen <= index
        invariant seen <= |all| && all[seen..] == Listing(nodes, dir, i)
      {
        if nodes[i].used && nodes[i].parent == dir {
          DropHead(all, seen, [i], Listing(nodes, dir, i + 1));
          if seen == index {
            return Some(i);
          }
          seen := seen + 1;
        }
        i := i + 1;
      }
      return None;
    }
  }
}
