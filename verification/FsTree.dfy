/** The node array of fs.c as a tree, and the tree as a map from paths to entries. */
module FsTree {
  import opened CTypes
  import opened FsPath

  const FS_FILE_MAX_SIZE := 512

  datatype Kind = NoType | File | Dir

  /** `struct fs_node`; `name` is the C string in its buffer, zero-padded. */
  datatype Node = Node(used: bool, kind: Kind, parent: int, name: cstring, size: nat, data: seq<byte>)

  type Nodes = seq<Node>

  /** What `memset` leaves. */
  const ZERO_NODE := Node(false, NoType, 0, [], 0, Zeros(FS_FILE_MAX_SIZE))

  // ----- the tree invariant -----

  ghost predicate DataOk(n: Node) {
    && |n.data| == FS_FILE_MAX_SIZE && n.size <= FS_FILE_MAX_SIZE
    && forall i :: n.size <= i < FS_FILE_MAX_SIZE ==> n.data[i] == 0
  }

  /** Node `i` hangs under a directory in use, with a name that fits. */
  predicate LinkOk(nodes: Nodes, i: nat)
    requires 0 < i < |nodes|
  {
    nodes[i].used ==>
      && 0 <= nodes[i].parent < |nodes| && nodes[nodes[i].parent].used && nodes[nodes[i].parent].kind == Dir
      && nodes[i].kind != NoType && GoodName(nodes[i].name)
  }

  predicate Siblings(nodes: Nodes, i: nat, j: nat)
    requires i < |nodes| && j < |nodes|
  {
    nodes[i].used && nodes[j].used && nodes[i].parent == nodes[j].parent && nodes[i].name == nodes[j].name
  }

  ghost predicate Shape(nodes: Nodes) {
    && |nodes| > 0 && nodes[0].used && nodes[0].kind == Dir && nodes[0].parent == -1
    && (forall i :: 0 < i < |nodes| ==> LinkOk(nodes, i))
    && (forall i, j :: 0 < i < j < |nodes| ==> !Siblings(nodes, i, j))
    && (forall i :: 0 <= i < |nodes| ==> DataOk(nodes[i]))
  }

  /** Every link goes to a smaller depth, so there are no cycles. */
  ghost predicate Depths(nodes: Nodes, depth: seq<nat>) {
    && |depth| == |nodes|
    && forall i :: 0 < i < |nodes| && nodes[i].used && 0 <= nodes[i].parent < |nodes| ==> depth[nodes[i].parent] < depth[i]
  }

  ghost predicate Tree(nodes: Nodes) {
    Shape(nodes) && exists depth :: Depths(nodes, depth)
  }

  // ----- scans -----

  predicate IsChild(n: Node, parent: int, name: cstring) {
    n.used && n.parent == parent && n.name == name
  }

  /** `nodefs_find_child`, from slot `k` on. */
  function Child(nodes: Nodes, parent: int, name: cstring, k: nat): (r: Option<nat>)
    requires k <= |nodes|
    ensures r.Some? ==>
      k <= r.value < |nodes| && IsChild(nodes[r.value], parent, name) && forall i :: k <= i < r.value ==> !IsChild(nodes[i], parent, name)
    ensures r.None? ==> forall i :: k <= i < |nodes| ==> !IsChild(nodes[i], parent, name)
    decreases |nodes| - k
  {
    if k == |nodes| then None else if IsChild(nodes[k], parent, name) then Some(k) else Child(nodes, parent, name, k + 1)
  }

  /** The slot `nodefs_alloc_node` takes, from slot `k` on. */
  function FreeNode(nodes: Nodes, k: nat): (r: Option<nat>)
    requires k <= |nodes|
    ensures r.Some? ==> k <= r.value < |nodes| && !nodes[r.value].used && forall i :: k <= i < r.value ==> nodes[i].used
    ensures r.None? ==> forall i :: k <= i < |nodes| ==> nodes[i].used
    decreases |nodes| - k
  {
    if k == |nodes| then None else if !nodes[k].used then Some(k) else FreeNode(nodes, k + 1)
  }

  predicate HasChildren(nodes: Nodes, i: int) {
    exists j :: 0 <= j < |nodes| && nodes[j].used && nodes[j].parent == i
  }

  // ----- lookup -----

  /** Follow a list of names from the root. */
  function Lookup(nodes: Nodes, cs: seq<cstring>): (r: Option<nat>)
    requires |nodes| > 0
    ensures r.Some? ==> r.value < |nodes|
    decreases |cs|
  {
    if cs == [] then Some(0)
    else
      match Lookup(nodes, cs[..|cs| - 1])
      case None => None
      case Some(p) => Child(nodes, p, cs[|cs| - 1], 0)
  }

  /** The names on the chain from the root down to node `i`. */
  ghost function PathOf(nodes: Nodes, depth: seq<nat>, i: nat): seq<cstring>
    requires Shape(nodes) && Depths(nodes, depth) && i < |nodes| && nodes[i].used
    decreases depth[i]
  {
    if i == 0 then []
    else
      assert LinkOk(nodes, i);
      PathOf(nodes, depth, nodes[i].parent) + [nodes[i].name]
  }

  lemma LookupUsed(nodes: Nodes, cs: seq<cstring>)
    requires Shape(nodes) && Lookup(nodes, cs).Some?
    ensures nodes[Lookup(nodes, cs).value].used
    ensures cs != [] ==> Lookup(nodes, cs).value != 0
  {
  }

  lemma {:induction false} LookupThenPath(nodes: Nodes, depth: seq<nat>, cs: seq<cstring>)
    requires Shape(nodes) && Depths(nodes, depth) && Lookup(nodes, cs).Some?
    ensures nodes[Lookup(nodes, cs).value].used
    ensures PathOf(nodes, depth, Lookup(nodes, cs).value) == cs
    decreases |cs|
  {
    LookupUsed(nodes, cs);
    if cs != [] {
      LookupThenPath(nodes, depth, cs[..|cs| - 1]);
      assert cs == cs[..|cs| - 1] + [cs[|cs| - 1]];
    }
  }

  lemma OneChild(nodes: Nodes, i: nat)
    requires Shape(nodes) && 0 < i < |nodes| && nodes[i].used
    ensures Child(nodes, nodes[i].parent, nodes[i].name, 0) == Some(i)
  {
    assert LinkOk(nodes, i);
    var c := Child(nodes, nodes[i].parent, nodes[i].name, 0);
    if c.Some? && c.value < i {
      assert c.value != 0;
      assert Siblings(nodes, c.value, i);
    } else if c.Some? && c.value > i {
      assert Siblings(nodes, i, c.value);
    }
  }

  lemma {:induction false} PathThenLookup(nodes: Nodes, depth: seq<nat>, i: nat)
    requires Shape(nodes) && Depths(nodes, depth) && i < |nodes| && nodes[i].used
    ensures Lookup(nodes, PathOf(nodes, depth, i)) == Some(i)
    decreases depth[i]
  {
    if i != 0 {
      assert LinkOk(nodes, i);
      PathThenLookup(nodes, depth, nodes[i].parent);
      OneChild(nodes, i);
      var cs := PathOf(nodes, depth, i);
      assert cs[..|cs| - 1] == PathOf(nodes, depth, nodes[i].parent);
    }
  }

  /** Lookup finds `i` exactly under the names on the chain from the root to `i`. */
  lemma LookupIffPath(nodes: Nodes, depth: seq<nat>, cs: seq<cstring>, i: nat)
    requires Shape(nodes) && Depths(nodes, depth) && i < |nodes| && nodes[i].used
    ensures Lookup(nodes, cs) == Some(i) <==> PathOf(nodes, depth, i) == cs
  {
    PathThenLookup(nodes, depth, i);
    if Lookup(nodes, cs) == Some(i) {
      LookupThenPath(nodes, depth, cs);
    }
  }

  lemma LookupInjective(nodes: Nodes, a: seq<cstring>, b: seq<cstring>)
    requires Tree(nodes) && Lookup(nodes, a).Some? && Lookup(nodes, a) == Lookup(nodes, b)
    ensures a == b
  {
    var depth :| Depths(nodes, depth);
    LookupThenPath(nodes, depth, a);
    LookupThenPath(nodes, depth, b);
  }

  lemma {:induction false} PathNamesGood(nodes: Nodes, depth: seq<nat>, i: nat)
    requires Shape(nodes) && Depths(nodes, depth) && i < |nodes| && nodes[i].used
    ensures forall c :: c in PathOf(nodes, depth, i) ==> GoodName(c)
    decreases depth[i]
  {
    if i != 0 {
      assert LinkOk(nodes, i);
      PathNamesGood(nodes, depth, nodes[i].parent);
    }
  }

  // ----- path strings -----

  /** `nodefs_resolve_path`. */
  function Resolve(nodes: Nodes, path: cstring): Option<nat>
    requires |nodes| > 0
  {
    if Absolute(path) then Lookup(nodes, Components(path)) else None
  }

  /**
   Path and tree correspond one to one: a path string resolves to `i` exactly if
   it is absolute and its components are the names from the root to `i`.
   */
  lemma ResolveIffPath(nodes: Nodes, depth: seq<nat>, path: cstring, i: nat)
    requires Shape(nodes) && Depths(nodes, depth) && i < |nodes| && nodes[i].used
    ensures Resolve(nodes, path) == Some(i) <==> Absolute(path) && Components(path) == PathOf(nodes, depth, i)
  {
    LookupIffPath(nodes, depth, Components(path), i);
  }

  /** The printed path of every node in use resolves back to it. */
  lemma PrintedPathResolves(nodes: Nodes, depth: seq<nat>, i: nat)
    requires Shape(nodes) && Depths(nodes, depth) && i < |nodes| && nodes[i].used
    ensures Resolve(nodes, Printed(PathOf(nodes, depth, i))) == Some(i)
  {
    PathNamesGood(nodes, depth, i);
    ComponentsOfPrinted(PathOf(nodes, depth, i));
    PathThenLookup(nodes, depth, i);
  }

  // ----- the abstract file system -----

  datatype Entry = Directory | Contents(bytes: seq<byte>)

  function EntryOf(n: Node): Entry
    requires n.kind == File ==> n.size <= |n.data|
  {
    if n.kind == File then Contents(n.data[..n.size]) else Directory
  }

  /** What is at a path. */
  ghost function EntryAt(nodes: Nodes, cs: seq<cstring>): Option<Entry>
    requires Tree(nodes)
  {
    match Lookup(nodes, cs)
    case None => None
    case Some(i) => assert DataOk(nodes[i]); Some(EntryOf(nodes[i]))
  }

  /** The tree as a map from component lists to entries. */
  ghost function View(nodes: Nodes): imap<seq<cstring>, Entry>
    requires Tree(nodes)
  {
    imap cs: seq<cstring> | EntryAt(nodes, cs).Some? :: EntryAt(nodes, cs).value
  }

  /** The map is prefix-closed, and everything above an entry is a directory. */
  lemma PrefixClosed(nodes: Nodes, cs: seq<cstring>)
    requires Tree(nodes) && cs in View(nodes)
    ensures cs != [] ==> cs[..|cs| - 1] in View(nodes) && View(nodes)[cs[..|cs| - 1]] == Directory && GoodName(cs[|cs| - 1])
    ensures [] in View(nodes) && View(nodes)[[]] == Directory
  {
    if cs != [] {
      var i := Lookup(nodes, cs).value;
      LookupUsed(nodes, cs);
      assert LinkOk(nodes, i);
      assert EntryAt(nodes, cs[..|cs| - 1]).Some?;
    }
    assert EntryAt(nodes, []).Some?;
  }

  // ----- adding and removing a node -----

  lemma OnlyChild(nodes: Nodes, p: nat, c: cstring, j: nat)
    requires Shape(nodes) && j < |nodes| && IsChild(nodes[j], p, c)
    ensures Child(nodes, p, c, 0) == Some(j)
  {
    OneChild(nodes, j);
  }

  /** Slot `i` is free in the tree and holds the new node `n` in `next`. */
  ghost predicate Added(nodes: Nodes, next: Nodes, i: nat, n: Node) {
    && Tree(nodes) && 0 < i < |nodes| && !nodes[i].used && next == nodes[i := n]
    && n.used && n.kind != NoType && GoodName(n.name) && DataOk(n)
    && 0 <= n.parent < |nodes| && nodes[n.parent].used && nodes[n.parent].kind == Dir
    && Child(nodes, n.parent, n.name, 0).None?
  }

  lemma AddedIsTree(nodes: Nodes, next: Nodes, i: nat, n: Node)
    requires Added(nodes, next, i, n)
    ensures Tree(next)
  {
    var depth :| Depths(nodes, depth);
    assert Depths(next, depth[i := depth[n.parent] + 1]) by {
      forall j | 0 < j < |nodes| && nodes[j].used ensures nodes[j].parent != i {
        assert LinkOk(nodes, j);
      }
    }
    forall j | 0 < j < |next| ensures LinkOk(next, j) {
      assert LinkOk(nodes, j);
    }
    forall j, k | 0 < j < k < |next| ensures !Siblings(next, j, k) {
      assert !Siblings(nodes, j, k);
    }
  }

  lemma ChildAdded(nodes: Nodes, next: Nodes, i: nat, n: Node, p: nat, c: cstring)
    requires Added(nodes, next, i, n) && Tree(next)
    ensures Child(next, p, c, 0) == if p == n.parent && c == n.name then Some(i) else Child(nodes, p, c, 0)
  {
    if p == n.parent && c == n.name {
      OnlyChild(next, p, c, i);
    } else if Child(nodes, p, c, 0).Some? {
      OnlyChild(next, p, c, Child(nodes, p, c, 0).value);
    }
  }

  lemma NothingBelow(nodes: Nodes, next: Nodes, i: nat, n: Node, c: cstring)
    requires Added(nodes, next, i, n)
    ensures Child(next, i, c, 0).None?
  {
    forall j | 0 <= j < |next| ensures !IsChild(next[j], i, c) {
      if 0 < j {
        assert LinkOk(nodes, j);
      }
    }
  }

  lemma {:induction false} LookupAdded(nodes: Nodes, next: Nodes, i: nat, n: Node, at: seq<cstring>, cs: seq<cstring>)
    requires Added(nodes, next, i, n) && Tree(next) && Lookup(nodes, at) == Some(n.parent)
    ensures Lookup(next, cs) == if cs == at + [n.name] then Some(i) else Lookup(nodes, cs)
    decreases |cs|
  {
    hide Tree, Child, Added, Lookup;
    AddedParts(nodes, next, i, n);
    LookupSnoc(nodes, cs);
    LookupSnoc(next, cs);
    var key := at + [n.name];
    LookupSnoc(nodes, key);
    assert key[..|key| - 1] == at && key[|key| - 1] == n.name;
    if cs != [] {
      var up, c := cs[..|cs| - 1], cs[|cs| - 1];
      assert cs == up + [c];
      LookupAdded(nodes, next, i, n, at, up);
      if up == key {
        NothingBelow(nodes, next, i, n, c);
      } else if Lookup(nodes, up).Some? {
        var p := Lookup(nodes, up).value;
        ChildAdded(nodes, next, i, n, p, c);
        if p == n.parent {
          LookupInjective(nodes, up, at);
        }
      }
    }
  }

  lemma AddedParts(nodes: Nodes, next: Nodes, i: nat, n: Node)
    requires Added(nodes, next, i, n)
    ensures Tree(nodes) && |next| == |nodes| > 0 && 0 <= n.parent < |nodes| && Child(nodes, n.parent, n.name, 0).None?
  {
    hide Child;
  }

  lemma LookupSnoc(nodes: Nodes, cs: seq<cstring>)
    requires |nodes| > 0
    ensures cs == [] ==> Lookup(nodes, cs) == Some(0)
    ensures cs != [] ==>
      match Lookup(nodes, cs[..|cs| - 1])
      case None => Lookup(nodes, cs).None?
      case Some(p) => Lookup(nodes, cs) == Child(nodes, p, cs[|cs| - 1], 0)
  {
    hide Child;
  }

  /** The map as a function of lookups: what `EntryAt` says everywhere is what `View` says. */
  lemma ViewIs(nodes: Nodes, m: imap<seq<cstring>, Entry>)
    requires Tree(nodes)
    requires forall cs: seq<cstring> :: EntryAt(nodes, cs) == if cs in m then Some(m[cs]) else None
    ensures View(nodes) == m
  {
    hide Tree, EntryAt;
  }

  lemma EntryInView(nodes: Nodes, cs: seq<cstring>)
    requires Tree(nodes)
    ensures EntryAt(nodes, cs) == if cs in View(nodes) then Some(View(nodes)[cs]) else None
  {
    hide Tree, EntryAt;
  }

  lemma EntryAdded(nodes: Nodes, next: Nodes, i: nat, n: Node, at: seq<cstring>, cs: seq<cstring>)
    requires Added(nodes, next, i, n) && Tree(next) && Lookup(nodes, at) == Some(n.parent)
    ensures EntryAt(next, cs) == if cs == at + [n.name] then Some(EntryOf(n)) else EntryAt(nodes, cs)
  {
    LookupAdded(nodes, next, i, n, at, cs);
    if cs != at + [n.name] && Lookup(nodes, cs).Some? {
      LookupUsed(nodes, cs);
    }
  }

  /** Adding a node changes the map at one key. */
  lemma ViewAdded(nodes: Nodes, next: Nodes, i: nat, n: Node, at: seq<cstring>)
    requires Added(nodes, next, i, n) && Lookup(nodes, at) == Some(n.parent)
    ensures Tree(next) && View(next) == View(nodes)[at + [n.name] := EntryOf(n)]
    ensures at + [n.name] !in View(nodes)
  {
    AddedIsTree(nodes, next, i, n);
    var key := at + [n.name];
    assert Lookup(nodes, key).None? by {
      assert key[..|key| - 1] == at && key[|key| - 1] == n.name;
    }
    assert EntryAt(nodes, key).None?;
    EntryInView(nodes, key);
    var m := View(nodes)[key := EntryOf(n)];
    forall cs: seq<cstring> ensures EntryAt(next, cs) == if cs in m then Some(m[cs]) else None {
      EntryAdded(nodes, next, i, n, at, cs);
      EntryInView(nodes, cs);
    }
    ViewIs(next, m);
  }

  /** Slot `i` holds a childless node, and is zeroed in `next`. */
  ghost predicate Removed(nodes: Nodes, next: Nodes, i: nat) {
    && Tree(nodes) && 0 < i < |nodes| && nodes[i].used && next == nodes[i := ZERO_NODE]
    && !HasChildren(nodes, i)
  }

  lemma RemovedIsTree(nodes: Nodes, next: Nodes, i: nat)
    requires Removed(nodes, next, i)
    ensures Tree(next)
  {
    var depth :| Depths(nodes, depth);
    assert Depths(next, depth);
    forall j | 0 < j < |next| ensures LinkOk(next, j) {
      assert LinkOk(nodes, j);
    }
    forall j, k | 0 < j < k < |next| ensures !Siblings(next, j, k) {
      assert !Siblings(nodes, j, k);
    }
  }

  lemma ChildRemoved(nodes: Nodes, next: Nodes, i: nat, p: nat, c: cstring)
    requires Removed(nodes, next, i) && Tree(next)
    ensures Child(next, p, c, 0) == if Child(nodes, p, c, 0) == Some(i) then None else Child(nodes, p, c, 0)
  {
    var r := Child(nodes, p, c, 0);
    if r.Some? && r.value != i {
      OnlyChild(next, p, c, r.value);
    } else if Child(next, p, c, 0).Some? {
      OnlyChild(nodes, p, c, Child(next, p, c, 0).value);
    }
  }

  lemma {:induction false} LookupRemoved(nodes: Nodes, next: Nodes, i: nat, cs: seq<cstring>)
    requires Removed(nodes, next, i) && Tree(next)
    ensures Lookup(next, cs) == if Lookup(nodes, cs) == Some(i) then None else Lookup(nodes, cs)
    decreases |cs|
  {
    hide Tree;
    if cs != [] {
      var up, c := cs[..|cs| - 1], cs[|cs| - 1];
      LookupRemoved(nodes, next, i, up);
      if Lookup(nodes, up) == Some(i) {
        assert Child(nodes, i, c, 0).None?;
      } else if Lookup(nodes, up).Some? {
        ChildRemoved(nodes, next, i, Lookup(nodes, up).value, c);
      }
    }
  }

  /** `m` without key `k`. */
  ghost function Without(m: imap<seq<cstring>, Entry>, k: seq<cstring>): imap<seq<cstring>, Entry> {
    imap cs: seq<cstring> | cs in m && cs != k :: m[cs]
  }

  lemma EntryRemoved(nodes: Nodes, next: Nodes, i: nat, at: seq<cstring>, cs: seq<cstring>)
    requires Removed(nodes, next, i) && Tree(next) && Lookup(nodes, at) == Some(i)
    ensures EntryAt(next, cs) == if cs == at then None else EntryAt(nodes, cs)
  {
    LookupRemoved(nodes, next, i, cs);
    if Lookup(nodes, cs) == Some(i) {
      LookupInjective(nodes, cs, at);
    }
  }

  /** Removing a childless node removes one key. */
  lemma ViewRemoved(nodes: Nodes, next: Nodes, i: nat, at: seq<cstring>)
    requires Removed(nodes, next, i) && Lookup(nodes, at) == Some(i)
    ensures Tree(next) && View(next) == Without(View(nodes), at)
  {
    RemovedIsTree(nodes, next, i);
    var m := Without(View(nodes), at);
    forall cs: seq<cstring> ensures EntryAt(next, cs) == if cs in m then Some(m[cs]) else None {
      EntryRemoved(nodes, next, i, at, cs);
      EntryInView(nodes, cs);
    }
    ViewIs(next, m);
  }

  /** Slot `i` holds a file whose contents change. */
  ghost predicate Rewritten(nodes: Nodes, next: Nodes, i: nat, n: Node) {
    && Tree(nodes) && 0 < i < |nodes| && nodes[i].used && nodes[i].kind == File
    && n == nodes[i].(size := n.size, data := n.data) && DataOk(n) && next == nodes[i := n]
  }

  lemma RewrittenIsTree(nodes: Nodes, next: Nodes, i: nat, n: Node)
    requires Rewritten(nodes, next, i, n)
    ensures Tree(next)
  {
    var depth :| Depths(nodes, depth);
    assert Depths(next, depth);
    forall j | 0 < j < |next| ensures LinkOk(next, j) {
      assert LinkOk(nodes, j);
    }
    forall j, k | 0 < j < k < |next| ensures !Siblings(next, j, k) {
      assert !Siblings(nodes, j, k);
    }
  }

  lemma ChildRewritten(nodes: Nodes, next: Nodes, i: nat, n: Node, p: nat, c: cstring)
    requires Rewritten(nodes, next, i, n) && Tree(next)
    ensures Child(next, p, c, 0) == Child(nodes, p, c, 0)
  {
    if Child(nodes, p, c, 0).Some? {
      OnlyChild(next, p, c, Child(nodes, p, c, 0).value);
    }
  }

  lemma {:induction false} LookupRewritten(nodes: Nodes, next: Nodes, i: nat, n: Node, cs: seq<cstring>)
    requires Rewritten(nodes, next, i, n) && Tree(next)
    ensures Lookup(next, cs) == Lookup(nodes, cs)
    decreases |cs|
  {
    hide Tree;
    if cs != [] {
      var up, c := cs[..|cs| - 1], cs[|cs| - 1];
      LookupRewritten(nodes, next, i, n, up);
      if Lookup(nodes, up).Some? {
        ChildRewritten(nodes, next, i, n, Lookup(nodes, up).value, c);
      }
    }
  }

  lemma EntryRewritten(nodes: Nodes, next: Nodes, i: nat, n: Node, at: seq<cstring>, cs: seq<cstring>)
    requires Rewritten(nodes, next, i, n) && Tree(next) && Lookup(nodes, at) == Some(i)
    ensures EntryAt(next, cs) == if cs == at then Some(EntryOf(n)) else EntryAt(nodes, cs)
  {
    LookupRewritten(nodes, next, i, n, cs);
    if Lookup(nodes, cs) == Some(i) {
      LookupInjective(nodes, cs, at);
    }
  }

  /** Writing a file changes the map at its path only. */
  lemma ViewRewritten(nodes: Nodes, next: Nodes, i: nat, n: Node, at: seq<cstring>)
    requires Rewritten(nodes, next, i, n) && Lookup(nodes, at) == Some(i)
    ensures Tree(next) && View(next) == View(nodes)[at := EntryOf(n)]
  {
    RewrittenIsTree(nodes, next, i, n);
    var m := View(nodes)[at := EntryOf(n)];
    forall cs: seq<cstring> ensures EntryAt(next, cs) == if cs in m then Some(m[cs]) else None {
      EntryRewritten(nodes, next, i, n, at, cs);
      EntryInView(nodes, cs);
    }
    ViewIs(next, m);
  }
}
