/** What each nodefs operation does to the node array, and what that means for the map. */
module FsOps {
  import opened CTypes
  import opened FsPath
  import opened FsTree

  const O_RDONLY := 1
  const O_WRONLY := 2
  const O_CREAT := 16
  const O_TRUNC := 32

  // ----- structure -----

  /** `nodefs_resolve_parent_and_leaf`: the directory to work in and the last name. */
  function ParentLeaf(nodes: Nodes, path: cstring): (r: Option<(nat, cstring)>)
    requires |nodes| > 0
    ensures r.Some? ==> r.value.0 < |nodes|
  {
    var cs := Components(path);
    if !Absolute(path) || cs == [] || |cs[|cs| - 1]| >= FS_NAME_MAX then None
    else
      match Lookup(nodes, cs[..|cs| - 1])
      case None => None
      case Some(p) => if nodes[p].kind == Dir then Some((p, cs[|cs| - 1])) else None
  }

  function NewNode(kind: Kind, parent: nat, name: cstring): Node {
    Node(true, kind, parent, name, 0, Zeros(FS_FILE_MAX_SIZE))
  }

  /** The create half of `nodefs_open`, and `nodefs_mkdir`: the new array and the new slot. */
  function Create(nodes: Nodes, path: cstring, kind: Kind): (r: Option<(Nodes, nat)>)
    requires |nodes| > 0
    ensures r.Some? ==> |r.value.0| == |nodes| && 0 < r.value.1 < |nodes|
  {
    match ParentLeaf(nodes, path)
    case None => None
    case Some((p, leaf)) =>
      if Child(nodes, p, leaf, 0).Some? then None
      else
        match FreeNode(nodes, 1)
        case None => None
        case Some(i) => Some((nodes[i := NewNode(kind, p, leaf)], i))
  }

  function Truncated(n: Node): Node {
    n.(size := 0, data := Zeros(FS_FILE_MAX_SIZE))
  }

  /** `nodefs_open` when the disk does not fail: the new array and the opened node. */
  function Open(nodes: Nodes, path: cstring, flags: nat): (r: (Nodes, Option<nat>))
    requires |nodes| > 0
    ensures |r.0| == |nodes|
    ensures r.1.Some? ==> r.1.value < |nodes|
    ensures r.1.None? ==> r.0 == nodes
  {
    match Resolve(nodes, path)
    case Some(i) =>
      if nodes[i].kind != File then (nodes, None)
      else if Bit(flags, O_TRUNC) && Bit(flags, O_WRONLY) then (nodes[i := Truncated(nodes[i])], Some(i))
      else (nodes, Some(i))
    case None =>
      if !Bit(flags, O_CREAT) then (nodes, None)
      else
        match Create(nodes, path, File)
        case None => (nodes, None)
        case Some((next, i)) => (next, Some(i))
  }

  /** `nodefs_unlink`; `busy` says which nodes have open descriptors. */
  function Unlink(nodes: Nodes, path: cstring, busy: nat -> bool): (r: Option<Nodes>)
    requires |nodes| > 0
    ensures r.Some? ==> |r.value| == |nodes|
  {
    match Resolve(nodes, path)
    case None => None
    case Some(i) => if i == 0 || nodes[i].kind != File || busy(i) then None else Some(nodes[i := ZERO_NODE])
  }

  function Rmdir(nodes: Nodes, path: cstring): (r: Option<Nodes>)
    requires |nodes| > 0
    ensures r.Some? ==> |r.value| == |nodes|
  {
    match Resolve(nodes, path)
    case None => None
    case Some(i) => if i == 0 || nodes[i].kind != Dir || HasChildren(nodes, i) then None else Some(nodes[i := ZERO_NODE])
  }

  // ----- refinement -----

  /** A new entry may go at `cs`: its parent is a directory and its name fits. */
  ghost predicate CanHold(view: imap<seq<cstring>, Entry>, cs: seq<cstring>) {
    && cs != [] && |cs[|cs| - 1]| < FS_NAME_MAX
    && cs[..|cs| - 1] in view && view[cs[..|cs| - 1]] == Directory && cs !in view
  }

  lemma InView(nodes: Nodes, cs: seq<cstring>)
    requires Tree(nodes)
    ensures cs in View(nodes) <==> Lookup(nodes, cs).Some?
    ensures cs in View(nodes) ==>
      && nodes[Lookup(nodes, cs).value].used && DataOk(nodes[Lookup(nodes, cs).value])
      && View(nodes)[cs] == EntryOf(nodes[Lookup(nodes, cs).value])
      && (View(nodes)[cs] == Directory <==> nodes[Lookup(nodes, cs).value].kind == Dir)
  {
    if Lookup(nodes, cs).Some? {
      var i := Lookup(nodes, cs).value;
      assert EntryAt(nodes, cs).Some?;
      LookupUsed(nodes, cs);
      if i > 0 {
        assert LinkOk(nodes, i);
      }
    }
  }

  lemma RootInView(nodes: Nodes)
    requires Tree(nodes)
    ensures |nodes| > 0 && [] in View(nodes) && View(nodes)[[]] == Directory && Lookup(nodes, []) == Some(0)
  {
    InView(nodes, []);
  }

  /**
   Creating a file or directory succeeds exactly when its parent is a directory,
   its name fits, nothing is there, and a slot is free; it then adds one key.
   */
  lemma CreateRefines(nodes: Nodes, path: cstring, kind: Kind)
    requires Tree(nodes) && kind != NoType
    ensures var cs, r := Components(path), Create(nodes, path, kind);
      && (r.Some? <==> Absolute(path) && CanHold(View(nodes), cs) && FreeNode(nodes, 1).Some?)
      && (r.Some? ==>
            && Tree(r.value.0) && !nodes[r.value.1].used && Lookup(r.value.0, cs) == Some(r.value.1)
            && r.value.0[r.value.1].kind == kind && r.value.0[r.value.1].used
            && (forall j :: 0 <= j < |nodes| && j != r.value.1 ==> r.value.0[j] == nodes[j])
            && View(r.value.0) == View(nodes)[cs := if kind == File then Contents([]) else Directory])
  {
    hide Tree, View, Added, Lookup, ComponentsFrom, EntryOf;
    var cs := Components(path);
    RootInView(nodes);
    LookupSnoc(nodes, cs);
    if cs != [] {
      var up, leaf := cs[..|cs| - 1], cs[|cs| - 1];
      assert cs == up + [leaf];
      InView(nodes, up);
      InView(nodes, cs);
      ComponentsAreNames(path, 0);
      var r := Create(nodes, path, kind);
      if r.Some? {
        var (next, i) := r.value;
        CreateAdds(nodes, next, i, kind, Lookup(nodes, up).value, leaf);
        ViewAdded(nodes, next, i, next[i], up);
        LookupAdded(nodes, next, i, next[i], up, cs);
      }
    }
  }

  lemma CreateAdds(nodes: Nodes, next: Nodes, i: nat, kind: Kind, p: nat, leaf: cstring)
    requires Tree(nodes) && 0 < i < |nodes| && !nodes[i].used && p < |nodes| && nodes[p].used && nodes[p].kind == Dir
    requires kind != NoType && GoodName(leaf) && Child(nodes, p, leaf, 0).None? && next == nodes[i := NewNode(kind, p, leaf)]
    ensures Added(nodes, next, i, next[i])
    ensures EntryOf(next[i]) == if kind == File then Contents([]) else Directory
  {
  }

  /**
   Opening succeeds exactly for an existing file, or with O_CREAT where a file
   may be created; it adds an empty file, empties the file, or changes nothing.
   */
  lemma OpenRefines(nodes: Nodes, path: cstring, flags: nat)
    requires Tree(nodes)
    ensures var cs, view := Components(path), View(nodes);
      var (next, r) := Open(nodes, path, flags);
      && (r.Some? <==>
            Absolute(path) &&
            if cs in view then view[cs].Contents?
            else Bit(flags, O_CREAT) && CanHold(view, cs) && FreeNode(nodes, 1).Some?)
      && Tree(next)
      && (r.Some? ==> 0 < r.value && next[r.value].used && next[r.value].kind == File && Lookup(next, cs) == Some(r.value))
      && (var emptied := r.Some? && (cs !in view || (Bit(flags, O_TRUNC) && Bit(flags, O_WRONLY)));
          View(next) == if emptied then view[cs := Contents([])] else view)
  {
    hide Tree, View, DataOk;
    var cs := Components(path);
    CreateRefines(nodes, path, File);
    InView(nodes, cs);
    RootInView(nodes);
    var found := Resolve(nodes, path);
    if found.Some? && nodes[found.value].kind == File {
      TruncateRefines(nodes, found.value, cs);
    }
  }

  /**
   When an open changes the map, whether or not a descriptor is left for it:
   exactly if it creates a file or empties one that had contents.
   */
  lemma OpenChangesMapIff(nodes: Nodes, path: cstring, flags: nat)
    requires Tree(nodes)
    ensures var cs, view, next := Components(path), View(nodes), Open(nodes, path, flags).0;
      && Tree(next)
      && (View(next) != view <==>
            Absolute(path) &&
            if cs in view then view[cs].Contents? && view[cs] != Contents([]) && Bit(flags, O_TRUNC) && Bit(flags, O_WRONLY)
            else Bit(flags, O_CREAT) && CanHold(view, cs) && FreeNode(nodes, 1).Some?)
  {
    hide Tree, View, Open, CanHold, Bit;
    OpenRefines(nodes, path, flags);
    var cs, view := Components(path), View(nodes);
    if cs in view {
      assert cs in view[cs := Contents([])] && view[cs := Contents([])][cs] == Contents([]);
      assert view[cs] == Contents([]) ==> view[cs := Contents([])] == view;
    } else {
      assert cs in view[cs := Contents([])];
    }
  }

  lemma TruncateRefines(nodes: Nodes, i: nat, cs: seq<cstring>)
    requires Tree(nodes) && Lookup(nodes, cs) == Some(i) && nodes[i].kind == File
    ensures 0 < i && nodes[i].used
    ensures var next := nodes[i := Truncated(nodes[i])];
      Tree(next) && View(next) == View(nodes)[cs := Contents([])] && Lookup(next, cs) == Some(i)
  {
    LookupUsed(nodes, cs);
    var n := Truncated(nodes[i]);
    var next := nodes[i := n];
    ViewRewritten(nodes, next, i, n, cs);
    LookupRewritten(nodes, next, i, n, cs);
  }

  /** Unlink removes one key, a file without open descriptors. */
  lemma UnlinkRefines(nodes: Nodes, path: cstring, busy: nat -> bool)
    requires Tree(nodes)
    ensures var cs, view, r := Components(path), View(nodes), Unlink(nodes, path, busy);
      && (r.Some? <==> Absolute(path) && cs in view && view[cs].Contents? && !busy(Lookup(nodes, cs).value))
      && (r.Some? ==> Tree(r.value) && View(r.value) == Without(view, cs))
  {
    var cs := Components(path);
    InView(nodes, cs);
    RootInView(nodes);
    if Unlink(nodes, path, busy).Some? {
      var i := Lookup(nodes, cs).value;
      FilesHaveNoChildren(nodes, i);
      ViewRemoved(nodes, Unlink(nodes, path, busy).value, i, cs);
    }
  }

  lemma FilesHaveNoChildren(nodes: Nodes, i: nat)
    requires Tree(nodes) && i < |nodes| && nodes[i].kind == File
    ensures !HasChildren(nodes, i)
  {
    forall j | 0 <= j < |nodes| && nodes[j].used ensures nodes[j].parent != i {
      if j > 0 {
        assert LinkOk(nodes, j);
      }
    }
  }

  /** Rmdir removes one key, a directory with nothing below it. */
  lemma RmdirRefines(nodes: Nodes, path: cstring)
    requires Tree(nodes)
    ensures var cs, view, r := Components(path), View(nodes), Rmdir(nodes, path);
      && (r.Some? <==> Absolute(path) && cs != [] && cs in view && view[cs] == Directory && forall c: cstring :: cs + [c] !in view)
      && (r.Some? ==> Tree(r.value) && View(r.value) == Without(view, cs))
  {
    var cs := Components(path);
    InView(nodes, cs);
    if Lookup(nodes, cs).Some? {
      var i := Lookup(nodes, cs).value;
      LookupUsed(nodes, cs);
      ChildrenAreKeys(nodes, i, cs);
      if Rmdir(nodes, path).Some? {
        ViewRemoved(nodes, Rmdir(nodes, path).value, i, cs);
      }
    }
  }

  lemma ChildrenAreKeys(nodes: Nodes, i: nat, cs: seq<cstring>)
    requires Tree(nodes) && Lookup(nodes, cs) == Some(i)
    ensures HasChildren(nodes, i) <==> exists c: cstring :: cs + [c] in View(nodes)
  {
    forall c: cstring ensures cs + [c] in View(nodes) <==> Child(nodes, i, c, 0).Some? {
      InView(nodes, cs + [c]);
      assert (cs + [c])[..|cs|] == cs;
    }
    if HasChildren(nodes, i) {
      var j :| 0 <= j < |nodes| && nodes[j].used && nodes[j].parent == i;
      OneChild(nodes, j);
      assert cs + [nodes[j].name] in View(nodes);
    }
    if exists c: cstring :: cs + [c] in View(nodes) {
      var c: cstring :| cs + [c] in View(nodes);
      var j := Child(nodes, i, c, 0).value;
      assert nodes[j].used && nodes[j].parent == i;
    }
  }

  // ----- directory listings -----

  /** The slots of the entries of directory `dir`, in slot order. */
  function Listing(nodes: Nodes, dir: nat, k: nat): (r: seq<nat>)
    requires k <= |nodes|
    decreases |nodes| - k
  {
    if k == |nodes| then []
    else (if nodes[k].used && nodes[k].parent == dir then [k] else []) + Listing(nodes, dir, k + 1)
  }

  predicate Increasing(s: seq<nat>) {
    forall a, b :: 0 <= a < b < |s| ==> s[a] < s[b]
  }

  lemma Prepend(k: nat, rest: seq<nat>, l: seq<nat>)
    requires Increasing(rest) && (forall a :: 0 <= a < |rest| ==> rest[a] > k) && l == [k] + rest
    ensures Increasing(l)
  {
    forall a, b | 0 <= a < b < |l| ensures l[a] < l[b] {
      var y := rest[b - 1];
      assert l[b] == y;
      if a > 0 {
        var x := rest[a - 1];
        assert l[a] == x;
      }
    }
  }

  /** A listing names every entry of the directory once. */
  lemma {:induction false} ListingIsComplete(nodes: Nodes, dir: nat, k: nat)
    requires k <= |nodes|
    ensures forall i :: i in Listing(nodes, dir, k) <==> k <= i < |nodes| && nodes[i].used && nodes[i].parent == dir
    ensures Increasing(Listing(nodes, dir, k))
    decreases |nodes| - k
  {
    hide Listing;
    ListingStep(nodes, dir, k);
    if k < |nodes| {
      ListingIsComplete(nodes, dir, k + 1);
      var rest := Listing(nodes, dir, k + 1);
      forall a | 0 <= a < |rest| ensures rest[a] > k {
        assert rest[a] in rest;
      }
      Prepend(k, rest, [k] + rest);
    }
  }

  lemma ListingStep(nodes: Nodes, dir: nat, k: nat)
    requires k <= |nodes|
    ensures k == |nodes| ==> Listing(nodes, dir, k) == []
    ensures k < |nodes| ==>
      var rest := Listing(nodes, dir, k + 1);
      Listing(nodes, dir, k) == if nodes[k].used && nodes[k].parent == dir then [k] + rest else rest
  {
    if k < |nodes| {
      assert [] + Listing(nodes, dir, k + 1) == Listing(nodes, dir, k + 1);
    }
  }
}
