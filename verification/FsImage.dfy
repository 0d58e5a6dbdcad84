/** The persistent image: `struct pfs_image` in bytes, and its blocks on the device. */
module FsImage {
  import opened CTypes
  import opened FsPath
  import opened FsTree

  const PFS_MAGIC: word := 0x50465331
  const BLOCK_SIZE := 512
  /** `sizeof(struct fs_node)`. */
  const NODE_SIZE := 544

  // ----- integers in memory -----

  function ToWord(x: int): word
    requires -0x8000_0000 <= x < 0x8000_0000
  {
    if x >= 0 then x else x + 0x1_0000_0000
  }

  function ToInt(w: word): int {
    if w < 0x8000_0000 then w else w - 0x1_0000_0000
  }

  // ----- nodes -----

  /** The node's fields fit their C types. */
  predicate Storable(n: Node) {
    |n.name| < FS_NAME_MAX && -0x8000_0000 <= n.parent < 0x8000_0000 && n.size < 0x1_0000_0000 && |n.data| == FS_FILE_MAX_SIZE
  }

  function KindCode(k: Kind): word {
    match k case NoType => 0 case File => 1 case Dir => 2
  }

  function KindOf(w: word): Kind {
    if w == 1 then File else if w == 2 then Dir else NoType
  }

  function NodeBytes(n: Node): (b: seq<byte>)
    requires Storable(n)
    ensures |b| == NODE_SIZE
  {
    StoreWord(if n.used then 1 else 0) + StoreWord(KindCode(n.kind)) + StoreWord(ToWord(n.parent))
    + (n.name + Zeros(FS_NAME_MAX - |n.name|)) + StoreWord(n.size) + n.data
  }

  function ParseNode(b: seq<byte>): Node
    requires |b| == NODE_SIZE
  {
    Node(LoadWord(b[0..4]) != 0, KindOf(LoadWord(b[4..8])), ToInt(LoadWord(b[8..12])), CString(b[12..28]),
         LoadWord(b[28..32]), b[32..])
  }

  lemma ParseStoredNode(n: Node)
    requires Storable(n)
    ensures ParseNode(NodeBytes(n)) == n
  {
    hide StoreWord, LoadWord, CString, Zeros;
    var b := NodeBytes(n);
    LoadStoredWord(if n.used then 1 else 0);
    LoadStoredWord(KindCode(n.kind));
    LoadStoredWord(ToWord(n.parent));
    LoadStoredWord(n.size);
    CStringOfPadded(n.name, FS_NAME_MAX - |n.name|);
    assert b[0..4] == StoreWord(if n.used then 1 else 0);
    assert b[4..8] == StoreWord(KindCode(n.kind));
    assert b[8..12] == StoreWord(ToWord(n.parent));
    assert b[12..28] == n.name + Zeros(FS_NAME_MAX - |n.name|);
    assert b[28..32] == StoreWord(n.size);
    assert b[32..] == n.data;
  }

  ghost predicate AllStorable(nodes: Nodes) {
    forall i :: 0 <= i < |nodes| ==> Storable(nodes[i])
  }

  function NodesBytes(nodes: Nodes): (b: seq<byte>)
    requires AllStorable(nodes)
    ensures |b| == NODE_SIZE * |nodes|
  {
    if nodes == [] then [] else NodesBytes(nodes[..|nodes| - 1]) + NodeBytes(nodes[|nodes| - 1])
  }

  lemma SliceOfPrefix<T>(a: seq<T>, b: seq<T>, i: nat, j: nat)
    requires i <= j <= |a|
    ensures (a + b)[i..j] == a[i..j]
  {
  }

  lemma {:induction false} NodeAt(nodes: Nodes, k: nat)
    requires AllStorable(nodes) && k < |nodes|
    ensures NodesBytes(nodes)[NODE_SIZE * k..NODE_SIZE * k + NODE_SIZE] == NodeBytes(nodes[k])
  {
    hide NodeBytes;
    if k < |nodes| - 1 {
      NodeAt(nodes[..|nodes| - 1], k);
      var init := NodesBytes(nodes[..|nodes| - 1]);
      assert NODE_SIZE * k + NODE_SIZE <= |init|;
      SliceOfPrefix(init, NodeBytes(nodes[|nodes| - 1]), NODE_SIZE * k, NODE_SIZE * k + NODE_SIZE);
    }
  }

  /** `struct pfs_image` for an array of nodes. */
  function ImageBytes(nodes: Nodes): (b: seq<byte>)
    requires AllStorable(nodes)
    ensures |b| == ImageSize(|nodes|)
  {
    StoreWord(PFS_MAGIC) + NodesBytes(nodes)
  }

  function ImageSize(n: nat): nat {
    4 + NODE_SIZE * n
  }

  function ParseNodes(b: seq<byte>, n: nat): (nodes: Nodes)
    requires |b| == NODE_SIZE * n
    ensures |nodes| == n
  {
    seq(n, k requires 0 <= k < n => ParseNode(b[NODE_SIZE * k..NODE_SIZE * k + NODE_SIZE]))
  }

  /** The formatted array: a root directory and nothing else. */
  function Formatted(n: nat): (nodes: Nodes)
    ensures |nodes| == n
  {
    seq(n, i => if i == 0 then ZERO_NODE.(used := true, kind := Dir, parent := -1, name := [SLASH]) else ZERO_NODE)
  }

  /** What `nodefs_init_instance` makes of an image: its nodes, or a fresh format. */
  function NodesOfImage(image: seq<byte>, n: nat): (nodes: Nodes)
    requires |image| == ImageSize(n)
    ensures |nodes| == n
  {
    if LoadWord(image[..4]) != PFS_MAGIC then Formatted(n)
    else
      var nodes := ParseNodes(image[4..], n);
      if n > 0 && nodes[0].used && nodes[0].kind == Dir then nodes else Formatted(n)
  }

  lemma NodesOfStoredImage(nodes: Nodes)
    requires AllStorable(nodes) && |nodes| > 0 && nodes[0].used && nodes[0].kind == Dir
    ensures NodesOfImage(ImageBytes(nodes), |nodes|) == nodes
  {
    hide StoreWord, LoadWord, NodesBytes, ParseNode, NodeBytes;
    var image := ImageBytes(nodes);
    LoadStoredWord(PFS_MAGIC);
    assert image[..4] == StoreWord(PFS_MAGIC) && image[4..] == NodesBytes(nodes);
    forall k | 0 <= k < |nodes| ensures ParseNodes(image[4..], |nodes|)[k] == nodes[k] {
      NodeAt(nodes, k);
      ParseStoredNode(nodes[k]);
    }
  }

  // ----- blocks -----

  type Block = b: seq<byte> | |b| == 512 witness Zeros(512)

  /** `pfs_block_count`. */
  function BlockCount(size: nat): nat {
    (size + BLOCK_SIZE - 1) / BLOCK_SIZE
  }

  /** Block `i` of an image, zero-padded at the end. */
  function ImageBlock(image: seq<byte>, i: nat): (b: Block)
    requires i < BlockCount(|image|)
    ensures forall k :: 0 <= k < BLOCK_SIZE ==> b[k] == if i * BLOCK_SIZE + k < |image| then image[i * BLOCK_SIZE + k] else 0
  {
    var rest := image[i * BLOCK_SIZE..];
    if |rest| > BLOCK_SIZE then rest[..BLOCK_SIZE] else rest + Zeros(BLOCK_SIZE - |rest|)
  }

  /** The device after the first `k` blocks of an image were written over `before`. */
  function Written(image: seq<byte>, before: seq<Block>, k: nat): (blocks: seq<Block>)
    requires k <= BlockCount(|image|) && k <= |before|
    ensures |blocks| == |before|
  {
    seq(|before|, i requires 0 <= i < |before| => if i < k then ImageBlock(image, i) else before[i])
  }

  /** The first `size` bytes of the device. */
  function ReadBack(blocks: seq<Block>, size: nat): (b: seq<byte>)
    requires BlockCount(size) <= |blocks|
    ensures |b| == size
  {
    seq(size, i requires 0 <= i < size => blocks[i / BLOCK_SIZE][i % BLOCK_SIZE])
  }

  lemma ReadBackWritten(image: seq<byte>, before: seq<Block>)
    requires BlockCount(|image|) <= |before|
    ensures ReadBack(Written(image, before, BlockCount(|image|)), |image|) == image
  {
    var blocks := Written(image, before, BlockCount(|image|));
    forall i | 0 <= i < |image| ensures ReadBack(blocks, |image|)[i] == image[i] {
      assert i == i / BLOCK_SIZE * BLOCK_SIZE + i % BLOCK_SIZE;
    }
  }

  /** What a boot finds on a device. */
  function BootNodes(blocks: seq<Block>, n: nat): Nodes
    requires BlockCount(ImageSize(n)) <= |blocks|
  {
    NodesOfImage(ReadBack(blocks, ImageSize(n)), n)
  }

  /** A completed sync survives a reboot, for every node array with a root directory. */
  lemma SyncSurvives(nodes: Nodes, before: seq<Block>)
    requires AllStorable(nodes) && |nodes| > 0 && nodes[0].used && nodes[0].kind == Dir
    requires BlockCount(ImageSize(|nodes|)) <= |before|
    ensures var image := ImageBytes(nodes);
      BootNodes(Written(image, before, BlockCount(|image|)), |nodes|) == nodes
  {
    hide ImageBytes, NodesOfImage;
    ReadBackWritten(ImageBytes(nodes), before);
    NodesOfStoredImage(nodes);
  }

  /** A sync cut short leaves new blocks up to some point and old ones after; the rest of the device never changes. */
  lemma CutSync(image: seq<byte>, before: seq<Block>, k: nat, i: nat)
    requires k <= BlockCount(|image|) <= |before| && i < |before|
    ensures Written(image, before, k)[i] == if i < k then Written(image, before, BlockCount(|image|))[i] else before[i]
    ensures i >= BlockCount(|image|) ==> Written(image, before, k)[i] == before[i]
  {
  }

  lemma CutByte(image: seq<byte>, before: seq<Block>, k: nat, i: nat)
    requires k <= BlockCount(|image|) <= |before| && i < |image|
    ensures ReadBack(Written(image, before, k), |image|)[i] ==
      if i < BLOCK_SIZE * k then image[i] else ReadBack(before, |image|)[i]
  {
    hide ImageBlock;
    CutSync(image, before, k, i / BLOCK_SIZE);
    ReadBackWritten(image, before);
    assert i < BLOCK_SIZE * k <==> i / BLOCK_SIZE < k;
    assert ReadBack(Written(image, before, BlockCount(|image|)), |image|)[i] == image[i];
  }

  /** A stretch of the device on one side of the cut. */
  lemma CutSlice(image: seq<byte>, before: seq<Block>, k: nat, i: nat, j: nat)
    requires k <= BlockCount(|image|) <= |before| && i <= j <= |image|
    ensures var found := ReadBack(Written(image, before, k), |image|);
      && (j <= BLOCK_SIZE * k ==> found[i..j] == image[i..j])
      && (BLOCK_SIZE * k <= i ==> found[i..j] == ReadBack(before, |image|)[i..j])
  {
    hide ReadBack, Written;
    forall x: nat | i <= x < j
      ensures ReadBack(Written(image, before, k), |image|)[x] ==
        if x < BLOCK_SIZE * k then image[x] else ReadBack(before, |image|)[x]
    {
      CutByte(image, before, k, x);
    }
  }

  /** The node that the end of block `k - 1` may split. */
  function TornNode(k: nat): nat {
    if k == 0 then 0 else (BLOCK_SIZE * k - 4) / NODE_SIZE
  }

  lemma NodeSides(k: nat, j: nat)
    ensures j < TornNode(k) ==> 4 + NODE_SIZE * j + NODE_SIZE <= BLOCK_SIZE * k
    ensures j > TornNode(k) ==> BLOCK_SIZE * k <= 4 + NODE_SIZE * j
  {
  }

  lemma NodeInImage(nodes: Nodes, j: nat)
    requires AllStorable(nodes) && j < |nodes|
    ensures 4 + NODE_SIZE * j + NODE_SIZE <= |ImageBytes(nodes)|
    ensures ImageBytes(nodes)[4 + NODE_SIZE * j..4 + NODE_SIZE * j + NODE_SIZE] == NodeBytes(nodes[j])
    ensures ImageBytes(nodes)[..4] == StoreWord(PFS_MAGIC)
  {
    hide NodeBytes, NodesBytes, StoreWord;
    NodeAt(nodes, j);
    var image := ImageBytes(nodes);
    assert image[4..] == NodesBytes(nodes);
    assert image[4 + NODE_SIZE * j..4 + NODE_SIZE * j + NODE_SIZE] == image[4..][NODE_SIZE * j..NODE_SIZE * j + NODE_SIZE];
  }

  /** The root's header lies in the first block, so it is never torn. */
  lemma RootHeader(a: seq<byte>, b: seq<byte>)
    requires |a| == |b| == NODE_SIZE && a[..12] == b[..12]
    ensures ParseNode(a).used == ParseNode(b).used && ParseNode(a).kind == ParseNode(b).kind
  {
    hide LoadWord, CString;
    assert a[0..4] == a[..12][0..4] && a[4..8] == a[..12][4..8];
    assert b[0..4] == b[..12][0..4] && b[4..8] == b[..12][4..8];
  }

  /**
   What a reboot finds after a sync of `nodes` over a device that held `held` was
   cut short: new nodes, then old ones, and at most one in between that is neither.
   */
  lemma CutBoot(held: Nodes, nodes: Nodes, before: seq<Block>, k: nat, j: nat)
    requires AllStorable(held) && AllStorable(nodes) && |held| == |nodes| && j < |nodes|
    requires nodes[0].used && nodes[0].kind == Dir && held[0].used && held[0].kind == Dir
    requires k <= BlockCount(ImageSize(|nodes|)) <= |before| && ReadBack(before, ImageSize(|nodes|)) == ImageBytes(held)
    ensures var found := BootNodes(Written(ImageBytes(nodes), before, k), |nodes|);
      && |found| == |nodes|
      && (j < TornNode(k) ==> found[j] == nodes[j])
      && (j > TornNode(k) ==> found[j] == held[j])
  {
    hide ReadBack, Written, ImageBytes, NodeBytes, StoreWord, LoadWord, ParseNode, BlockCount;
    var n, image := |nodes|, ImageBytes(nodes);
    var found := ReadBack(Written(image, before, k), |image|);
    CutMagic(held, nodes, before, k);
    CutRoot(held, nodes, before, k);
    assert found[4..][0..NODE_SIZE] == found[4..4 + NODE_SIZE];
    CutSlice(image, before, k, 4 + NODE_SIZE * j, 4 + NODE_SIZE * j + NODE_SIZE);
    assert found[4..][NODE_SIZE * j..NODE_SIZE * j + NODE_SIZE] == found[4 + NODE_SIZE * j..4 + NODE_SIZE * j + NODE_SIZE];
    NodeSides(k, j);
    NodeInImage(nodes, j);
    NodeInImage(held, j);
    ParseStoredNode(nodes[j]);
    ParseStoredNode(held[j]);
  }

  lemma CutMagic(held: Nodes, nodes: Nodes, before: seq<Block>, k: nat)
    requires AllStorable(held) && AllStorable(nodes) && |held| == |nodes| > 0
    requires k <= BlockCount(ImageSize(|nodes|)) <= |before| && ReadBack(before, ImageSize(|nodes|)) == ImageBytes(held)
    ensures LoadWord(ReadBack(Written(ImageBytes(nodes), before, k), ImageSize(|nodes|))[..4]) == PFS_MAGIC
  {
    hide ReadBack, Written, ImageBytes, NodeBytes, StoreWord, LoadWord, BlockCount;
    var image := ImageBytes(nodes);
    CutSlice(image, before, k, 0, 4);
    assert image[..4] == image[0..4] && ImageBytes(held)[..4] == ImageBytes(held)[0..4];
    NodeInImage(nodes, 0);
    NodeInImage(held, 0);
    LoadStoredWord(PFS_MAGIC);
  }

  lemma CutRoot(held: Nodes, nodes: Nodes, before: seq<Block>, k: nat)
    requires AllStorable(held) && AllStorable(nodes) && |held| == |nodes| > 0
    requires nodes[0].used && nodes[0].kind == Dir && held[0].used && held[0].kind == Dir
    requires k <= BlockCount(ImageSize(|nodes|)) <= |before| && ReadBack(before, ImageSize(|nodes|)) == ImageBytes(held)
    ensures var root := ParseNode(ReadBack(Written(ImageBytes(nodes), before, k), ImageSize(|nodes|))[4..4 + NODE_SIZE]);
      root.used && root.kind == Dir
  {
    hide ReadBack, Written, ImageBytes, NodeBytes, ParseNode, BlockCount;
    var image := ImageBytes(nodes);
    var found := ReadBack(Written(image, before, k), |image|);
    CutSlice(image, before, k, 4, 16);
    NodeInImage(nodes, 0);
    NodeInImage(held, 0);
    ParseStoredNode(nodes[0]);
    ParseStoredNode(held[0]);
    var root := found[4..4 + NODE_SIZE];
    assert root[..12] == found[4..16];
    if k > 0 {
      assert NodeBytes(nodes[0])[..12] == image[4..16];
      RootHeader(root, NodeBytes(nodes[0]));
    } else {
      assert NodeBytes(held[0])[..12] == ImageBytes(held)[4..16];
      RootHeader(root, NodeBytes(held[0]));
    }
  }

  /** Trees of bounded size can always be stored. */
  lemma TreesAreStorable(nodes: Nodes)
    requires Tree(nodes) && |nodes| < 0x8000_0000
    requires forall i :: 0 <= i < |nodes| && !nodes[i].used ==> nodes[i] == ZERO_NODE
    requires |nodes[0].name| < FS_NAME_MAX
    ensures AllStorable(nodes)
  {
    forall i | 0 <= i < |nodes| ensures Storable(nodes[i]) {
      assert DataOk(nodes[i]);
      if i > 0 {
        assert LinkOk(nodes, i);
      }
    }
  }

  /** The repository's image of 128 nodes takes 137 blocks of the 256 there are. */
  lemma ImageFits()
    ensures BlockCount(ImageSize(128)) == 137
  {
  }

  // ----- the device -----

  class Disk {
    var blocks: seq<Block>

    constructor (blocks: seq<Block>)
      ensures this.blocks == blocks
    {
      this.blocks := blocks;
    }

    /** `blockdev_write`; a write that fails leaves the block as it was. */
    method WriteBlock(i: nat, b: Block) returns (ok: bool)
      requires i < |blocks|
      modifies this
      ensures blocks == if ok then old(blocks)[i := b] else old(blocks)
    {
      ok := *;
      if ok {
        blocks := blocks[i := b];
      }
    }

    /** `blockdev_read`. */
    method ReadBlock(i: nat) returns (ok: bool, b: Block)
      requires i < |blocks|
      ensures ok ==> b == blocks[i]
    {
      ok := *;
      b := if ok then blocks[i] else Zeros(BLOCK_SIZE);
    }
  }
}
