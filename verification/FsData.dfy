/** File contents: `nodefs_read` and `nodefs_write` on one node, under any number of descriptors. */
module FsData {
  import opened CTypes
  import opened FsTree
  import opened FsOps

  // ----- the reference: a byte string -----

  /** The bytes of a file. */
  function Bytes(n: Node): seq<byte>
    requires n.size <= |n.data|
  {
    n.data[..n.size]
  }

  lemma BytesStretch(n: Node, i: nat, j: nat)
    requires i <= j <= n.size <= |n.data|
    ensures Bytes(n)[i..j] == n.data[i..j]
  {
  }

  /** `c` extended with zeros to at least `n` bytes. */
  function Extend(c: seq<byte>, n: nat): (r: seq<byte>)
    ensures |r| == if |c| < n then n else |c|
  {
    if |c| < n then c + Zeros(n - |c|) else c
  }

  /** Overwrite at an offset: holes are zero-filled and the file grows as needed. */
  function Overwrite(c: seq<byte>, offset: nat, w: seq<byte>): (r: seq<byte>)
    ensures |r| == if |c| < offset + |w| then offset + |w| else |c|
    ensures forall i :: 0 <= i < |r| ==>
      r[i] == if offset <= i < offset + |w| then w[i - offset] else if i < |c| then c[i] else 0
  {
    var e := Extend(c, offset + |w|);
    e[..offset] + w + e[offset + |w|..]
  }

  /** The part of a buffer that still fits the file: all of it, or as much as there is room for. */
  function Fitting(offset: nat, buf: seq<byte>): (w: seq<byte>)
    ensures w <= buf
    ensures |w| == if offset + |buf| <= FS_FILE_MAX_SIZE then |buf|
                   else if offset < FS_FILE_MAX_SIZE then FS_FILE_MAX_SIZE - offset else 0
  {
    if offset >= FS_FILE_MAX_SIZE then []
    else if |buf| > FS_FILE_MAX_SIZE - offset then buf[..FS_FILE_MAX_SIZE - offset]
    else buf
  }

  /** Up to `size` bytes from `offset`. */
  function Slice(c: seq<byte>, offset: nat, size: nat): (r: seq<byte>)
    ensures |r| == if offset + size <= |c| then size else if offset < |c| then |c| - offset else 0
    ensures forall i :: 0 <= i < |r| ==> r[i] == c[offset + i]
  {
    if offset >= |c| then [] else if size > |c| - offset then c[offset..] else c[offset..offset + size]
  }

  /** A write to the byte string: nothing at or past the size limit. */
  function WriteBytes(c: seq<byte>, offset: nat, buf: seq<byte>): seq<byte> {
    if offset >= FS_FILE_MAX_SIZE then c else Overwrite(c, offset, Fitting(offset, buf))
  }

  /**
   `after` has the first `n` bytes of `buf` at `offset`, zeros in a hole before it
   and `before` everywhere else, and `n` is as many as there is room for.
   */
  predicate Stores(before: seq<byte>, after: seq<byte>, offset: nat, buf: seq<byte>, n: nat) {
    && n <= |buf| && (offset + n <= FS_FILE_MAX_SIZE || n == 0)
    && (n < |buf| ==> offset + n >= FS_FILE_MAX_SIZE)
    && |after| == (if offset >= FS_FILE_MAX_SIZE || offset + n <= |before| then |before| else offset + n)
    && forall i :: 0 <= i < |after| ==>
         after[i] == if offset <= i < offset + n then buf[i - offset] else if i < |before| then before[i] else 0
  }

  lemma WriteStores(c: seq<byte>, offset: nat, buf: seq<byte>)
    ensures Stores(c, WriteBytes(c, offset, buf), offset, buf, |Fitting(offset, buf)|)
  {
    hide Overwrite, Fitting;
  }

  lemma OverwriteTwice(c: seq<byte>, offset: nat, a: seq<byte>, b: seq<byte>)
    ensures Overwrite(Overwrite(c, offset, a), offset + |a|, b) == Overwrite(c, offset, a + b)
    ensures Overwrite(Overwrite(c, offset, a), offset + |a|, []) == Overwrite(c, offset, a)
  {
    hide Overwrite;
    var twice, once := Overwrite(Overwrite(c, offset, a), offset + |a|, b), Overwrite(c, offset, a + b);
    assert |twice| == |once|;
    forall i | 0 <= i < |twice| ensures twice[i] == once[i] {
    }
    var same := Overwrite(Overwrite(c, offset, a), offset + |a|, []);
    assert |same| == |Overwrite(c, offset, a)|;
    forall i | 0 <= i < |same| ensures same[i] == Overwrite(c, offset, a)[i] {
    }
  }

  lemma FittingTwice(offset: nat, a: seq<byte>, b: seq<byte>)
    ensures Fitting(offset, a) + Fitting(offset + |Fitting(offset, a)|, b) == Fitting(offset, a + b)
  {
    hide Fitting;
    var v, w, both := Fitting(offset, a), Fitting(offset + |Fitting(offset, a)|, b), Fitting(offset, a + b);
    assert v == a[..|v|] && w == b[..|w|] && both == (a + b)[..|both|];
    assert |v + w| == |both|;
  }

  /** Writing `a` and then `b` behind it is writing `a + b`, also where the limit cuts them. */
  lemma WriteTwice(c: seq<byte>, offset: nat, a: seq<byte>, b: seq<byte>)
    ensures var next := offset + |Fitting(offset, a)|;
      && WriteBytes(WriteBytes(c, offset, a), next, b) == WriteBytes(c, offset, a + b)
      && |Fitting(offset, a)| + |Fitting(next, b)| == |Fitting(offset, a + b)|
  {
    hide Overwrite, Fitting;
    FittingTwice(offset, a, b);
    if offset < FS_FILE_MAX_SIZE {
      OverwriteTwice(c, offset, Fitting(offset, a), Fitting(offset + |Fitting(offset, a)|, b));
    }
  }

  /** What was written is read back. */
  lemma WriteThenRead(c: seq<byte>, offset: nat, buf: seq<byte>)
    ensures Slice(WriteBytes(c, offset, buf), offset, |Fitting(offset, buf)|) == Fitting(offset, buf)
  {
    hide Overwrite, Fitting, Slice;
    var w, got := Fitting(offset, buf), Slice(WriteBytes(c, offset, buf), offset, |Fitting(offset, buf)|);
    assert |got| == |w| && forall i :: 0 <= i < |w| ==> got[i] == w[i];
  }

  /** Reading on from where a read ended is reading more at once. */
  lemma ReadTwice(c: seq<byte>, offset: nat, m: nat, n: nat)
    ensures var got := Slice(c, offset, m);
      got + Slice(c, offset + |got|, n) == Slice(c, offset, m + n)
  {
    hide Slice;
    var got, all := Slice(c, offset, m), Slice(c, offset, m + n);
    var both := got + Slice(c, offset + |got|, n);
    assert |both| == |all| && forall i :: 0 <= i < |all| ==> both[i] == all[i];
  }

  // ----- the node operations -----

  /** `memcpy` into the middle of the data buffer. */
  function Splice(data: seq<byte>, offset: nat, w: seq<byte>): (r: seq<byte>)
    requires offset + |w| <= |data|
    ensures |r| == |data|
    ensures forall i :: 0 <= i < |r| ==> r[i] == if offset <= i < offset + |w| then w[i - offset] else data[i]
  {
    data[..offset] + w + data[offset + |w|..]
  }

  /** `nodefs_write` on the node. */
  function WriteNode(n: Node, offset: nat, buf: seq<byte>): Node
    requires DataOk(n)
  {
    if offset >= FS_FILE_MAX_SIZE then n
    else
      var w := Fitting(offset, buf);
      var end := offset + |w|;
      n.(data := Splice(n.data, offset, w), size := if end > n.size then end else n.size)
  }

  /** A write overwrites at its offset, fills holes with zeros and stops at the size limit. */
  lemma WriteRefines(n: Node, offset: nat, buf: seq<byte>)
    requires DataOk(n)
    ensures var m := WriteNode(n, offset, buf);
      && DataOk(m) && m == n.(size := m.size, data := m.data)
      && Bytes(m) == WriteBytes(Bytes(n), offset, buf)
      && Stores(Bytes(n), Bytes(m), offset, buf, |Fitting(offset, buf)|)
  {
    hide Splice, Overwrite, Fitting;
    WriteStores(Bytes(n), offset, buf);
    if offset < FS_FILE_MAX_SIZE {
      var w := Fitting(offset, buf);
      FittingFits(offset, buf);
      var m := WriteNode(n, offset, buf);
      var expected := Overwrite(Bytes(n), offset, w);
      forall i | 0 <= i < |expected| ensures m.data[i] == expected[i] {
        if i < n.size && !(offset <= i < offset + |w|) {
          assert Bytes(n)[i] == n.data[i];
        }
      }
    }
  }

  lemma FittingFits(offset: nat, buf: seq<byte>)
    ensures offset < FS_FILE_MAX_SIZE ==> offset + |Fitting(offset, buf)| <= FS_FILE_MAX_SIZE
  {
  }

  lemma TruncateNode(n: Node)
    requires DataOk(n)
    ensures DataOk(Truncated(n)) && Bytes(Truncated(n)) == []
  {
  }

  // ----- any interleaving of descriptors -----

  /** One use of a file: through descriptor `d`, or a truncating open. */
  datatype Use = Read(d: nat, size: nat) | Write(d: nat, buf: seq<byte>) | Truncate

  /** A file node with its descriptors' offsets; the reference has the bytes instead of the node. */
  datatype OnNode = OnNode(node: Node, offsets: seq<nat>)
  datatype OnBytes = OnBytes(bytes: seq<byte>, offsets: seq<nat>)

  function UseNode(s: OnNode, u: Use): (r: (OnNode, seq<byte>))
    requires DataOk(s.node)
  {
    match u
    case Truncate => (s.(node := Truncated(s.node)), [])
    case Read(d, size) =>
      if d >= |s.offsets| then (s, [])
      else
        var got := Slice(Bytes(s.node), s.offsets[d], size);
        (s.(offsets := s.offsets[d := s.offsets[d] + |got|]), got)
    case Write(d, buf) =>
      if d >= |s.offsets| then (s, [])
      else
        (OnNode(WriteNode(s.node, s.offsets[d], buf), s.offsets[d := s.offsets[d] + |Fitting(s.offsets[d], buf)|]), [])
  }

  function UseBytes(s: OnBytes, u: Use): (OnBytes, seq<byte>) {
    match u
    case Truncate => (s.(bytes := []), [])
    case Read(d, size) =>
      if d >= |s.offsets| then (s, [])
      else
        var got := Slice(s.bytes, s.offsets[d], size);
        (s.(offsets := s.offsets[d := s.offsets[d] + |got|]), got)
    case Write(d, buf) =>
      if d >= |s.offsets| then (s, [])
      else
        var offset, w := s.offsets[d], Fitting(s.offsets[d], buf);
        (OnBytes(WriteBytes(s.bytes, offset, buf), s.offsets[d := offset + |w|]), [])
  }

  function RunNode(s: OnNode, uses: seq<Use>): (r: (OnNode, seq<seq<byte>>))
    requires DataOk(s.node)
    ensures DataOk(r.0.node)
    decreases |uses|
  {
    if uses == [] then (s, [])
    else
      UseKeepsData(s, uses[0]);
      var (t, got) := UseNode(s, uses[0]);
      var (u, rest) := RunNode(t, uses[1..]);
      (u, [got] + rest)
  }

  function RunBytes(s: OnBytes, uses: seq<Use>): (OnBytes, seq<seq<byte>>)
    decreases |uses|
  {
    if uses == [] then (s, [])
    else
      var (t, got) := UseBytes(s, uses[0]);
      var (u, rest) := RunBytes(t, uses[1..]);
      (u, [got] + rest)
  }

  lemma UseKeepsData(s: OnNode, u: Use)
    requires DataOk(s.node)
    ensures DataOk(UseNode(s, u).0.node)
  {
    UseRefines(s, u);
  }

  ghost function Abstract(s: OnNode): OnBytes
    requires DataOk(s.node)
  {
    OnBytes(Bytes(s.node), s.offsets)
  }

  lemma UseRefines(s: OnNode, u: Use)
    requires DataOk(s.node)
    ensures DataOk(UseNode(s, u).0.node)
    ensures UseBytes(Abstract(s), u) == (Abstract(UseNode(s, u).0), UseNode(s, u).1)
  {
    hide WriteNode, Overwrite, Fitting, Slice;
    match u
    case Read(d, size) =>
    case Truncate => TruncateNode(s.node);
    case Write(d, buf) =>
      if d < |s.offsets| {
        WriteRefines(s.node, s.offsets[d], buf);
      }
  }

  /**
   However reads, writes and truncations through any descriptors interleave, a
   file behaves as a byte string: same bytes, same offsets, same data read.
   */
  lemma {:induction false} FileIsAByteString(s: OnNode, uses: seq<Use>)
    requires DataOk(s.node)
    ensures RunBytes(Abstract(s), uses) == (Abstract(RunNode(s, uses).0), RunNode(s, uses).1)
    decreases |uses|
  {
    hide UseNode, UseBytes, Abstract, DataOk;
    if uses != [] {
      UseRefines(s, uses[0]);
      FileIsAByteString(UseNode(s, uses[0]).0, uses[1..]);
    }
  }
}
