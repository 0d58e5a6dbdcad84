/**
 Sv32 page tables in physical memory.  The reference is the address translation
 process of section 4.3.2 of the RISC-V Privileged Architecture, version 1.12.
 */
module PageTables {
  import opened CTypes

  const PAGE_SIZE := 4096
  const PAGE_V := 1
  const PAGE_R := 2
  const PAGE_W := 4
  const PAGE_X := 8
  const PAGE_U := 16
  /** Virtual and physical page numbers of 32-bit addresses. */
  const VPN_LIMIT := 0x10_0000

  /** The bytes of one 4 KiB frame. */
  type Frame = f: seq<byte> | |f| == 4096 witness Zeros(4096)

  /** Physical memory: frame number to contents. */
  type Mem = map<nat, Frame>

  const ZERO_FRAME: Frame := Zeros(4096)

  // ----- little-endian words of a frame -----

  function ReadWord(f: Frame, k: nat): (w: word)
    requires k < 1024
  {
    LoadWord(f[4 * k..4 * k + 4])
  }

  function WriteWord(f: Frame, k: nat, w: word): Frame
    requires k < 1024
  {
    f[..4 * k] + StoreWord(w) + f[4 * k + 4..]
  }

  lemma ReadAfterWrite(f: Frame, k: nat, w: word, j: nat)
    requires k < 1024 && j < 1024
    ensures ReadWord(WriteWord(f, k, w), j) == if j == k then w else ReadWord(f, j)
  {
    hide LoadWord, StoreWord;
    LoadStoredWord(w);
    var g := WriteWord(f, k, w);
    if j == k {
      assert g[4 * j..4 * j + 4] == StoreWord(w);
    } else {
      assert 4 * j + 4 <= 4 * k || 4 * k + 4 <= 4 * j;
      assert g[4 * j..4 * j + 4] == f[4 * j..4 * j + 4];
    }
  }

  lemma ZeroWords(k: nat)
    requires k < 1024
    ensures ReadWord(ZERO_FRAME, k) == 0
  {
  }

  // ----- page table entries -----

  /** What a leaf entry says: a frame and the low ten flag bits. */
  datatype Mapping = Mapping(ppn: nat, flags: nat)

  /** `flags | PAGE_V`. */
  function WithValid(flags: nat): nat {
    if Bit(flags, PAGE_V) then flags else flags + PAGE_V
  }

  /** `flags & ~PAGE_V`. */
  function WithoutValid(flags: nat): nat {
    if Bit(flags, PAGE_V) then flags - PAGE_V else flags
  }

  /** What `map_page` can store: a frame and ten flag bits, the valid bit among them. */
  predicate LeafMapping(m: Mapping) {
    m.ppn < VPN_LIMIT && m.flags < 1024 && Bit(m.flags, PAGE_V)
  }

  type Leaf = m: Mapping | LeafMapping(m) witness Mapping(0, 1)

  /** The hardware takes such an entry as a leaf if it may be read or executed, and not written without being read. */
  predicate Visible(flags: nat) {
    Bit(flags, PAGE_R) || (Bit(flags, PAGE_X) && !Bit(flags, PAGE_W))
  }

  function Encode(m: Leaf): word {
    m.ppn * 1024 + m.flags
  }

  function Decode(pte: word): Mapping {
    Mapping(pte / 1024, pte % 1024)
  }

  lemma DecodeEncode(m: Leaf)
    ensures Decode(Encode(m)) == m
    ensures Bit(Encode(m), PAGE_V) && Bit(Encode(m), PAGE_R) == Bit(m.flags, PAGE_R)
    ensures Bit(Encode(m), PAGE_W) == Bit(m.flags, PAGE_W) && Bit(Encode(m), PAGE_X) == Bit(m.flags, PAGE_X)
  {
    LowBits(m.ppn, m.flags);
  }

  lemma LowBits(q: nat, r: nat)
    requires r < 1024
    ensures (q * 1024 + r) / 1024 == q && (q * 1024 + r) % 1024 == r
    ensures Bit(q * 1024 + r, PAGE_V) == Bit(r, PAGE_V) && Bit(q * 1024 + r, PAGE_R) == Bit(r, PAGE_R)
    ensures Bit(q * 1024 + r, PAGE_W) == Bit(r, PAGE_W) && Bit(q * 1024 + r, PAGE_X) == Bit(r, PAGE_X)
  {
    EvenPart(q * 512, r);
    assert (q * 1024 + r) / 2 == q * 512 + r / 2;
    EvenPart(q * 256, r / 2);
    assert (q * 1024 + r) / 4 == q * 256 + r / 4;
    EvenPart(q * 128, r / 4);
    assert (q * 1024 + r) / 8 == q * 128 + r / 8;
    EvenPart(q * 64, r / 8);
  }

  lemma EvenPart(a: nat, b: nat)
    ensures (2 * a + b) % 2 == b % 2
  {
  }

  /**
   The kernel's own shifts and masks on 32-bit words: an aligned address and ten
   flag bits survive the trip through an entry.
   */
  lemma PteBitsLossless(paddr: bv32, flags: bv32)
    requires paddr & 0xfff == 0 && flags & !0x3ff == 0
    ensures var pte := ((paddr >> 12) << 10) | flags | 1;
      (pte >> 10) << 12 == paddr && pte & 0x3ff == flags | 1 && pte & 1 == 1
  {
  }

  // ----- translation -----

  /** The hardware walk for one virtual page. */
  function Translate(mem: Mem, root: nat, vpn: nat): Option<Mapping>
    requires vpn < VPN_LIMIT
  {
    if root !in mem then None
    else
      var pte1 := ReadWord(mem[root], vpn / 1024);
      if !Bit(pte1, PAGE_V) || (!Bit(pte1, PAGE_R) && Bit(pte1, PAGE_W)) then None
      else if Bit(pte1, PAGE_R) || Bit(pte1, PAGE_X) then
        // a leaf at level 1: a superpage, which must be aligned
        if pte1 / 1024 % 1024 != 0 then None else Some(Mapping(pte1 / 1024 + vpn % 1024, pte1 % 1024))
      else if pte1 / 1024 !in mem then None
      else
        var pte0 := ReadWord(mem[pte1 / 1024], vpn % 1024);
        if !Bit(pte0, PAGE_V) || (!Bit(pte0, PAGE_R) && Bit(pte0, PAGE_W)) then None
        else if Bit(pte0, PAGE_R) || Bit(pte0, PAGE_X) then Some(Decode(pte0))
        else None
  }

  // ----- well-formed trees of tables -----

  /** `dir` lists the level-0 tables that the root table points to. */
  ghost predicate DirOk(mem: Mem, root: nat, dir: map<nat, nat>) {
    && root in mem && root < VPN_LIMIT
    && (forall v :: v in dir ==> v < 1024 && dir[v] in mem && dir[v] != root && dir[v] < VPN_LIMIT)
    && (forall v, w :: v in dir && w in dir && v != w ==> dir[v] != dir[w])
    && (forall v :: 0 <= v < 1024 ==>
          if v in dir then ReadWord(mem[root], v) == dir[v] * 1024 + PAGE_V else !Bit(ReadWord(mem[root], v), PAGE_V))
  }

  /** The entry for page `v * 1024 + k` of table `t` agrees with `trans`. */
  ghost predicate LeafOk(t: Frame, trans: map<nat, Leaf>, v: nat, k: nat)
    requires k < 1024
  {
    if v * 1024 + k in trans then ReadWord(t, k) == Encode(trans[v * 1024 + k]) else !Bit(ReadWord(t, k), PAGE_V)
  }

  /** `trans` lists the leaves of those tables. */
  ghost predicate LeavesOk(mem: Mem, dir: map<nat, nat>, trans: map<nat, Leaf>)
    requires forall v :: v in dir ==> dir[v] in mem
  {
    && (forall vpn :: vpn in trans ==> vpn < VPN_LIMIT && vpn / 1024 in dir)
    && (forall v, k :: v in dir && 0 <= k < 1024 ==> LeafOk(mem[dir[v]], trans, v, k))
  }

  /** The tables at `root` are exactly `dir`, and their leaves exactly `trans`. */
  ghost predicate Space(mem: Mem, root: nat, dir: map<nat, nat>, trans: map<nat, Leaf>) {
    DirOk(mem, root, dir) && LeavesOk(mem, dir, trans)
  }

  /** The frames that hold the tables. */
  ghost function Tables(root: nat, dir: map<nat, nat>): set<nat> {
    {root} + dir.Values
  }

  /** What the kernel finds in a root entry: the address of the table, if there is one. */
  lemma DirEntry(mem: Mem, root: nat, dir: map<nat, nat>, v: nat)
    requires DirOk(mem, root, dir) && v < 1024
    ensures root in mem && root in Tables(root, dir) && root < VPN_LIMIT
    ensures Bit(ReadWord(mem[root], v), PAGE_V) <==> v in dir
    ensures v in dir ==> ReadWord(mem[root], v) / 1024 == dir[v] && dir[v] in mem && dir[v] in Tables(root, dir) && dir[v] != root
  {
    hide ReadWord, Bit;
    if v in dir {
      PointerEntry(dir[v]);
      assert ReadWord(mem[root], v) == dir[v] * 1024 + PAGE_V;
    }
  }

  lemma RootEntry(mem: Mem, root: nat, dir: map<nat, nat>, trans: map<nat, Leaf>, v: nat)
    requires Space(mem, root, dir, trans) && v < 1024
    ensures root in mem && root in Tables(root, dir) && root < VPN_LIMIT
    ensures Bit(ReadWord(mem[root], v), PAGE_V) <==> v in dir
    ensures v in dir ==> ReadWord(mem[root], v) / 1024 == dir[v] && dir[v] in mem && dir[v] in Tables(root, dir) && dir[v] != root
  {
    hide ReadWord, Bit, DirOk, Tables;
    DirEntry(mem, root, dir, v);
  }

  /** A pointer entry is valid and is no leaf. */
  lemma PointerEntry(p: nat)
    ensures var pte := p * 1024 + PAGE_V;
      Bit(pte, PAGE_V) && !Bit(pte, PAGE_R) && !Bit(pte, PAGE_W) && !Bit(pte, PAGE_X) && pte / 1024 == p
  {
    var pte := p * 1024 + PAGE_V;
    var h := p * 128;
    assert pte == 2 * (4 * h) + 1 && pte / 2 == 2 * (2 * h) && pte / 4 == 2 * h && pte / 8 == h;
    assert h == 2 * (p * 64);
  }

  /** What the kernel finds in a level-0 entry. */
  lemma LeafEntry(mem: Mem, root: nat, dir: map<nat, nat>, trans: map<nat, Leaf>, vpn: nat)
    requires Space(mem, root, dir, trans) && vpn < VPN_LIMIT && vpn / 1024 in dir
    ensures dir[vpn / 1024] in mem
    ensures var pte := ReadWord(mem[dir[vpn / 1024]], vpn % 1024);
      && (Bit(pte, PAGE_V) <==> vpn in trans)
      && (vpn in trans ==>
            && Decode(pte) == trans[vpn] && Bit(pte, PAGE_R) == Bit(trans[vpn].flags, PAGE_R)
            && Bit(pte, PAGE_W) == Bit(trans[vpn].flags, PAGE_W) && Bit(pte, PAGE_X) == Bit(trans[vpn].flags, PAGE_X))
  {
    hide ReadWord, Bit;
    assert vpn == vpn / 1024 * 1024 + vpn % 1024;
    assert LeafOk(mem[dir[vpn / 1024]], trans, vpn / 1024, vpn % 1024);
    if vpn in trans {
      DecodeEncode(trans[vpn]);
    }
  }

  /** In a well-formed space the hardware sees what is visible of `trans`, and nothing else. */
  lemma SpaceTranslates(mem: Mem, root: nat, dir: map<nat, nat>, trans: map<nat, Leaf>, vpn: nat)
    requires Space(mem, root, dir, trans) && vpn < VPN_LIMIT
    ensures Translate(mem, root, vpn) == if vpn in trans && Visible(trans[vpn].flags) then Some(trans[vpn]) else None
  {
    hide ReadWord, Bit;
    var v := vpn / 1024;
    RootEntry(mem, root, dir, trans, v);
    if v in dir {
      PointerEntry(dir[v]);
      assert ReadWord(mem[root], v) == dir[v] * 1024 + PAGE_V;
      LeafEntry(mem, root, dir, trans, vpn);
    }
  }

  /**
   `map_page` is a functional update of the walk: if the tables at `root` come to
   describe `trans[vpn := m]`, that page goes to `m` (or faults, if its flags make
   no leaf) and no other page moves, even when a level-0 table was added (`d`
   differs from `dir`).
   */
  lemma UpdateIsFunctional(mem: Mem, next: Mem, root: nat, dir: map<nat, nat>, d: map<nat, nat>,
                           trans: map<nat, Leaf>, vpn: nat, m: Leaf, other: nat)
    requires Space(mem, root, dir, trans) && Space(next, root, d, trans[vpn := m]) && vpn < VPN_LIMIT && other < VPN_LIMIT
    ensures Translate(next, root, other) ==
      if other != vpn then Translate(mem, root, other) else if Visible(m.flags) then Some(m) else None
  {
    hide Translate, Visible;
    SpaceTranslates(mem, root, dir, trans, other);
    SpaceTranslates(next, root, d, trans[vpn := m], other);
  }

  /** Spaces depend only on their own tables. */
  lemma SpaceFrame(mem: Mem, next: Mem, root: nat, dir: map<nat, nat>, trans: map<nat, Leaf>)
    requires Space(mem, root, dir, trans)
    requires forall f :: f in Tables(root, dir) ==> f in next && next[f] == mem[f]
    ensures Space(next, root, dir, trans)
  {
    hide ReadWord, WriteWord;
    assert forall v :: v in dir ==> dir[v] in Tables(root, dir);
  }

  /** A zeroed frame is an empty root table. */
  lemma EmptySpace(mem: Mem, root: nat)
    requires root in mem && mem[root] == ZERO_FRAME && root < VPN_LIMIT
    ensures Space(mem, root, map[], map[])
  {
    hide ReadWord, WriteWord;
    forall v | 0 <= v < 1024 ensures !Bit(ReadWord(mem[root], v), PAGE_V) {
      ZeroWords(v);
    }
  }

  lemma LinkDir(mem: Mem, root: nat, dir: map<nat, nat>, v: nat, p: nat, next: Mem)
    requires DirOk(mem, root, dir) && v < 1024 && v !in dir && p < VPN_LIMIT && p !in Tables(root, dir)
    requires p in mem && next == mem[p := ZERO_FRAME][root := WriteWord(mem[root], v, p * 1024 + PAGE_V)]
    ensures DirOk(next, root, dir[v := p])
  {
    hide ReadWord, WriteWord, Bit;
    var d := dir[v := p];
    forall w | 0 <= w < 1024
      ensures if w in d then ReadWord(next[root], w) == d[w] * 1024 + PAGE_V else !Bit(ReadWord(next[root], w), PAGE_V)
    {
      ReadAfterWrite(mem[root], v, p * 1024 + PAGE_V, w);
    }
    assert forall w :: w in dir ==> dir[w] in Tables(root, dir);
  }

  /** Hanging a zeroed frame under an absent root entry adds a table and no leaves. */
  lemma LinkTable(mem: Mem, root: nat, dir: map<nat, nat>, trans: map<nat, Leaf>, v: nat, p: nat, next: Mem)
    requires Space(mem, root, dir, trans) && v < 1024 && v !in dir
    requires p < VPN_LIMIT && p !in Tables(root, dir)
    requires p in mem && next == mem[p := ZERO_FRAME][root := WriteWord(mem[root], v, p * 1024 + PAGE_V)]
    ensures Space(next, root, dir[v := p], trans)
  {
    hide ReadWord, WriteWord, Encode, Bit;
    LinkDir(mem, root, dir, v, p, next);
    var d := dir[v := p];
    forall w, k | w in d && 0 <= k < 1024 ensures LeafOk(next[d[w]], trans, w, k) {
      if w == v {
        EmptyEntry(k);
        assert (w * 1024 + k) / 1024 == w;
      } else {
        assert dir[w] in Tables(root, dir) && next[d[w]] == mem[dir[w]];
      }
    }
  }

  lemma EmptyEntry(k: nat)
    requires k < 1024
    ensures !Bit(ReadWord(ZERO_FRAME, k), PAGE_V)
  {
    ZeroWords(k);
  }

  lemma VpnIsItsIndices(vpn: nat, v: nat, k: nat)
    requires k < 1024
    ensures v * 1024 + k == vpn <==> v == vpn / 1024 && k == vpn % 1024
  {
  }

  /** Writing one entry `e` of one table changes what that page's entry says, and nothing else. */
  lemma WriteLeaf(mem: Mem, dir: map<nat, nat>, trans: map<nat, Leaf>, vpn: nat, e: word,
                  after: map<nat, Leaf>, v: nat, k: nat)
    requires (forall w :: w in dir ==> dir[w] in mem) && (forall x, y :: x in dir && y in dir && x != y ==> dir[x] != dir[y])
    requires LeavesOk(mem, dir, trans) && vpn / 1024 in dir && v in dir && k < 1024
    requires forall p :: p != vpn ==> (p in after <==> p in trans) && (p in trans ==> after[p] == trans[p])
    requires vpn in after ==> e == Encode(after[vpn])
    requires vpn !in after ==> !Bit(e, PAGE_V)
    ensures var t := dir[vpn / 1024];
      LeafOk(mem[t := WriteWord(mem[t], vpn % 1024, e)][dir[v]], after, v, k)
  {
    hide ReadWord, WriteWord, Encode, Bit, LeafMapping;
    var t := dir[vpn / 1024];
    VpnIsItsIndices(vpn, v, k);
    ReadAfterWrite(mem[t], vpn % 1024, e, k);
    assert LeafOk(mem[dir[v]], trans, v, k);
  }

  /** Storing a leaf changes the translation of one page. */
  lemma StoreLeaf(mem: Mem, root: nat, dir: map<nat, nat>, trans: map<nat, Leaf>, vpn: nat, m: Leaf, next: Mem)
    requires Space(mem, root, dir, trans) && vpn < VPN_LIMIT && vpn / 1024 in dir
    requires var t := dir[vpn / 1024];
      next == mem[t := WriteWord(mem[t], vpn % 1024, Encode(m))]
    ensures Space(next, root, dir, trans[vpn := m])
  {
    hide ReadWord, WriteWord, Encode, Bit;
    var after := trans[vpn := m];
    forall v, k | v in dir && 0 <= k < 1024 ensures LeafOk(next[dir[v]], after, v, k) {
      WriteLeaf(mem, dir, trans, vpn, Encode(m), after, v, k);
    }
  }

  /** Zeroing a leaf unmaps one page. */
  lemma ClearLeaf(mem: Mem, root: nat, dir: map<nat, nat>, trans: map<nat, Leaf>, vpn: nat, next: Mem)
    requires Space(mem, root, dir, trans) && vpn in trans
    requires var t := dir[vpn / 1024];
      next == mem[t := WriteWord(mem[t], vpn % 1024, 0)]
    ensures Space(next, root, dir, trans - {vpn})
  {
    hide ReadWord, WriteWord, Encode;
    var after := trans - {vpn};
    forall v, k | v in dir && 0 <= k < 1024 ensures LeafOk(next[dir[v]], after, v, k) {
      WriteLeaf(mem, dir, trans, vpn, 0, after, v, k);
    }
  }

  /** Zeroing a root entry drops one table. */
  lemma ClearLink(mem: Mem, root: nat, dir: map<nat, nat>, v: nat, next: Mem)
    requires DirOk(mem, root, dir) && v in dir && next == mem[root := WriteWord(mem[root], v, 0)]
    ensures DirOk(next, root, dir - {v})
    ensures (dir - {v}).Values == dir.Values - {dir[v]}
  {
    hide ReadWord, WriteWord;
    forall w | 0 <= w < 1024
      ensures if w in dir - {v} then ReadWord(next[root], w) == dir[w] * 1024 + PAGE_V
              else !Bit(ReadWord(next[root], w), PAGE_V)
    {
      ReadAfterWrite(mem[root], v, 0, w);
    }
  }
}
