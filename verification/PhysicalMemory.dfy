/** memory.c: the page bitmap, the first-fit allocator and `map_page`. */
module PhysicalMemory {
  import opened CTypes
  import opened PageTables

  // ----- bits of the bitmap -----

  function TestBit(b: bv8, k: nat): bool
    requires k < 8
  {
    (b >> k) & 1 == 1
  }

  function SetBit(b: bv8, k: nat): bv8
    requires k < 8
  {
    b | (1 << k)
  }

  function ClearBit(b: bv8, k: nat): bv8
    requires k < 8
  {
    b & !(1 << k)
  }

  /** `1 << k`. */
  function Mask(k: nat): bv8
    requires k < 8
  {
    if k == 0 then 1 else if k == 1 then 2 else if k == 2 then 4 else if k == 3 then 8
    else if k == 4 then 16 else if k == 5 then 32 else if k == 6 then 64 else 128
  }

  lemma ShiftsAreMasks(b: bv8, k: nat)
    requires k < 8
    ensures 1 << k == Mask(k)
    ensures TestBit(b, k) <==> b & Mask(k) != 0
  {
    if k == 0 {
      assert b >> 0 == b;
    } else if k == 1 {} else if k == 2 {} else if k == 3 {} else if k == 4 {} else if k == 5 {} else if k == 6 {} else {}
  }

  lemma MaskAlgebra(b: bv8, m: bv8, n: bv8)
    ensures (b | m) & n != 0 <==> b & n != 0 || m & n != 0
    ensures m & n == 0 ==> (b & !m) & n == b & n
    ensures (b & !m) & m == 0
  {
  }

  lemma MasksDisjoint(k: nat, j: nat)
    requires k < 8 && j < 8
    ensures Mask(k) & Mask(j) == if k == j then Mask(k) else 0
    ensures Mask(k) != 0
  {
  }

  /** Setting or clearing one bit leaves the other seven alone. */
  lemma BitUpdate(b: bv8, k: nat, j: nat)
    requires k < 8 && j < 8
    ensures TestBit(SetBit(b, k), j) == (j == k || TestBit(b, j))
    ensures TestBit(ClearBit(b, k), j) == (j != k && TestBit(b, j))
  {
    ShiftsAreMasks(b, k);
    ShiftsAreMasks(b, j);
    ShiftsAreMasks(SetBit(b, k), j);
    ShiftsAreMasks(ClearBit(b, k), j);
    MasksDisjoint(k, j);
    MaskAlgebra(b, Mask(k), Mask(j));
  }

  function TestIndex(bytes: seq<bv8>, i: nat): bool
    requires i < 8 * |bytes|
  {
    TestBit(bytes[i / 8], i % 8)
  }

  lemma IndexUpdate(bytes: seq<bv8>, i: nat, j: nat)
    requires i < 8 * |bytes| && j < 8 * |bytes|
    ensures TestIndex(bytes[i / 8 := SetBit(bytes[i / 8], i % 8)], j) == (j == i || TestIndex(bytes, j))
    ensures TestIndex(bytes[i / 8 := ClearBit(bytes[i / 8], i % 8)], j) == (j != i && TestIndex(bytes, j))
  {
    hide SetBit, ClearBit, TestBit;
    BitUpdate(bytes[i / 8], i % 8, j % 8);
    assert i == j <==> i / 8 == j / 8 && i % 8 == j % 8;
  }

  // ----- memory_init -----

  datatype Range = Range(base: nat, pages: nat)

  /**
   `memory_init`: the bitmap sits at the start of free RAM and the managed pages
   follow it; `None` is a panic.
   */
  function ManagedRange(freeStart: nat, freeEnd: nat): (r: Option<Range>)
    ensures r.Some? ==>
      // more bits than managed pages, and no page is lost but those under the bitmap
      && var bitmapPages := (freeEnd - freeStart) / PAGE_SIZE - r.value.pages;
      && 0 < bitmapPages && r.value.pages > 0
      && r.value.pages < 8 * PAGE_SIZE * bitmapPages < r.value.pages + bitmapPages + 8 * PAGE_SIZE
      && r.value.base == freeStart + bitmapPages * PAGE_SIZE
      && r.value.base + r.value.pages * PAGE_SIZE <= freeEnd
  {
    if freeEnd <= freeStart then None
    else
      var total := (freeEnd - freeStart) / PAGE_SIZE;
      if total == 0 then None
      else
        var bitmapBytes := (total + 7) / 8;
        var bitmapPages := (bitmapBytes + PAGE_SIZE - 1) / PAGE_SIZE;
        if bitmapPages >= total then None
        else Some(Range(freeStart + bitmapPages * PAGE_SIZE, total - bitmapPages))
  }

  // ----- the allocator -----

  /** Frames `start .. start + n` are all outside `used`. */
  ghost predicate FreeRun(used: set<nat>, start: nat, n: nat) {
    forall f :: start <= f < start + n ==> f !in used
  }

  ghost function Frames(start: nat, n: nat): (s: set<nat>)
    ensures forall f :: f in s <==> start <= f < start + n
  {
    if n == 0 then {} else Frames(start, n - 1) + {start + n - 1}
  }

  lemma ValuesAdd(m: map<nat, nat>, k: nat, v: nat)
    requires k !in m
    ensures m[k := v].Values == m.Values + {v}
  {
    forall x | x in m.Values ensures x in m[k := v].Values {
      var w :| w in m && m[w] == x;
      assert m[k := v][w] == x;
    }
    assert m[k := v][k] == v;
  }

  lemma TablesAdd(root: nat, dir: map<nat, nat>, k: nat, v: nat)
    requires k !in dir
    ensures Tables(root, dir[k := v]) == Tables(root, dir) + {v}
  {
    ValuesAdd(dir, k, v);
  }

  lemma VaddrIndices(vaddr: word)
    ensures vaddr / PAGE_SIZE < VPN_LIMIT
    ensures vaddr / 0x40_0000 % 1024 == vaddr / PAGE_SIZE / 1024
    ensures vaddr / PAGE_SIZE % 1024 == vaddr / PAGE_SIZE - 1024 * (vaddr / PAGE_SIZE / 1024)
  {
  }

  /** The leaf `map_page` stores for a frame and the caller's flags. */
  function MapsTo(ppn: nat, flags: nat): (m: Leaf)
    requires ppn < VPN_LIMIT && flags < 1024
    ensures m.ppn == ppn && WithoutValid(m.flags) == WithoutValid(flags)
  {
    Mapping(ppn, WithValid(flags))
  }

  lemma ZeroBits(k: nat)
    requires k < 8
    ensures !TestBit(0, k)
  {
    if k == 0 {} else if k == 1 {} else if k == 2 {} else if k == 3 {} else if k == 4 {} else if k == 5 {} else if k == 6 {} else {}
  }

  class Ram {
    /** Frame number of `managed_base`, and `managed_pages`. */
    const base: nat
    const pages: nat
    const bitmap: array<bv8>
    var mem: Mem
    /** The frames whose bit is set. */
    ghost var used: set<nat>

    ghost predicate Valid()
      reads this, bitmap
    {
      && pages < 8 * bitmap.Length && !TestIndex(bitmap[..], pages) && 0 < base && base + pages <= VPN_LIMIT
      && mem.Keys == Frames(base, pages)
      && used <= mem.Keys
      && forall i :: 0 <= i < pages ==> (TestIndex(bitmap[..], i) <==> base + i in used)
    }

    /** The end of `memory_init`: `bitmapPages` pages of clear bits, one of which stays clear for good. */
    constructor (base: nat, pages: nat, bitmapPages: nat, mem: Mem)
      requires 0 < base && base + pages <= VPN_LIMIT && mem.Keys == Frames(base, pages)
      requires pages < 8 * PAGE_SIZE * bitmapPages
      ensures Valid() && used == {} && this.base == base && this.pages == pages && fresh(bitmap)
    {
      this.base, this.pages := base, pages;
      bitmap := new bv8[bitmapPages * PAGE_SIZE](_ => 0);
      this.mem := mem;
      used := {};
      new;
      forall i | 0 <= i <= pages ensures !TestIndex(bitmap[..], i) {
        ZeroBits(i % 8);
      }
    }

    method BitmapSet(i: nat)
      requires Valid() && i < pages
      modifies bitmap, this`used
      ensures Valid() && used == old(used) + {base + i}
    {
      ghost var before := bitmap[..];
      bitmap[i / 8] := SetBit(bitmap[i / 8], i % 8);
      used := used + {base + i};
      assert bitmap[..] == before[i / 8 := SetBit(before[i / 8], i % 8)];
      forall j | 0 <= j < pages ensures TestIndex(bitmap[..], j) <==> base + j in used {
        IndexUpdate(before, i, j);
      }
      IndexUpdate(before, i, pages);
    }

    method BitmapClear(i: nat)
      requires Valid() && i < pages
      modifies bitmap, this`used
      ensures Valid() && used == old(used) - {base + i}
    {
      ghost var before := bitmap[..];
      bitmap[i / 8] := ClearBit(bitmap[i / 8], i % 8);
      used := used - {base + i};
      assert bitmap[..] == before[i / 8 := ClearBit(before[i / 8], i % 8)];
      forall j | 0 <= j < pages ensures TestIndex(bitmap[..], j) <==> base + j in used {
        IndexUpdate(before, i, j);
      }
      IndexUpdate(before, i, pages);
    }

    method BitmapTest(i: nat) returns (set_: bool)
      requires Valid() && i <= pages
      ensures set_ <==> i < pages && base + i in used
    {
      set_ := TestBit(bitmap[i / 8], i % 8);
      assert set_ == TestIndex(bitmap[..], i);
    }

    /** The scan of `alloc_pages`: the index of the lowest run of `n` clear bits. */
    method ScanFreeRun(n: nat) returns (r: Option<nat>)
      requires Valid() && 0 < n
      ensures r.None? ==> forall s :: base <= s && s + n <= base + pages ==> !FreeRun(used, s, n)
      ensures r.Some? ==>
        && r.value + n <= pages && FreeRun(used, base + r.value, n)
        && forall s :: base <= s < base + r.value ==> !FreeRun(used, s, n)
    {
      var run := 0;
      var i := 0;
      while i < pages
        invariant i <= pages && run <= i && run < n
        invariant FreeRun(used, base + i - run, run)
        invariant run < i ==> base + i - run - 1 in used
        invariant forall s :: base <= s && s + n <= base + i ==> !FreeRun(used, s, n)
      {
        var taken := BitmapTest(i);
        if taken {
          run := 0;
          forall s | base <= s && s + n <= base + i + 1 ensures !FreeRun(used, s, n) {
            assert s + n == base + i + 1 ==> s <= base + i < s + n;
          }
        } else {
          run := run + 1;
          if run == n {
            return Some(i + 1 - n);
          }
          forall s | base <= s && s + n <= base + i + 1 ensures !FreeRun(used, s, n) {
            if s + n == base + i + 1 {
              var f := base + i + 1 - run - 1;
              assert f in used && s <= f < s + n;
            }
          }
        }
        i := i + 1;
      }
      return None;
    }

    /** `alloc_pages`: the lowest run of `n` free frames, zeroed; `None` is a panic. */
    method AllocPages(n: nat) returns (r: Option<nat>)
      requires Valid()
      modifies this`mem, this`used, bitmap
      ensures Valid()
      ensures r.None? <==> n == 0 || forall s :: base <= s && s + n <= base + pages ==> !FreeRun(old(used), s, n)
      ensures r.None? ==> used == old(used) && mem == old(mem)
      ensures r.Some? ==>
        && base <= r.value && r.value + n <= base + pages && FreeRun(old(used), r.value, n)
        && (forall s :: base <= s < r.value ==> !FreeRun(old(used), s, n))
        && used == old(used) + Frames(r.value, n)
        && (forall f :: f in mem ==> mem[f] == if f in Frames(r.value, n) then ZERO_FRAME else old(mem)[f])
    {
      hide FreeRun;
      if n == 0 || n > pages {
        return None;
      }
      var found := ScanFreeRun(n);
      if found.None? {
        return None;
      }
      var start := base + found.value;
      SetRun(found.value, n);
      ZeroRun(start, n);
      return Some(start);
    }

    method SetRun(start: nat, n: nat)
      requires Valid() && start + n <= pages
      modifies bitmap, this`used
      ensures Valid() && used == old(used) + Frames(base + start, n)
    {
      for j := start to start + n
        invariant Valid() && used == old(used) + Frames(base + start, j - start)
      {
        BitmapSet(j);
      }
    }

    /** `memset` over `n` frames. */
    method ZeroRun(start: nat, n: nat)
      requires Valid() && Frames(start, n) <= mem.Keys
      modifies this`mem
      ensures Valid()
      ensures forall f :: f in mem ==> mem[f] == if f in Frames(start, n) then ZERO_FRAME else old(mem)[f]
    {
      for j := start to start + n
        invariant Valid()
        invariant forall f :: f in mem ==> mem[f] == if f in Frames(start, j - start) then ZERO_FRAME else old(mem)[f]
      {
        assert j in Frames(start, n);
        mem := mem[j := ZERO_FRAME];
      }
    }

    /** What the kernel asks for everywhere: one frame. */
    method AllocPage() returns (r: Option<nat>)
      requires Valid()
      modifies this`mem, this`used, bitmap
      ensures Valid()
      ensures r.None? <==> old(used) == mem.Keys
      ensures r.None? ==> used == old(used) && mem == old(mem)
      ensures r.Some? ==>
        && r.value in mem && r.value !in old(used) && r.value < VPN_LIMIT
        && (forall f :: f in mem && f < r.value ==> f in old(used))
        && used == old(used) + {r.value} && mem == old(mem)[r.value := ZERO_FRAME]
    {
      r := AllocPages(1);
      if r.None? {
        forall f | f in mem ensures f in used {
          assert !FreeRun(used, f, 1);
        }
      } else {
        forall f | f in mem && f < r.value ensures f in old(used) {
          assert !FreeRun(old(used), f, 1);
        }
        assert r.value in Frames(r.value, 1);
        assert Frames(r.value, 1) == {r.value};
        assert mem == old(mem)[r.value := ZERO_FRAME];
      }
    }

    /**
     `free_pages`; false is a panic.  The range test adds in 32 bits, and a sum that
     wraps passes it; the loop then runs into the clear bit behind the last page.
     */
    method FreePages(paddr: word, n: word) returns (ok: bool)
      requires Valid()
      modifies this`used, bitmap
      ensures Valid()
      ensures ok <==>
        && n > 0 && paddr % PAGE_SIZE == 0 && base * PAGE_SIZE <= paddr
        && Frames(paddr / PAGE_SIZE, n) <= old(used)
      ensures ok ==> used == old(used) - Frames(paddr / PAGE_SIZE, n)
    {
      if n == 0 || paddr % PAGE_SIZE != 0 || paddr < base * PAGE_SIZE {
        return false;
      }
      var start := (paddr - base * PAGE_SIZE) / PAGE_SIZE;
      assert base + start == paddr / PAGE_SIZE;
      if start >= pages || (start + n) % 0x1_0000_0000 > pages {
        assert base + start + n - 1 in Frames(base + start, n);
        return false;
      }
      for i := 0 to n
        invariant Valid() && start + i <= pages && used == old(used) - Frames(base + start, i)
        invariant Frames(base + start, i) <= old(used)
      {
        var taken := BitmapTest(start + i);
        if !taken {
          assert base + start + i in Frames(base + start, n);
          return false;
        }
        BitmapClear(start + i);
      }
      return true;
    }

    /**
     `map_page`; false is a panic.  `dir` and `trans` describe the tables at
     `root`; `d` is `dir` after a possible new level-0 table.
     */
    method MapPage(root: nat, vaddr: word, paddr: word, flags: nat, ghost dir: map<nat, nat>, ghost trans: map<nat, Leaf>)
      returns (ok: bool, ghost d: map<nat, nat>)
      requires Valid() && Space(mem, root, dir, trans) && Tables(root, dir) <= used
      requires flags < 1024
      modifies this`mem, this`used, bitmap
      ensures Valid()
      ensures !ok ==> vaddr % PAGE_SIZE != 0 || paddr % PAGE_SIZE != 0 || used == mem.Keys
      ensures ok ==>
        && Space(mem, root, d, trans[vaddr / PAGE_SIZE := MapsTo(paddr / PAGE_SIZE, flags)])
        && dir.Keys <= d.Keys && (forall v :: v in dir ==> d[v] == dir[v])
        && used == old(used) + Tables(root, d)
        && Tables(root, d) * old(used) == Tables(root, dir)
        && forall f :: f in mem && f !in Tables(root, d) ==> mem[f] == old(mem)[f]
    {
      d := dir;
      if vaddr % PAGE_SIZE != 0 || paddr % PAGE_SIZE != 0 {
        return false, d;
      }
      var vpn1 := vaddr / 0x40_0000 % 1024;
      var vpn0 := vaddr / PAGE_SIZE % 1024;
      VaddrIndices(vaddr);
      ghost var vpn, leaf := vaddr / PAGE_SIZE, MapsTo(paddr / PAGE_SIZE, flags);
      ok, d := LinkIfAbsent(root, vpn1, dir, trans);
      if !ok {
        return;
      }
      StoreEntry(root, vpn1, vpn0, paddr / PAGE_SIZE * 1024 + WithValid(flags), d, trans, vpn, leaf);
    }

    /** The second half of `map_page`: entry `vpn0` of the level-0 table becomes `pte`. */
    method StoreEntry(root: nat, vpn1: nat, vpn0: nat, pte: word, ghost dir: map<nat, nat>, ghost trans: map<nat, Leaf>,
                      ghost vpn: nat, ghost leaf: Leaf)
      requires Valid() && Space(mem, root, dir, trans) && vpn1 in dir && vpn0 < 1024
      requires vpn < VPN_LIMIT && vpn1 == vpn / 1024 && vpn0 == vpn % 1024 && pte == Encode(leaf)
      modifies this`mem
      ensures Valid() && Space(mem, root, dir, trans[vpn := leaf])
      ensures forall f :: f in mem && f !in Tables(root, dir) ==> mem[f] == old(mem)[f]
    {
      hide ReadWord, WriteWord, Bit, Encode, Space, Tables;
      RootEntry(mem, root, dir, trans, vpn1);
      var table0 := ReadWord(mem[root], vpn1) / 1024;
      ghost var before := mem;
      mem := mem[table0 := WriteWord(mem[table0], vpn0, pte)];
      StoreLeaf(before, root, dir, trans, vpn, leaf, mem);
    }

    /** The first half of `map_page`: a level-0 table for root entry `vpn1`. */
    method LinkIfAbsent(root: nat, vpn1: nat, ghost dir: map<nat, nat>, ghost trans: map<nat, Leaf>)
      returns (ok: bool, ghost d: map<nat, nat>)
      requires Valid() && Space(mem, root, dir, trans) && Tables(root, dir) <= used && vpn1 < 1024
      modifies this`mem, this`used, bitmap
      ensures Valid()
      ensures !ok ==> used == old(used) == mem.Keys
      ensures ok ==>
        && Space(mem, root, d, trans) && vpn1 in d
        && dir.Keys <= d.Keys && (forall v :: v in dir ==> d[v] == dir[v])
        && used == old(used) + Tables(root, d)
        && Tables(root, d) * old(used) == Tables(root, dir)
        && forall f :: f in mem && f !in Tables(root, d) ==> mem[f] == old(mem)[f]
    {
      hide ReadWord, WriteWord, Bit, Space, Tables;
      RootEntry(mem, root, dir, trans, vpn1);
      if Bit(ReadWord(mem[root], vpn1), PAGE_V) {
        return true, dir;
      }
      ok, d := LinkNew(root, vpn1, dir, trans);
    }

    method LinkNew(root: nat, vpn1: nat, ghost dir: map<nat, nat>, ghost trans: map<nat, Leaf>)
      returns (ok: bool, ghost d: map<nat, nat>)
      requires Valid() && Space(mem, root, dir, trans) && Tables(root, dir) <= used && vpn1 < 1024 && vpn1 !in dir
      modifies this`mem, this`used, bitmap
      ensures Valid()
      ensures !ok ==> used == old(used) == mem.Keys
      ensures ok ==>
        && Space(mem, root, d, trans) && d.Keys == dir.Keys + {vpn1} && (forall v :: v in dir ==> d[v] == dir[v])
        && used == old(used) + Tables(root, d)
        && Tables(root, d) * old(used) == Tables(root, dir)
        && forall f :: f in mem && f !in Tables(root, d) ==> mem[f] == old(mem)[f]
    {
      hide ReadWord, WriteWord, Bit, Encode, Space, Tables;
      RootEntry(mem, root, dir, trans, vpn1);
      ghost var before := mem;
      var pt := AllocPage();
      if pt.None? {
        return false, dir;
      }
      mem := mem[root := WriteWord(mem[root], vpn1, pt.value * 1024 + PAGE_V)];
      LinkTable(before, root, dir, trans, vpn1, pt.value, mem);
      TablesAdd(root, dir, vpn1, pt.value);
      return true, dir[vpn1 := pt.value];
    }
  }
}
