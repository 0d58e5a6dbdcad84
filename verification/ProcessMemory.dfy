/** The memory half of process.c: building, copying, replacing and freeing address spaces. */
module ProcessMemory {
  import opened CTypes
  import opened PageTables
  import opened PhysicalMemory
  import opened AddressSpaces

  /** The fields of `struct process` that hold memory. */
  datatype Slot = Slot(inUse: bool, pageTable: Option<nat>, userPages: nat)

  /** What the process code asks of memory; `exit`, `kill` and `waitpid` all end in `Reclaim`. */
  datatype Op =
    | Create(image: seq<byte>, rootEntry: bool)
    | ForkFrom(slot: nat)
    | ExecIn(slot: nat, image: seq<byte>)
    | Reclaim(slot: nat)

  const EMPTY_SLOT := Slot(false, None, 0)

  lemma PageAddress(p: nat)
    requires p < VPN_LIMIT
    ensures 0 <= p * PAGE_SIZE < 0x1_0000_0000
    ensures p * PAGE_SIZE / PAGE_SIZE == p && p * PAGE_SIZE % PAGE_SIZE == 0
  {
  }

  /** The slots say what the spaces are. */
  ghost predicate SlotsMatch(slots: seq<Slot>, spaces: seq<Option<AddressSpace>>) {
    && |spaces| == |slots|
    && forall i :: 0 <= i < |slots| ==>
         match spaces[i]
         case None => slots[i] == EMPTY_SLOT
         case Some(a) => slots[i] == Slot(true, Some(a.root), |a.user|)
  }

  /**
   Exact ownership: every set bit of the bitmap has one owner, every slot in use
   has a complete address space, and every other slot has none.
   */
  ghost predicate KernelOk(mem: Mem, used: set<nat>, end: nat, slots: seq<Slot>,
                           spaces: seq<Option<AddressSpace>>, leaked: set<nat>) {
    SlotsMatch(slots, spaces) && SpacesOk(mem, end, spaces) && OwnershipOk(used, spaces, leaked)
  }

  ghost predicate Unchanged(mem: Mem, next: Mem, frames: set<nat>) {
    next.Keys == mem.Keys && forall f :: f in frames && f in mem ==> next[f] == mem[f]
  }

  lemma OwnersSpared(mem: Mem, next: Mem, used: set<nat>, end: nat, slots: seq<Slot>,
                     spaces: seq<Option<AddressSpace>>, leaked: set<nat>, i: nat)
    requires KernelOk(mem, used, end, slots, spaces, leaked) && i < |spaces| && used <= mem.Keys
    requires Unchanged(mem, next, used - OwnedBy(spaces, i))
    ensures forall j :: 0 <= j < |spaces| && j != i && spaces[j].Some? ==> SpaceOk(next, end, spaces[j].value)
  {
    hide SpaceOk, Owned;
    forall j, f | 0 <= j < |spaces| && j != i && f in OwnedBy(spaces, j) ensures next[f] == mem[f] {
      assert f in used && f !in OwnedBy(spaces, i);
    }
    SpacesOkFrame(mem, next, end, spaces, i);
  }

  /** Slot `j` has the same address space, and its frames the same contents. */
  ghost predicate SameSpace(mem: Mem, spaces: seq<Option<AddressSpace>>, next: Mem, after: seq<Option<AddressSpace>>, j: nat) {
    j < |spaces| == |after| && after[j] == spaces[j] && Unchanged(mem, next, OwnedBy(spaces, j))
  }

  lemma SameSpaceTwice(mem: Mem, spaces: seq<Option<AddressSpace>>, next: Mem, after: seq<Option<AddressSpace>>,
                       last: Mem, end: seq<Option<AddressSpace>>, j: nat)
    requires SameSpace(mem, spaces, next, after, j) && SameSpace(next, after, last, end, j)
    ensures SameSpace(mem, spaces, last, end, j)
  {
    hide Owned;
  }

  /** What changes slot `i`'s space and no frame of another leaves every other slot its memory. */
  lemma OthersSame(mem: Mem, next: Mem, used: set<nat>, spaces: seq<Option<AddressSpace>>, leaked: set<nat>,
                   after: seq<Option<AddressSpace>>, i: nat, j: nat)
    requires OwnershipOk(used, spaces, leaked) && i < |spaces| && j < |spaces| && i != j
    requires |after| == |spaces| && after == spaces[i := after[i]] && Unchanged(mem, next, used - OwnedBy(spaces, i))
    ensures SameSpace(mem, spaces, next, after, j)
  {
    hide Owned;
    assert OwnedBy(spaces, j) !! OwnedBy(spaces, i);
  }

  /** A slot without a space gets one, in frames that nobody used. */
  lemma Install(mem: Mem, next: Mem, used: set<nat>, end: nat, slots: seq<Slot>,
                spaces: seq<Option<AddressSpace>>, leaked: set<nat>, i: nat, a: AddressSpace)
    requires KernelOk(mem, used, end, slots, spaces, leaked) && used <= mem.Keys
    requires i < |slots| && |spaces| == |slots| && spaces[i].None? && Unchanged(mem, next, used)
    requires SpaceOk(next, end, a) && Owned(a) !! used
    ensures KernelOk(next, used + Owned(a), end, slots[i := Slot(true, Some(a.root), |a.user|)], spaces[i := Some(a)], leaked)
  {
    hide SpaceOk, Owned;
    OwnersSpared(mem, next, used, end, slots, spaces, leaked, i);
    AcquireSpace(used, spaces, leaked, i, a);
  }

  /** A slot loses its space. */
  lemma Uninstall(mem: Mem, next: Mem, used: set<nat>, end: nat, slots: seq<Slot>,
                  spaces: seq<Option<AddressSpace>>, leaked: set<nat>, i: nat)
    requires KernelOk(mem, used, end, slots, spaces, leaked) && used <= mem.Keys && i < |slots| && |spaces| == |slots|
    requires Unchanged(mem, next, used - OwnedBy(spaces, i))
    ensures KernelOk(next, used - OwnedBy(spaces, i), end, slots[i := EMPTY_SLOT], spaces[i := None], leaked)
  {
    hide SpaceOk, Owned;
    OwnersSpared(mem, next, used, end, slots, spaces, leaked, i);
    ReleaseSpace(used, spaces, leaked, i);
  }

  /** Frames were taken and given to nobody. */
  lemma Lose(mem: Mem, next: Mem, used: set<nat>, end: nat, slots: seq<Slot>,
             spaces: seq<Option<AddressSpace>>, leaked: set<nat>, lost: set<nat>)
    requires KernelOk(mem, used, end, slots, spaces, leaked) && used <= mem.Keys && lost !! used
    requires Unchanged(mem, next, used)
    ensures KernelOk(next, used + lost, end, slots, spaces, leaked + lost)
  {
    hide SpaceOk, Owned;
    LeakFrames(used, spaces, leaked, lost);
    forall j | 0 <= j < |spaces| && spaces[j].Some? ensures SpaceOk(next, end, spaces[j].value) {
      assert OwnedBy(spaces, j) == Owned(spaces[j].value);
      SpaceOkFrame(mem, next, end, spaces[j].value);
    }
  }

  lemma FreeSlotHasNoSpace(mem: Mem, used: set<nat>, end: nat, slots: seq<Slot>,
                           spaces: seq<Option<AddressSpace>>, leaked: set<nat>, i: nat)
    requires KernelOk(mem, used, end, slots, spaces, leaked) && i < |slots|
    ensures |spaces| == |slots| && (slots[i].inUse <==> spaces[i].Some?)
    ensures spaces[i].None? ==> slots[i] == EMPTY_SLOT
    ensures spaces[i].Some? ==>
      && slots[i] == Slot(true, Some(spaces[i].value.root), |spaces[i].value.user|)
      && SpaceOk(mem, end, spaces[i].value) && OwnedBy(spaces, i) == Owned(spaces[i].value) && OwnedBy(spaces, i) <= used
  {
    hide SpaceOk, Owned;
  }

  lemma RootIsOwned(a: AddressSpace, leaked: set<nat>, used: set<nat>)
    requires leaked <= used && Owned(a) !! used
    ensures leaked + Owned(a) != leaked
  {
    assert a.root in Owned(a);
  }

  lemma LeakedIsUsed(mem: Mem, used: set<nat>, end: nat, slots: seq<Slot>, spaces: seq<Option<AddressSpace>>, leaked: set<nat>)
    requires KernelOk(mem, used, end, slots, spaces, leaked)
    ensures leaked <= used
  {
  }

  lemma UserBits()
    ensures OpenToUser(USER_FLAGS) && WithValid(USER_FLAGS) == VRWXU
  {
  }

  lemma ValidKeepsOpen(flags: nat)
    ensures OpenToUser(WithValid(flags)) == OpenToUser(flags)
  {
  }

  lemma KernelMapVisible(end: nat, vpn: nat)
    requires KERNEL_PAGE <= end <= VPN_LIMIT && vpn in KernelMap(end)
    ensures Visible(KernelMap(end)[vpn].flags)
  {
    hide KernelMap;
    KernelMapIs(end, vpn);
  }

  /** A page and the tables it brought were free, so they extend what a space owns. */
  lemma PageJoins(before: set<nat>, tables: set<nat>, more: set<nat>, user: set<nat>, page: nat)
    requires before !! tables && before !! user && tables !! user && page !in before + (tables + user)
    requires more * (before + (tables + user) + {page}) == tables
    ensures before !! more && more !! user && page !in more && before !! (more + user + {page})
    ensures before + (tables + user) + {page} + more == before + (more + user + {page})
  {
    assert tables <= more;
    forall f | f in more ensures f !in before && f !in user && f != page {
      if f in before + (tables + user) + {page} {
        assert f in tables;
      }
    }
  }

  /** One more page, with `flags` made valid. */
  ghost predicate Grew(user: seq<Leaf>, grown: seq<Leaf>, flags: nat) {
    |grown| == |user| + 1 && grown[..|user|] == user && grown[|user|].flags == WithValid(flags)
  }

  lemma LoadedAt(mem: Mem, user: seq<Leaf>, image: seq<byte>, i: nat)
    requires i < |user| <= PageCount(image) && Loaded(mem, user, image)
    ensures i * PAGE_SIZE <= |image| && user[i].flags == VRWXU && user[i].ppn in UserFrames(user)
    ensures user[i].ppn in mem && mem[user[i].ppn] == ImagePage(image, i)
  {
    UserFramesAre(user);
  }

  lemma LoadedGrows(mem: Mem, next: Mem, user: seq<Leaf>, image: seq<byte>, grown: seq<Leaf>)
    requires |user| < PageCount(image) && Loaded(mem, user, image) && next.Keys == mem.Keys
    requires Grew(user, grown, USER_FLAGS)
    requires grown[|user|].ppn in next && next[grown[|user|].ppn] == ImagePage(image, |user|)
    requires forall f :: f in mem && f in UserFrames(user) ==> next[f] == mem[f]
    ensures Loaded(next, grown, image)
  {
    hide ImagePage, Bit, OpenToUser, UserFrames, WithValid;
    UserBits();
    forall i: nat | i < |user|
      ensures i * PAGE_SIZE <= |image| && grown[i] == user[i] && grown[i].flags == VRWXU
      ensures grown[i].ppn in next && next[grown[i].ppn] == ImagePage(image, i)
    {
      LoadedAt(mem, user, image, i);
      assert grown[..|user|][i] == grown[i];
    }
  }

  lemma OwnedParts(mem: Mem, end: nat, a: AddressSpace, before: set<nat>)
    requires SpaceOk(mem, end, a) && before !! Owned(a)
    ensures KERNEL_PAGE <= end <= VPN_LIMIT && |a.user| <= USER_LIMIT
    ensures Space(mem, a.root, a.dir, Layout(end, a.user, 0))
    ensures Owned(a) == Tables(a.root, a.dir) + UserFrames(a.user) && Owned(a) <= mem.Keys
    ensures before !! Tables(a.root, a.dir) && before !! UserFrames(a.user)
    ensures Tables(a.root, a.dir) !! UserFrames(a.user) && Distinct(a.user) && AllOpen(a.user)
  {
    hide Space, Layout, Distinct, AllOpen;
  }

  lemma DirBounded(mem: Mem, root: nat, dir: map<nat, nat>)
    requires DirOk(mem, root, dir)
    ensures forall v :: v in dir ==> v < 1024
  {
  }

  lemma SplitTables(mem: Mem, root: nat, dir: map<nat, nat>)
    requires DirOk(mem, root, dir)
    ensures Tables(root, dir) == {root} + dir.Values && root !in dir.Values
  {
  }

  lemma DirDistinct(mem: Mem, root: nat, dir: map<nat, nat>, v: nat)
    requires DirOk(mem, root, dir) && v in dir
    ensures dir[v] in dir.Values
  {
  }

  lemma NoFrames()
    ensures UserFrames([]) == {}
  {
  }

  lemma LeafHasTable(mem: Mem, root: nat, dir: map<nat, nat>, trans: map<nat, Leaf>, vpn: nat)
    requires Space(mem, root, dir, trans) && vpn in trans
    ensures vpn < VPN_LIMIT && vpn / 1024 in dir
  {
  }

  lemma LayoutEnd(end: nat, user: seq<Leaf>)
    requires KERNEL_PAGE <= end <= VPN_LIMIT
    ensures Layout(end, user, |user|) == KernelMap(end)
  {
    hide KernelMap;
    assert UserMap(user, |user|) == map[];
  }

  // ----- fork -----

  /** The child has the parent's pages, page by page, with the parent's permissions. */
  ghost predicate Forked(mem: Mem, parent: AddressSpace, child: AddressSpace) {
    |child.user| == |parent.user| && Copied(mem, parent.user, child.user)
  }

  lemma SpaceSize(mem: Mem, end: nat, a: AddressSpace)
    requires SpaceOk(mem, end, a)
    ensures |a.user| <= USER_LIMIT && Owned(a) <= mem.Keys && KERNEL_PAGE <= end <= VPN_LIMIT
  {
  }

  lemma NothingCopied(mem: Mem, user: seq<Leaf>, copy: seq<Leaf>)
    requires copy == []
    ensures Copied(mem, user, copy)
  {
  }

  /** What `process_fork` finds in the parent's tables for user page `i`. */
  lemma UserEntry(mem: Mem, end: nat, a: AddressSpace, i: nat)
    requires SpaceOk(mem, end, a) && i < |a.user|
    ensures a.root in mem && (USER_PAGE + i) / 1024 in a.dir && (USER_PAGE + i) / 1024 < 1024
    ensures a.dir[(USER_PAGE + i) / 1024] in mem
    ensures Bit(ReadWord(mem[a.root], (USER_PAGE + i) / 1024), PAGE_V)
    ensures ReadWord(mem[a.root], (USER_PAGE + i) / 1024) / 1024 == a.dir[(USER_PAGE + i) / 1024]
    ensures var pte := ReadWord(mem[a.dir[(USER_PAGE + i) / 1024]], (USER_PAGE + i) % 1024);
      Bit(pte, PAGE_V) && Decode(pte) == a.user[i]
    ensures a.user[i].ppn in Owned(a) && a.user[i].ppn in mem && OpenToUser(a.user[i].flags)
  {
    hide Space, Tables, Layout, ReadWord, Bit, OpenToUser;
    var vpn, trans := USER_PAGE + i, Layout(end, a.user, 0);
    LayoutAt(end, a.user, i);
    LeafHasTable(mem, a.root, a.dir, trans, vpn);
    RootEntry(mem, a.root, a.dir, trans, vpn / 1024);
    LeafEntry(mem, a.root, a.dir, trans, vpn);
    UserFramesAre(a.user);
  }

  lemma LayoutAt(end: nat, user: seq<Leaf>, i: nat)
    requires KERNEL_PAGE <= end <= VPN_LIMIT && i < |user|
    ensures USER_PAGE + i in Layout(end, user, 0) && Layout(end, user, 0)[USER_PAGE + i] == user[i]
  {
    hide KernelMap;
  }

  /** Dropping the valid bit and letting `map_page` put it back. */
  lemma UserFlags(m: Leaf)
    ensures var flags := WithoutValid(m.flags);
      flags < 1024 && OpenToUser(flags) == OpenToUser(m.flags) && WithValid(flags) == m.flags
  {
  }

  lemma CopiedAt(mem: Mem, user: seq<Leaf>, copy: seq<Leaf>, i: nat)
    requires i < |copy| <= |user| && Copied(mem, user, copy)
    ensures copy[i].flags == user[i].flags && copy[i].ppn in UserFrames(copy)
    ensures copy[i].ppn in mem && user[i].ppn in mem && mem[copy[i].ppn] == mem[user[i].ppn]
  {
    UserFramesAre(copy);
  }

  lemma UserPageOwned(a: AddressSpace, i: nat)
    requires i < |a.user|
    ensures a.user[i].ppn in Owned(a)
  {
    UserFramesAre(a.user);
  }

  lemma CopiedGrows(mem: Mem, next: Mem, parent: AddressSpace, copy: seq<Leaf>, grown: seq<Leaf>, before: set<nat>)
    requires |copy| < |parent.user| && Copied(mem, parent.user, copy) && next.Keys == mem.Keys && Owned(parent) <= before
    requires Grew(copy, grown, WithoutValid(parent.user[|copy|].flags)) && parent.user[|copy|].ppn in mem
    requires grown[|copy|].ppn in next && next[grown[|copy|].ppn] == mem[parent.user[|copy|].ppn]
    requires forall f :: f in mem && (f in before || f in UserFrames(copy)) ==> next[f] == mem[f]
    ensures Copied(next, parent.user, grown)
  {
    hide Bit, OpenToUser, Owned, UserFrames, WithValid, WithoutValid;
    UserFlags(parent.user[|copy|]);
    UserPageOwned(parent, |copy|);
    forall i: nat | i < |grown| ensures SamePage(next, parent.user[i], grown[i]) {
      if i < |copy| {
        CopiedAt(mem, parent.user, copy, i);
        UserPageOwned(parent, i);
        assert grown[..|copy|][i] == grown[i];
        assert next[grown[i].ppn] == mem[copy[i].ppn] == mem[parent.user[i].ppn] == next[parent.user[i].ppn];
      } else {
        assert i == |copy|;
        assert parent.user[i].ppn in before;
      }
    }
    SamePages(next, parent.user, grown);
  }

  ghost predicate SamePage(mem: Mem, m: Leaf, n: Leaf) {
    n.flags == m.flags && n.ppn in mem && m.ppn in mem && mem[n.ppn] == mem[m.ppn]
  }

  lemma SamePages(mem: Mem, user: seq<Leaf>, copy: seq<Leaf>)
    requires |copy| <= |user| && forall i: nat :: i < |copy| ==> SamePage(mem, user[i], copy[i])
    ensures Copied(mem, user, copy)
  {
  }

  // ----- what the hardware sees -----

  /** A complete space translates user pages to its own frames and the rest as the kernel map says. */
  lemma SpaceView(mem: Mem, end: nat, a: AddressSpace, vpn: nat)
    requires SpaceOk(mem, end, a) && vpn < VPN_LIMIT
    ensures KERNEL_PAGE <= end <= VPN_LIMIT && |a.user| <= USER_LIMIT
    ensures Translate(mem, a.root, vpn) ==
      if USER_PAGE <= vpn < USER_PAGE + |a.user| then Some(a.user[vpn - USER_PAGE])
      else if vpn in KernelMap(end) then Some(KernelMap(end)[vpn])
      else None
  {
    hide Space, Translate, KernelMap, Bit;
    SpaceTranslates(mem, a.root, a.dir, Layout(end, a.user, 0), vpn);
    if vpn in KernelMap(end) {
      KernelMapVisible(end, vpn);
    }
  }

  /** No process sees any change when frames outside those in use before are filled. */
  lemma OthersUntouched(mem: Mem, next: Mem, end: nat, a: AddressSpace, used: set<nat>, vpn: nat)
    requires SpaceOk(mem, end, a) && Owned(a) <= used && Unchanged(mem, next, used) && vpn < VPN_LIMIT
    ensures Translate(next, a.root, vpn) == Translate(mem, a.root, vpn)
    ensures USER_PAGE <= vpn < USER_PAGE + |a.user| ==>
      && Translate(mem, a.root, vpn).Some?
      && var f := Translate(mem, a.root, vpn).value.ppn;
      f in mem && f in next && next[f] == mem[f]
  {
    hide Translate, KernelMap, Space;
    SpaceOkFrame(mem, next, end, a);
    SpaceView(mem, end, a, vpn);
    SpaceView(next, end, a, vpn);
    UserFramesAre(a.user);
  }

  /**
   Fork isolation: every user page of the child goes, with the parent's flags, to
   a frame that nobody used, holding the parent's bytes; every other page goes
   where the parent's goes.
   */
  lemma ForkIsolation(mem: Mem, next: Mem, end: nat, parent: AddressSpace, child: AddressSpace, used: set<nat>, vpn: nat)
    requires SpaceOk(mem, end, parent) && SpaceOk(next, end, child) && Forked(next, parent, child)
    requires Owned(parent) <= used && Owned(child) !! used && Unchanged(mem, next, used) && vpn < VPN_LIMIT
    ensures if USER_PAGE <= vpn < USER_PAGE + |parent.user| then
        && Translate(mem, parent.root, vpn).Some? && Translate(next, child.root, vpn).Some?
        && var p, c := Translate(mem, parent.root, vpn).value, Translate(next, child.root, vpn).value;
        && c.flags == p.flags && c.ppn !in used && c.ppn in next && p.ppn in mem && next[c.ppn] == mem[p.ppn]
      else Translate(next, child.root, vpn) == Translate(mem, parent.root, vpn)
  {
    hide Translate, KernelMap, Space, SpaceOk;
    SpaceView(mem, end, parent, vpn);
    SpaceView(next, end, child, vpn);
    OthersUntouched(mem, next, end, parent, used, vpn);
    UserFramesAre(child.user);
  }

  /**
   Exec replaces the image exactly: the user region holds the zero-padded pages of
   the new image, with user permissions, and nothing of the old one; every other
   page translates as before.
   */
  lemma ExecExact(mem: Mem, next: Mem, end: nat, a: AddressSpace, b: AddressSpace, image: seq<byte>, vpn: nat)
    requires SpaceOk(mem, end, a) && SpaceOk(next, end, b) && b.root == a.root
    requires |b.user| == PageCount(image) && Loaded(next, b.user, image) && vpn < VPN_LIMIT
    ensures var i, t := vpn - USER_PAGE, Translate(next, b.root, vpn);
      if 0 <= i < PageCount(image) then
        t.Some? && t.value.flags == VRWXU && t.value.ppn in next && next[t.value.ppn] == ImagePage(image, i)
      else if 0 <= i < USER_LIMIT then t.None?
      else t == Translate(mem, a.root, vpn)
  {
    hide Translate, KernelMap, Space, SpaceOk;
    SpaceView(mem, end, a, vpn);
    SpaceView(next, end, b, vpn);
  }

  /**
   A loaded process reads its image byte for byte from address 0x1000000 on, then
   zeros up to the end of the last page, which is the first that holds it all.
   */
  lemma ImageByteForByte(mem: Mem, end: nat, a: AddressSpace, image: seq<byte>, k: nat)
    requires SpaceOk(mem, end, a) && |a.user| == PageCount(image) && Loaded(mem, a.user, image) && k < 4096 * |a.user|
    ensures |image| <= 4096 * |a.user| < |image| + 4096
    ensures 0x1000 + k / 4096 < VPN_LIMIT
    ensures var t := Translate(mem, a.root, 0x1000 + k / 4096);
      t.Some? && t.value.ppn in mem && mem[t.value.ppn][k % 4096] == if k < |image| then image[k] else 0
  {
    hide Translate, KernelMap, Space, SpaceOk;
    var i := k / 4096;
    SpaceSize(mem, end, a);
    SpaceView(mem, end, a, 0x1000 + i);
    LoadedAt(mem, a.user, image, i);
    assert i * PAGE_SIZE + k % 4096 == k;
    assert ImagePage(image, i)[k % 4096] == if k < |image| then image[k] else 0;
  }

  class Kernel {
    const ram: Ram
    /** First page after free RAM. */
    const end: nat
    var slots: seq<Slot>
    /** The address space of each slot that has one. */
    ghost var spaces: seq<Option<AddressSpace>>
    /** Frames allocated for a process that was never made. */
    ghost var leaked: set<nat>

    ghost predicate Valid()
      reads this, ram, ram.bitmap
    {
      ram.Valid() && KERNEL_PAGE <= end <= VPN_LIMIT && KernelOk(ram.mem, ram.used, end, slots, spaces, leaked)
    }

    lemma InUseHasSpace()
      requires Valid()
      ensures |spaces| == |slots| && forall i :: 0 <= i < |slots| ==> (slots[i].inUse <==> spaces[i].Some?)
    {
      hide SpaceOk, Owned;
    }

    /** Only slot `i`'s space changed: every other process keeps its memory. */
    twostate lemma Spared(i: nat)
      requires old(Valid()) && i < |old(spaces)| == |spaces| && spaces == old(spaces)[i := spaces[i]]
      requires Unchanged(old(ram.mem), ram.mem, old(ram.used) - OwnedBy(old(spaces), i))
      ensures forall j: nat :: j < |spaces| && j != i ==> SameSpace(old(ram.mem), old(spaces), ram.mem, spaces, j)
    {
      hide SpaceOk, Owned, SameSpace, Unchanged;
      forall j: nat | j < |spaces| && j != i ensures SameSpace(old(ram.mem), old(spaces), ram.mem, spaces, j) {
        OthersSame(old(ram.mem), ram.mem, old(ram.used), old(spaces), old(leaked), spaces, i, j);
      }
    }

    /** No space changed, nor any frame in use. */
    twostate lemma AllSpared()
      requires old(Valid()) && spaces == old(spaces) && Unchanged(old(ram.mem), ram.mem, old(ram.used))
      ensures forall j: nat :: j < |spaces| ==> SameSpace(old(ram.mem), old(spaces), ram.mem, spaces, j)
    {
      hide SpaceOk, Owned;
    }

    constructor (ram: Ram, end: nat, n: nat)
      requires ram.Valid() && ram.used == {} && KERNEL_PAGE <= end <= VPN_LIMIT
      ensures Valid() && leaked == {} && |slots| == n && this.ram == ram && this.end == end
      ensures forall i :: 0 <= i < n ==> spaces[i].None?
    {
      this.ram, this.end := ram, end;
      slots := seq(n, _ => EMPTY_SLOT);
      spaces := seq(n, _ => None);
      leaked := {};
    }

    // ----- building -----

    /** One identity-mapping loop of `create_process` and `process_fork`. */
    method MapRange(root: nat, lo: nat, hi: nat, flags: nat, ghost dir: map<nat, nat>, ghost trans: map<nat, Leaf>, ghost before: set<nat>)
      returns (ok: bool, ghost d: map<nat, nat>)
      requires ram.Valid() && lo <= hi <= VPN_LIMIT && flags < 1024
      requires Space(ram.mem, root, dir, trans)
      requires ram.used == before + Tables(root, dir) && before !! Tables(root, dir)
      modifies ram`mem, ram`used, ram.bitmap
      ensures ram.Valid()
      ensures !ok ==> ram.used == ram.mem.Keys
      ensures ok ==>
        && Space(ram.mem, root, d, trans + Identity(lo, hi, flags))
        && ram.used == before + Tables(root, d) && before !! Tables(root, d)
        && forall f :: f in ram.mem && f in before ==> ram.mem[f] == old(ram.mem)[f]
    {
      hide Space, Tables, Identity, Bit, MapsTo;
      d := dir;
      var p := lo;
      assert trans + Identity(lo, lo, flags) == trans;
      while p < hi
        invariant lo <= p <= hi && ram.Valid()
        invariant Space(ram.mem, root, d, trans + Identity(lo, p, flags))
        invariant ram.used == before + Tables(root, d) && before !! Tables(root, d)
        invariant forall f :: f in ram.mem && f in before ==> ram.mem[f] == old(ram.mem)[f]
      {
        IdentityGrows(lo, p, flags, trans);
        PageAddress(p);
        ok, d := ram.MapPage(root, p * PAGE_SIZE, p * PAGE_SIZE, flags, d, trans + Identity(lo, p, flags));
        if !ok {
          return;
        }
        p := p + 1;
      }
      ok := true;
    }

    /** A fresh root table with the kernel, MMIO and RTC regions mapped. */
    method BuildKernelTable() returns (root: Option<nat>, ghost dir: map<nat, nat>)
      requires ram.Valid() && KERNEL_PAGE <= end <= VPN_LIMIT
      modifies ram`mem, ram`used, ram.bitmap
      ensures ram.Valid()
      ensures root.None? ==> ram.used == ram.mem.Keys
      ensures root.Some? ==>
        && Space(ram.mem, root.value, dir, KernelMap(end))
        && ram.used == old(ram.used) + Tables(root.value, dir) && old(ram.used) !! Tables(root.value, dir)
        && forall f :: f in ram.mem && f in old(ram.used) ==> ram.mem[f] == old(ram.mem)[f]
    {
      hide Space, Identity;
      ghost var before := ram.used;
      dir := map[];
      root := ram.AllocPage();
      if root.None? {
        return;
      }
      EmptySpace(ram.mem, root.value);
      assert Tables(root.value, dir) == {root.value};
      assert map[] + Identity(KERNEL_PAGE, end, KERNEL_FLAGS) == Identity(KERNEL_PAGE, end, KERNEL_FLAGS);
      var ok;
      ok, dir := MapRange(root.value, KERNEL_PAGE, end, KERNEL_FLAGS, dir, map[], before);
      if !ok {
        return None, dir;
      }
      ok, dir := MapRange(root.value, MMIO_LO, MMIO_HI, DEVICE_FLAGS, dir, Identity(KERNEL_PAGE, end, KERNEL_FLAGS), before);
      if !ok {
        return None, dir;
      }
      ok, dir := MapRange(root.value, RTC_LO, RTC_HI, DEVICE_FLAGS, dir,
                          Identity(KERNEL_PAGE, end, KERNEL_FLAGS) + Identity(MMIO_LO, MMIO_HI, DEVICE_FLAGS), before);
      if !ok {
        return None, dir;
      }
    }

    /**
     Allocate a frame, fill it, and map it as the next user page: the body of the
     image loops of `create_process` and `process_exec` and of the copy loop of
     `process_fork`.
     */
    method AddUserPage(root: nat, i: nat, content: Frame, flags: nat, ghost a: AddressSpace, ghost before: set<nat>)
      returns (ok: bool, ghost b: AddressSpace)
      requires ram.Valid() && flags < 1024 && OpenToUser(flags)
      requires SpaceOk(ram.mem, end, a) && root == a.root && i == |a.user| < USER_LIMIT
      requires ram.used == before + Owned(a) && before !! Owned(a)
      modifies ram`mem, ram`used, ram.bitmap
      ensures ram.Valid()
      ensures !ok ==> ram.used == ram.mem.Keys
      ensures ok ==>
        && SpaceOk(ram.mem, end, b) && b.root == root
        && Grew(a.user, b.user, flags) && b.user[i].ppn !in old(ram.used)
        && b.user[i].ppn in ram.mem && ram.mem[b.user[i].ppn] == content
        && ram.used == before + Owned(b) && before !! Owned(b)
        && forall f :: f in ram.mem && (f in before || f in UserFrames(a.user)) ==> ram.mem[f] == old(ram.mem)[f]
    {
      hide SpaceOk, Owned, Space, Tables, Layout, Bit, OpenToUser, UserFrames, WithValid;
      OwnedParts(ram.mem, end, a, before);
      b := a;
      ghost var trans := Layout(end, a.user, 0);
      ghost var mem0 := ram.mem;
      var page := ram.AllocPage();
      if page.None? {
        return false, b;
      }
      ram.mem := ram.mem[page.value := content];
      SpaceFrame(mem0, ram.mem, root, a.dir, trans);
      PageAddress(USER_PAGE + i);
      PageAddress(page.value);
      ghost var d;
      ok, d := ram.MapPage(root, (USER_PAGE + i) * PAGE_SIZE, page.value * PAGE_SIZE, flags, a.dir, trans);
      if !ok {
        return;
      }
      PageJoins(before, Tables(root, a.dir), Tables(root, d), UserFrames(a.user), page.value);
      ghost var leaf := MapsTo(page.value, flags);
      b := AddressSpace(root, d, a.user + [leaf]);
      assert leaf.ppn == page.value;
      ValidKeepsOpen(flags);
      SpaceOkGrows(ram.mem, end, a, b, leaf);
    }

    /** The image loop of `create_process` and `process_exec`. */
    method MapImage(root: nat, image: seq<byte>, ghost bare: AddressSpace, ghost before: set<nat>)
      returns (ok: bool, ghost a: AddressSpace)
      requires ram.Valid() && PageCount(image) <= USER_LIMIT
      requires SpaceOk(ram.mem, end, bare) && root == bare.root && bare.user == []
      requires ram.used == before + Owned(bare) && before !! Owned(bare)
      modifies ram`mem, ram`used, ram.bitmap
      ensures ram.Valid()
      ensures !ok ==> ram.used == ram.mem.Keys
      ensures ok ==>
        && SpaceOk(ram.mem, end, a) && a.root == root
        && |a.user| == PageCount(image) && Loaded(ram.mem, a.user, image)
        && ram.used == before + Owned(a) && before !! Owned(a)
        && forall f :: f in ram.mem && f in before ==> ram.mem[f] == old(ram.mem)[f]
    {
      hide SpaceOk, Owned, Bit, OpenToUser, MapsTo;
      a := bare;
      var i := 0;
      while i * PAGE_SIZE < |image|
        invariant ram.Valid() && i == |a.user| <= PageCount(image)
        invariant SpaceOk(ram.mem, end, a) && a.root == root && Loaded(ram.mem, a.user, image)
        invariant ram.used == before + Owned(a) && before !! Owned(a)
        invariant forall f :: f in ram.mem && f in before ==> ram.mem[f] == old(ram.mem)[f]
      {
        UserBits();
        ghost var user, mem0 := a.user, ram.mem;
        ok, a := AddUserPage(root, i, ImagePage(image, i), USER_FLAGS, a, before);
        if !ok {
          return;
        }
        LoadedGrows(mem0, ram.mem, user, image, a.user);
        i := i + 1;
      }
      return true, a;
    }

    // ----- freeing -----

    /** `free_user_pages_only`, also the first loop of `free_process_memory`; it cannot panic. */
    method FreeUserPages(root: nat, n: nat, ghost a: AddressSpace, ghost before: set<nat>)
      requires ram.Valid() && SpaceOk(ram.mem, end, a) && root == a.root && n == |a.user|
      requires ram.used == before + Owned(a) && before !! Owned(a)
      modifies ram`mem, ram`used, ram.bitmap
      ensures ram.Valid() && ram.mem.Keys == old(ram.mem.Keys)
      ensures Space(ram.mem, root, a.dir, KernelMap(end)) && Tables(root, a.dir) <= ram.mem.Keys
      ensures ram.used == before + Tables(root, a.dir) && before !! Tables(root, a.dir)
      ensures forall f :: f in ram.mem && f in before ==> ram.mem[f] == old(ram.mem)[f]
    {
      hide SpaceOk, Owned, Space, Tables, Layout, KernelMap, Distinct;
      OwnedParts(ram.mem, end, a, before);
      FreeLoop(root, n, a.dir, a.user, before + Tables(root, a.dir));
      LayoutEnd(end, a.user);
    }

    method FreeLoop(root: nat, n: nat, ghost dir: map<nat, nat>, ghost user: seq<Leaf>, ghost kept: set<nat>)
      requires ram.Valid() && KERNEL_PAGE <= end <= VPN_LIMIT && n == |user| <= USER_LIMIT && Distinct(user)
      requires Space(ram.mem, root, dir, Layout(end, user, 0))
      requires ram.used == kept + UserFrames(user) && kept !! UserFrames(user)
      modifies ram`mem, ram`used, ram.bitmap
      ensures ram.Valid() && ram.mem.Keys == old(ram.mem.Keys) && ram.used == kept
      ensures Space(ram.mem, root, dir, Layout(end, user, n))
      ensures forall f :: f in ram.mem && f !in Tables(root, dir) ==> ram.mem[f] == old(ram.mem)[f]
    {
      hide Ram.Valid, Space, Tables, UserFrames, Layout, Distinct;
      ghost var left := UserFrames(user);
      assert user[0..] == user;
      for i := 0 to n
        invariant ram.Valid() && ram.mem.Keys == old(ram.mem.Keys)
        invariant Space(ram.mem, root, dir, Layout(end, user, i))
        invariant left == UserFrames(user[i..]) && kept !! left && ram.used == kept + left
        invariant forall f :: f in ram.mem && f !in Tables(root, dir) ==> ram.mem[f] == old(ram.mem)[f]
      {
        LayoutShrinks(end, user, i);
        TailFrames(user, i);
        FreeUserPage(root, USER_PAGE + i, dir, Layout(end, user, i));
        left := left - {user[i].ppn};
      }
      assert user[n..] == [];
      NoFrames();
    }

    /** One page of that loop. */
    method FreeUserPage(root: nat, vpn: nat, ghost dir: map<nat, nat>, ghost trans: map<nat, Leaf>)
      requires ram.Valid() && Space(ram.mem, root, dir, trans) && vpn in trans && trans[vpn].ppn in ram.used
      modifies ram`mem, ram`used, ram.bitmap
      ensures ram.Valid() && ram.used == old(ram.used) - {trans[vpn].ppn} && ram.mem.Keys == old(ram.mem.Keys)
      ensures Space(ram.mem, root, dir, trans - {vpn})
      ensures forall f :: f in ram.mem && f !in Tables(root, dir) ==> ram.mem[f] == old(ram.mem)[f]
    {
      hide Space, Tables, ReadWord, WriteWord, Bit;
      LeafHasTable(ram.mem, root, dir, trans, vpn);
      var vpn1, vpn0 := vpn / 1024, vpn % 1024;
      RootEntry(ram.mem, root, dir, trans, vpn1);
      if !Bit(ReadWord(ram.mem[root], vpn1), PAGE_V) {
        assert false;
      }
      var table0 := ReadWord(ram.mem[root], vpn1) / 1024;
      LeafEntry(ram.mem, root, dir, trans, vpn);
      if !Bit(ReadWord(ram.mem[table0], vpn0), PAGE_V) {
        assert false;
      }
      FreeOne(ReadWord(ram.mem[table0], vpn0) / 1024);
      ghost var before := ram.mem;
      ram.mem := ram.mem[table0 := WriteWord(ram.mem[table0], vpn0, 0)];
      ClearLeaf(before, root, dir, trans, vpn, ram.mem);
    }

    /** The second loop of `free_process_memory` and its last free: the tables themselves. */
    method FreeTables(root: nat, ghost dir: map<nat, nat>, ghost kept: set<nat>)
      requires ram.Valid() && DirOk(ram.mem, root, dir)
      requires ram.used == kept + Tables(root, dir) && kept !! Tables(root, dir)
      modifies ram`mem, ram`used, ram.bitmap
      ensures ram.Valid() && ram.used == kept && ram.mem.Keys == old(ram.mem.Keys) && root !in kept
      ensures forall f :: f in ram.mem && f != root ==> ram.mem[f] == old(ram.mem)[f]
    {
      hide Ram.Valid, ReadWord, WriteWord, Bit, DirOk, Tables;
      ghost var rest := dir;
      SplitTables(ram.mem, root, dir);
      for v := 0 to 1024
        invariant ram.Valid() && ram.mem.Keys == old(ram.mem.Keys)
        invariant DirOk(ram.mem, root, rest) && forall w :: w in rest ==> w >= v
        invariant ram.used == kept + {root} + rest.Values && kept + {root} !! rest.Values
        invariant forall f :: f in ram.mem && f != root ==> ram.mem[f] == old(ram.mem)[f]
      {
        FreeTable(root, v, rest, kept + {root});
        rest := rest - {v};
      }
      DirBounded(ram.mem, root, rest);
      assert rest == map[];
      FreeOne(root);
    }

    method FreeTable(root: nat, v: nat, ghost dir: map<nat, nat>, ghost kept: set<nat>)
      requires ram.Valid() && DirOk(ram.mem, root, dir) && v < 1024
      requires ram.used == kept + dir.Values && kept !! dir.Values
      modifies ram`mem, ram`used, ram.bitmap
      ensures ram.Valid() && ram.mem.Keys == old(ram.mem.Keys)
      ensures DirOk(ram.mem, root, dir - {v})
      ensures ram.used == kept + (dir - {v}).Values && kept !! (dir - {v}).Values
      ensures forall f :: f in ram.mem && f != root ==> ram.mem[f] == old(ram.mem)[f]
    {
      hide ReadWord, WriteWord, Bit, DirOk, Tables;
      DirEntry(ram.mem, root, dir, v);
      if !Bit(ReadWord(ram.mem[root], v), PAGE_V) {
        assert dir - {v} == dir;
        return;
      }
      DirDistinct(ram.mem, root, dir, v);
      FreeOne(ReadWord(ram.mem[root], v) / 1024);
      ghost var before := ram.mem;
      ram.mem := ram.mem[root := WriteWord(ram.mem[root], v, 0)];
      ClearLink(before, root, dir, v, ram.mem);
    }

    /** `free_process_memory`: everything the address space owned becomes free. */
    method FreeSpace(root: nat, n: nat, ghost a: AddressSpace, ghost before: set<nat>)
      requires ram.Valid() && SpaceOk(ram.mem, end, a) && root == a.root && n == |a.user|
      requires ram.used == before + Owned(a) && before !! Owned(a)
      modifies ram`mem, ram`used, ram.bitmap
      ensures ram.Valid() && ram.used == before && ram.mem.Keys == old(ram.mem.Keys)
      ensures forall f :: f in ram.mem && f in before ==> ram.mem[f] == old(ram.mem)[f]
    {
      FreeUserPages(root, n, a, before);
      FreeTables(root, a.dir, before);
    }

    /** `free_pages(paddr, 1)` of a page that is in use: the double-free panic is unreachable. */
    method FreeOne(page: nat)
      requires ram.Valid() && page in ram.used
      modifies ram`used, ram.bitmap
      ensures ram.Valid() && ram.used == old(ram.used) - {page} && ram.mem == old(ram.mem)
    {
      PageAddress(page);
      assert Frames(page, 1) == {page};
      var ok := ram.FreePages(page * PAGE_SIZE, 1);
      assert ok;
    }

    // ----- the operations -----

    method FindFreeSlot() returns (r: Option<nat>)
      ensures r.None? ==> forall i :: 0 <= i < |slots| ==> slots[i].inUse
      ensures r.Some? ==> r.value < |slots| && !slots[r.value].inUse && forall i :: 0 <= i < r.value ==> slots[i].inUse
    {
      for i := 0 to |slots|
        invariant forall j :: 0 <= j < i ==> slots[j].inUse
      {
        if !slots[i].inUse {
          return Some(i);
        }
      }
      return None;
    }

    /** The allocations of `create_process`: kernel table, then image. */
    method BuildSpace(image: seq<byte>) returns (root: Option<nat>, ghost a: AddressSpace)
      requires ram.Valid() && KERNEL_PAGE <= end <= VPN_LIMIT && PageCount(image) <= USER_LIMIT
      modifies ram`mem, ram`used, ram.bitmap
      ensures ram.Valid()
      ensures root.None? ==> ram.used == ram.mem.Keys
      ensures root.Some? ==>
        && SpaceOk(ram.mem, end, a) && a.root == root.value
        && |a.user| == PageCount(image) && Loaded(ram.mem, a.user, image)
        && ram.used == old(ram.used) + Owned(a) && old(ram.used) !! Owned(a)
        && Unchanged(old(ram.mem), ram.mem, old(ram.used))
    {
      hide Space, SpaceOk, KernelMap, Tables, Owned, Loaded;
      ghost var before := ram.used;
      ghost var dir;
      root, dir := BuildKernelTable();
      a := AddressSpace(0, map[], []);
      if root.None? {
        return;
      }
      BareSpaceOk(ram.mem, end, root.value, dir);
      var ok;
      ok, a := MapImage(root.value, image, AddressSpace(root.value, dir, []), before);
      if !ok {
        root := None;
      }
    }

    /**
     `create_process`.  `rootEntry` tells whether `fs_get_root_entry` succeeds.
     The only panic is memory exhaustion.  When the root entry is missing the
     slot's page table was never stored, so recycling it frees nothing.
     */
    method CreateProcess(image: seq<byte>, rootEntry: bool) returns (panicked: bool, r: Option<nat>)
      requires Valid() && PageCount(image) <= USER_LIMIT
      modifies this, ram`mem, ram`used, ram.bitmap
      ensures panicked ==> ram.used == ram.mem.Keys
      ensures !panicked ==> Valid() && Unchanged(old(ram.mem), ram.mem, old(ram.used))
      ensures !panicked ==> (r.Some? <==> rootEntry && exists i :: 0 <= i < |old(slots)| && !old(slots)[i].inUse)
      ensures !panicked && r.None? ==> slots == old(slots) && spaces == old(spaces)
      ensures !panicked ==>
        (leaked == old(leaked) <==> rootEntry || forall i :: 0 <= i < |old(slots)| ==> old(slots)[i].inUse)
      ensures !panicked && r.Some? ==>
        && r.value < |slots| && |slots| == |old(slots)| && spaces[r.value].Some?
        && old(spaces)[r.value].None? && spaces == old(spaces)[r.value := spaces[r.value]]
        && (forall j :: 0 <= j < r.value ==> old(slots)[j].inUse)
        && var user := spaces[r.value].value.user;
        |user| == PageCount(image) && Loaded(ram.mem, user, image)
    {
      hide SpaceOk, Owned, Loaded, KernelOk;
      var slot := FindFreeSlot();
      if slot.None? {
        return false, None;
      }
      FreeSlotHasNoSpace(ram.mem, ram.used, end, slots, spaces, leaked, slot.value);
      ghost var before, mem0 := ram.used, ram.mem;
      ghost var a;
      var root;
      root, a := BuildSpace(image);
      if root.None? {
        return true, None;
      }
      if !rootEntry {
        Lose(mem0, ram.mem, before, end, slots, spaces, leaked, Owned(a));
        LeakedIsUsed(mem0, before, end, slots, spaces, leaked);
        RootIsOwned(a, leaked, before);
        leaked := leaked + Owned(a);
        return false, None;
      }
      Install(mem0, ram.mem, before, end, slots, spaces, leaked, slot.value, a);
      slots := slots[slot.value := Slot(true, root, PageCount(image))];
      spaces := spaces[slot.value := Some(a)];
      return false, slot;
    }

    /** The copy loop of `process_fork`; the entries it checks are always there. */
    method CopyPages(root: nat, parentRoot: nat, n: nat, ghost parent: AddressSpace, ghost bare: AddressSpace, ghost before: set<nat>)
      returns (ok: bool, ghost a: AddressSpace)
      requires ram.Valid() && SpaceOk(ram.mem, end, bare) && root == bare.root && bare.user == []
      requires SpaceOk(ram.mem, end, parent) && parentRoot == parent.root && n == |parent.user| && Owned(parent) <= before
      requires ram.used == before + Owned(bare) && before !! Owned(bare)
      modifies ram`mem, ram`used, ram.bitmap
      ensures ram.Valid()
      ensures !ok ==> ram.used == ram.mem.Keys
      ensures ok ==>
        && SpaceOk(ram.mem, end, a) && a.root == root && |a.user| == n && Copied(ram.mem, parent.user, a.user)
        && ram.used == before + Owned(a) && before !! Owned(a)
        && Unchanged(old(ram.mem), ram.mem, before)
    {
      hide SpaceOk, Owned, Space, Tables, Layout, Bit, OpenToUser, MapsTo, ReadWord, Copied;
      a := bare;
      SpaceSize(ram.mem, end, parent);
      NothingCopied(ram.mem, parent.user, a.user);
      for i := 0 to n
        invariant ram.Valid() && SpaceOk(ram.mem, end, a) && a.root == root && |a.user| == i
        invariant SpaceOk(ram.mem, end, parent) && Copied(ram.mem, parent.user, a.user)
        invariant ram.used == before + Owned(a) && before !! Owned(a)
        invariant Unchanged(old(ram.mem), ram.mem, before)
      {
        UserEntry(ram.mem, end, parent, i);
        var vpn1, vpn0 := (USER_PAGE + i) / 1024, (USER_PAGE + i) % 1024;
        if !Bit(ReadWord(ram.mem[parentRoot], vpn1), PAGE_V) {
          assert false;
        }
        var table0 := ReadWord(ram.mem[parentRoot], vpn1) / 1024;
        if !Bit(ReadWord(ram.mem[table0], vpn0), PAGE_V) {
          assert false;
        }
        var pte := ReadWord(ram.mem[table0], vpn0);
        var flags := WithoutValid(pte % 1024);
        UserFlags(parent.user[i]);
        ghost var user, mem0 := a.user, ram.mem;
        ok, a := AddUserPage(root, i, ram.mem[pte / 1024], flags, a, before);
        if !ok {
          return;
        }
        SpaceOkFrame(mem0, ram.mem, end, parent);
        CopiedGrows(mem0, ram.mem, parent, user, a.user, before);
      }
      return true, a;
    }

    /** The allocations of `process_fork`: kernel table, then copies of the parent's pages. */
    method CopySpace(parentRoot: nat, n: nat, ghost parent: AddressSpace) returns (root: Option<nat>, ghost a: AddressSpace)
      requires ram.Valid() && SpaceOk(ram.mem, end, parent) && parentRoot == parent.root && n == |parent.user|
      requires Owned(parent) <= ram.used
      modifies ram`mem, ram`used, ram.bitmap
      ensures ram.Valid()
      ensures root.None? ==> ram.used == ram.mem.Keys
      ensures root.Some? ==>
        && SpaceOk(ram.mem, end, a) && a.root == root.value && |a.user| == n && Copied(ram.mem, parent.user, a.user)
        && ram.used == old(ram.used) + Owned(a) && old(ram.used) !! Owned(a)
        && Unchanged(old(ram.mem), ram.mem, old(ram.used))
    {
      hide SpaceOk, Owned, Copied, Space, Tables, KernelMap;
      SpaceSize(ram.mem, end, parent);
      ghost var before, mem0 := ram.used, ram.mem;
      ghost var dir;
      root, dir := BuildKernelTable();
      a := AddressSpace(0, map[], []);
      if root.None? {
        return;
      }
      BareSpaceOk(ram.mem, end, root.value, dir);
      SpaceOkFrame(mem0, ram.mem, end, parent);
      var ok;
      ok, a := CopyPages(root.value, parentRoot, n, parent, AddressSpace(root.value, dir, []), before);
      if !ok {
        root := None;
      }
    }

    /** The memory work of `process_fork`, run by the process in slot `cur`. */
    method Fork(cur: nat) returns (panicked: bool, r: Option<nat>)
      requires Valid() && cur < |slots| && slots[cur].inUse
      modifies this, ram`mem, ram`used, ram.bitmap
      ensures panicked ==> ram.used == ram.mem.Keys
      ensures !panicked ==> Valid() && leaked == old(leaked) && Unchanged(old(ram.mem), ram.mem, old(ram.used))
      ensures !panicked ==> (r.Some? <==> exists i :: 0 <= i < |old(slots)| && !old(slots)[i].inUse)
      ensures !panicked && r.None? ==> slots == old(slots) && spaces == old(spaces)
      ensures !panicked && r.Some? ==>
        && r.value < |slots| == |old(slots)| && cur < |spaces| == |old(spaces)| == |slots|
        && old(spaces)[r.value].None? && spaces == old(spaces)[r.value := spaces[r.value]]
        && spaces[r.value].Some? && old(spaces)[cur].Some?
        && Forked(ram.mem, old(spaces)[cur].value, spaces[r.value].value)
        && Owned(spaces[r.value].value) !! old(ram.used)
        && forall j :: 0 <= j < r.value ==> old(slots)[j].inUse
    {
      hide SpaceOk, Owned, KernelOk, Copied, Space, Tables;
      FreeSlotHasNoSpace(ram.mem, ram.used, end, slots, spaces, leaked, cur);
      var slot := FindFreeSlot();
      if slot.None? {
        return false, None;
      }
      FreeSlotHasNoSpace(ram.mem, ram.used, end, slots, spaces, leaked, slot.value);
      ghost var before, mem0, a := ram.used, ram.mem, spaces[cur].value;
      var n := slots[cur].userPages;
      var root;
      root, a := CopySpace(slots[cur].pageTable.value, n, spaces[cur].value);
      if root.None? {
        return true, None;
      }
      Install(mem0, ram.mem, before, end, slots, spaces, leaked, slot.value, a);
      slots := slots[slot.value := Slot(true, root, n)];
      spaces := spaces[slot.value := Some(a)];
      return false, slot;
    }

    /** The memory work of `process_exec` by the process in slot `cur`; false is the error return. */
    method Exec(cur: nat, image: seq<byte>) returns (panicked: bool, done: bool)
      requires Valid() && cur < |slots| && slots[cur].inUse && PageCount(image) <= USER_LIMIT
      modifies this, ram`mem, ram`used, ram.bitmap
      ensures panicked ==> ram.used == ram.mem.Keys
      ensures !panicked ==> Valid() && leaked == old(leaked)
      ensures !panicked ==> (done <==> image != [])
      ensures !panicked && !done ==> slots == old(slots) && spaces == old(spaces) && ram.mem == old(ram.mem) && ram.used == old(ram.used)
      ensures !panicked && done ==>
        && cur < |spaces| == |old(spaces)| && |slots| == |old(slots)| && old(spaces)[cur].Some? && spaces[cur].Some?
        && spaces == old(spaces)[cur := spaces[cur]]
        && spaces[cur].value.root == old(spaces)[cur].value.root
        && |spaces[cur].value.user| == PageCount(image) && Loaded(ram.mem, spaces[cur].value.user, image)
        && ram.used == old(ram.used) - old(OwnedBy(spaces, cur)) + OwnedBy(spaces, cur)
        && Unchanged(old(ram.mem), ram.mem, old(ram.used) - old(OwnedBy(spaces, cur)))
    {
      hide SpaceOk, Owned, KernelOk, Loaded, Space, Tables, KernelMap;
      FreeSlotHasNoSpace(ram.mem, ram.used, end, slots, spaces, leaked, cur);
      if image == [] {
        return false, false;
      }
      ghost var a, mem0, used0 := spaces[cur].value, ram.mem, ram.used;
      ghost var before := ram.used - Owned(a);
      var root := slots[cur].pageTable.value;
      FreeUserPages(root, slots[cur].userPages, a, before);
      BareSpaceOk(ram.mem, end, root, a.dir);
      ghost var b;
      var ok;
      ok, b := MapImage(root, image, AddressSpace(root, a.dir, []), before);
      if !ok {
        return true, false;
      }
      Uninstall(mem0, ram.mem, used0, end, slots, spaces, leaked, cur);
      Install(ram.mem, ram.mem, before, end, slots[cur := EMPTY_SLOT], spaces[cur := None], leaked, cur, b);
      assert spaces[cur := None][cur := Some(b)] == spaces[cur := Some(b)];
      slots := slots[cur := slots[cur].(userPages := PageCount(image))];
      assert slots == old(slots)[cur := EMPTY_SLOT][cur := Slot(true, Some(root), PageCount(image))];
      spaces := spaces[cur := Some(b)];
      return false, true;
    }

    /** The memory work of `recycle_process_slot`: it cannot panic. */
    method Recycle(i: nat)
      requires Valid() && i < |slots|
      modifies this, ram`mem, ram`used, ram.bitmap
      ensures Valid() && leaked == old(leaked) && |slots| == |old(slots)| && i < |old(spaces)|
      ensures spaces == old(spaces)[i := None] && ram.used == old(ram.used) - old(OwnedBy(spaces, i))
      ensures Unchanged(old(ram.mem), ram.mem, ram.used)
    {
      hide SpaceOk, Owned, KernelOk;
      FreeSlotHasNoSpace(ram.mem, ram.used, end, slots, spaces, leaked, i);
      ghost var mem0, used0 := ram.mem, ram.used;
      if slots[i].pageTable.Some? {
        FreeSpace(slots[i].pageTable.value, slots[i].userPages, spaces[i].value, ram.used - Owned(spaces[i].value));
      }
      assert ram.used == used0 - OwnedBy(spaces, i);
      Uninstall(mem0, ram.mem, used0, end, slots, spaces, leaked, i);
      slots := slots[i := EMPTY_SLOT];
      spaces := spaces[i := None];
    }

    /**
     Any sequence of these operations, on any slots, until a panic.  Exact
     ownership holds throughout, the only panic is memory exhaustion, and frames
     are leaked only by a creation that finds no root directory.
     */
    method Run(ops: seq<Op>) returns (panicked: bool)
      requires Valid() && forall k :: 0 <= k < |ops| && (ops[k].Create? || ops[k].ExecIn?) ==> PageCount(ops[k].image) <= USER_LIMIT
      modifies this, ram`mem, ram`used, ram.bitmap
      ensures panicked ==> ram.used == ram.mem.Keys
      ensures !panicked ==> Valid()
      ensures !panicked && (forall k :: 0 <= k < |ops| && ops[k].Create? ==> ops[k].rootEntry) ==> leaked == old(leaked)
    {
      hide KernelOk, SpaceOk, Owned;
      panicked := false;
      for k := 0 to |ops|
        invariant Valid() && !panicked
        invariant (forall j :: 0 <= j < k && ops[j].Create? ==> ops[j].rootEntry) ==> leaked == old(leaked)
      {
        match ops[k] {
          case Create(image, rootEntry) =>
            var r;
            panicked, r := CreateProcess(image, rootEntry);
          case ForkFrom(slot) =>
            if slot < |slots| && slots[slot].inUse {
              var r;
              panicked, r := Fork(slot);
            }
          case ExecIn(slot, image) =>
            if slot < |slots| && slots[slot].inUse {
              var done;
              panicked, done := Exec(slot, image);
            }
          case Reclaim(slot) =>
            if slot < |slots| {
              Recycle(slot);
            }
        }
        if panicked {
          return;
        }
      }
    }
  }
}
