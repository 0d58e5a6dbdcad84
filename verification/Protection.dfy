/**
 Who may touch which page: the access checks of section 4.3.2 of the RISC-V
 Privileged Architecture, version 1.12, over the address spaces of all processes.
 */
module Protection {
  import opened CTypes
  import opened PageTables
  import opened AddressSpaces
  import ProcessMemory

  datatype Access = Fetch | Load | Store

  /** The R, W or X bit of a leaf, by its position. */
  predicate Grants(flags: nat, access: Access) {
    match access
    case Load => Bit(flags, 2)
    case Store => Bit(flags, 4)
    case Fetch => Bit(flags, 8)
  }

  /** In user mode the leaf must also have the U bit. */
  predicate UserMay(mem: Mem, root: nat, vpn: nat, access: Access)
    requires vpn < VPN_LIMIT
  {
    var t := Translate(mem, root, vpn);
    t.Some? && Bit(t.value.flags, 16) && Grants(t.value.flags, access)
  }

  /** In supervisor mode a U leaf is open only to loads and stores, and only while `sum` is set. */
  predicate KernelMay(mem: Mem, root: nat, vpn: nat, access: Access, sum: bool)
    requires vpn < VPN_LIMIT
  {
    var t := Translate(mem, root, vpn);
    t.Some? && Grants(t.value.flags, access) && (Bit(t.value.flags, 16) ==> sum && access != Fetch)
  }

  /** The pages of a process's own image. */
  predicate UserPage(a: AddressSpace, vpn: nat) {
    0x1000 <= vpn < 0x1000 + |a.user|
  }

  /** Kernel memory, up to the end of free RAM. */
  predicate KernelPage(end: nat, vpn: nat) {
    0x80200 <= vpn < end
  }

  /** The virtio registers and the clock. */
  predicate DevicePage(vpn: nat) {
    0x10000 <= vpn < 0x10010 || vpn == 0x101
  }

  /** The bits of the three kinds of pages. */
  lemma LeafBits(access: Access)
    ensures !Bit(VRWX, 16) && Grants(VRWX, access)
    ensures !Bit(VRW, 16) && (Grants(VRW, access) <==> access != Fetch)
  {
  }

  lemma OpenGrants(flags: nat, access: Access)
    requires OpenToUser(flags)
    ensures Bit(flags, 16) && Grants(flags, access)
  {
  }

  /** User mode reaches exactly the process's own pages, for every kind of access, and faults on all others. */
  lemma UserModeReaches(mem: Mem, end: nat, a: AddressSpace, vpn: nat, access: Access)
    requires SpaceOk(mem, end, a) && vpn < VPN_LIMIT
    ensures UserMay(mem, a.root, vpn, access) <==> UserPage(a, vpn)
    ensures UserMay(mem, a.root, vpn, access) ==> Translate(mem, a.root, vpn).value.ppn == a.user[vpn - 0x1000].ppn
  {
    hide Translate, Grants, Bit, Space, KernelMap, OpenToUser;
    ProcessMemory.SpaceView(mem, end, a, vpn);
    KernelMapIs(end, vpn);
    LeafBits(access);
    if UserPage(a, vpn) {
      OpenGrants(a.user[vpn - 0x1000].flags, access);
    }
  }

  /**
   The kernel, under any process's tables, fetches from kernel memory only, loads
   and stores there and in device registers, and reaches user pages only for loads
   and stores and only on purpose; its own pages are where they say.
   */
  lemma KernelModeReaches(mem: Mem, end: nat, a: AddressSpace, vpn: nat, access: Access, sum: bool)
    requires SpaceOk(mem, end, a) && vpn < VPN_LIMIT
    ensures KernelMay(mem, a.root, vpn, access, sum) <==>
      || KernelPage(end, vpn)
      || (access != Fetch && (DevicePage(vpn) || (sum && UserPage(a, vpn))))
    ensures KernelPage(end, vpn) || DevicePage(vpn) ==>
      Translate(mem, a.root, vpn).Some? && Translate(mem, a.root, vpn).value.ppn == vpn
  {
    hide Translate, Grants, Bit, Space, KernelMap, OpenToUser;
    ProcessMemory.SpaceView(mem, end, a, vpn);
    KernelMapIs(end, vpn);
    LeafBits(access);
    if UserPage(a, vpn) {
      OpenGrants(a.user[vpn - 0x1000].flags, access);
    }
  }

  /** In every state of the memory half, whatever was created, forked, replaced or recycled. */
  lemma ProcessIsConfined(k: ProcessMemory.Kernel, i: nat, vpn: nat, access: Access, sum: bool)
    requires k.Valid() && i < |k.spaces| && k.spaces[i].Some? && vpn < VPN_LIMIT
    ensures var a := k.spaces[i].value;
      && (UserMay(k.ram.mem, a.root, vpn, access) <==> UserPage(a, vpn))
      && (KernelMay(k.ram.mem, a.root, vpn, access, sum) <==>
            KernelPage(k.end, vpn) || (access != Fetch && (DevicePage(vpn) || (sum && UserPage(a, vpn)))))
  {
    hide SpaceOk, Owned, UserMay, KernelMay;
    k.InUseHasSpace();
    UserModeReaches(k.ram.mem, k.end, k.spaces[i].value, vpn, access);
    KernelModeReaches(k.ram.mem, k.end, k.spaces[i].value, vpn, access, sum);
  }

  /** A user page is in a frame of its slot that holds no table. */
  lemma PageOwned(spaces: seq<Option<AddressSpace>>, mem: Mem, end: nat, i: nat, p: nat)
    requires i < |spaces| && spaces[i].Some? && SpaceOk(mem, end, spaces[i].value) && p < |spaces[i].value.user|
    ensures spaces[i].value.user[p].ppn in OwnedBy(spaces, i)
    ensures spaces[i].value.user[p].ppn !in Tables(spaces[i].value.root, spaces[i].value.dir)
  {
    hide Space, Tables, Layout, UserFrames;
    UserFramesAre(spaces[i].value.user);
  }

  lemma OneOwner(used: set<nat>, spaces: seq<Option<AddressSpace>>, leaked: set<nat>, i: nat, j: nat, f: nat)
    requires OwnershipOk(used, spaces, leaked) && i < |spaces| && j < |spaces| && f in OwnedBy(spaces, i)
    ensures f in used
    ensures i != j ==> f !in OwnedBy(spaces, j)
    ensures i != j && spaces[j].Some? ==> f !in Tables(spaces[j].value.root, spaces[j].value.dir)
  {
    hide UserFrames;
    assert i < j ==> OwnedBy(spaces, i) !! OwnedBy(spaces, j);
    assert j < i ==> OwnedBy(spaces, j) !! OwnedBy(spaces, i);
  }

  /**
   What user mode reaches is private: a frame that one process reaches is in use,
   holds no page table, and no other process reaches it.
   */
  lemma ReachIsPrivate(k: ProcessMemory.Kernel, i: nat, vpn: nat, access: Access, j: nat, other: nat, its: Access)
    requires k.Valid() && i < |k.spaces| && k.spaces[i].Some? && vpn < VPN_LIMIT
    requires j < |k.spaces| && k.spaces[j].Some? && other < VPN_LIMIT
    requires UserMay(k.ram.mem, k.spaces[i].value.root, vpn, access)
    ensures var f := Translate(k.ram.mem, k.spaces[i].value.root, vpn).value.ppn;
      && f in k.ram.used && f !in Tables(k.spaces[j].value.root, k.spaces[j].value.dir)
      && (i != j && UserMay(k.ram.mem, k.spaces[j].value.root, other, its) ==>
            f != Translate(k.ram.mem, k.spaces[j].value.root, other).value.ppn)
  {
    hide SpaceOk, UserMay, Translate, Tables, Owned, OwnershipOk;
    k.InUseHasSpace();
    var a := k.spaces[i].value;
    UserModeReaches(k.ram.mem, k.end, a, vpn, access);
    UserModeReaches(k.ram.mem, k.end, k.spaces[j].value, other, its);
    PageOwned(k.spaces, k.ram.mem, k.end, i, vpn - 0x1000);
    OneOwner(k.ram.used, k.spaces, k.leaked, i, j, a.user[vpn - 0x1000].ppn);
    if UserMay(k.ram.mem, k.spaces[j].value.root, other, its) {
      PageOwned(k.spaces, k.ram.mem, k.end, j, other - 0x1000);
    }
  }
}
