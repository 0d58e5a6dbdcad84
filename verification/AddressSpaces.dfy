/** The shape of a process's address space, and who owns which frame. */
module AddressSpaces {
  import opened CTypes
  import opened PageTables
  import opened PhysicalMemory

  // Page numbers of the fixed regions.
  const KERNEL_PAGE := 0x80200
  const USER_PAGE := 0x1000
  /** The user linker script bounds an image and its stack by 0x1800000. */
  const USER_LIMIT := 0x800
  const MMIO_LO := 0x10000
  const MMIO_HI := 0x10010
  const RTC_LO := 0x101
  const RTC_HI := 0x102

  const KERNEL_FLAGS := PAGE_R + PAGE_W + PAGE_X
  const DEVICE_FLAGS := PAGE_R + PAGE_W
  const USER_FLAGS := PAGE_U + PAGE_R + PAGE_W + PAGE_X

  // Flag bits of valid leaves, by their positions: V R W X U from bit 0 up.
  const VRW := 1 + 2 + 4
  const VRWX := 1 + 2 + 4 + 8
  const VRWXU := 1 + 2 + 4 + 8 + 16

  /** Identity mappings of the pages `lo .. hi`. */
  function Identity(lo: nat, hi: nat, flags: nat): (m: map<nat, Leaf>)
    requires lo <= hi <= VPN_LIMIT && flags < 1024
    ensures forall vpn :: vpn in m <==> lo <= vpn < hi
    ensures forall vpn :: vpn in m ==> m[vpn] == MapsTo(vpn, flags)
    decreases hi - lo
  {
    if lo == hi then map[] else Identity(lo, hi - 1, flags)[hi - 1 := MapsTo(hi - 1, flags)]
  }

  /** What every process maps besides its own image; free RAM ends at page `end`. */
  function KernelMap(end: nat): (m: map<nat, Leaf>)
    requires KERNEL_PAGE <= end <= VPN_LIMIT
    ensures forall vpn :: vpn in m ==> vpn < VPN_LIMIT && !(USER_PAGE <= vpn < USER_PAGE + USER_LIMIT)
  {
    Identity(KERNEL_PAGE, end, KERNEL_FLAGS) + Identity(MMIO_LO, MMIO_HI, DEVICE_FLAGS) + Identity(RTC_LO, RTC_HI, DEVICE_FLAGS)
  }

  /** Kernel and device pages are their own frames; nothing else is in the map. */
  lemma KernelMapIs(end: nat, vpn: nat)
    requires KERNEL_PAGE <= end <= VPN_LIMIT
    ensures vpn in KernelMap(end) <==> KERNEL_PAGE <= vpn < end || MMIO_LO <= vpn < MMIO_HI || RTC_LO <= vpn < RTC_HI
    ensures vpn in KernelMap(end) ==>
      KernelMap(end)[vpn] == Mapping(vpn, if KERNEL_PAGE <= vpn < end then VRWX else VRW)
  {
    hide Identity;
    assert WithValid(KERNEL_FLAGS) == VRWX && WithValid(DEVICE_FLAGS) == VRW;
  }

  /** User pages `from ..`, page `i` of the image at `USER_PAGE + i`. */
  function UserMap(user: seq<Leaf>, from: nat): (m: map<nat, Leaf>)
    requires from <= |user|
    ensures forall vpn :: vpn in m <==> USER_PAGE + from <= vpn < USER_PAGE + |user|
    ensures forall vpn :: vpn in m ==> m[vpn] == user[vpn - USER_PAGE]
    decreases |user| - from
  {
    if from == |user| then map[] else UserMap(user, from + 1)[USER_PAGE + from := user[from]]
  }

  function Layout(end: nat, user: seq<Leaf>, from: nat): map<nat, Leaf>
    requires KERNEL_PAGE <= end <= VPN_LIMIT && from <= |user|
  {
    KernelMap(end) + UserMap(user, from)
  }

  lemma IdentityGrows(lo: nat, p: nat, flags: nat, m: map<nat, Leaf>)
    requires lo <= p < VPN_LIMIT && flags < 1024
    ensures m + Identity(lo, p + 1, flags) == (m + Identity(lo, p, flags))[p := MapsTo(p, flags)]
  {
  }

  lemma LayoutGrows(end: nat, user: seq<Leaf>, m: Leaf)
    requires KERNEL_PAGE <= end <= VPN_LIMIT
    ensures Layout(end, user + [m], 0) == Layout(end, user, 0)[USER_PAGE + |user| := m]
  {
    hide KernelMap, UserMap;
    assert UserMap(user + [m], 0) == UserMap(user, 0)[USER_PAGE + |user| := m];
  }

  lemma LayoutShrinks(end: nat, user: seq<Leaf>, i: nat)
    requires KERNEL_PAGE <= end <= VPN_LIMIT && i < |user| <= USER_LIMIT
    ensures Layout(end, user, i + 1) == Layout(end, user, i) - {USER_PAGE + i}
    ensures USER_PAGE + i in Layout(end, user, i) && Layout(end, user, i)[USER_PAGE + i] == user[i]
  {
    hide KernelMap, UserMap;
    assert UserMap(user, i + 1) == UserMap(user, i) - {USER_PAGE + i};
  }

  // ----- ownership -----

  datatype AddressSpace = AddressSpace(root: nat, dir: map<nat, nat>, user: seq<Leaf>)

  ghost function UserFrames(user: seq<Leaf>): set<nat> {
    if user == [] then {} else UserFrames(user[1..]) + {user[0].ppn}
  }

  lemma {:induction false} UserFramesAre(user: seq<Leaf>)
    ensures forall i :: 0 <= i < |user| ==> user[i].ppn in UserFrames(user)
    ensures forall f :: f in UserFrames(user) ==> exists i :: 0 <= i < |user| && user[i].ppn == f
  {
    if user != [] {
      UserFramesAre(user[1..]);
      forall f | f in UserFrames(user) ensures exists i :: 0 <= i < |user| && user[i].ppn == f {
        if f != user[0].ppn {
          var i :| 0 <= i < |user| - 1 && user[1..][i].ppn == f;
          assert user[i + 1].ppn == f;
        }
      }
      forall i | 0 <= i < |user| ensures user[i].ppn in UserFrames(user) {
        if i > 0 {
          assert user[i] == user[1..][i - 1];
        }
      }
    }
  }

  ghost function Owned(a: AddressSpace): set<nat> {
    Tables(a.root, a.dir) + UserFrames(a.user)
  }

  ghost predicate Distinct(user: seq<Leaf>) {
    forall i, j :: 0 <= i < j < |user| ==> user[i].ppn != user[j].ppn
  }

  /** User mode may read, write and execute the page. */
  predicate OpenToUser(flags: nat) {
    Bit(flags, 2) && Bit(flags, 4) && Bit(flags, 8) && Bit(flags, 16)
  }

  ghost predicate AllOpen(user: seq<Leaf>) {
    forall i :: 0 <= i < |user| ==> OpenToUser(user[i].flags)
  }

  /** A complete address space in memory: kernel and device identity maps, and its own pages. */
  ghost predicate SpaceOk(mem: Mem, end: nat, a: AddressSpace) {
    && KERNEL_PAGE <= end <= VPN_LIMIT && |a.user| <= USER_LIMIT
    && Space(mem, a.root, a.dir, Layout(end, a.user, 0))
    && Owned(a) <= mem.Keys
    && Distinct(a.user) && Tables(a.root, a.dir) !! UserFrames(a.user)
    && AllOpen(a.user)
  }

  lemma SpaceOkFrame(mem: Mem, next: Mem, end: nat, a: AddressSpace)
    requires SpaceOk(mem, end, a) && next.Keys == mem.Keys
    requires forall f :: f in Owned(a) ==> next[f] == mem[f]
    ensures SpaceOk(next, end, a)
  {
    hide Space;
    SpaceFrame(mem, next, a.root, a.dir, Layout(end, a.user, 0));
  }

  lemma {:induction false} UserFramesAdd(user: seq<Leaf>, m: Leaf)
    ensures UserFrames(user + [m]) == UserFrames(user) + {m.ppn}
  {
    if user == [] {
      assert ([m])[1..] == [];
    } else {
      UserFramesAdd(user[1..], m);
      assert (user + [m])[1..] == user[1..] + [m];
    }
  }

  /** A kernel table with no user pages is a complete address space. */
  lemma BareSpaceOk(mem: Mem, end: nat, root: nat, dir: map<nat, nat>)
    requires KERNEL_PAGE <= end <= VPN_LIMIT && Space(mem, root, dir, KernelMap(end)) && Tables(root, dir) <= mem.Keys
    ensures SpaceOk(mem, end, AddressSpace(root, dir, []))
    ensures Owned(AddressSpace(root, dir, [])) == Tables(root, dir)
  {
    hide Space, KernelMap;
    assert Layout(end, [], 0) == KernelMap(end);
  }

  /** One more user page, in a frame nobody owns. */
  lemma SpaceOkGrows(mem: Mem, end: nat, a: AddressSpace, b: AddressSpace, m: Leaf)
    requires KERNEL_PAGE <= end <= VPN_LIMIT && |a.user| < USER_LIMIT
    requires Distinct(a.user) && Tables(a.root, a.dir) !! UserFrames(a.user) && Owned(a) <= mem.Keys
    requires AllOpen(a.user) && OpenToUser(m.flags)
    requires m.ppn !in UserFrames(a.user) && m.ppn !in Tables(b.root, b.dir) && m.ppn in mem
    requires Tables(b.root, b.dir) <= mem.Keys && Tables(b.root, b.dir) !! UserFrames(a.user)
    requires b.user == a.user + [m] && Space(mem, b.root, b.dir, Layout(end, a.user, 0)[USER_PAGE + |a.user| := m])
    ensures SpaceOk(mem, end, b)
    ensures Owned(b) == Tables(b.root, b.dir) + UserFrames(a.user) + {m.ppn}
  {
    hide Space, Tables, Layout, OpenToUser;
    UserFramesAre(a.user);
    UserFramesAdd(a.user, m);
    LayoutGrows(end, a.user, m);
  }

  lemma TailFrames(user: seq<Leaf>, i: nat)
    requires Distinct(user) && i < |user|
    ensures UserFrames(user[i..]) == UserFrames(user[i + 1..]) + {user[i].ppn}
    ensures user[i].ppn !in UserFrames(user[i + 1..])
  {
    assert user[i..][1..] == user[i + 1..];
    UserFramesAre(user[i + 1..]);
  }

  /** The pages of `image`, in order, with user permissions. */
  ghost predicate Loaded(mem: Mem, user: seq<Leaf>, image: seq<byte>)
    requires |user| <= PageCount(image)
  {
    forall i :: 0 <= i < |user| ==>
      user[i].flags == VRWXU && user[i].ppn in mem && mem[user[i].ppn] == ImagePage(image, i)
  }

  /** Page by page the same bytes and the same flags. */
  ghost predicate Copied(mem: Mem, user: seq<Leaf>, copy: seq<Leaf>)
    requires |copy| <= |user|
  {
    forall i :: 0 <= i < |copy| ==>
      && copy[i].flags == user[i].flags && copy[i].ppn in mem && user[i].ppn in mem
      && mem[copy[i].ppn] == mem[user[i].ppn]
  }

  ghost predicate SpacesOk(mem: Mem, end: nat, spaces: seq<Option<AddressSpace>>) {
    forall i :: 0 <= i < |spaces| && spaces[i].Some? ==> SpaceOk(mem, end, spaces[i].value)
  }

  /** Complete spaces survive any change to memory they do not own. */
  lemma SpacesOkFrame(mem: Mem, next: Mem, end: nat, spaces: seq<Option<AddressSpace>>, i: nat)
    requires SpacesOk(mem, end, spaces) && next.Keys == mem.Keys && i < |spaces|
    requires forall j, f :: 0 <= j < |spaces| && j != i && f in OwnedBy(spaces, j) ==> next[f] == mem[f]
    ensures forall j :: 0 <= j < |spaces| && j != i && spaces[j].Some? ==> SpaceOk(next, end, spaces[j].value)
  {
    hide SpaceOk, Owned;
    forall j | 0 <= j < |spaces| && j != i && spaces[j].Some? ensures SpaceOk(next, end, spaces[j].value) {
      assert OwnedBy(spaces, j) == Owned(spaces[j].value);
      SpaceOkFrame(mem, next, end, spaces[j].value);
    }
  }

  ghost function OwnedBy(spaces: seq<Option<AddressSpace>>, i: nat): set<nat>
    requires i < |spaces|
  {
    if spaces[i].Some? then Owned(spaces[i].value) else {}
  }

  /**
   The set bits of the bitmap are the disjoint union of what the slots own, plus
   what has been leaked.
   */
  ghost predicate OwnershipOk(used: set<nat>, spaces: seq<Option<AddressSpace>>, leaked: set<nat>) {
    && (forall i :: 0 <= i < |spaces| ==> OwnedBy(spaces, i) <= used && OwnedBy(spaces, i) !! leaked)
    && (forall i, j :: 0 <= i < j < |spaces| ==> OwnedBy(spaces, i) !! OwnedBy(spaces, j))
    && leaked <= used
    && (forall f :: f in used ==> f in leaked || exists i :: 0 <= i < |spaces| && f in OwnedBy(spaces, i))
  }

  lemma AcquireSpace(used: set<nat>, spaces: seq<Option<AddressSpace>>, leaked: set<nat>, i: nat, a: AddressSpace)
    requires OwnershipOk(used, spaces, leaked) && i < |spaces| && spaces[i].None? && Owned(a) !! used
    ensures OwnershipOk(used + Owned(a), spaces[i := Some(a)], leaked)
  {
    hide Owned;
    var next := spaces[i := Some(a)];
    forall j | 0 <= j < |next| ensures OwnedBy(next, j) == if j == i then Owned(a) else OwnedBy(spaces, j) {}
    forall f | f in used + Owned(a) && f !in leaked ensures exists j :: 0 <= j < |next| && f in OwnedBy(next, j) {
      if f in Owned(a) {
        assert f in OwnedBy(next, i);
      } else {
        var j :| 0 <= j < |spaces| && f in OwnedBy(spaces, j);
        assert f in OwnedBy(next, j);
      }
    }
  }

  lemma ReleaseSpace(used: set<nat>, spaces: seq<Option<AddressSpace>>, leaked: set<nat>, i: nat)
    requires OwnershipOk(used, spaces, leaked) && i < |spaces|
    ensures OwnershipOk(used - OwnedBy(spaces, i), spaces[i := None], leaked)
  {
    hide Owned;
    var next := spaces[i := None];
    forall j | 0 <= j < |next| ensures OwnedBy(next, j) == if j == i then {} else OwnedBy(spaces, j) {}
    forall f | f in used - OwnedBy(spaces, i) && f !in leaked ensures exists j :: 0 <= j < |next| && f in OwnedBy(next, j) {
      var j :| 0 <= j < |spaces| && f in OwnedBy(spaces, j);
      assert f in OwnedBy(next, j);
    }
  }

  lemma LeakFrames(used: set<nat>, spaces: seq<Option<AddressSpace>>, leaked: set<nat>, lost: set<nat>)
    requires OwnershipOk(used, spaces, leaked) && lost !! used
    ensures OwnershipOk(used + lost, spaces, leaked + lost)
  {
    hide Owned;
  }

  // ----- images -----

  /** Page `i` of an image, zero-padded: what the loader's copy leaves in a fresh frame. */
  function ImagePage(image: seq<byte>, i: nat): (f: Frame)
    requires i * PAGE_SIZE <= |image|
    ensures forall k :: 0 <= k < PAGE_SIZE ==>
      f[k] == if i * PAGE_SIZE + k < |image| then image[i * PAGE_SIZE + k] else 0
  {
    var rest := image[i * PAGE_SIZE..];
    if |rest| >= PAGE_SIZE then rest[..PAGE_SIZE] else rest + Zeros(PAGE_SIZE - |rest|)
  }

  function PageCount(image: seq<byte>): nat {
    (|image| + PAGE_SIZE - 1) / PAGE_SIZE
  }
}
