/**
  What add_trans_user, modify_permission, mmap and mprotect do to the translation of
  every address.
 */
module Mapping {
  import opened Machine
  import opened Paging
  import opened Memory
  import H = Heap

  // ---------------------------------------------------------------- one level

  /** The slots after Descend. */
  ghost function DescendOwner(m: Mm, owner: Owner, t: nat, i: nat): Owner
    requires t in owner && !owner[t].Pt? && Descend(m, t, i).Returned?
  {
    if Get(m.ts, t, i).present then owner
    else owner[Descend(m, t, i).value.1 := Child(owner[t], i)]
  }

  /** One level of add_trans_user keeps the invariant, changes no translation and nothing
      reachable, and ends with an open directory entry for the table it returns. */
  ghost predicate Descended(m: Mm, m': Mm, owner': Owner, pinned: Pins, t: nat, i: nat, f: nat, s: Slot) {
    && Good(m', owner', pinned)
    && Grows(m, m') && m'.last == m.last
    && Extends(m.ts, m'.ts) && SameTranslations(m.ts, m'.ts)
    && f in m'.ts && f in owner' && owner'[f] == s
    && Get(m'.ts, t, i) == Dir(f)
  }

  lemma LinkGood(m: Mm, owner: Owner, pinned: Pins, t: nat, i: nat, f: nat)
    requires Good(m, owner, pinned) && t in m.ts && i < 512 && f !in m.ts
    requires t in owner && !owner[t].Pt? && !Get(m.ts, t, i).present && !KernelCell(owner[t], i)
    requires TableChunk(m.heap, f) && ChunkAt(f) !in pinned.chunks
    ensures Good(m.(ts := Link(m.ts, t, i, f)), owner[f := Child(owner[t], i)], pinned)
  {
    hide H.Inv, KernelPart, Tree, UserDirs, InPinned, PageInside, KernelCell;
    LinkOwned(m.ts, owner, t, i, f);
    var ts': Tables, owner': Owner := Link(m.ts, t, i, f), owner[f := Child(owner[t], i)];
    forall x, j | x in ts' && 0 <= j < 512 && owner'[x].Pt? && ts'[x][j].present
      ensures ts'[x][j].frame % 0x1000 == 0 && InPinned(m.heap, pinned, ts'[x][j].frame)
    {
      GetLink(m.ts, t, i, f, x, j);
      assert x != f && x != t;
    }
  }

  lemma LinkExtends(ts: Tables, owner: Owner, t: nat, i: nat, f: nat)
    requires Owned(ts, owner) && t in ts && i < 512 && f !in ts
    requires !owner[t].Pt? && !Get(ts, t, i).present && !KernelCell(owner[t], i)
    ensures Extends(ts, Link(ts, t, i, f)) && SameTranslations(ts, Link(ts, t, i, f))
  {
    hide Translate;
    forall x: nat, j: nat | Get(ts, x, j).present ensures Get(Link(ts, t, i, f), x, j) == Get(ts, x, j) {
      GetLink(ts, t, i, f, x, j);
    }
    forall v, u, w ensures Translate(Link(ts, t, i, f), v, u, w) == Translate(ts, v, u, w) {
      LinkTranslate(ts, owner, t, i, f, v, u, w);
    }
  }

  lemma DescendFresh(m: Mm, owner: Owner, pinned: Pins, t: nat, i: nat)
    requires Good(m, owner, pinned) && t in m.ts && i < 512 && t in owner && !owner[t].Pt?
    requires !Get(m.ts, t, i).present && !KernelCell(owner[t], i)
    ensures Descend(m, t, i).Returned? || Descend(m, t, i).Erased?
    ensures Descend(m, t, i).Returned? ==>
              var (m', f) := Descend(m, t, i).value;
              Descended(m, m', DescendOwner(m, owner, t, i), pinned, t, i, f, Child(owner[t], i))
  {
    hide H.Inv, Owned, Alloc, Mapped, KernelCell, SameTranslations, Extends, H.Refused;
    AllocCore(m, owner, 0x1000, H.PAGE_ALIGN);
    AllocGood(m, owner, pinned, 0x1000, H.PAGE_ALIGN);
    if Alloc(m, 0x1000, H.PAGE_ALIGN).Returned? {
      var (m1, mem) := Alloc(m, 0x1000, H.PAGE_ALIGN).value;
      var f := mem - KERNEL_BASE;
      FreshUnused(m, m1, owner, pinned, mem, 0x1000);
      assert TableChunk(m1.heap, f);
      LinkGood(m1, owner, pinned, t, i, f);
      LinkExtends(m.ts, owner, t, i, f);
      CoreShape(m, owner);
      GetLink(m.ts, t, i, f, t, i);
    }
  }

  /** One level of add_trans_user from any user cell.  It does not panic: neither on an
      invalid address nor in physical; without memory for the table, kmalloc erases the kernel. */
  lemma DescendGood(m: Mm, owner: Owner, pinned: Pins, t: nat, i: nat)
    requires Good(m, owner, pinned) && t in m.ts && i < 512 && t in owner && !owner[t].Pt?
    requires !KernelCell(owner[t], i)
    ensures Descend(m, t, i).Returned? || Descend(m, t, i).Erased?
    ensures Descend(m, t, i).Returned? ==>
              var (m', f) := Descend(m, t, i).value;
              Descended(m, m', DescendOwner(m, owner, t, i), pinned, t, i, f, Child(owner[t], i))
  {
    if Get(m.ts, t, i).present {
      hide H.Inv, Mapped, Tree, KernelPart, UserDirs, TablesHeld;
      UserDir(m.ts, owner, t, i);
      Follow(m.ts, owner, t, i);
    } else {
      DescendFresh(m, owner, pinned, t, i);
    }
  }

  /** User addresses never use a kernel cell. */
  lemma UserCells(v: nat)
    requires UserRangeOk(v)
    ensures !KernelCell(Pml4, I4(v)) && !KernelCell(Pdp(I4(v)), I3(v)) && !KernelCell(Pd(I4(v), I3(v)), I2(v))
  {
  }

  // ---------------------------------------------------------------- add_trans_user

  predicate Allows(prot: nat, u: bool, w: bool) {
    (u ==> Readable(prot)) && (w ==> Writable(prot))
  }

  /** The three levels above the last: the walk ends in the last-level table of v. */
  function Walk(m: Mm, v: nat): Outcome<(Mm, nat)> {
    var r3 :- Descend(m, CR3, I4(v));
    var r2 :- Descend(r3.0, r3.1, I3(v));
    Descend(r2.0, r2.1, I2(v))
  }

  lemma GrowsTrans(a: Mm, b: Mm, c: Mm)
    requires Grows(a, b) && Grows(b, c)
    ensures Grows(a, c)
  {
  }

  ghost predicate Walked(m: Mm, m': Mm, owner': Owner, pinned: Pins, v: nat, t: nat) {
    && Good(m', owner', pinned)
    && Grows(m, m') && m'.last == m.last
    && SameTranslations(m.ts, m'.ts)
    && Reaches(m'.ts, v, t) && t in m'.ts && t in owner' && owner'[t].Pt?
  }

  lemma WalkGood(m: Mm, owner: Owner, pinned: Pins, v: nat) returns (owner': Owner)
    requires Good(m, owner, pinned) && UserRangeOk(v)
    ensures Walk(m, v).Returned? || Walk(m, v).Erased?
    ensures Walk(m, v).Returned? ==> Walked(m, Walk(m, v).value.0, owner', pinned, v, Walk(m, v).value.1)
  {
    hide H.Inv, Core, Mapped, Descend, Grows, UserRangeOk, KernelCell, I4, I3, I2, Get, Translate, DescendOwner;
    CoreShape(m, owner);
    UserCells(v);
    owner' := owner;
    DescendGood(m, owner, pinned, CR3, I4(v));
    if Descend(m, CR3, I4(v)).Returned? {
      var r3, o3 := Descend(m, CR3, I4(v)).value, DescendOwner(m, owner, CR3, I4(v));
      DescendGood(r3.0, o3, pinned, r3.1, I3(v));
      if Descend(r3.0, r3.1, I3(v)).Returned? {
        var r2, o2 := Descend(r3.0, r3.1, I3(v)).value, DescendOwner(r3.0, o3, r3.1, I3(v));
        DescendGood(r2.0, o2, pinned, r2.1, I2(v));
        if Descend(r2.0, r2.1, I2(v)).Returned? {
          var r1 := Descend(r2.0, r2.1, I2(v)).value;
          owner' := DescendOwner(r2.0, o2, r2.1, I2(v));
          GrowsTrans(m, r3.0, r2.0);
          GrowsTrans(m, r2.0, r1.0);
        }
      }
    }
  }

  /** From ts to ts' exactly the addresses va..va+len (modulo 2^48, as the walk sees them)
      are mapped, to phys.. onwards with the given protection. */
  ghost predicate Maps(ts: Tables, ts': Tables, va: nat, len: nat, phys: nat, prot: nat) {
    forall x: nat, u, w ::
      Translate(ts', x, u, w)
      == if !(va <= x % 0x1_0000_0000_0000 < va + len) then Translate(ts, x, u, w)
         else if Allows(prot, u, w) then Some(phys + x % 0x1_0000_0000_0000 - va)
         else None
  }

  lemma SamePageNumber(v: nat, y: nat)
    ensures y / 0x1000 == v / 0x1000 <==> PageDown(v) <= y < PageDown(v) + 0x1000
  {
    var n := v / 0x1000;
    if PageDown(v) <= y < PageDown(v) + 0x1000 { QuotientIs(y, 0x1000, n, y - PageDown(v)); }
  }

  lemma OnPage(v: nat, x: nat)
    requires v < TWO48
    ensures PageOf(x) == PageOf(v) <==> PageDown(v) <= x % 0x1_0000_0000_0000 < PageDown(v) + 0x1000
    ensures x % 0x1_0000_0000_0000 % 0x1000 == x % 0x1000
  {
    var y, q := x % 0x1_0000_0000_0000, x / 0x1_0000_0000_0000;
    var n := y / 0x1000;
    QuotientIs(x, 0x1000, 0x10_0000_0000 * q + n, y % 0x1000);
    QuotientIs(0x10_0000_0000 * q + n, 0x10_0000_0000, q, n);
    QuotientIs(v / 0x1000, 0x10_0000_0000, 0, v / 0x1000);
    SamePageNumber(v, y);
  }

  lemma BaseQuotient(p: nat)
    requires p >= 0x80_0000_0000
    ensures (p - 0x80_0000_0000) / 0x80_0000_0000 == p / 0x80_0000_0000 - 1
  {
    QuotientIs(p - 0x80_0000_0000, 0x80_0000_0000, p / 0x80_0000_0000 - 1, p % 0x80_0000_0000);
  }

  lemma BasePage(p: nat)
    requires p >= 0x80_0000_0000
    ensures (p - 0x80_0000_0000) % 0x1000 == p % 0x1000
  {
    QuotientIs(p - 0x80_0000_0000, 0x1000, p / 0x1000 - 0x800_0000, p % 0x1000);
  }

  lemma ClearBaseTwice(p: nat)
    requires p % 0x1000 == 0
    ensures ClearBase(ClearBase(p)) == ClearBase(p) && ClearBase(p) % 0x1000 == 0
  {
    if p / 0x80_0000_0000 % 2 == 1 {
      BaseQuotient(p);
      BasePage(p);
    }
  }

  lemma LeafGood(m: Mm, owner: Owner, pinned: Pins, t: nat, i: nat, e: Entry)
    requires Good(m, owner, pinned) && t in m.ts && i < 512 && t in owner && owner[t].Pt?
    requires e.present ==> e.frame % 0x1000 == 0 && InPinned(m.heap, pinned, e.frame)
    ensures Good(m.(ts := SetCell(m.ts, t, i, e)), owner, pinned)
  {
    hide H.Inv, KernelPart, Tree, UserDirs, InPinned, PageInside;
    LeafOwned(m.ts, owner, t, i, e);
  }

  /** The whole effect of add_trans_user on a state that satisfies the invariant. */
  ghost predicate Added(m: Mm, m': Mm, owner': Owner, pinned: Pins, v: nat, p: nat, prot: nat) {
    && Good(m', owner', pinned)
    && Grows(m, m') && m'.last == m.last
    && Maps(m.ts, m'.ts, PageDown(v), 0x1000, ClearBase(p), prot)
  }

  lemma OffsetOnPage(v: nat, y: nat)
    requires PageDown(v) <= y < PageDown(v) + 0x1000
    ensures y % 0x1000 == y - PageDown(v)
  {
  }

  lemma LeafMaps(m: Mm, owner: Owner, v: nat, t: nat, p: nat, prot: nat)
    requires Core(m, owner) && Reaches(m.ts, v, t) && t in m.ts && v < TWO48 && p % 0x1000 == 0
    ensures Maps(m.ts, SetCell(m.ts, t, I1(v), Leaf(ClearBase(p), prot)), PageDown(v), 0x1000, ClearBase(p), prot)
  {
    hide Core, Reaches, Translate, SetCell, PageOf, PageDown, I1, ClearBase;
    var e := Leaf(ClearBase(p), prot);
    CoreShape(m, owner);
    ClearBaseTwice(p);
    forall x: nat, u, w
      ensures Translate(SetCell(m.ts, t, I1(v), e), x, u, w)
           == if !(PageDown(v) <= x % 0x1_0000_0000_0000 < PageDown(v) + 0x1000) then Translate(m.ts, x, u, w)
              else if Allows(prot, u, w) then Some(ClearBase(p) + x % 0x1_0000_0000_0000 - PageDown(v))
              else None
    {
      LeafTranslate(m.ts, owner, v, t, e, x, u, w);
      OnPage(v, x);
      if PageOf(x) == PageOf(v) { OffsetOnPage(v, x % 0x1_0000_0000_0000); }
    }
  }

  lemma GoodCore(m: Mm, owner: Owner, pinned: Pins)
    requires Good(m, owner, pinned)
    ensures Core(m, owner)
  {
  }

  lemma GrowsSameHeap(a: Mm, b: Mm, c: Mm)
    requires Grows(a, b) && c.heap == b.heap && c.ram == b.ram
    ensures Grows(a, c)
  {
  }

  lemma MapsAfterSame(a: Tables, b: Tables, c: Tables, va: nat, len: nat, phys: nat, prot: nat)
    requires SameTranslations(a, b) && Maps(b, c, va, len, phys, prot)
    ensures Maps(a, c, va, len, phys, prot)
  {
    hide Translate;
  }

  /** add_trans_user(v, p, prot) for every user address v and page-aligned p: v's page is
      mapped to p's, no other address changes, the tables stay a tree and disjoint from all
      other memory.  When a table cannot be allocated, the kernel is erased. */
  lemma AddTransUserCorrect(m: Mm, owner: Owner, pinned: Pins, v: nat, p: nat, prot: nat) returns (owner': Owner)
    requires Good(m, owner, pinned) && p % 0x1000 == 0 && InPinned(m.heap, pinned, ClearBase(p))
    ensures !UserRangeOk(v) ==> AddTransUser(m, v, p, prot) == Panicked(NotAllowed)
    ensures UserRangeOk(v) ==>
              AddTransUser(m, v, p, prot).Returned? || AddTransUser(m, v, p, prot).Erased?
    ensures AddTransUser(m, v, p, prot).Returned? ==>
              Added(m, AddTransUser(m, v, p, prot).value, owner', pinned, v, p, prot)
  {
    hide Good, Grows, Reaches, Maps, Descend, SameTranslations, InPinned, ClearBase, PageDown, SetCell;
    owner' := owner;
    if UserRangeOk(v) {
      owner' := WalkGood(m, owner, pinned, v);
      if Walk(m, v).Returned? {
        var (m1, t) := Walk(m, v).value;
        assert Core(m1, owner') && v < TWO48 by { GoodCore(m1, owner', pinned); UserBelow(v); }
        PinnedGrows(m, m1, pinned, ClearBase(p));
        ClearBaseTwice(p);
        LeafGood(m1, owner', pinned, t, I1(v), Leaf(ClearBase(p), prot));
        LeafMaps(m1, owner', v, t, p, prot);
        var m' := m1.(ts := SetCell(m1.ts, t, I1(v), Leaf(ClearBase(p), prot)));
        assert AddTransUser(m, v, p, prot) == Returned(m');
        GrowsSameHeap(m, m1, m');
        MapsAfterSame(m.ts, m1.ts, m'.ts, PageDown(v), 0x1000, ClearBase(p), prot);
      }
    }
  }

  // ---------------------------------------------------------------- mmap

  /** The loop of mmap, from byte i on. */
  function MapPages(m: Mm, va: nat, mem: nat, len: nat, prot: nat, i: nat): Outcome<Mm>
    decreases if i < len then len - i else 0
  {
    if i >= len then Returned(m)
    else
      var m' :- AddTransUser(m, va + i, mem + i, prot);
      MapPages(m', va, mem, len, prot, i + 0x1000)
  }

  // The static last_mmapped: -1 until the first successful allocation.
  const NOT_MMAPPED: nat := 0xffff_ffff_ffff_ffff
  const MMAP_TOP: nat := 0x7fff_f7ff_f000

  /** Where the next mapping without an address will end. */
  function Last(m: Mm): nat {
    if m.last == NOT_MMAPPED then MMAP_TOP else m.last
  }

  /** The address mmap uses: the one given, or the space below the last one chosen. */
  function Place(m: Mm, addr: nat, len: nat): nat {
    if addr == 0 then (Last(m) - len) % 0x1_0000_0000_0000_0000 else addr
  }

  /** mmap: (state, address), or address 0 when there is no memory. */
  function Mmap(m: Mm, addr: nat, len: nat, prot: nat): Outcome<(Mm, nat)> {
    if len == 0 || len % 0x1000 != 0 then Panicked(InvalidLength)
    else
      var r :- Alloc(m, len, H.PAGE_ALIGN);
      if r.1 == 0 then Returned(r)
      else
        var va := Place(m, addr, len);
        var m1 := r.0.(last := if addr == 0 then va else Last(m));
        var m2 :- MapPages(m1, va, r.1, len, prot, 0);
        Returned((m2, va))
  }

  lemma MapsStep(ts0: Tables, ts1: Tables, ts2: Tables, va: nat, i: nat, phys: nat, prot: nat)
    requires Maps(ts0, ts1, va, i, phys, prot) && Maps(ts1, ts2, va + i, 0x1000, phys + i, prot)
    ensures Maps(ts0, ts2, va, i + 0x1000, phys, prot)
  {
    hide Translate;
  }

  /** Every page of the range is a user page. */
  predicate UserPages(va: nat, len: nat) {
    forall x: nat | va <= x < va + len && (x - va) % 0x1000 == 0 :: UserRangeOk(x)
  }

  lemma UserPagesNonzero(va: nat, len: nat)
    requires UserPages(va, len) && 0 < len
    ensures va != 0
  {
    assert UserRangeOk(va);
  }

  /** The page frames of an aligned block inside chunk c are all pinned with it. */
  lemma BlockPinned(h: H.Heap, pinned: Pins, c: nat, mem: nat, len: nat, i: nat)
    requires c in pinned.chunks && H.Live(h, c) && c + H.HEADER == mem && mem + len <= c + h.size[c]
    requires KERNEL_BASE <= mem && i + 0x1000 <= len && mem + len <= KERNEL_BASE + 0x4000_0000
    ensures ClearBase(mem + i) == mem - KERNEL_BASE + i && InPinned(h, pinned, mem - KERNEL_BASE + i)
  {
    BaseBit(mem + i);
    assert PageInside(h, c, mem - KERNEL_BASE + i);
  }

  /** A block of len bytes at mem fills the front of live chunk mem - HEADER. */
  ghost predicate Block(m: Mm, mem: nat, len: nat) {
    && KERNEL_BASE + PS_LIMIT + H.HEADER <= mem
    && H.Live(m.heap, mem - H.HEADER) && H.HEADER + len <= m.heap.size[mem - H.HEADER]
  }

  lemma BlockGrows(m: Mm, m': Mm, mem: nat, len: nat)
    requires Grows(m, m') && Block(m, mem, len)
    ensures Block(m', mem, len)
  {
  }

  lemma BlockFits(m: Mm, owner: Owner, mem: nat, len: nat)
    requires Core(m, owner) && Block(m, mem, len)
    ensures mem + len <= KERNEL_BASE + |m.ram| <= KERNEL_BASE + 0x4000_0000
    ensures mem + len <= mem - H.HEADER + m.heap.size[mem - H.HEADER]
  {
    hide H.Inv, Owned, TablesHeld;
    LivePlaced(m, mem - H.HEADER);
  }

  lemma GrowsRefl(m: Mm)
    ensures Grows(m, m)
  {
  }

  /** Page i of a pinned block is a pinned page, with all of it inside the block. */
  lemma PagePinned(m: Mm, owner: Owner, pinned: Pins, mem: nat, len: nat, i: nat)
    requires Good(m, owner, pinned) && Block(m, mem, len) && mem - H.HEADER in pinned.chunks
    requires len % 0x1000 == 0 && i % 0x1000 == 0 && i < len && mem % 0x1000 == 0
    ensures i + 0x1000 <= len && (i + 0x1000) % 0x1000 == 0 && (mem + i) % 0x1000 == 0 && KERNEL_BASE <= mem
    ensures ClearBase(mem + i) == mem - KERNEL_BASE + i && InPinned(m.heap, pinned, mem - KERNEL_BASE + i)
  {
    hide Good, Core, InPinned, ClearBase, H.Live;
    var q, k := i / 0x1000, len / 0x1000;
    QuotientIs(i + 0x1000, 0x1000, q + 1, 0);
    QuotientIs(mem + i, 0x1000, mem / 0x1000 + q, 0);
    assert i == 0x1000 * q && len == 0x1000 * k;
    GoodCore(m, owner, pinned);
    BlockFits(m, owner, mem, len);
    BlockPinned(m.heap, pinned, mem - H.HEADER, mem, len, i);
  }

  lemma UserPageAt(va: nat, len: nat, i: nat)
    requires UserPages(va, len) && i < len && i % 0x1000 == 0
    ensures UserRangeOk(va + i)
  {
    hide UserRangeOk;
  }

  lemma PageSame(va: nat, i: nat)
    requires va % 0x1000 == 0 && i % 0x1000 == 0
    ensures PageDown(va + i) == va + i
  {
    QuotientIs(va + i, 0x1000, va / 0x1000 + i / 0x1000, 0);
  }

  lemma {:induction false} MapPagesCorrect(m0: Mm, m: Mm, owner: Owner, pinned: Pins,
                                           va: nat, mem: nat, len: nat, prot: nat, i: nat) returns (owner': Owner)
    requires Good(m, owner, pinned) && Block(m, mem, len) && mem - H.HEADER in pinned.chunks
    requires len % 0x1000 == 0 && i % 0x1000 == 0 && i <= len && va % 0x1000 == 0 && UserPages(va, len)
    requires mem % 0x1000 == 0
    requires Maps(m0.ts, m.ts, va, i, mem - KERNEL_BASE, prot)
    ensures MapPages(m, va, mem, len, prot, i).Returned?
         || MapPages(m, va, mem, len, prot, i).Erased?
    ensures MapPages(m, va, mem, len, prot, i).Returned? ==>
              var m' := MapPages(m, va, mem, len, prot, i).value;
              && Good(m', owner', pinned) && Grows(m, m') && m'.last == m.last
              && Maps(m0.ts, m'.ts, va, len, mem - KERNEL_BASE, prot)
    decreases len - i
  {
    hide Good, Core, Maps, AddTransUser, InPinned, ClearBase, H.Live, Grows, Block, UserPages, UserRangeOk, PageDown;
    owner' := owner;
    if i == len {
      assert Grows(m, m) by { GrowsRefl(m); }
    } else {
      PagePinned(m, owner, pinned, mem, len, i);
      UserPageAt(va, len, i);
      assert PageDown(va + i) == va + i by { PageSame(va, i); }
      owner' := AddTransUserCorrect(m, owner, pinned, va + i, mem + i, prot);
      if AddTransUser(m, va + i, mem + i, prot).Returned? {
        var m1 := AddTransUser(m, va + i, mem + i, prot).value;
        MapsStep(m0.ts, m.ts, m1.ts, va, i, mem - KERNEL_BASE, prot);
        BlockGrows(m, m1, mem, len);
        owner' := MapPagesCorrect(m0, m1, owner', pinned, va, mem, len, prot, i + 0x1000);
        if MapPages(m1, va, mem, len, prot, i + 0x1000).Returned? {
          GrowsTrans(m, m1, MapPages(m1, va, mem, len, prot, i + 0x1000).value);
        }
      }
    }
  }

  /** kmalloc hands out mem for len page-aligned bytes. */
  ghost predicate Backs(m: Mm, len: nat, mem: nat) {
    Alloc(m, len, H.PAGE_ALIGN).Returned? && Alloc(m, len, H.PAGE_ALIGN).value.1 == mem
  }

  /** What a successful mmap of len bytes at va leaves behind: a block mem of its own,
      cleared, that the range va..va+len is mapped to. */
  ghost predicate Mmapped(m: Mm, m': Mm, owner': Owner, pinned: Pins, va: nat, len: nat, mem: nat, prot: nat) {
    && Backs(m, len, mem)
    && KERNEL_BASE <= mem && H.HEADER <= mem && mem - H.HEADER !in pinned.chunks && !H.Live(m.heap, mem - H.HEADER)
    && Good(m', owner', pinned.With(mem - H.HEADER)) && Block(m', mem, len)
    && Grows(m, m')
    && mem - KERNEL_BASE + len <= |m'.ram|
    && (forall a | mem - KERNEL_BASE <= a < mem - KERNEL_BASE + len :: m'.ram[a] == 0)
    && Maps(m.ts, m'.ts, va, len, mem - KERNEL_BASE, prot)
  }

  lemma PinBlock(m: Mm, owner: Owner, pinned: Pins, c: nat)
    requires Good(m, owner, pinned) && H.Live(m.heap, c)
    requires forall t <- m.ts | !BootTable(t) :: KERNEL_BASE + t != c + H.HEADER
    ensures Good(m, owner, pinned.With(c))
  {
    hide Core, PageInside;
    CoreShape(m, owner);
  }

  lemma GoodLast(m: Mm, owner: Owner, pinned: Pins, last: nat)
    requires Good(m, owner, pinned)
    ensures Good(m.(last := last), owner, pinned)
  {
    hide H.Inv, Owned;
  }

  lemma ZeroBlockKept(m: Mm, m': Mm, mem: nat, len: nat)
    requires Grows(m, m') && Block(m, mem, len) && mem - KERNEL_BASE + len <= |m.ram|
    requires forall a | mem - KERNEL_BASE <= a < mem - KERNEL_BASE + len :: m.ram[a] == 0
    ensures forall a | mem - KERNEL_BASE <= a < mem - KERNEL_BASE + len :: m'.ram[a] == 0
  {
    var c := mem - H.HEADER;
    forall a | mem - KERNEL_BASE <= a < mem - KERNEL_BASE + len ensures m'.ram[a] == 0 {
      assert H.Live(m.heap, c) && c <= KERNEL_BASE + a < c + m.heap.size[c];
    }
  }

  lemma MapsNone(ts: Tables, va: nat, phys: nat, prot: nat)
    ensures Maps(ts, ts, va, 0, phys, prot)
  {
    hide Translate;
  }

  lemma AllocCoreGood(m: Mm, owner: Owner, pinned: Pins, len: nat)
    requires Good(m, owner, pinned)
    ensures Alloc(m, len, H.PAGE_ALIGN).Returned? || Alloc(m, len, H.PAGE_ALIGN) == Erased(len)
    ensures Alloc(m, len, H.PAGE_ALIGN).Erased? <==>
            0 < len < TWO32 && H.Refused(m.heap, H.ChunkSize(len), H.PAGE_ALIGN)
    ensures Alloc(m, len, H.PAGE_ALIGN).Returned? ==>
              var (m', mem) := Alloc(m, len, H.PAGE_ALIGN).value;
              && Good(m', owner, pinned) && m'.ts == m.ts && m'.last == m.last
              && mem % 0x1000 == 0
              && (len >= TWO32 ==> mem == 0)
              && (mem == 0 ==> m' == m && (len == 0 || len >= TWO32))
              && (mem != 0 ==> Fresh(m, m', mem, len) && Grows(m, m'))
  {
    hide Core, Mapped, Alloc, Fresh, Grows, H.Refused, H.ChunkSize;
    AllocCore(m, owner, len, H.PAGE_ALIGN);
    AllocGood(m, owner, pinned, len, H.PAGE_ALIGN);
  }

  lemma GrowsLength(m: Mm, m': Mm)
    requires Grows(m, m')
    ensures |m'.ram| == |m.ram|
  {
  }

  lemma MmapMaps(m: Mm, m1: Mm, m2: Mm, owner: Owner, pinned: Pins, va: nat, mem: nat, len: nat, prot: nat)
    returns (owner': Owner)
    requires Good(m, owner, pinned) && Good(m1, owner, pinned) && m1.ts == m.ts && m2 == m1.(last := m2.last)
    requires Backs(m, len, mem) && Fresh(m, m1, mem, len) && Grows(m, m1) && mem % 0x1000 == 0
    requires len % 0x1000 == 0 && va % 0x1000 == 0 && UserPages(va, len)
    ensures MapPages(m2, va, mem, len, prot, 0).Returned? || MapPages(m2, va, mem, len, prot, 0).Erased?
    ensures MapPages(m2, va, mem, len, prot, 0).Returned? ==>
              var m' := MapPages(m2, va, mem, len, prot, 0).value;
              m'.last == m2.last && Mmapped(m, m', owner', pinned, va, len, mem, prot)
  {
    hide Good, Core, Maps, MapPages, Grows, UserPages;
    var c := mem - H.HEADER;
    FreshUnused(m, m1, owner, pinned, mem, len);
    PinBlock(m1, owner, pinned, c);
    GoodLast(m1, owner, pinned.With(c), m2.last);
    MapsNone(m.ts, va, mem - KERNEL_BASE, prot);
    assert Block(m2, mem, len);
    GrowsSameHeap(m, m1, m2);
    owner' := MapPagesCorrect(m, m2, owner, pinned.With(c), va, mem, len, prot, 0);
    if MapPages(m2, va, mem, len, prot, 0).Returned? {
      var m' := MapPages(m2, va, mem, len, prot, 0).value;
      GrowsTrans(m, m2, m');
      GrowsLength(m2, m');
      BlockGrows(m2, m', mem, len);
      ZeroBlockKept(m2, m', mem, len);
    }
  }

  /** mmap for every length, with an address the caller or the kernel chose among user
      pages: it panics exactly on a bad length; it returns 0, with nothing changed, exactly
      for 2^32 bytes or more; if it returns for less, it has mapped exactly va..va+len onto
      one fresh, cleared block, byte for byte in order, although tables are allocated in the
      middle of the loop.  Without room for the block or for a table, the kernel is erased. */
  lemma MmapCorrect(m: Mm, owner: Owner, pinned: Pins, addr: nat, len: nat, prot: nat)
    returns (owner': Owner, mem: nat)
    requires Good(m, owner, pinned)
    requires Place(m, addr, len) % 0x1000 == 0 && UserPages(Place(m, addr, len), len)
    ensures len == 0 || len % 0x1000 != 0 <==> Mmap(m, addr, len, prot).Panicked?
    ensures len == 0 || len % 0x1000 != 0 <==> Mmap(m, addr, len, prot) == Panicked(InvalidLength)
    ensures len >= TWO32 && len % 0x1000 == 0 <==> Mmap(m, addr, len, prot) == Returned((m, 0))
    ensures 0 < len < TWO32 && len % 0x1000 == 0 && H.Refused(m.heap, H.ChunkSize(len), H.PAGE_ALIGN) ==>
              Mmap(m, addr, len, prot) == Erased(len)
    ensures Mmap(m, addr, len, prot).Returned? && len < TWO32 ==>
              var (m', va) := Mmap(m, addr, len, prot).value;
              && va == Place(m, addr, len) != 0 && m'.last == (if addr == 0 then va else Last(m))
              && Mmapped(m, m', owner', pinned, va, len, mem, prot)
  {
    hide Good, Mmapped, Alloc, MapPages, Fresh, Grows, Place, UserPages, H.Refused, H.ChunkSize;
    owner', mem := owner, 0;
    if len != 0 && len % 0x1000 == 0 {
      AllocCoreGood(m, owner, pinned, len);
      if Alloc(m, len, H.PAGE_ALIGN).Returned? && Alloc(m, len, H.PAGE_ALIGN).value.1 != 0 {
        var (m1, mem1) := Alloc(m, len, H.PAGE_ALIGN).value;
        mem := mem1;
        var va := Place(m, addr, len);
        UserPagesNonzero(va, len);
        var m2 := m1.(last := if addr == 0 then va else Last(m));
        owner' := MmapMaps(m, m1, m2, owner, pinned, va, mem, len, prot);
      }
    }
  }

  lemma AddedUser(m: Mm, v: nat, p: nat, prot: nat)
    ensures AddTransUser(m, v, p, prot).Returned? ==> UserRangeOk(v)
  {
  }

  /** A later page of a range starts at least one page after its first. */
  lemma NextPage(va: nat, x: nat)
    requires va < x && (x - va) % 0x1000 == 0
    ensures va + 0x1000 <= x && (x - (va + 0x1000)) % 0x1000 == 0
  {
    QuotientIs(x - (va + 0x1000), 0x1000, (x - va) / 0x1000 - 1, 0);
  }

  /** The loop of mmap only finishes when all its pages are user pages. */
  lemma {:induction false} MapPagesUser(m: Mm, va: nat, mem: nat, len: nat, prot: nat, i: nat)
    requires len % 0x1000 == 0 && i % 0x1000 == 0 && i <= len
    requires MapPages(m, va, mem, len, prot, i).Returned?
    ensures UserPages(va + i, len - i)
    decreases len - i
  {
    hide AddTransUser, UserRangeOk;
    if i < len {
      assert AddTransUser(m, va + i, mem + i, prot).Returned? && UserRangeOk(va + i) by {
        AddedUser(m, va + i, mem + i, prot);
      }
      var m' := AddTransUser(m, va + i, mem + i, prot).value;
      MapPagesUser(m', va, mem, len, prot, i + 0x1000);
      forall x: nat | va + i <= x < va + len && (x - va - i) % 0x1000 == 0 ensures UserRangeOk(x) {
        if x != va + i { NextPage(va + i, x); }
      }
    }
  }

  lemma GivenPlace(m: Mm, addr: nat, len: nat)
    ensures addr != 0 ==> Place(m, addr, len) == addr
  {
  }

  lemma PlaceAligned(m: Mm, addr: nat, len: nat)
    requires addr % 0x1000 == 0 && len % 0x1000 == 0 && Last(m) % 0x1000 == 0
    ensures Place(m, addr, len) % 0x1000 == 0
  {
    if addr == 0 {
      var d := Last(m) - len;
      var q, k := d / 0x1_0000_0000_0000_0000, Last(m) / 0x1000 - len / 0x1000;
      assert d == 0x1_0000_0000_0000_0000 * q + Place(m, addr, len);
      QuotientIs(Place(m, addr, len), 0x1000, k - 0x10_0000_0000_0000 * q, 0);
    }
  }

  /** Whatever pages are asked for, the loop of mmap has only one way to panic. */
  lemma {:induction false} MapPagesPanics(m: Mm, owner: Owner, pinned: Pins,
                                          va: nat, mem: nat, len: nat, prot: nat, i: nat)
    requires Good(m, owner, pinned) && Block(m, mem, len) && mem - H.HEADER in pinned.chunks
    requires len % 0x1000 == 0 && i % 0x1000 == 0 && i <= len && mem % 0x1000 == 0
    ensures MapPages(m, va, mem, len, prot, i).Panicked? ==> MapPages(m, va, mem, len, prot, i).reason == NotAllowed
    decreases len - i
  {
    hide Good, Core, Maps, AddTransUser, InPinned, ClearBase, H.Live, Grows, UserRangeOk, Block;
    if i < len {
      PagePinned(m, owner, pinned, mem, len, i);
      var owner' := AddTransUserCorrect(m, owner, pinned, va + i, mem + i, prot);
      if AddTransUser(m, va + i, mem + i, prot).Returned? {
        var m1 := AddTransUser(m, va + i, mem + i, prot).value;
        BlockGrows(m, m1, mem, len);
        MapPagesPanics(m1, owner', pinned, va, mem, len, prot, i + 0x1000);
      }
    }
  }

  // ---------------------------------------------------------------- enough memory

  // What a page table costs at most: its chunk and the gap before it.
  const TABLE_COST: nat := 0x2080

  lemma DescendSucceeds(m: Mm, owner: Owner, pinned: Pins, t: nat, i: nat)
    requires Good(m, owner, pinned) && t in m.ts && i < 512 && t in owner && !owner[t].Pt?
    requires !KernelCell(owner[t], i) && TABLE_COST <= m.heap.topSize
    ensures Descend(m, t, i).Returned?
    ensures m.heap.topSize - TABLE_COST <= Descend(m, t, i).value.0.heap.topSize
  {
    hide Good, Core, H.Kmalloc, KernelCell, Get, Blit, Link;
    DescendGood(m, owner, pinned, t, i);
    if !Get(m.ts, t, i).present {
      assert H.Inv(m.heap) by { GoodCore(m, owner, pinned); CoreShape(m, owner); }
      H.AlignedFits(m.heap, 0x1000);
      assert Physical(Alloc(m, 0x1000, H.PAGE_ALIGN).value.1).Returned? by {
        GoodCore(m, owner, pinned);
        AllocCore(m, owner, 0x1000, H.PAGE_ALIGN);
      }
    }
  }

  lemma WalkSucceeds(m: Mm, owner: Owner, pinned: Pins, v: nat)
    requires Good(m, owner, pinned) && UserRangeOk(v) && 3 * TABLE_COST <= m.heap.topSize
    ensures Walk(m, v).Returned? && m.heap.topSize - 3 * TABLE_COST <= Walk(m, v).value.0.heap.topSize
  {
    hide Good, Descend, Grows, UserRangeOk, KernelCell, I4, I3, I2, Get, DescendOwner, Extends, SameTranslations;
    assert CR3 in m.ts && CR3 in owner && owner[CR3] == Pml4 by { GoodCore(m, owner, pinned); CoreShape(m, owner); }
    UserCells(v);
    DescendGood(m, owner, pinned, CR3, I4(v));
    DescendSucceeds(m, owner, pinned, CR3, I4(v));
    var r3, o3 := Descend(m, CR3, I4(v)).value, DescendOwner(m, owner, CR3, I4(v));
    DescendGood(r3.0, o3, pinned, r3.1, I3(v));
    DescendSucceeds(r3.0, o3, pinned, r3.1, I3(v));
    var r2, o2 := Descend(r3.0, r3.1, I3(v)).value, DescendOwner(r3.0, o3, r3.1, I3(v));
    DescendSucceeds(r2.0, o2, pinned, r2.1, I2(v));
  }

  /** With room for three tables, add_trans_user on a user page does not panic. */
  lemma AddTransUserSucceeds(m: Mm, owner: Owner, pinned: Pins, v: nat, p: nat, prot: nat)
    requires Good(m, owner, pinned) && UserRangeOk(v) && 3 * TABLE_COST <= m.heap.topSize
    ensures AddTransUser(m, v, p, prot).Returned?
    ensures m.heap.topSize - 3 * TABLE_COST <= AddTransUser(m, v, p, prot).value.heap.topSize
  {
    hide Good, Descend, UserRangeOk, SetCell, ClearBase, I4, I3, I2, I1;
    WalkSucceeds(m, owner, pinned, v);
  }

  lemma {:induction false} MapPagesSucceeds(m: Mm, owner: Owner, pinned: Pins,
                                            va: nat, mem: nat, len: nat, prot: nat, i: nat)
    requires Good(m, owner, pinned) && Block(m, mem, len) && mem - H.HEADER in pinned.chunks && mem % 0x1000 == 0
    requires len % 0x1000 == 0 && i % 0x1000 == 0 && i <= len && UserPages(va, len)
    requires 3 * TABLE_COST * ((len - i) / 0x1000) <= m.heap.topSize
    ensures MapPages(m, va, mem, len, prot, i).Returned?
    ensures m.heap.topSize - 3 * TABLE_COST * ((len - i) / 0x1000)
         <= MapPages(m, va, mem, len, prot, i).value.heap.topSize
    decreases len - i
  {
    hide Good, Core, Maps, AddTransUser, InPinned, ClearBase, H.Live, Grows, UserRangeOk, Block, UserPages;
    if i < len {
      PagePinned(m, owner, pinned, mem, len, i);
      UserPageAt(va, len, i);
      QuotientIs(len - i, 0x1000, (len - (i + 0x1000)) / 0x1000 + 1, (len - (i + 0x1000)) % 0x1000);
      AddTransUserSucceeds(m, owner, pinned, va + i, mem + i, prot);
      var owner' := AddTransUserCorrect(m, owner, pinned, va + i, mem + i, prot);
      var m1 := AddTransUser(m, va + i, mem + i, prot).value;
      BlockGrows(m, m1, mem, len);
      MapPagesSucceeds(m1, owner', pinned, va, mem, len, prot, i + 0x1000);
    }
  }

  /** What a mapping of len bytes costs at most: its block with the gap before it, and three
      tables a page. */
  function MapCost(len: nat): nat {
    0x1000 + H.ChunkSize(len) + 3 * TABLE_COST * (len / 0x1000)
  }

  lemma FreshPages(m: Mm, m1: Mm, m2: Mm, owner: Owner, pinned: Pins, va: nat, mem: nat, len: nat, prot: nat)
    requires Good(m, owner, pinned) && Good(m1, owner, pinned) && Fresh(m, m1, mem, len) && m1.ts == m.ts
    requires mem % 0x1000 == 0 && len % 0x1000 == 0 && m2 == m1.(last := m2.last) && UserPages(va, len)
    requires 3 * TABLE_COST * (len / 0x1000) <= m1.heap.topSize
    ensures MapPages(m2, va, mem, len, prot, 0).Returned?
    ensures m1.heap.topSize - 3 * TABLE_COST * (len / 0x1000)
         <= MapPages(m2, va, mem, len, prot, 0).value.heap.topSize
  {
    hide Good, MapPages, UserPages;
    FreshUnused(m, m1, owner, pinned, mem, len);
    PinBlock(m1, owner, pinned, mem - H.HEADER);
    GoodLast(m1, owner, pinned.With(mem - H.HEADER), m2.last);
    MapPagesSucceeds(m2, owner, pinned.With(mem - H.HEADER), va, mem, len, prot, 0);
  }

  /** With that much room, mmap of user pages maps them. */
  lemma MmapSucceeds(m: Mm, owner: Owner, pinned: Pins, addr: nat, len: nat, prot: nat)
    requires Good(m, owner, pinned) && 0 < len < TWO32 && len % 0x1000 == 0 && UserPages(Place(m, addr, len), len)
    requires MapCost(len) <= m.heap.topSize
    ensures Mmap(m, addr, len, prot).Returned? && Mmap(m, addr, len, prot).value.1 == Place(m, addr, len) != 0
    ensures m.heap.topSize - MapCost(len) <= Mmap(m, addr, len, prot).value.0.heap.topSize
  {
    hide Good, Core, Place, MapPages, UserPages, H.ChunkSize, Grows, Fresh, H.Kmalloc, Blit, H.Refused;
    AllocCoreGood(m, owner, pinned, len);
    assert H.Inv(m.heap) by { GoodCore(m, owner, pinned); CoreShape(m, owner); }
    H.AlignedFits(m.heap, len);
    var (m1, mem) := Alloc(m, len, H.PAGE_ALIGN).value;
    var va := Place(m, addr, len);
    UserPagesNonzero(va, len);
    var m2 := m1.(last := if addr == 0 then va else Last(m));
    FreshPages(m, m1, m2, owner, pinned, va, mem, len, prot);
  }

  lemma NoPages(va: nat, len: nat)
    requires !UserPages(va, len)
    ensures 0 < len
  {
  }

  lemma LaterPage(va: nat, len: nat)
    requires !UserPages(va, len) && UserRangeOk(va) && 0x1000 <= len
    ensures !UserPages(va + 0x1000, len - 0x1000)
  {
    hide UserRangeOk;
    var x: nat :| va <= x < va + len && (x - va) % 0x1000 == 0 && !UserRangeOk(x);
    QuotientIs(x - (va + 0x1000), 0x1000, (x - va) / 0x1000 - 1, 0);
  }

  /** With memory to spare, the loop of mmap panics when it comes to a page outside user
      memory. */
  lemma {:induction false} MapPagesDenied(m: Mm, owner: Owner, pinned: Pins,
                                          va: nat, mem: nat, len: nat, prot: nat, i: nat)
    requires Good(m, owner, pinned) && Block(m, mem, len) && mem - H.HEADER in pinned.chunks && mem % 0x1000 == 0
    requires len % 0x1000 == 0 && i % 0x1000 == 0 && i <= len && !UserPages(va + i, len - i)
    requires 3 * TABLE_COST * ((len - i) / 0x1000) <= m.heap.topSize
    ensures MapPages(m, va, mem, len, prot, i) == Panicked(NotAllowed)
    decreases len - i
  {
    hide Good, Core, Maps, AddTransUser, InPinned, ClearBase, H.Live, Grows, UserRangeOk, UserPages, Block;
    assert i < len by { NoPages(va + i, len - i); }
    PagePinned(m, owner, pinned, mem, len, i);
    QuotientIs(len - i, 0x1000, (len - (i + 0x1000)) / 0x1000 + 1, (len - (i + 0x1000)) % 0x1000);
    var owner' := AddTransUserCorrect(m, owner, pinned, va + i, mem + i, prot);
    if UserRangeOk(va + i) {
      AddTransUserSucceeds(m, owner, pinned, va + i, mem + i, prot);
      var m1 := AddTransUser(m, va + i, mem + i, prot).value;
      BlockGrows(m, m1, mem, len);
      LaterPage(va + i, len - i);
      MapPagesDenied(m1, owner', pinned, va, mem, len, prot, i + 0x1000);
    }
  }

  lemma DeniedPages(m: Mm, m1: Mm, m2: Mm, owner: Owner, pinned: Pins, va: nat, mem: nat, len: nat, prot: nat)
    requires Good(m, owner, pinned) && Good(m1, owner, pinned) && Fresh(m, m1, mem, len) && m1.ts == m.ts
    requires mem % 0x1000 == 0 && len % 0x1000 == 0 && m2 == m1.(last := m2.last) && !UserPages(va, len)
    requires 3 * TABLE_COST * (len / 0x1000) <= m1.heap.topSize
    ensures MapPages(m2, va, mem, len, prot, 0) == Panicked(NotAllowed)
  {
    hide Good, MapPages, UserPages;
    FreshUnused(m, m1, owner, pinned, mem, len);
    PinBlock(m1, owner, pinned, mem - H.HEADER);
    GoodLast(m1, owner, pinned.With(mem - H.HEADER), m2.last);
    MapPagesDenied(m2, owner, pinned.With(mem - H.HEADER), va, mem, len, prot, 0);
  }

  lemma MmapDenied(m: Mm, owner: Owner, pinned: Pins, addr: nat, len: nat, prot: nat)
    requires Good(m, owner, pinned) && 0 < len < TWO32 && len % 0x1000 == 0 && !UserPages(Place(m, addr, len), len)
    requires MapCost(len) <= m.heap.topSize
    ensures Mmap(m, addr, len, prot) == Panicked(NotAllowed)
  {
    hide Good, Core, Place, MapPages, UserPages, H.ChunkSize, Grows, H.Kmalloc, Blit, H.Refused, Fresh;
    AllocCoreGood(m, owner, pinned, len);
    assert H.Inv(m.heap) by { GoodCore(m, owner, pinned); CoreShape(m, owner); }
    H.AlignedFits(m.heap, len);
    var (m1, mem) := Alloc(m, len, H.PAGE_ALIGN).value;
    var va := Place(m, addr, len);
    var m2 := m1.(last := if addr == 0 then va else Last(m));
    DeniedPages(m, m1, m2, owner, pinned, va, mem, len, prot);
  }

  // ---------------------------------------------------------------- protection, in plain numbers

  /** Who gets through to a page of protection prot (1 to read, 2 to write, 4 to execute): the
      walk of a user's read, of a write by the kernel, of a user's write, of a kernel's read. */
  ghost predicate Guarded(ts: Tables, x: nat, prot: nat) {
    && (Translate(ts, x, true, false).Some? <==> prot in {1, 3, 5, 7})
    && (Translate(ts, x, false, true).Some? <==> prot in {2, 3, 6, 7})
    && (Translate(ts, x, true, true).Some? <==> prot in {3, 7})
    && Translate(ts, x, false, false).Some?
  }

  lemma AllowsNumbers(prot: nat)
    requires prot < 8
    ensures Allows(prot, true, false) <==> prot in {1, 3, 5, 7}
    ensures Allows(prot, false, true) <==> prot in {2, 3, 6, 7}
    ensures Allows(prot, true, true) <==> prot in {3, 7}
    ensures Allows(prot, false, false)
  {
  }

  lemma SameHalf(v: nat, x: nat)
    requires v < TWO48 && x / 0x1000 == v / 0x1000
    ensures x < TWO48
  {
  }

  /** After add_trans_user every address on the page of v is guarded by its protection, and leads
      to its place on the frame p. */
  lemma AddedGuarded(m: Mm, owner: Owner, pinned: Pins, v: nat, p: nat, prot: nat, x: nat)
    requires Good(m, owner, pinned) && p % 0x1000 == 0 && InPinned(m.heap, pinned, ClearBase(p)) && prot < 8
    requires x / 0x1000 == v / 0x1000 && AddTransUser(m, v, p, prot).Returned?
    ensures Guarded(AddTransUser(m, v, p, prot).value.ts, x, prot)
    ensures Translate(AddTransUser(m, v, p, prot).value.ts, x, false, false) == Some(ClearBase(p) + x % 0x1000)
  {
    hide Good, InPinned, ClearBase, AddTransUser, Translate, Allows, UserRangeOk, Grows;
    var owner' := AddTransUserCorrect(m, owner, pinned, v, p, prot);
    AddedUser(m, v, p, prot);
    UserBelow(v);
    SamePageNumber(v, x);
    OffsetOnPage(v, x);
    assert x < TWO48 by { SameHalf(v, x); }
    QuotientIs(x, 0x1_0000_0000_0000, 0, x);
    AllowsNumbers(prot);
  }

  /** The kernel's own cells are closed to add_trans_user: from cr3, its 512GB slot. */
  lemma KernelSlotClosed(m: Mm, owner: Owner)
    requires Core(m, owner)
    ensures Descend(m, CR3, 1) == Panicked(InvalidAddress)
  {
    hide H.Inv, TablesHeld, Tree, UserDirs;
  }

  /** The first range the kernel chooses ends at 0x7ffff7fff000, each later one where the last
      began. */
  lemma ChosenFirst(m: Mm, owner: Owner, pinned: Pins, len: nat, prot: nat)
    requires Good(m, owner, pinned) && 0 < len < 0x4000_0000 && len % 0x1000 == 0 && MapCost(len) <= m.heap.topSize
    requires m.last == 0xffff_ffff_ffff_ffff
    ensures Mmap(m, 0, len, prot).Returned? && Mmap(m, 0, len, prot).value.1 == 0x7fff_f7ff_f000 - len
    ensures Last(Mmap(m, 0, len, prot).value.0) == 0x7fff_f7ff_f000 - len
  {
    hide Good, MapPages, Alloc, MapCost;
    var va := 0x7fff_f7ff_f000 - len;
    assert Place(m, 0, len) == va by { QuotientIs(va, 0x1_0000_0000_0000_0000, 0, va); }
    assert UserPages(va, len);
    MmapSucceeds(m, owner, pinned, 0, len, prot);
    QuotientIs(va, 0x1000, 0x7_ffff_7fff - len / 0x1000, 0);
    var owner', mem := MmapCorrect(m, owner, pinned, 0, len, prot);
  }

  // ---------------------------------------------------------------- nothing is lost

  /** Chunk c holds a page table. */
  ghost predicate IsTable(ts: Tables, c: nat) {
    exists t <- ts :: ChunkAt(t) == c
  }

  /** No table is given up, and every chunk that is live afterwards was live before, is one of
      cs, or holds a page table. */
  ghost predicate Accounted(m: Mm, m': Mm, cs: set<nat>) {
    && m.ts.Keys <= m'.ts.Keys
    && forall c | H.Live(m'.heap, c) :: H.Live(m.heap, c) || c in cs || IsTable(m'.ts, c)
  }

  lemma TablesStay(ts: Tables, ts': Tables, c: nat)
    requires ts.Keys <= ts'.Keys && IsTable(ts, c)
    ensures IsTable(ts', c)
  {
    var t :| t in ts && ChunkAt(t) == c;
    assert t in ts';
  }

  lemma AccountedTwice(a: Mm, b: Mm, c: Mm, cs: set<nat>, ds: set<nat>)
    requires Accounted(a, b, cs) && Accounted(b, c, ds)
    ensures Accounted(a, c, cs + ds)
  {
    hide H.Live, IsTable;
    forall x | H.Live(c.heap, x) ensures H.Live(a.heap, x) || x in cs + ds || IsTable(c.ts, x) {
      if H.Live(b.heap, x) && IsTable(b.ts, x) { TablesStay(b.ts, c.ts, x); }
    }
  }

  lemma DescendAccounted(m: Mm, owner: Owner, t: nat, i: nat)
    requires Core(m, owner) && Descend(m, t, i).Returned?
    ensures Accounted(m, Descend(m, t, i).value.0, {})
  {
    hide Core, Alloc, Grows, H.Refused, H.ChunkSize, H.Live;
    AllocCore(m, owner, 0x1000, H.PAGE_ALIGN);
    var (m', f) := Descend(m, t, i).value;
    if !Get(m.ts, t, i).present {
      var (m1, mem) := Alloc(m, 0x1000, H.PAGE_ALIGN).value;
      assert f == mem - KERNEL_BASE && f in m'.ts && ChunkAt(f) == mem - H.HEADER;
      assert IsTable(m'.ts, mem - H.HEADER);
    }
  }

  lemma LeafAccounted(m: Mm, m1: Mm, t: nat, i: nat, e: Entry)
    requires Accounted(m, m1, {})
    ensures Accounted(m, m1.(ts := SetCell(m1.ts, t, i, e)), {})
  {
    hide H.Live;
    forall c | IsTable(m1.ts, c) ensures IsTable(SetCell(m1.ts, t, i, e), c) {
      TablesStay(m1.ts, SetCell(m1.ts, t, i, e), c);
    }
  }

  lemma AddTransAccounted(m: Mm, owner: Owner, pinned: Pins, v: nat, p: nat, prot: nat)
    requires Good(m, owner, pinned) && AddTransUser(m, v, p, prot).Returned?
    ensures Accounted(m, AddTransUser(m, v, p, prot).value, {})
  {
    hide Good, Core, Descend, Grows, UserRangeOk, KernelCell, I4, I3, I2, I1, Get, DescendOwner, Extends,
      SameTranslations, Accounted, SetCell, ClearBase;
    assert CR3 in m.ts && CR3 in owner && owner[CR3] == Pml4 by { GoodCore(m, owner, pinned); CoreShape(m, owner); }
    AddedUser(m, v, p, prot);
    UserCells(v);
    DescendGood(m, owner, pinned, CR3, I4(v));
    DescendAccounted(m, owner, CR3, I4(v)) by { GoodCore(m, owner, pinned); }
    var r3, o3 := Descend(m, CR3, I4(v)).value, DescendOwner(m, owner, CR3, I4(v));
    DescendGood(r3.0, o3, pinned, r3.1, I3(v));
    DescendAccounted(r3.0, o3, r3.1, I3(v)) by { GoodCore(r3.0, o3, pinned); }
    var r2, o2 := Descend(r3.0, r3.1, I3(v)).value, DescendOwner(r3.0, o3, r3.1, I3(v));
    DescendAccounted(r2.0, o2, r2.1, I2(v)) by { GoodCore(r2.0, o2, pinned); }
    var r1 := Descend(r2.0, r2.1, I2(v)).value;
    var none: set<nat> := {};
    assert none + none == none;
    AccountedTwice(m, r3.0, r2.0, none, none);
    AccountedTwice(m, r2.0, r1.0, none, none);
    LeafAccounted(m, r1.0, r1.1, I1(v), Leaf(ClearBase(p), prot));
  }

  lemma AccountedNone(m: Mm)
    ensures Accounted(m, m, {})
  {
  }

  lemma {:induction false} MapPagesAccounted(m: Mm, owner: Owner, pinned: Pins,
                                             va: nat, mem: nat, len: nat, prot: nat, i: nat)
    requires Good(m, owner, pinned) && Block(m, mem, len) && mem - H.HEADER in pinned.chunks
    requires len % 0x1000 == 0 && i % 0x1000 == 0 && i <= len && mem % 0x1000 == 0
    requires MapPages(m, va, mem, len, prot, i).Returned?
    ensures Accounted(m, MapPages(m, va, mem, len, prot, i).value, {})
    decreases len - i
  {
    hide Good, Core, Maps, AddTransUser, InPinned, ClearBase, H.Live, Grows, UserRangeOk, Block, Accounted;
    if i < len {
      PagePinned(m, owner, pinned, mem, len, i);
      AddTransAccounted(m, owner, pinned, va + i, mem + i, prot);
      var owner' := AddTransUserCorrect(m, owner, pinned, va + i, mem + i, prot);
      var m1 := AddTransUser(m, va + i, mem + i, prot).value;
      BlockGrows(m, m1, mem, len);
      MapPagesAccounted(m1, owner', pinned, va, mem, len, prot, i + 0x1000);
      var none: set<nat> := {};
      AccountedTwice(m, m1, MapPages(m, va, mem, len, prot, i).value, none, none);
      assert none + none == none;
    } else {
      AccountedNone(m);
    }
  }

  lemma FreshAccounted(m: Mm, m1: Mm, m2: Mm, mem: nat, len: nat)
    requires Fresh(m, m1, mem, len) && m1.ts == m.ts && m2 == m1.(last := m2.last)
    ensures H.HEADER <= mem && Accounted(m, m2, {mem - H.HEADER})
  {
    hide H.ChunkSize;
  }

  lemma BlockAccounted(m: Mm, m1: Mm, m2: Mm, owner: Owner, pinned: Pins, va: nat, mem: nat, len: nat, prot: nat)
    requires Good(m, owner, pinned) && Good(m1, owner, pinned) && Fresh(m, m1, mem, len) && m1.ts == m.ts
    requires mem % 0x1000 == 0 && len % 0x1000 == 0 && m2 == m1.(last := m2.last)
    requires MapPages(m2, va, mem, len, prot, 0).Returned?
    ensures Accounted(m2, MapPages(m2, va, mem, len, prot, 0).value, {})
  {
    hide Good, MapPages, Accounted;
    FreshUnused(m, m1, owner, pinned, mem, len);
    PinBlock(m1, owner, pinned, mem - H.HEADER);
    GoodLast(m1, owner, pinned.With(mem - H.HEADER), m2.last);
    MapPagesAccounted(m2, owner, pinned.With(mem - H.HEADER), va, mem, len, prot, 0);
  }

  /** mmap takes one block and page tables, and nothing else. */
  lemma MmapAccounted(m: Mm, owner: Owner, pinned: Pins, addr: nat, len: nat, prot: nat) returns (mem: nat)
    requires Good(m, owner, pinned) && 0 < len < TWO32 && len % 0x1000 == 0 && Mmap(m, addr, len, prot).Returned?
    ensures Backs(m, len, mem) && H.HEADER <= mem
    ensures Accounted(m, Mmap(m, addr, len, prot).value.0, {mem - H.HEADER})
  {
    hide Good, Alloc, MapPages, Grows, Place, H.Refused, H.ChunkSize, Accounted, Fresh;
    AllocCoreGood(m, owner, pinned, len);
    var (m1, mem1) := Alloc(m, len, H.PAGE_ALIGN).value;
    mem := mem1;
    var va := Place(m, addr, len);
    var m2 := m1.(last := if addr == 0 then va else Last(m));
    FreshAccounted(m, m1, m2, mem, len);
    BlockAccounted(m, m1, m2, owner, pinned, va, mem, len, prot);
    AccountedTwice(m, m2, MapPages(m2, va, mem, len, prot, 0).value, {mem - H.HEADER}, {});
    assert {mem - H.HEADER} + {} == {mem - H.HEADER};
  }
}
