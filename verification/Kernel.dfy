/**
  The memory manager as the kernel runs it: an object that owns the arena, the page tables
  and RAM, and whose methods change them in place.  Each method is proved to do what the
  description of the operation on values says, panics included.
 */
module Kernel {
  import opened Machine
  import opened Paging
  import opened Memory
  import opened Mapping
  import opened Protect
  import opened FileMap
  import opened Loader
  import A = Arena
  import H = Heap

  function Lesser(a: nat, b: nat): nat {
    if a < b then a else b
  }

  lemma MinPositive(h: H.Heap)
    requires H.Inv(h)
    ensures 0 < h.min
  {
  }

  lemma ScratchLive(m: Mm, n: nat)
    requires H.Inv(m.heap) && Placed(m) && Alloc(m, n, H.NO_ALIGN).Returned? && 0 < n < TWO32
    ensures var (m', mem) := Alloc(m, n, H.NO_ALIGN).value;
            mem > H.HEADER && H.Live(m'.heap, mem - H.HEADER) && Physical(mem).Returned?
  {
    hide H.Inv, H.Kmalloc, Blit, Physical;
    H.KmallocInv(m.heap, n, H.NO_ALIGN);
    assert 0 < m.heap.min by { MinPositive(m.heap); }
    var (m', mem) := Alloc(m, n, H.NO_ALIGN).value;
    LivePlaced(m', mem - H.HEADER);
    BaseBit(mem);
  }

  /** Memory that kmalloc hands out lies in RAM. */
  lemma MemoryFits(m: Mm, len: nat, align: nat)
    requires H.Inv(m.heap) && Placed(m) && (align == H.NO_ALIGN || align == H.PAGE_ALIGN)
    ensures !H.Kmalloc(m.heap, len, align).Panicked? && PS_LIMIT <= |m.ram|
    ensures H.Kmalloc(m.heap, len, align).Returned? ==>
              var (h, mem) := H.Kmalloc(m.heap, len, align).value;
              && Placed(m.(heap := h))
              && (mem != 0 ==> ClearBase(mem) + len <= |m.ram|)
  {
    hide H.Kmalloc, ClearBase;
    assert m.heap.min <= m.heap.top;
    hide H.Inv;
    H.KmallocInv(m.heap, len, align);
    if H.Kmalloc(m.heap, len, align).Returned? && H.Kmalloc(m.heap, len, align).value.1 != 0 {
      var (h, mem) := H.Kmalloc(m.heap, len, align).value;
      LivePlaced(m.(heap := h), mem - H.HEADER);
      BaseBit(mem);
    }
  }

  class Kernel {
    const arena: A.Arena
    var ts: Tables
    var ram: seq<byte>
    var last: nat

    ghost function Abs(): Mm
      reads this, arena
    {
      Mm(arena.Abs(), ts, ram, last)
    }

    ghost predicate Valid()
      reads this, arena
    {
      arena.Valid() && Placed(Abs())
    }

    /** init_pagetable */
    method FillKernelWindow()
      requires ts == SetupPaging()
      modifies this`ts
      ensures ts == InitPagetable(SetupPaging())
    {
      var pd: seq<Entry> := EmptyTable();
      for i := 0 to 512
        invariant |pd| == 512
        invariant forall j | 0 <= j < i :: pd[j] == BigPage(j)
      {
        pd := pd[i := BigPage(i)];
      }
      assert pd == seq(512, i => BigPage(i));
      ts := SetCell(ts, CR3, 1, Entry(true, true, false, false, KPDP))
        [KPDP := OneEntry(0, Entry(true, true, false, false, KPD))][KPD := pd];
    }

    /** Boot: setup_paging of the hypervisor, then init_pagetable and init_allocator. */
    constructor (ram: seq<byte>, len: nat)
      requires 0 < len && len % 0x1000 == 0 && PS_LIMIT + len <= |ram| <= 0x4000_0000
      ensures Valid() && fresh(arena)
      ensures H.InitAllocator(KERNEL_BASE + PS_LIMIT, len) == Returned(arena.Abs())
      ensures ts == InitPagetable(SetupPaging()) && this.ram == ram && last == NOT_MMAPPED
    {
      arena := new A.Arena(KERNEL_BASE + PS_LIMIT, len);
      ts := SetupPaging();
      this.ram := ram;
      last := NOT_MMAPPED;
      new;
      FillKernelWindow();
    }

    /** memset(p, 0, n) */
    method Clear(p: nat, n: nat)
      requires p + n <= |ram|
      modifies this`ram
      ensures ram == Blit(old(ram), p, Zeros(n))
    {
      for i := 0 to n
        invariant |ram| == |old(ram)|
        invariant forall a | 0 <= a < |ram| :: ram[a] == if p <= a < p + i then 0 else old(ram)[a]
      {
        ram := ram[p + i := 0];
      }
    }

    /** kmalloc.  What it clears when it has no room is stated as far as the first 2MB, which
        stand at their own addresses; later addresses are the user's, or unmapped. */
    method Kmalloc(len: nat, align: nat) returns (r: Outcome<nat>)
      requires Valid() && (align == H.NO_ALIGN || align == H.PAGE_ALIGN)
      modifies this`ram, arena
      ensures Valid()
      ensures r.Returned? ==> Alloc(old(Abs()), len, align) == Returned((Abs(), r.value))
      ensures !r.Returned? ==> Alloc(old(Abs()), len, align) == r.PropagateFailure()
      ensures r.Erased? ==> Abs() == old(Abs()).(ram := Blit(old(ram), 0, Zeros(Lesser(len, PS_LIMIT))))
    {
      hide Blit, H.Kmalloc, H.Inv;
      ghost var m := Abs();
      MemoryFits(m, len, align);
      r := arena.Kmalloc(len, align);
      if r.Erased? {
        Clear(0, Lesser(len, PS_LIMIT));
      } else if r.value != 0 {
        Clear(ClearBase(r.value), len);
      }
    }

    /** The macro PAGING of add_trans_user. */
    method TableBelow(t: nat, i: nat) returns (r: Outcome<nat>)
      requires Valid()
      modifies this, arena
      ensures Valid()
      ensures r.Returned? ==> Descend(old(Abs()), t, i) == Returned((Abs(), r.value))
      ensures !r.Returned? ==> Descend(old(Abs()), t, i) == r.PropagateFailure()
    {
      hide Alloc, Link, H.Inv;
      var e := Get(ts, t, i);
      if !e.present {
        var c :- Kmalloc(0x1000, H.PAGE_ALIGN);
        var f :- Physical(c);
        ts := Link(ts, t, i, f);
        return Returned(f);
      }
      if !e.user { return Panicked(InvalidAddress); }
      return Returned(e.frame);
    }

    /** add_trans_user */
    method AddTrans(v: nat, p: nat, prot: nat) returns (r: Outcome<()>)
      requires Valid()
      modifies this, arena
      ensures Valid()
      ensures r.Returned? ==> AddTransUser(old(Abs()), v, p, prot) == Returned(Abs())
      ensures !r.Returned? ==> AddTransUser(old(Abs()), v, p, prot) == r.PropagateFailure()
    {
      hide Descend, H.Inv, UserRangeOk, I4, I3, I2, I1, ClearBase;
      if !UserRangeOk(v) { return Panicked(NotAllowed); }
      var pdp :- TableBelow(CR3, I4(v));
      var pd :- TableBelow(pdp, I3(v));
      var pt :- TableBelow(pd, I2(v));
      var e := Entry(true, false, false, false, ClearBase(p));
      if Readable(prot) { e := e.(user := true); }
      if Writable(prot) { e := e.(rw := true); }
      ts := SetCell(ts, pt, I1(v), e);
      return Returned(());
    }

    /** The loop of mmap. */
    method MapLoop(va: nat, mem: nat, len: nat, prot: nat) returns (r: Outcome<()>)
      requires Valid()
      modifies this, arena
      ensures Valid()
      ensures r.Returned? ==> MapPages(old(Abs()), va, mem, len, prot, 0) == Returned(Abs())
      ensures !r.Returned? ==> MapPages(old(Abs()), va, mem, len, prot, 0) == r.PropagateFailure()
    {
      hide AddTransUser, H.Inv;
      var i := 0;
      while i < len
        invariant Valid()
        invariant MapPages(old(Abs()), va, mem, len, prot, 0) == MapPages(Abs(), va, mem, len, prot, i)
      {
        var _ :- AddTrans(va + i, mem + i, prot);
        i := i + 0x1000;
      }
      return Returned(());
    }

    /** mmap; address 0 stands for no memory */
    method MapBlock(addr: nat, len: nat, prot: nat) returns (r: Outcome<nat>)
      requires Valid()
      modifies this, arena
      ensures Valid()
      ensures r.Returned? ==> Mmap(old(Abs()), addr, len, prot) == Returned((Abs(), r.value))
      ensures !r.Returned? ==> Mmap(old(Abs()), addr, len, prot) == r.PropagateFailure()
    {
      hide Alloc, AddTransUser, H.Inv;
      if len == 0 || len % 0x1000 != 0 { return Panicked(InvalidLength); }
      ghost var m := Abs();
      var mem :- Kmalloc(len, H.PAGE_ALIGN);
      if mem == 0 { return Returned(0); }
      if last == NOT_MMAPPED { last := MMAP_TOP; }
      assert last == Last(m);
      var va := addr;
      if addr == 0 {
        va := (last - len) % 0x1_0000_0000_0000_0000;
        last := va;
      }
      assert va == Place(m, addr, len);
      var _ :- MapLoop(va, mem, len, prot);
      return Returned(va);
    }

    /** modify_permission: whether the page is mapped */
    method ChangePermission(v: nat, prot: nat) returns (ok: bool)
      requires UserRangeOk(v)
      modifies this`ts
      ensures ok <==> ModifyPermission(old(ts), v, prot).Some?
      ensures ts == if ok then ModifyPermission(old(ts), v, prot).value else old(ts)
    {
      hide I4, I3, I2, I1, UserRangeOk;
      var e4 := Get(ts, CR3, I4(v));
      if !e4.present { return false; }
      var e3 := Get(ts, e4.frame, I3(v));
      if !e3.present { return false; }
      var e2 := Get(ts, e3.frame, I2(v));
      if !e2.present { return false; }
      var e := Get(ts, e2.frame, I1(v));
      if !e.present { return false; }
      e := e.(user := false, rw := false);
      if Readable(prot) { e := e.(user := true); }
      if Writable(prot) { e := e.(rw := true); }
      ts := SetCell(ts, e2.frame, I1(v), e);
      return true;
    }

    /** mprotect */
    method ProtectRange(addr: nat, len: nat, prot: nat) returns (r: int)
      modifies this`ts
      ensures Mprotect(old(Abs()), addr, len, prot) == (Abs(), r)
    {
      hide ModifyPermission, UserRangeOk;
      if addr % 0x1000 != 0 { return -EINVAL; }
      var i := 0;
      while i < len
        invariant ProtectPages(old(Abs()), addr, len, prot, 0) == ProtectPages(Abs(), addr, len, prot, i)
      {
        if !UserRangeOk(addr + i) { return -EACCES; }
        ghost var m := Abs();
        var ok := ChangePermission(addr + i, prot);
        if !ok { return -EACCES; }
        assert Abs() == m.(ts := ModifyPermission(m.ts, addr + i, prot).value);
        i := i + 0x1000;
      }
      return 0;
    }

    /** A parameter block of n bytes for a hypercall; physical accepts it. */
    method Scratch(n: nat) returns (r: Outcome<nat>)
      requires Valid() && 0 < n < TWO32
      modifies this`ram, arena
      ensures Valid()
      ensures r.Returned? ==>
                && Alloc(old(Abs()), n, H.NO_ALIGN) == Returned((Abs(), r.value)) && Physical(r.value).Returned?
                && r.value > H.HEADER && H.Live(Abs().heap, r.value - H.HEADER)
      ensures !r.Returned? ==> Alloc(old(Abs()), n, H.NO_ALIGN) == r.PropagateFailure()
    {
      hide Alloc, H.Inv, Blit, Physical;
      ghost var m := Abs();
      var mem :- Kmalloc(n, H.NO_ALIGN);
      ScratchLive(m, n);
      return Returned(mem);
    }

    /** kfree of a live block */
    method Release(mem: nat)
      requires Valid() && mem > H.HEADER && H.Live(Abs().heap, mem - H.HEADER)
      modifies arena
      ensures Valid() && H.Kfree(old(Abs()).heap, mem) == Returned(Abs().heap)
    {
      hide H.Inv, H.Kfree, A.Chain;
      H.KfreeInv(arena.Abs(), mem);
      var f := arena.Kfree(mem);
    }

    /** hp_lseek */
    method Seek(host: Host, off: nat) returns (r: Outcome<int>)
      requires Valid()
      modifies this`ram, arena
      ensures Valid()
      ensures r.Returned? ==> HpLseek(old(Abs()), host, off) == Returned((Abs(), r.value))
      ensures !r.Returned? ==> HpLseek(old(Abs()), host, off) == r.PropagateFailure()
    {
      hide Alloc, H.Inv, Physical, H.Kfree, Placed, A.Chain;
      var k :- Scratch(12);
      Release(k);
      return Returned(SeekAnswer(host, off));
    }

    /** hp_read */
    method Read(host: Host, pos: nat, p: Option<nat>, n: nat) returns (r: Outcome<()>)
      requires Valid()
      modifies this`ram, arena
      ensures Valid()
      ensures r.Returned? ==> HpRead(old(Abs()), host, pos, p, n) == Returned(Abs())
      ensures !r.Returned? ==> HpRead(old(Abs()), host, pos, p, n) == r.PropagateFailure()
    {
      hide Alloc, H.Inv, Physical, H.Kfree, FileBytes, Blit, A.Chain;
      var k :- Scratch(24);
      ram := HostRead(ram, host, pos, p, n);
      Release(k);
      return Returned(());
    }

    /** sys_mmap */
    method MapFile(host: Host, addr: nat, len: nat, prot: nat, fixed: bool, fd: int, offset: nat)
      returns (r: Outcome<MapResult>)
      requires Valid()
      modifies this, arena
      ensures Valid()
      ensures r.Returned? ==>
                SysMmap(old(Abs()), host, addr, len, prot, fixed, fd, offset) == Returned((Abs(), r.value))
      ensures !r.Returned? ==> SysMmap(old(Abs()), host, addr, len, prot, fixed, fd, offset) == r.PropagateFailure()
    {
      hide H.Inv, Mmap, HpLseek, HpRead, Mprotect, Translate, UserRangeOk, PageUp, OrRw;
      if addr % 0x1000 != 0 { return Returned(Error(-EINVAL)); }
      if len == 0 { return Returned(Error(-EINVAL)); }
      var want := addr;
      if !fixed { want := 0; }
      else if addr != 0 && !UserRangeOk(addr) { return Returned(Error(-EINVAL)); }
      var b :- MapBlock(want, PageUp(len) % 0x1_0000_0000_0000_0000, OrRw(prot));
      if b == 0 { return Returned(Error(-ENOMEM)); }
      if fd >= 0 {
        var off := offset % 0x1_0000_0000;
        var s :- Seek(host, off);
        if s < 0 { return Returned(Error(s)); }
        var _ :- Read(host, off, Translate(ts, b, true, true), len);
      }
      var _ := ProtectRange(b, PageUp(len), prot);
      return Returned(At(b));
    }

    /** The body of load_binary's loop for a PT_LOAD header: None when the loop goes on. */
    method MapSegment(host: Host, fd: nat, load: nat, ph: Phdr) returns (r: Outcome<Option<int>>)
      requires Valid()
      modifies this, arena
      ensures Valid()
      ensures r.Returned? ==> LoadSegment(old(Abs()), host, fd, load, ph) == Returned((Abs(), r.value))
      ensures !r.Returned? ==> LoadSegment(old(Abs()), host, fd, load, ph) == r.PropagateFailure()
    {
      hide H.Inv, Mmap, SysMmap, PageUp, PageDown, W, PfToProt, ToInt32, A.Chain;
      var st, ed := W(load + PageDown(ph.vaddr)), W(load + PageUp(W(ph.vaddr + ph.filesz)));
      var prot := PfToProt(ph.flags);
      var a :- MapFile(host, st, W(ph.filesz + ph.offset % 0x1000), prot, true, fd, PageDown(ph.offset));
      if a.Error? { return Returned(Some(a.code)); }
      if a.addr != st { return Returned(Some(ToInt32(a.addr))); }
      if ph.memsz > ph.filesz {
        var bssEnd := W(load + PageUp(W(ph.vaddr + ph.memsz)));
        if bssEnd != ed {
          var b :- MapBlock(ed, W(bssEnd as int - ed as int), prot);
          if b != ed { return Returned(Some(-ENOMEM)); }
        }
      }
      return Returned(None);
    }

    /** The loop of load_binary over the program headers. */
    method MapSegments(host: Host, fd: nat, load: nat, hdr: seq<byte>, n: nat) returns (r: Outcome<Option<int>>)
      requires Valid()
      modifies this, arena
      ensures Valid()
      ensures r.Returned? ==> LoadSegments(old(Abs()), host, fd, load, hdr, n, 0) == Returned((Abs(), r.value))
      ensures !r.Returned? ==> LoadSegments(old(Abs()), host, fd, load, hdr, n, 0) == r.PropagateFailure()
    {
      hide H.Inv, LoadSegment, PhdrAt, A.Chain;
      var i := 0;
      while i < n
        invariant Valid() && 0 <= i <= n
        invariant LoadSegments(old(Abs()), host, fd, load, hdr, n, 0) == LoadSegments(Abs(), host, fd, load, hdr, n, i)
      {
        if PhdrAt(hdr, i).ptype == PT_LOAD {
          var s :- MapSegment(host, fd, load, PhdrAt(hdr, i));
          if s.Some? { return Returned(s); }
        }
        i := i + 1;
      }
      return Returned(None);
    }

    /** load_binary */
    method LoadFile(host: Host, fd: nat) returns (r: Outcome<LoadResult>)
      requires Valid()
      modifies this, arena
      ensures Valid()
      ensures r.Returned? ==> LoadBinary(old(Abs()), host, fd) == Returned((Abs(), r.value))
      ensures !r.Returned? ==> LoadBinary(old(Abs()), host, fd) == r.PropagateFailure()
    {
      hide H.Inv, LoadSegments, Mmap, HpRead, Alloc, CheckHeader, EPhnum, EEntry, A.Chain, Physical;
      var buf :- Kmalloc(0x1000, H.NO_ALIGN);
      var p :- Physical(buf);
      var _ :- Read(host, 0, Some(p), 0x1000);
      var hdr := if p + 0x1000 <= |ram| then ram[p..p + 0x1000] else [];
      var load := CheckHeader(hdr);
      if load.Err? { return Returned(Stopped(load.code)); }
      var s :- MapSegments(host, fd, load.value, hdr, EPhnum(hdr));
      if s.Some? { return Returned(Stopped(s.value)); }
      var st := STACK_BASE - STACK_SIZE;
      var k :- MapBlock(st, STACK_SIZE, PROT_RW);
      if k != st { return Returned(Stopped(-ENOMEM)); }
      return Returned(Loaded(Process(load.value, EEntry(hdr), STACK_BASE - 0x1000)));
    }
  }
}
