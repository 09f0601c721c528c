/**
  sys_mmap (kernel/syscalls/sys_mmap.c) with the hypercalls it makes (kernel/hypercalls).
  The parameter blocks of the hypercalls are allocated and freed as in the kernel; what
  they hold is passed as arguments.
 */
module FileMap {
  import opened Machine
  import opened Paging
  import opened Memory
  import opened Mapping
  import opened Protect
  import H = Heap

  /** What the host knows about a guest fd: the bytes of its file when it is open, and the
      value errno was left with by earlier calls. */
  datatype Host = Host(content: Option<seq<byte>>, errno: nat)

  datatype MapResult = At(addr: nat) | Error(code: int)

  // ---------------------------------------------------------------- hypercalls

  /** The host's answer to a seek to a 32-bit offset; it is cut to a signed 32-bit number. */
  function SeekAnswer(host: Host, off: nat): int {
    if host.content.None? then -EBADF
    else if off >= 0x8000_0000 then 0 - host.errno
    else off
  }

  /** The host cannot seek: the descriptor is closed, or the answer to an offset of 2^31 or more
      reads as an error, and a call has failed before. */
  predicate SeekFails(host: Host, off: nat) {
    host.content.None? || (off >= 0x8000_0000 && host.errno > 0)
  }

  /** -EBADF for a closed descriptor, the offset itself below 2^31, and else the errno that some
      earlier call has left. */
  lemma SeekMeaning(host: Host, off: nat)
    ensures SeekAnswer(host, off) < 0 <==> SeekFails(host, off)
    ensures host.content.None? ==> SeekAnswer(host, off) == -9
    ensures host.content.Some? && off < 0x8000_0000 ==> SeekAnswer(host, off) == off
    ensures host.content.Some? && off >= 0x8000_0000 ==> SeekAnswer(host, off) == 0 - host.errno
  {
  }

  /** The bytes a read of n at position pos delivers. */
  function FileBytes(host: Host, pos: nat, n: nat): seq<byte> {
    match host.content
    case None => []
    case Some(f) => if pos >= |f| then [] else if pos + n <= |f| then f[pos..pos + n] else f[pos..]
  }

  /** RAM after the host has read n bytes to physical address p; an address outside guest
      memory (-1 among them) is refused. */
  function HostRead(ram: seq<byte>, host: Host, pos: nat, p: Option<nat>, n: nat): seq<byte> {
    if p.Some? && p.value + n <= |ram| then Blit(ram, p.value, FileBytes(host, pos, n)) else ram
  }

  lemma FileBytesLength(host: Host, pos: nat, n: nat)
    ensures |FileBytes(host, pos, n)| <= n
  {
  }

  /** A read whose buffer does not lie in guest memory changes nothing; else the delivered bytes,
      and no others, arrive. */
  lemma HostReadMeaning(ram: seq<byte>, host: Host, pos: nat, p: Option<nat>, n: nat, a: nat)
    requires a < |ram|
    ensures |HostRead(ram, host, pos, p, n)| == |ram|
    ensures var data := FileBytes(host, pos, n);
            HostRead(ram, host, pos, p, n)[a]
            == if p.Some? && p.value + n <= |ram| && p.value <= a < p.value + |data| then data[a - p.value] else ram[a]
  {
    hide FileBytes, Blit;
    var data := FileBytes(host, pos, n);
    FileBytesLength(host, pos, n);
    if p.Some? && p.value + n <= |ram| && p.value <= a < p.value + |data| { BlitAt(ram, p.value, data, a); }
  }

  function HpLseek(m: Mm, host: Host, off: nat): Outcome<(Mm, int)> {
    var r :- Alloc(m, 12, H.NO_ALIGN);
    var _ :- Physical(r.1);
    var h :- H.Kfree(r.0.heap, r.1);
    Returned((r.0.(heap := h), SeekAnswer(host, off)))
  }

  function HpRead(m: Mm, host: Host, pos: nat, p: Option<nat>, n: nat): Outcome<Mm> {
    var r :- Alloc(m, 24, H.NO_ALIGN);
    var _ :- Physical(r.1);
    var ram := HostRead(r.0.ram, host, pos, p, n);
    var h :- H.Kfree(r.0.heap, r.1);
    Returned(r.0.(heap := h, ram := ram))
  }

  // ---------------------------------------------------------------- sys_mmap

  /** `prot | PROT_RW` */
  function OrRw(prot: nat): nat {
    prot - prot % 4 + 3
  }

  /** The part of sys_mmap after mmap has returned address va. */
  function Fill(m: Mm, host: Host, va: nat, len: nat, prot: nat, fd: int, offset: nat): Outcome<(Mm, MapResult)> {
    if fd < 0 then Returned((Mprotect(m, va, PageUp(len), prot).0, At(va)))
    else
      var off := offset % 0x1_0000_0000;
      var s :- HpLseek(m, host, off);
      if s.1 < 0 then Returned((s.0, Error(s.1)))
      else
        var m2 :- HpRead(s.0, host, off, Translate(s.0.ts, va, true, true), len);
        Returned((Mprotect(m2, va, PageUp(len), prot).0, At(va)))
  }

  function SysMmap(m: Mm, host: Host, addr: nat, len: nat, prot: nat, fixed: bool, fd: int, offset: nat)
    : Outcome<(Mm, MapResult)>
  {
    if addr % 0x1000 != 0 || len == 0 then Returned((m, Error(-EINVAL)))
    else if fixed && addr != 0 && !UserRangeOk(addr) then Returned((m, Error(-EINVAL)))
    else
      var r :- Mmap(m, if fixed then addr else 0, PageUp(len) % 0x1_0000_0000_0000_0000, OrRw(prot));
      if r.1 == 0 then Returned((r.0, Error(-ENOMEM)))
      else Fill(r.0, host, r.1, len, prot, fd, offset)
  }

  // ---------------------------------------------------------------- the scratch block

  lemma GoodRam(m: Mm, owner: Owner, pinned: Pins, ram: seq<byte>)
    requires Good(m, owner, pinned) && |ram| == |m.ram|
    ensures Good(m.(ram := ram), owner, pinned)
  {
    hide H.Inv, Owned;
  }

  lemma PinnedKept(h: H.Heap, h': H.Heap, pinned: Pins, f: nat)
    requires InPinned(h, pinned, f)
    requires forall c <- pinned.chunks | H.Live(h, c) :: H.Live(h', c) && h'.size[c] == h.size[c]
    ensures InPinned(h', pinned, f)
  {
    if f !in pinned.loose {
      var c :| c in pinned.chunks && PageInside(h, c, f);
      assert PageInside(h', c, f);
    }
  }

  /** Freeing a chunk that is neither mapped nor a table keeps the invariant. */
  lemma FreeGood(m: Mm, owner: Owner, pinned: Pins, mem: nat)
    requires Good(m, owner, pinned)
    requires mem != 0 ==> H.HEADER <= mem && H.Live(m.heap, mem - H.HEADER) && mem - H.HEADER !in pinned.chunks
    requires mem != 0 ==> forall t <- m.ts | !BootTable(t) :: KERNEL_BASE + t != mem
    ensures H.Kfree(m.heap, mem).Returned?
    ensures var h := H.Kfree(m.heap, mem).value;
            && Good(m.(heap := h), owner, pinned)
            && (forall a :: H.Live(h, a) <==> H.Live(m.heap, a) && (mem != 0 ==> a != mem - H.HEADER))
            && (forall a | H.Live(h, a) :: h.size[a] == m.heap.size[a])
  {
    hide H.Inv, Owned, H.Kfree, H.Live, InPinned;
    CoreShape(m, owner);
    H.KfreeInv(m.heap, mem);
    var h := H.Kfree(m.heap, mem).value;
    assert TablesHeld(m.(heap := h));
    forall f | InPinned(m.heap, pinned, f) ensures InPinned(h, pinned, f) { PinnedKept(m.heap, h, pinned, f); }
  }

  /** The same chunks are live, with the same sizes. */
  ghost predicate SameLive(h: H.Heap, h': H.Heap) {
    && (forall a :: H.Live(h', a) <==> H.Live(h, a))
    && (forall a | H.Live(h', a) :: h'.size[a] == h.size[a])
  }

  /** A scratch block taken and given back around a change of RAM: the invariant holds, the
      live chunks are the same, and their bytes change only as the change says. */
  lemma ScratchGood(m: Mm, owner: Owner, pinned: Pins, n: nat, ram: seq<byte>)
    requires Good(m, owner, pinned) && |ram| == |m.ram| && 0 < n < TWO32
    ensures Alloc(m, n, H.NO_ALIGN).Returned? || Alloc(m, n, H.NO_ALIGN) == Erased(n)
    ensures Alloc(m, n, H.NO_ALIGN).Returned? ==>
              var (m1, mem) := Alloc(m, n, H.NO_ALIGN).value;
              && Fresh(m, m1, mem, n) && Physical(mem) == Returned(mem - KERNEL_BASE)
              && Grows(m, m1) && m1.ts == m.ts && m1.last == m.last
              && H.Kfree(m1.heap, mem).Returned?
              && SameLive(m.heap, H.Kfree(m1.heap, mem).value)
              && Good(m1.(heap := H.Kfree(m1.heap, mem).value, ram := ram), owner, pinned)
  {
    hide Core, Mapped, Alloc, H.Kfree, H.Live, Grows, BootTable, H.Refused;
    AllocCore(m, owner, n, H.NO_ALIGN);
    AllocGood(m, owner, pinned, n, H.NO_ALIGN);
    if Alloc(m, n, H.NO_ALIGN).Returned? {
      var (m1, mem) := Alloc(m, n, H.NO_ALIGN).value;
      FreshUnused(m, m1, owner, pinned, mem, n);
      FreeGood(m1, owner, pinned, mem);
      GrowsLength(m, m1);
      GoodRam(m1.(heap := H.Kfree(m1.heap, mem).value), owner, pinned, ram);
    }
  }

  lemma GrowsSameLive(m: Mm, m1: Mm, m': Mm)
    requires Grows(m, m1) && SameLive(m.heap, m'.heap) && m'.ram == m1.ram
    ensures Grows(m, m')
  {
  }

  lemma HpLseekGood(m: Mm, owner: Owner, pinned: Pins, host: Host, off: nat)
    requires Good(m, owner, pinned)
    ensures HpLseek(m, host, off).Returned? || HpLseek(m, host, off) == Erased(12)
    ensures HpLseek(m, host, off).Returned? ==>
              var (m', r) := HpLseek(m, host, off).value;
              && Good(m', owner, pinned) && Grows(m, m') && m'.ts == m.ts && m'.last == m.last
              && SameLive(m.heap, m'.heap)
              && r == SeekAnswer(host, off)
  {
    hide Good, Alloc, H.Kfree, Grows, SameLive, Physical, Fresh;
    ScratchGood(m, owner, pinned, 12, m.ram);
    if Alloc(m, 12, H.NO_ALIGN).Returned? {
      var (m1, mem) := Alloc(m, 12, H.NO_ALIGN).value;
      GrowsLength(m, m1);
      ScratchGood(m, owner, pinned, 12, m1.ram);
      var h := H.Kfree(m1.heap, mem).value;
      assert m1.(heap := h, ram := m1.ram) == m1.(heap := h);
      GrowsSameLive(m, m1, m1.(heap := h));
    }
  }

  /** The bytes of block mem hold data, then zeros up to len. */
  ghost predicate Holds(m: Mm, mem: nat, len: nat, data: seq<byte>) {
    && KERNEL_BASE <= mem && mem - KERNEL_BASE + len <= |m.ram| && |data| <= len
    && forall a: nat | mem - KERNEL_BASE <= a < mem - KERNEL_BASE + len ::
         m.ram[a] == if KERNEL_BASE + a < mem + |data| then data[KERNEL_BASE + a - mem] else 0
  }

  lemma ReadIntoBlock(m: Mm, owner: Owner, m1: Mm, ram: seq<byte>, host: Host, pos: nat, mem: nat, len: nat, n: nat)
    requires Core(m, owner) && Block(m, mem, len) && Holds(m, mem, len, []) && n <= len
    requires Grows(m, m1) && ram == HostRead(m1.ram, host, pos, Some(mem - KERNEL_BASE), n)
    ensures Holds(m.(ram := ram), mem, len, FileBytes(host, pos, n))
    ensures forall a: nat | a < PS_LIMIT && a < |m.ram| :: ram[a] == m.ram[a]
    ensures forall c: nat, a: nat | H.Live(m.heap, c) && c != mem - H.HEADER && a < |m.ram|
              && c <= KERNEL_BASE + a < c + m.heap.size[c] :: ram[a] == m.ram[a]
  {
    hide Owned, H.Inv, FileBytes, Blit, TablesHeld;
    var b, p: nat, data := mem - H.HEADER, mem - KERNEL_BASE, FileBytes(host, pos, n);
    FileBytesLength(host, pos, n);
    assert p + n <= |m1.ram| && ram == Blit(m1.ram, p, data);
    forall a: nat | p <= a < p + len ensures ram[a] == if a < p + |data| then data[a - p] else 0 {
      assert H.Live(m.heap, b) && b <= KERNEL_BASE + a < b + m.heap.size[b];
      if a < p + |data| { BlitAt(m1.ram, p, data, a); }
    }
    forall c: nat, a: nat | H.Live(m.heap, c) && c != b && a < |m.ram| && c <= KERNEL_BASE + a < c + m.heap.size[c]
      ensures ram[a] == m.ram[a]
    {
      LiveDisjoint(m.heap, b, c);
    }
  }

  /** A read into a cleared block puts the file's bytes there and touches nothing else. */
  lemma HpReadGood(m: Mm, owner: Owner, pinned: Pins, host: Host, pos: nat, mem: nat, len: nat, n: nat)
    requires Good(m, owner, pinned) && Block(m, mem, len) && Holds(m, mem, len, []) && n <= len
    ensures var r := HpRead(m, host, pos, Some(mem - KERNEL_BASE), n);
            && (r.Returned? || r == Erased(24))
            && (r.Returned? ==>
                  && Good(r.value, owner, pinned) && r.value.ts == m.ts && r.value.last == m.last
                  && Holds(r.value, mem, len, FileBytes(host, pos, n))
                  && |r.value.ram| == |m.ram| && SameLive(m.heap, r.value.heap)
                  && (forall a: nat | a < PS_LIMIT && a < |m.ram| :: r.value.ram[a] == m.ram[a])
                  && forall c: nat, a: nat | H.Live(m.heap, c) && c != mem - H.HEADER && a < |m.ram|
                       && c <= KERNEL_BASE + a < c + m.heap.size[c] :: r.value.ram[a] == m.ram[a])
  {
    hide Good, Alloc, H.Kfree, Physical, H.Live, Fresh;
    ScratchGood(m, owner, pinned, 24, m.ram);
    if Alloc(m, 24, H.NO_ALIGN).Returned? {
      var (m1, tmp) := Alloc(m, 24, H.NO_ALIGN).value;
      var ram := HostRead(m1.ram, host, pos, Some(mem - KERNEL_BASE), n);
      ScratchGood(m, owner, pinned, 24, ram);
      var m' := m1.(heap := H.Kfree(m1.heap, tmp).value, ram := ram);
      assert HpRead(m, host, pos, Some(mem - KERNEL_BASE), n) == Returned(m');
      ReadIntoBlock(m, owner, m1, ram, host, pos, mem, len, n) by { GoodCore(m, owner, pinned); }
    }
  }

  // ---------------------------------------------------------------- sys_mmap, correctness

  lemma MapsProtects(a: Tables, b: Tables, c: Tables, va: nat, len: nat, phys: nat, p1: nat, p2: nat)
    requires Maps(a, b, va, len, phys, p1) && Protects(b, c, va, len, p2)
    ensures Maps(a, c, va, len, phys, p2)
  {
    hide Translate;
  }

  /** A freshly mapped range of user pages is all protectable, and a read/write mapping
      leads user writes to the start of its block. */
  lemma MapsProtectable(a: Tables, b: Tables, va: nat, len: nat, phys: nat, prot: nat)
    requires Maps(a, b, va, len, phys, prot) && UserPages(va, len) && 0 < len
    ensures AllProtectable(b, va, len)
    ensures Readable(prot) && Writable(prot) ==> Translate(b, va, true, true) == Some(phys)
  {
    hide Translate;
    forall x: nat | va <= x < va + len && (x - va) % 0x1000 == 0 ensures Protectable(b, x) {
      assert UserRangeOk(x);
      assert x % 0x1_0000_0000_0000 == x;
      assert Translate(b, x, false, false).Some?;
    }
    assert UserRangeOk(va) && va % 0x1_0000_0000_0000 == va;
  }

  lemma OrRwAllows(prot: nat)
    ensures Readable(OrRw(prot)) && Writable(OrRw(prot)) && OrRw(prot) == prot / 4 * 4 + 3
  {
  }

  /** What sys_mmap leaves behind: a block of its own that va..va+len leads to with the
      requested protection, holding the file's bytes followed by zeros. */
  ghost predicate Filled(m: Mm, m': Mm, owner': Owner, pinned: Pins,
                         va: nat, len: nat, mem: nat, prot: nat, data: seq<byte>) {
    && Backs(m, len, mem)
    && KERNEL_BASE <= mem && H.HEADER <= mem && mem - H.HEADER !in pinned.chunks && !H.Live(m.heap, mem - H.HEADER)
    && Good(m', owner', pinned.With(mem - H.HEADER)) && Block(m', mem, len)
    && Grows(m, m')
    && Holds(m', mem, len, data)
    && Maps(m.ts, m'.ts, va, len, mem - KERNEL_BASE, prot)
  }

  lemma MmappedFilled(m: Mm, m': Mm, owner': Owner, pinned: Pins, va: nat, len: nat, mem: nat, prot: nat)
    requires Mmapped(m, m', owner', pinned, va, len, mem, prot)
    ensures Filled(m, m', owner', pinned, va, len, mem, prot, [])
  {
    hide Good, Maps, Block, Grows;
  }

  lemma UpTwice(len: nat)
    ensures PageUp(PageUp(len)) == PageUp(len) >= len
  {
  }

  /** The final mprotect of sys_mmap never fails, and gives the range its protection. */
  lemma ProtectFilled(m: Mm, m1: Mm, owner: Owner, pinned: Pins,
                      va: nat, len: nat, mem: nat, p1: nat, prot: nat, data: seq<byte>)
    requires Filled(m, m1, owner, pinned, va, PageUp(len), mem, p1, data)
    requires va % 0x1000 == 0 && UserPages(va, PageUp(len)) && 0 < len
    ensures Mprotect(m1, va, PageUp(len), prot).1 == 0
    ensures Filled(m, Mprotect(m1, va, PageUp(len), prot).0, owner, pinned, va, PageUp(len), mem, prot, data)
    ensures Mprotect(m1, va, PageUp(len), prot).0.last == m1.last
  {
    hide Good, Maps, Protects, Mprotect, AllProtectable, Protectable, UserPages, H.Live, PageUp, Grows;
    UpTwice(len);
    var n := MprotectCorrect(m1, owner, pinned.With(mem - H.HEADER), va, PageUp(len), prot);
    MapsProtectable(m.ts, m1.ts, va, PageUp(len), mem - KERNEL_BASE, p1);
    var m2 := Mprotect(m1, va, PageUp(len), prot).0;
    MapsProtects(m.ts, m1.ts, m2.ts, va, PageUp(len), mem - KERNEL_BASE, p1, prot);
    assert Grows(m, m2) by { GrowsSameHeap(m, m1, m2); }
  }

  /** Changing only the bytes of the new block keeps what was live before. */
  lemma FilledByRead(m: Mm, m1: Mm, m2: Mm, owner: Owner, pinned: Pins,
                     va: nat, len: nat, mem: nat, prot: nat, data: seq<byte>)
    requires Filled(m, m1, owner, pinned, va, len, mem, prot, [])
    requires Good(m2, owner, pinned.With(mem - H.HEADER)) && m2.ts == m1.ts && Holds(m2, mem, len, data)
    requires |m2.ram| == |m1.ram| && SameLive(m1.heap, m2.heap)
    requires forall a: nat | a < PS_LIMIT && a < |m1.ram| :: m2.ram[a] == m1.ram[a]
    requires forall c: nat, a: nat | H.Live(m1.heap, c) && c != mem - H.HEADER && a < |m1.ram|
               && c <= KERNEL_BASE + a < c + m1.heap.size[c] :: m2.ram[a] == m1.ram[a]
    ensures Filled(m, m2, owner, pinned, va, len, mem, prot, data)
  {
    hide Good, Maps;
  }

  lemma FilledGrows(m: Mm, m1: Mm, m2: Mm, owner: Owner, pinned: Pins,
                    va: nat, len: nat, mem: nat, prot: nat, data: seq<byte>)
    requires Filled(m, m1, owner, pinned, va, len, mem, prot, data)
    requires Good(m2, owner, pinned.With(mem - H.HEADER)) && m2.ts == m1.ts && Grows(m1, m2)
    ensures Filled(m, m2, owner, pinned, va, len, mem, prot, data)
  {
    hide Good, Maps;
    var b := mem - H.HEADER;
    forall a: nat | mem - KERNEL_BASE <= a < mem - KERNEL_BASE + len ensures m2.ram[a] == m1.ram[a] {
      assert H.Live(m1.heap, b) && b <= KERNEL_BASE + a < b + m1.heap.size[b];
    }
  }

  /** The file's part of a mapping. */
  function MappedData(host: Host, len: nat, fd: int, offset: nat): seq<byte> {
    if fd < 0 then [] else FileBytes(host, offset % 0x1_0000_0000, len)
  }

  lemma FilledParts(m: Mm, m': Mm, owner': Owner, pinned: Pins,
                    va: nat, len: nat, mem: nat, prot: nat, data: seq<byte>)
    requires Filled(m, m', owner', pinned, va, len, mem, prot, data)
    ensures KERNEL_BASE <= mem && H.HEADER <= mem
    ensures Good(m', owner', pinned.With(mem - H.HEADER)) && Block(m', mem, len) && Holds(m', mem, len, data)
    ensures Maps(m.ts, m'.ts, va, len, mem - KERNEL_BASE, prot) && Grows(m, m')
  {
  }

  /** One translation of the start address is a valid target for the whole read. */
  lemma ReadCorrect(m: Mm, m2: Mm, owner: Owner, pinned: Pins, host: Host,
                    va: nat, len: nat, mem: nat, prot: nat, off: nat)
    requires Filled(m, m2, owner, pinned, va, PageUp(len), mem, OrRw(prot), [])
    requires va % 0x1000 == 0 && UserPages(va, PageUp(len)) && 0 < len
    ensures var r := HpRead(m2, host, off, Translate(m2.ts, va, true, true), len);
            && !r.Panicked?
            && (r.Returned? ==>
                  var m3 := Mprotect(r.value, va, PageUp(len), prot).0;
                  m3.last == m2.last
                  && Filled(m, m3, owner, pinned, va, PageUp(len), mem, prot, FileBytes(host, off, len)))
  {
    hide Filled, HpRead, UserPages, FileBytes, Mprotect, Translate, Good, OrRw, Maps, Block, Holds, Grows;
    FilledParts(m, m2, owner, pinned, va, PageUp(len), mem, OrRw(prot), []);
    var p := pinned.With(mem - H.HEADER);
    MapsProtectable(m.ts, m2.ts, va, PageUp(len), mem - KERNEL_BASE, OrRw(prot));
    OrRwAllows(prot);
    HpReadGood(m2, owner, p, host, off, mem, PageUp(len), len);
    var r := HpRead(m2, host, off, Some(mem - KERNEL_BASE), len);
    if r.Returned? {
      FilledByRead(m, m2, r.value, owner, pinned, va, PageUp(len), mem, OrRw(prot), FileBytes(host, off, len));
      ProtectFilled(m, r.value, owner, pinned, va, len, mem, OrRw(prot), prot, FileBytes(host, off, len));
    }
  }

  lemma {:induction false} FillCorrect(m: Mm, m1: Mm, owner: Owner, pinned: Pins, host: Host,
                                       va: nat, len: nat, mem: nat, prot: nat, fd: int, offset: nat)
    requires Filled(m, m1, owner, pinned, va, PageUp(len), mem, OrRw(prot), [])
    requires va % 0x1000 == 0 && UserPages(va, PageUp(len)) && 0 < len
    ensures var r := Fill(m1, host, va, len, prot, fd, offset);
            && !r.Panicked?
            && (r.Returned? ==>
                  && r.value.0.last == m1.last
                  && var seek := SeekAnswer(host, offset % 0x1_0000_0000);
                     if fd >= 0 && seek < 0 then
                       && r.value.1 == Error(seek)
                       && Filled(m, r.value.0, owner, pinned, va, PageUp(len), mem, OrRw(prot), [])
                     else
                       && r.value.1 == At(va)
                       && Filled(m, r.value.0, owner, pinned, va, PageUp(len), mem, prot,
                                 MappedData(host, len, fd, offset)))
  {
    hide Filled, HpLseek, HpRead, UserPages, FileBytes, Mprotect, PageUp, Translate, Good, SeekAnswer, OrRw;
    if fd < 0 {
      ProtectFilled(m, m1, owner, pinned, va, len, mem, OrRw(prot), prot, []);
    } else {
      var off := offset % 0x1_0000_0000;
      FilledParts(m, m1, owner, pinned, va, PageUp(len), mem, OrRw(prot), []);
      var p := pinned.With(mem - H.HEADER);
      HpLseekGood(m1, owner, p, host, off);
      if HpLseek(m1, host, off).Returned? {
        var m2 := HpLseek(m1, host, off).value.0;
        FilledGrows(m, m1, m2, owner, pinned, va, PageUp(len), mem, OrRw(prot), []);
        if HpLseek(m1, host, off).value.1 >= 0 {
          ReadCorrect(m, m2, owner, pinned, host, va, len, mem, prot, off);
        }
      }
    }
  }

  /** The address and length sys_mmap asks mmap for. */
  function Request(m: Mm, addr: nat, len: nat, fixed: bool): (nat, nat) {
    var alen := PageUp(len) % 0x1_0000_0000_0000_0000;
    (Place(m, if fixed then addr else 0, alen), alen)
  }

  lemma PageUpMod(len: nat)
    requires 0 < len < TWO64
    ensures var alen := PageUp(len) % 0x1_0000_0000_0000_0000;
            alen % 0x1000 == 0 && (alen != 0 ==> alen == PageUp(len))
  {
  }

  lemma PagesPanic(m: Mm, m1: Mm, m2: Mm, owner: Owner, pinned: Pins, va: nat, mem: nat, len: nat, prot: nat)
    requires Good(m, owner, pinned) && Good(m1, owner, pinned) && Fresh(m, m1, mem, len) && m1.ts == m.ts
    requires mem % 0x1000 == 0 && len % 0x1000 == 0 && m2 == m1.(last := m2.last)
    ensures var r := MapPages(m2, va, mem, len, prot, 0);
            r.Panicked? ==> r.reason == NotAllowed
  {
    hide Good, MapPages;
    FreshUnused(m, m1, owner, pinned, mem, len);
    PinBlock(m1, owner, pinned, mem - H.HEADER);
    GoodLast(m1, owner, pinned.With(mem - H.HEADER), m2.last);
    MapPagesPanics(m2, owner, pinned.With(mem - H.HEADER), va, mem, len, prot, 0);
  }

  /** mmap of a range with a page that is no user page never maps it. */
  lemma MmapBeyondUser(m: Mm, owner: Owner, pinned: Pins, addr: nat, len: nat, prot: nat)
    requires Good(m, owner, pinned) && len % 0x1000 == 0 && !UserPages(Place(m, addr, len), len)
    ensures 0 < len
    ensures var r := Mmap(m, addr, len, prot);
            && (len >= TWO32 ==> r == Returned((m, 0)))
            && (len < TWO32 && H.Refused(m.heap, H.ChunkSize(len), H.PAGE_ALIGN) ==> r == Erased(len))
            && (len < TWO32 ==> r.Erased? || r == Panicked(NotAllowed))
  {
    hide Good, Place, MapPages, Alloc, Fresh, Grows, H.Refused, H.ChunkSize, UserRangeOk;
    AllocCoreGood(m, owner, pinned, len);
    var va := Place(m, addr, len);
    if Alloc(m, len, H.PAGE_ALIGN).Returned? && Alloc(m, len, H.PAGE_ALIGN).value.1 != 0 {
      var (m1, mem) := Alloc(m, len, H.PAGE_ALIGN).value;
      var m2 := m1.(last := if addr == 0 then va else Last(m));
      if MapPages(m2, va, mem, len, prot, 0).Returned? {
        MapPagesUser(m2, va, mem, len, prot, 0);
        assert false;
      }
      PagesPanic(m, m1, m2, owner, pinned, va, mem, len, prot);
    }
  }

  /** Outcome of the mmap inside sys_mmap, whatever address and length were asked for. */
  lemma MmapAnywhere(m: Mm, owner: Owner, pinned: Pins, addr: nat, len: nat, prot: nat)
    returns (owner': Owner, mem: nat)
    requires Good(m, owner, pinned) && addr % 0x1000 == 0 && len % 0x1000 == 0 && Last(m) % 0x1000 == 0
    ensures var r := Mmap(m, addr, len, prot);
            && (r == Panicked(InvalidLength) <==> len == 0)
            && (r == Returned((m, 0)) <==> len >= TWO32)
            && (0 < len < TWO32 && H.Refused(m.heap, H.ChunkSize(len), H.PAGE_ALIGN) ==> r == Erased(len))
            && (r.Panicked? && 0 < len ==> r.reason == NotAllowed && !UserPages(Place(m, addr, len), len))
            && (r.Returned? && len < TWO32 ==>
                  var (m', va) := r.value;
                  && 0 < len && va != 0 && va % 0x1000 == 0 && va == Place(m, addr, len) && UserPages(va, len)
                  && m'.last == (if addr == 0 then va else Last(m))
                  && Mmapped(m, m', owner', pinned, va, len, mem, prot))
  {
    hide Good, Mmapped, UserPages, Place, MapPages, Alloc, H.Refused, H.ChunkSize;
    PlaceAligned(m, addr, len);
    var va := Place(m, addr, len);
    if UserPages(va, len) {
      owner', mem := MmapCorrect(m, owner, pinned, addr, len, prot);
    } else {
      owner', mem := owner, 0;
      MmapBeyondUser(m, owner, pinned, addr, len, prot);
    }
  }

  /** What sys_mmap refuses to look at. */
  predicate Invalid(addr: nat, len: nat, fixed: bool) {
    addr % 0x1000 != 0 || len == 0 || (fixed && addr != 0 && !UserRangeOk(addr))
  }

  /** What sys_mmap returns, and what it leaves behind, once its mapping is made: the address,
      with the file's bytes and the protection in place, unless the seek fails: then the
      host's error, with the new pages cleared, readable and writable. */
  ghost predicate SysMapped(m: Mm, m': Mm, owner': Owner, pinned: Pins, host: Host, res: MapResult, va: nat,
                            len: nat, mem: nat, prot: nat, keep: bool, fd: int, offset: nat) {
    && va != 0 && va % 0x1000 == 0 && UserPages(va, PageUp(len))
    && m'.last == (if keep then Last(m) else va)
    && if fd >= 0 && SeekFails(host, offset % 0x1_0000_0000) then
         && res == Error(if host.content.None? then -9 else 0 - host.errno)
         && Filled(m, m', owner', pinned, va, PageUp(len), mem, prot / 4 * 4 + 3, [])
       else
         && res == At(va)
         && Filled(m, m', owner', pinned, va, PageUp(len), mem, prot, MappedData(host, len, fd, offset))
  }

  /** sys_mmap for all arguments.  -EINVAL and -ENOMEM leave everything as it was; -ENOMEM is
      the answer exactly to 2^32 bytes or more, for with less the kernel is erased when there
      is no room.  A mapping it returns covers user pages only, is backed by one fresh block,
      carries the requested protection, and holds len bytes of the file from the offset, then
      zeros; a failed seek leaves the new pages mapped for reading and writing.  It panics
      exactly when rounding the length up overflows, and when memory suffices for the loop to
      come to a page that is no user page. */
  lemma SysMmapCorrect(m: Mm, owner: Owner, pinned: Pins, host: Host,
                       addr: nat, len: nat, prot: nat, fixed: bool, fd: int, offset: nat)
    returns (owner': Owner, mem: nat)
    requires Good(m, owner, pinned) && Last(m) % 0x1000 == 0 && len < TWO64
    ensures var r := SysMmap(m, host, addr, len, prot, fixed, fd, offset);
            var (va, alen) := Request(m, addr, len, fixed);
            if Invalid(addr, len, fixed) then r == Returned((m, Error(-22)))
            else if alen == 0 then r == Panicked(InvalidLength)
            else if alen >= TWO32 then r == Returned((m, Error(-12)))
            else
              && alen == PageUp(len)
              && (H.Refused(m.heap, H.ChunkSize(alen), H.PAGE_ALIGN) ==> r == Erased(alen))
              && (r.Panicked? ==> r.reason == NotAllowed && !UserPages(va, alen))
              && (r.Returned? ==>
                    SysMapped(m, r.value.0, owner', pinned, host, r.value.1, va, len, mem, prot, fixed && addr != 0,
                              fd, offset))
  {
    hide Good, Filled, UserPages, Place, Mmap, Fill, PageUp, OrRw, Mmapped, UserRangeOk, SeekAnswer, MappedData,
      H.Refused, H.ChunkSize;
    owner', mem := owner, 0;
    if !Invalid(addr, len, fixed) {
      PageUpMod(len);
      var a := if fixed then addr else 0;
      var alen := PageUp(len) % 0x1_0000_0000_0000_0000;
      owner', mem := MmapAnywhere(m, owner, pinned, a, alen, OrRw(prot));
      if Mmap(m, a, alen, OrRw(prot)).Returned? && alen < TWO32 {
        var (m1, va) := Mmap(m, a, alen, OrRw(prot)).value;
        MmappedFilled(m, m1, owner', pinned, va, alen, mem, OrRw(prot));
        FillCorrect(m, m1, owner', pinned, host, va, len, mem, prot, fd, offset);
        SeekMeaning(host, offset % 0x1_0000_0000);
        OrRwAllows(prot);
      }
    }
  }

  lemma UpAligned(len: nat)
    ensures PageUp(len) % 0x1000 == 0 && len <= PageUp(len) < len + 0x1000
  {
    var q := len / 0x1000;
    if len % 0x1000 == 0 { QuotientIs(PageUp(len), 0x1000, q, 0); } else { QuotientIs(PageUp(len), 0x1000, q + 1, 0); }
  }

  /** Rounding up to pages overflows exactly in the last page below 2^64. */
  lemma RoundOverflows(len: nat)
    requires 0 < len < TWO64
    ensures PageUp(len) % 0x1_0000_0000_0000_0000 == 0 <==> len > TWO64 - 0x1000
  {
    UpAligned(len);
    var k := PageUp(len) / 0x1000;
    assert PageUp(len) == 0x1000 * k;
    if len <= TWO64 - 0x1000 { QuotientIs(PageUp(len), 0x1_0000_0000_0000_0000, 0, PageUp(len)); }
  }

  lemma ValidLength(addr: nat, len: nat, fixed: bool)
    requires !Invalid(addr, len, fixed)
    ensures len > 0
  {
  }

  /** The length panic of mmap is within a user's reach: exactly when the arguments pass the
      checks and the length lies in the last page below 2^64. */
  lemma LengthPanics(m: Mm, owner: Owner, pinned: Pins, host: Host,
                     addr: nat, len: nat, prot: nat, fixed: bool, fd: int, offset: nat)
    requires Good(m, owner, pinned) && Last(m) % 0x1000 == 0 && len < TWO64
    ensures SysMmap(m, host, addr, len, prot, fixed, fd, offset) == Panicked(InvalidLength) <==>
            !Invalid(addr, len, fixed) && len > TWO64 - 0x1000
  {
    hide Good, SysMapped, Invalid, SysMmap, PageUp, UserPages, H.Refused, H.ChunkSize;
    var owner', mem := SysMmapCorrect(m, owner, pinned, host, addr, len, prot, fixed, fd, offset);
    if !Invalid(addr, len, fixed) {
      assert len > 0 by { ValidLength(addr, len, fixed); }
      RoundOverflows(len);
    }
  }

  lemma UserNonzero(v: nat)
    requires UserRangeOk(v)
    ensures v != 0
  {
  }

  /** Given memory, a fixed mapping that starts on a user page panics exactly when one of its
      later pages is no user page: sys_mmap has checked only the first. */
  lemma FixedRangePanics(m: Mm, owner: Owner, pinned: Pins, host: Host,
                         addr: nat, len: nat, prot: nat, fd: int, offset: nat)
    requires Good(m, owner, pinned) && Last(m) % 0x1000 == 0
    requires addr % 0x1000 == 0 && UserRangeOk(addr) && 0 < len && PageUp(len) < TWO32
    requires MapCost(PageUp(len)) <= m.heap.topSize
    ensures SysMmap(m, host, addr, len, prot, true, fd, offset) == Panicked(NotAllowed) <==>
            !UserPages(addr, PageUp(len))
  {
    hide Good, SysMapped, UserPages, Mmap, Fill, PageUp, OrRw, H.ChunkSize, UserRangeOk, H.Refused, MapCost;
    assert addr != 0 by { UserNonzero(addr); }
    var alen := PageUp(len);
    assert len <= alen && alen % 0x1000 == 0 && alen > 0 by { UpAligned(len); }
    QuotientIs(alen, 0x1_0000_0000_0000_0000, 0, alen);
    var owner', mem := SysMmapCorrect(m, owner, pinned, host, addr, len, prot, true, fd, offset);
    if !UserPages(addr, alen) {
      MmapDenied(m, owner, pinned, addr, alen, OrRw(prot));
    } else if SysMmap(m, host, addr, len, prot, true, fd, offset) == Panicked(NotAllowed) {
      assert false;
    }
  }

  lemma FreeTop(h: H.Heap, mem: nat)
    requires H.Kfree(h, mem).Returned?
    ensures h.topSize <= H.Kfree(h, mem).value.topSize
  {
  }

  /** The parameter block of a hypercall costs at most 0x80 bytes, for good. */
  lemma ScratchFits(m: Mm, owner: Owner, pinned: Pins, n: nat)
    requires Good(m, owner, pinned) && 0 < n <= 0x70 && 0x80 <= m.heap.topSize
    ensures Alloc(m, n, H.NO_ALIGN).Returned?
    ensures var (m1, mem) := Alloc(m, n, H.NO_ALIGN).value;
            && Physical(mem).Returned? && H.Kfree(m1.heap, mem).Returned?
            && m.heap.topSize - 0x80 <= H.Kfree(m1.heap, mem).value.topSize
  {
    hide Good, H.Kmalloc, H.Kfree, Blit, Fresh, Grows, SameLive, Physical;
    assert H.ChunkSize(n) == 0x80;
    assert H.Inv(m.heap) by { GoodCore(m, owner, pinned); CoreShape(m, owner); }
    H.UnalignedFits(m.heap, n);
    ScratchGood(m, owner, pinned, n, m.ram);
    FreeTop(Alloc(m, n, H.NO_ALIGN).value.0.heap, Alloc(m, n, H.NO_ALIGN).value.1);
  }

  lemma ProtectHeap(m: Mm, owner: Owner, pinned: Pins, addr: nat, len: nat, prot: nat)
    requires Good(m, owner, pinned)
    ensures Mprotect(m, addr, len, prot).0.heap == m.heap
  {
    hide Good, Mprotect, Protects, AllProtectable, PageUp;
    var n := MprotectCorrect(m, owner, pinned, addr, len, prot);
  }

  lemma FillSucceeds(m: Mm, m1: Mm, owner: Owner, pinned: Pins, host: Host,
                     va: nat, len: nat, mem: nat, prot: nat, fd: int, offset: nat)
    requires Filled(m, m1, owner, pinned, va, PageUp(len), mem, OrRw(prot), [])
    requires va % 0x1000 == 0 && UserPages(va, PageUp(len)) && 0 < len
    requires (fd >= 0 ==> SeekAnswer(host, offset % 0x1_0000_0000) >= 0) && 0x100 <= m1.heap.topSize
    ensures var r := Fill(m1, host, va, len, prot, fd, offset);
            r.Returned? && r.value.1 == At(va) && m1.heap.topSize - 0x100 <= r.value.0.heap.topSize
  {
    hide Filled, UserPages, FileBytes, Mprotect, PageUp, Translate, Good, SeekAnswer, OrRw, Alloc, H.Kfree, Physical,
      Blit, Block, Holds, Grows, SameLive, H.Live;
    FilledParts(m, m1, owner, pinned, va, PageUp(len), mem, OrRw(prot), []);
    var p := pinned.With(mem - H.HEADER);
    UpTwice(len);
    var m3 := m1;
    if fd >= 0 {
      var off := offset % 0x1_0000_0000;
      ScratchFits(m1, owner, p, 12);
      HpLseekGood(m1, owner, p, host, off);
      var m2 := HpLseek(m1, host, off).value.0;
      ScratchFits(m2, owner, p, 24);
      FilledGrows(m, m1, m2, owner, pinned, va, PageUp(len), mem, OrRw(prot), []);
      FilledParts(m, m2, owner, pinned, va, PageUp(len), mem, OrRw(prot), []);
      MapsProtectable(m.ts, m2.ts, va, PageUp(len), mem - KERNEL_BASE, OrRw(prot));
      OrRwAllows(prot);
      HpReadGood(m2, owner, p, host, off, mem, PageUp(len), len);
      m3 := HpRead(m2, host, off, Some(mem - KERNEL_BASE), len).value;
    }
    ProtectHeap(m3, owner, p, va, PageUp(len), prot);
  }

  /** With room for the mapping and two parameter blocks, sys_mmap of user pages makes it, when
      the host can seek. */
  lemma SysMmapSucceeds(m: Mm, owner: Owner, pinned: Pins, host: Host,
                        addr: nat, len: nat, prot: nat, fixed: bool, fd: int, offset: nat)
    requires Good(m, owner, pinned) && Last(m) % 0x1000 == 0 && 0 < len && PageUp(len) < TWO32
    requires !Invalid(addr, len, fixed) && UserPages(Request(m, addr, len, fixed).0, PageUp(len))
    requires fd >= 0 ==> !SeekFails(host, offset % 0x1_0000_0000)
    requires MapCost(PageUp(len)) + 0x100 <= m.heap.topSize
    ensures var r := SysMmap(m, host, addr, len, prot, fixed, fd, offset);
            && r.Returned? && r.value.1 == At(Request(m, addr, len, fixed).0)
            && m.heap.topSize - MapCost(PageUp(len)) - 0x100 <= r.value.0.heap.topSize
  {
    hide Good, UserPages, Mmap, Fill, PageUp, OrRw, H.ChunkSize, UserRangeOk, H.Refused, MapCost, Place, SeekAnswer,
      Mmapped;
    var alen, a := PageUp(len), if fixed then addr else 0;
    assert len <= alen && alen % 0x1000 == 0 by { UpAligned(len); }
    QuotientIs(alen, 0x1_0000_0000_0000_0000, 0, alen);
    SeekMeaning(host, offset % 0x1_0000_0000);
    MmapSucceeds(m, owner, pinned, a, alen, OrRw(prot));
    var owner', mem := MmapAnywhere(m, owner, pinned, a, alen, OrRw(prot));
    var (m1, va) := Mmap(m, a, alen, OrRw(prot)).value;
    MmappedFilled(m, m1, owner', pinned, va, alen, mem, OrRw(prot));
    FillSucceeds(m, m1, owner', pinned, host, va, len, mem, prot, fd, offset);
  }

  // ---------------------------------------------------------------- nothing is lost

  lemma SameLiveAccounted(m: Mm, m': Mm)
    requires SameLive(m.heap, m'.heap) && m'.ts == m.ts
    ensures Accounted(m, m', {})
  {
  }

  lemma SameKeys(m: Mm, m': Mm, owner: Owner, pinned: Pins)
    requires Good(m, owner, pinned) && Good(m', owner, pinned)
    ensures m.ts.Keys == m'.ts.Keys
  {
    hide H.Inv, Tree, UserDirs, KernelPart, Mapped, TablesHeld;
  }

  lemma ProtectAccounted(m: Mm, owner: Owner, pinned: Pins, addr: nat, len: nat, prot: nat)
    requires Good(m, owner, pinned)
    ensures Accounted(m, Mprotect(m, addr, len, prot).0, {})
  {
    hide Good, Mprotect, Protects, AllProtectable, PageUp;
    var n := MprotectCorrect(m, owner, pinned, addr, len, prot);
    var m' := Mprotect(m, addr, len, prot).0;
    assert m.ts.Keys == m'.ts.Keys by { SameKeys(m, m', owner, pinned); }
  }

  lemma FillAccounted(m: Mm, m1: Mm, owner: Owner, pinned: Pins, host: Host,
                      va: nat, len: nat, mem: nat, prot: nat, fd: int, offset: nat)
    requires Filled(m, m1, owner, pinned, va, PageUp(len), mem, OrRw(prot), [])
    requires va % 0x1000 == 0 && UserPages(va, PageUp(len)) && 0 < len
    requires Fill(m1, host, va, len, prot, fd, offset).Returned?
    ensures Accounted(m1, Fill(m1, host, va, len, prot, fd, offset).value.0, {})
  {
    hide Filled, UserPages, FileBytes, Mprotect, PageUp, Translate, Good, SeekAnswer, OrRw, Block, Holds, Grows,
      SameLive, H.Live, HpLseek, HpRead, Accounted;
    FilledParts(m, m1, owner, pinned, va, PageUp(len), mem, OrRw(prot), []);
    var p, none: set<nat> := pinned.With(mem - H.HEADER), {};
    assert none + none == none;
    UpTwice(len);
    if fd < 0 {
      ProtectAccounted(m1, owner, p, va, PageUp(len), prot);
    } else {
      var off := offset % 0x1_0000_0000;
      HpLseekGood(m1, owner, p, host, off);
      var m2 := HpLseek(m1, host, off).value.0;
      SameLiveAccounted(m1, m2);
      if HpLseek(m1, host, off).value.1 >= 0 {
        FilledGrows(m, m1, m2, owner, pinned, va, PageUp(len), mem, OrRw(prot), []);
        FilledParts(m, m2, owner, pinned, va, PageUp(len), mem, OrRw(prot), []);
        MapsProtectable(m.ts, m2.ts, va, PageUp(len), mem - KERNEL_BASE, OrRw(prot));
        OrRwAllows(prot);
        HpReadGood(m2, owner, p, host, off, mem, PageUp(len), len);
        var m3 := HpRead(m2, host, off, Some(mem - KERNEL_BASE), len).value;
        SameLiveAccounted(m2, m3);
        ProtectAccounted(m3, owner, p, va, PageUp(len), prot);
        AccountedTwice(m1, m2, m3, none, none);
        AccountedTwice(m1, m3, Mprotect(m3, va, PageUp(len), prot).0, none, none);
      }
    }
  }

  /** sys_mmap takes one block and page tables, and nothing else: its parameter blocks are given
      back, whether it succeeds or the seek fails. */
  lemma SysMmapAccounted(m: Mm, owner: Owner, pinned: Pins, host: Host,
                         addr: nat, len: nat, prot: nat, fixed: bool, fd: int, offset: nat) returns (mem: nat)
    requires Good(m, owner, pinned) && Last(m) % 0x1000 == 0 && 0 < len && PageUp(len) < TWO32
    requires !Invalid(addr, len, fixed) && SysMmap(m, host, addr, len, prot, fixed, fd, offset).Returned?
    ensures Backs(m, PageUp(len), mem) && H.HEADER <= mem
    ensures Accounted(m, SysMmap(m, host, addr, len, prot, fixed, fd, offset).value.0, {mem - H.HEADER})
  {
    hide Good, UserPages, Mmap, Fill, PageUp, OrRw, H.ChunkSize, UserRangeOk, H.Refused, Place, Mmapped, Accounted,
      Backs, Filled;
    var alen, a := PageUp(len), if fixed then addr else 0;
    assert len <= alen && alen % 0x1000 == 0 by { UpAligned(len); }
    QuotientIs(alen, 0x1_0000_0000_0000_0000, 0, alen);
    var owner', mem1 := MmapAnywhere(m, owner, pinned, a, alen, OrRw(prot));
    mem := MmapAccounted(m, owner, pinned, a, alen, OrRw(prot));
    var (m1, va) := Mmap(m, a, alen, OrRw(prot)).value;
    MmappedFilled(m, m1, owner', pinned, va, alen, mem1, OrRw(prot));
    FillAccounted(m, m1, owner', pinned, host, va, len, mem1, prot, fd, offset);
    AccountedTwice(m, m1, Fill(m1, host, va, len, prot, fd, offset).value.0, {mem - H.HEADER}, {});
    assert {mem - H.HEADER} + {} == {mem - H.HEADER};
  }
}
