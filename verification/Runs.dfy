/**
  Runs of the whole memory manager: kmalloc, kfree, add_trans_user, mmap, mprotect and
  sys_mmap in any order.
 */
module Runs {
  import opened Machine
  import opened Paging
  import opened Memory
  import opened Mapping
  import opened Protect
  import opened FileMap
  import H = Heap

  datatype Op =
    | Malloc(len: nat, align: nat)
    | Free(mem: nat)
    | AddTrans(v: nat, p: nat, prot: nat, block: nat)
    | AddLoose(v: nat, p: nat, prot: nat)
    | Map(addr: nat, len: nat, prot: nat)
    | Protection(addr: nat, len: nat, prot: nat)
    | MapFile(host: Host, addr: nat, len: nat, prot: nat, fixed: bool, fd: int, offset: nat)

  /** The state with the chunks whose memory has been mapped so far. */
  datatype State = State(m: Mm, mapped: Pins)

  /** The chunk that backs an mmap of len bytes joins the pins, if there is memory for it. */
  function Backed(pins: Pins, m: Mm, len: nat): Pins {
    match Alloc(m, len, H.PAGE_ALIGN)
    case Returned((_, mem)) => if mem < H.HEADER then pins else pins.With(mem - H.HEADER)
    case _ => pins
  }

  function Step(s: State, op: Op): Outcome<State> {
    match op
    case Malloc(len, align) =>
      var r :- Alloc(s.m, len, align);
      Returned(State(r.0, s.mapped))
    case Free(mem) =>
      var h :- H.Kfree(s.m.heap, mem);
      Returned(State(s.m.(heap := h), s.mapped))
    case AddTrans(v, p, prot, block) =>
      var m :- AddTransUser(s.m, v, p, prot);
      Returned(State(m, s.mapped.With(block)))
    case AddLoose(v, p, prot) =>
      var m :- AddTransUser(s.m, v, p, prot);
      Returned(State(m, s.mapped.WithLoose(ClearBase(p))))
    case Map(addr, len, prot) =>
      var r :- Mmap(s.m, addr, len, prot);
      Returned(State(r.0, if r.1 == 0 then s.mapped else Backed(s.mapped, s.m, len)))
    case Protection(addr, len, prot) =>
      Returned(State(Mprotect(s.m, addr, len, prot).0, s.mapped))
    case MapFile(host, addr, len, prot, fixed, fd, offset) =>
      var r :- SysMmap(s.m, host, addr, len, prot, fixed, fd, offset);
      Returned(State(r.0, if r.0 == s.m then s.mapped else Backed(s.mapped, s.m, PageUp(len))))
  }

  /** Memory mem belongs to a live chunk that is no page table. */
  ghost predicate OwnBlock(m: Mm, mem: nat) {
    && H.HEADER <= mem && H.Live(m.heap, mem - H.HEADER)
    && forall t <- m.ts | !BootTable(t) :: KERNEL_BASE + t != mem
  }

  /** The page frame f starts the memory of a live chunk that is no page table. */
  ghost predicate LooseFrame(m: Mm, f: nat) {
    f + 0x1000 <= 0x4000_0000 && OwnBlock(m, KERNEL_BASE + f)
  }

  /** What callers keep to: legal alignments; a table or a mapped block is never freed;
      add_trans_user gets a whole page of a block, or, as in switch_user, the page that a
      block starts, which is then known as loose; mmap gets page-aligned user pages or no
      address.  mprotect and sys_mmap take anything. */
  ghost predicate Legal(s: State, op: Op) {
    match op
    case Malloc(_, align) => align == H.NO_ALIGN || align == H.PAGE_ALIGN
    case Free(mem) => mem != 0 ==> OwnBlock(s.m, mem) && mem - H.HEADER !in s.mapped.chunks
    case AddTrans(v, p, _, block) =>
      UserRangeOk(v) && p % 0x1000 == 0 && OwnBlock(s.m, block + H.HEADER) && PageInside(s.m.heap, block, ClearBase(p))
    case AddLoose(v, p, _) => UserRangeOk(v) && p % 0x1000 == 0 && LooseFrame(s.m, ClearBase(p))
    case Map(addr, len, _) =>
      addr % 0x1000 == 0 && len % 0x1000 == 0 && len != 0 && (addr != 0 ==> UserPages(addr, len))
    case Protection(_, _, _) => true
    case MapFile(_, _, len, _, _, _, _) => len < TWO64
  }

  /** Kernel-chosen addresses have only moved down by what was mapped. */
  ghost predicate LastOk(m: Mm, mapped: Pins) {
    && Last(m) % 0x1000 == 0 && Last(m) <= MMAP_TOP
    && MMAP_TOP <= Last(m) + H.Bytes(H.Restrict(m.heap.size, mapped.chunks))
  }

  ghost predicate Safe(s: State, owner: Owner) {
    Good(s.m, owner, s.mapped) && LastOk(s.m, s.mapped)
  }

  // ---------------------------------------------------------------- kernel-chosen addresses

  lemma RestrictSame(m: Mm, m': Mm, mapped: Pins)
    requires forall c <- mapped.chunks :: H.Live(m.heap, c) && H.Live(m'.heap, c) && m'.heap.size[c] == m.heap.size[c]
    ensures H.Restrict(m'.heap.size, mapped.chunks) == H.Restrict(m.heap.size, mapped.chunks)
  {
  }

  lemma LastKept(m: Mm, m': Mm, owner: Owner, owner': Owner, mapped: Pins)
    requires Good(m, owner, mapped) && Good(m', owner', mapped) && LastOk(m, mapped) && m'.last == m.last
    requires forall c <- mapped.chunks :: m'.heap.size[c] == m.heap.size[c]
    ensures LastOk(m', mapped)
  {
    hide Core, H.Bytes, H.Restrict;
    CoreShape(m, owner);
    CoreShape(m', owner');
    RestrictSame(m, m', mapped);
  }

  lemma RestrictAdd(size: map<nat, nat>, chunks: set<nat>, c: nat)
    requires c in size && c !in chunks
    ensures H.Bytes(H.Restrict(size, chunks + {c})) == size[c] + H.Bytes(H.Restrict(size, chunks))
  {
    var r := H.Restrict(size, chunks + {c});
    H.BytesRemove(r, c);
    assert r - {c} == H.Restrict(size, chunks);
  }

  lemma MappedBytes(h: H.Heap, chunks: set<nat>)
    requires H.WellFormed(h)
    ensures H.Bytes(H.Restrict(h.size, chunks)) <= h.top - h.min
  {
    H.BytesTiled(h.min, h.top, h.size);
    H.BytesSplit(h.size, chunks);
  }

  lemma Extent(m: Mm, owner: Owner, mapped: Pins)
    requires Good(m, owner, mapped)
    ensures H.WellFormed(m.heap) && |m.ram| <= 0x4000_0000
    ensures H.Bytes(H.Restrict(m.heap.size, mapped.chunks)) <= 0x4000_0000
  {
    hide Owned, H.Phased, TablesHeld, Mapped;
    MappedBytes(m.heap, mapped.chunks);
  }

  /** When there is memory for it, a kernel-chosen range consists of user pages. */
  lemma ChosenIsUser(m: Mm, owner: Owner, mapped: Pins, len: nat)
    requires Good(m, owner, mapped) && LastOk(m, mapped) && len % 0x1000 == 0
    ensures !Alloc(m, len, H.PAGE_ALIGN).Panicked?
    ensures Alloc(m, len, H.PAGE_ALIGN).Returned? && Alloc(m, len, H.PAGE_ALIGN).value.1 != 0 ==>
              UserPages(Place(m, 0, len), len)
  {
    hide Good, Alloc, H.Bytes, H.Restrict, H.WellFormed, H.Refused;
    AllocCoreGood(m, owner, mapped, len);
    if Alloc(m, len, H.PAGE_ALIGN).Returned? && Alloc(m, len, H.PAGE_ALIGN).value.1 != 0 {
      var (m1, mem) := Alloc(m, len, H.PAGE_ALIGN).value;
      Extent(m, owner, mapped);
      assert len < 0x4000_0000;
      assert Place(m, 0, len) == Last(m) - len;
      forall x: nat | Place(m, 0, len) <= x < Place(m, 0, len) + len ensures UserRangeOk(x) {
        assert 0x7fff_0000_0000 <= x < 0x7fff_f7ff_f000;
      }
    }
  }

  // ---------------------------------------------------------------- steps

  lemma MappedSizes(m: Mm, m': Mm, owner: Owner, mapped: Pins)
    requires Good(m, owner, mapped) && Grows(m, m')
    ensures forall c <- mapped.chunks :: H.Live(m.heap, c) && H.Live(m'.heap, c) && m'.heap.size[c] == m.heap.size[c]
  {
    hide Core;
    CoreShape(m, owner);
  }

  lemma MallocSafe(s: State, owner: Owner, len: nat, align: nat)
    requires Safe(s, owner) && (align == H.NO_ALIGN || align == H.PAGE_ALIGN)
    ensures Step(s, Malloc(len, align)).Returned? || Step(s, Malloc(len, align)).Erased?
    ensures Step(s, Malloc(len, align)).Returned? ==> Safe(Step(s, Malloc(len, align)).value, owner)
  {
    hide Core, Alloc, H.Bytes, H.Restrict, LastOk, H.Refused;
    AllocCore(s.m, owner, len, align);
    AllocGood(s.m, owner, s.mapped, len, align);
    if Alloc(s.m, len, align).Returned? {
      var m' := Alloc(s.m, len, align).value.0;
      if m' != s.m {
        MappedSizes(s.m, m', owner, s.mapped);
        LastKept(s.m, m', owner, owner, s.mapped);
      }
    }
  }

  lemma FreeSafe(s: State, owner: Owner, mem: nat)
    requires Safe(s, owner) && Legal(s, Free(mem))
    ensures Step(s, Free(mem)).Returned? && Safe(Step(s, Free(mem)).value, owner)
  {
    hide Core, H.Kfree, H.Bytes, H.Restrict, LastOk;
    CoreShape(s.m, owner);
    FreeGood(s.m, owner, s.mapped, mem);
    LastKept(s.m, s.m.(heap := H.Kfree(s.m.heap, mem).value), owner, owner, s.mapped);
  }

  lemma LastMore(m: Mm, mapped: Pins, c: nat)
    requires LastOk(m, mapped) && c in m.heap.size && c !in mapped.chunks
    ensures LastOk(m, mapped.With(c))
  {
    RestrictAdd(m.heap.size, mapped.chunks, c);
  }

  lemma AddTransSafe(s: State, owner: Owner, op: Op) returns (owner': Owner)
    requires Safe(s, owner) && op.AddTrans? && Legal(s, op)
    ensures Step(s, op).Returned? || Step(s, op).Erased?
    ensures Step(s, op).Returned? ==> Safe(Step(s, op).value, owner')
  {
    hide Good, AddTransUser, LastOk, UserRangeOk, Maps;
    var c, pinned := op.block, s.mapped.With(op.block);
    PinBlock(s.m, owner, s.mapped, c);
    assert LastOk(s.m, pinned) by {
      if c in s.mapped.chunks { assert pinned.chunks == s.mapped.chunks; } else { LastMore(s.m, s.mapped, c); }
    }
    assert InPinned(s.m.heap, pinned, ClearBase(op.p));
    owner' := AddTransUserCorrect(s.m, owner, pinned, op.v, op.p, op.prot);
    if AddTransUser(s.m, op.v, op.p, op.prot).Returned? {
      var m' := AddTransUser(s.m, op.v, op.p, op.prot).value;
      MappedSizes(s.m, m', owner, pinned);
      LastKept(s.m, m', owner, owner', pinned);
    }
  }

  lemma PinLoose(m: Mm, owner: Owner, pinned: Pins, f: nat)
    requires Good(m, owner, pinned) && LooseFrame(m, f) && f % 0x1000 == 0
    ensures Good(m, owner, pinned.WithLoose(f))
  {
    hide Core, PageInside;
    CoreShape(m, owner);
  }

  lemma LastLoose(m: Mm, mapped: Pins, f: nat)
    requires LastOk(m, mapped) && ChunkAt(f) in m.heap.size
    ensures LastOk(m, mapped.WithLoose(f))
  {
    if ChunkAt(f) in mapped.chunks {
      assert mapped.WithLoose(f).chunks == mapped.chunks;
    } else {
      LastMore(m, mapped, ChunkAt(f));
    }
  }

  lemma AddLooseSafe(s: State, owner: Owner, op: Op) returns (owner': Owner)
    requires Safe(s, owner) && op.AddLoose? && Legal(s, op)
    ensures Step(s, op).Returned? || Step(s, op).Erased?
    ensures Step(s, op).Returned? ==> Safe(Step(s, op).value, owner')
  {
    hide Good, AddTransUser, LastOk, UserRangeOk, Maps, ClearBase;
    var pinned := s.mapped.WithLoose(ClearBase(op.p));
    ClearBaseTwice(op.p);
    PinLoose(s.m, owner, s.mapped, ClearBase(op.p));
    assert LastOk(s.m, pinned) by { LastLoose(s.m, s.mapped, ClearBase(op.p)); }
    owner' := AddTransUserCorrect(s.m, owner, pinned, op.v, op.p, op.prot);
    if AddTransUser(s.m, op.v, op.p, op.prot).Returned? {
      var m' := AddTransUser(s.m, op.v, op.p, op.prot).value;
      MappedSizes(s.m, m', owner, pinned);
      LastKept(s.m, m', owner, owner', pinned);
    }
  }

  /** After a mapping of len bytes backed by chunk c, at va. */
  lemma LastAfterMap(m: Mm, m': Mm, owner: Owner, owner': Owner, mapped: Pins, mem: nat, len: nat, va: nat,
                     chosen: bool)
    requires H.HEADER <= mem
    requires Good(m, owner, mapped) && LastOk(m, mapped) && Grows(m, m')
    requires Good(m', owner', mapped.With(mem - H.HEADER))
    requires Block(m', mem, len) && mem - H.HEADER !in mapped.chunks && va % 0x1000 == 0
    requires m'.last == if chosen then va else Last(m)
    requires chosen ==> va == Last(m) - len
    ensures LastOk(m', mapped.With(mem - H.HEADER))
  {
    hide Good, H.Bytes, H.Restrict, Grows;
    MappedSizes(m, m', owner, mapped);
    RestrictSame(m, m', mapped);
    RestrictAdd(m'.heap.size, mapped.chunks, mem - H.HEADER);
  }

  lemma ChosenPlace(m: Mm, owner: Owner, mapped: Pins, m': Mm, owner': Owner, pinned': Pins, mem: nat, len: nat)
    requires Good(m, owner, mapped) && LastOk(m, mapped) && Good(m', owner', pinned') && Block(m', mem, len)
    ensures Place(m, 0, len) == Last(m) - len
  {
    hide Good, H.Bytes, H.Restrict, H.WellFormed, H.Live;
    Extent(m, owner, mapped);
    Extent(m', owner', pinned');
    assert mem + len <= KERNEL_BASE + 0x4000_0000 by {
      GoodCore(m', owner', pinned');
      BlockFits(m', owner', mem, len);
    }
  }

  lemma LastAligned(m: Mm, mapped: Pins)
    requires LastOk(m, mapped)
    ensures Last(m) % 0x1000 == 0
  {
  }

  /** Without memory for the block, mmap does not reach its loop. */
  lemma NoMemory(m: Mm, addr: nat, len: nat, prot: nat)
    requires len != 0 && len % 0x1000 == 0
    ensures Alloc(m, len, H.PAGE_ALIGN).Erased? ==> Mmap(m, addr, len, prot).Erased?
    ensures Mmap(m, addr, len, prot) == Panicked(NotAllowed) && !Alloc(m, len, H.PAGE_ALIGN).Panicked? ==>
              Alloc(m, len, H.PAGE_ALIGN).Returned? && Alloc(m, len, H.PAGE_ALIGN).value.1 != 0
  {
    hide Alloc, MapPages;
  }

  lemma MapSafe(s: State, owner: Owner, op: Op) returns (owner': Owner)
    requires Safe(s, owner) && op.Map? && Legal(s, op)
    ensures Step(s, op).Returned? || Step(s, op).Erased?
    ensures Step(s, op).Returned? ==> Safe(Step(s, op).value, owner')
  {
    hide Good, LastOk, UserPages, Alloc, Mmap, Place, Maps, Block, Grows, H.Live, H.Bytes, H.Refused, H.ChunkSize;
    var mem;
    assert Last(s.m) % 0x1000 == 0 by { LastAligned(s.m, s.mapped); }
    ChosenIsUser(s.m, owner, s.mapped, op.len);
    assert op.addr != 0 ==> Place(s.m, op.addr, op.len) == op.addr by { GivenPlace(s.m, op.addr, op.len); }
    owner', mem := MmapAnywhere(s.m, owner, s.mapped, op.addr, op.len, op.prot);
    NoMemory(s.m, op.addr, op.len, op.prot);
    if Mmap(s.m, op.addr, op.len, op.prot).Returned? && op.len < TWO32 {
      var (m', va) := Mmap(s.m, op.addr, op.len, op.prot).value;
      if op.addr == 0 { ChosenPlace(s.m, owner, s.mapped, m', owner', s.mapped.With(mem - H.HEADER), mem, op.len); }
      LastAfterMap(s.m, m', owner, owner', s.mapped, mem, op.len, va, op.addr == 0);
    } else {
      owner' := owner;
    }
  }

  lemma ProtectionSafe(s: State, owner: Owner, op: Op)
    requires Safe(s, owner) && op.Protection?
    ensures Step(s, op).Returned? && Safe(Step(s, op).value, owner)
  {
    hide Good, Mprotect;
    var n := MprotectCorrect(s.m, owner, s.mapped, op.addr, op.len, op.prot);
  }

  lemma FilledLast(s: State, owner: Owner, m': Mm, owner': Owner, mem: nat, va: nat, alen: nat, chosen: bool, op: Op)
    requires Safe(s, owner) && op.MapFile? && H.HEADER <= mem
    requires va == Place(s.m, if chosen then 0 else op.addr, alen)
    requires Good(m', owner', s.mapped.With(mem - H.HEADER)) && Block(m', mem, alen) && Grows(s.m, m')
    requires mem - H.HEADER !in s.mapped.chunks && va % 0x1000 == 0 && m'.last == (if chosen then va else Last(s.m))
    ensures LastOk(m', s.mapped.With(mem - H.HEADER))
  {
    hide Good, LastOk, Place, Block, Grows;
    if chosen { ChosenPlace(s.m, owner, s.mapped, m', owner', s.mapped.With(mem - H.HEADER), mem, alen); }
    LastAfterMap(s.m, m', owner, owner', s.mapped, mem, alen, va, chosen);
  }

  lemma MapFileSafe(s: State, owner: Owner, op: Op) returns (owner': Owner)
    requires Safe(s, owner) && op.MapFile? && Legal(s, op)
    ensures Step(s, op).Panicked? ==> Step(s, op).reason in {NotAllowed, InvalidLength}
    ensures Step(s, op).Returned? ==> Safe(Step(s, op).value, owner')
  {
    hide Good, LastOk, UserPages, Alloc, SysMmap, Place, Maps, Block, Grows, H.Live, H.Bytes, PageUp, Holds, Invalid,
      H.Refused, H.ChunkSize, SeekFails;
    var mem;
    assert Last(s.m) % 0x1000 == 0 by { LastAligned(s.m, s.mapped); }
    owner', mem := SysMmapCorrect(s.m, owner, s.mapped, op.host, op.addr, op.len, op.prot, op.fixed, op.fd, op.offset);
    var r := SysMmap(s.m, op.host, op.addr, op.len, op.prot, op.fixed, op.fd, op.offset);
    if r.Returned? {
      if r.value.0 == s.m {
        owner' := owner;
      } else {
        var m', va, alen := r.value.0, Request(s.m, op.addr, op.len, op.fixed).0, PageUp(op.len);
        var chosen := !(op.fixed && op.addr != 0);
        FilledLast(s, owner, m', owner', mem, va, alen, chosen, op);
      }
    }
  }

  // ---------------------------------------------------------------- runs

  function Run(s: State, ops: seq<Op>): Outcome<State>
    decreases |ops|
  {
    if ops == [] then Returned(s)
    else
      var s' :- Step(s, ops[0]);
      Run(s', ops[1..])
  }

  ghost predicate LegalRun(s: State, ops: seq<Op>)
    decreases |ops|
  {
    ops != [] ==>
      && Legal(s, ops[0])
      && (Step(s, ops[0]).Returned? ==> LegalRun(Step(s, ops[0]).value, ops[1..]))
  }

  lemma LegalMalloc(s: State, len: nat, align: nat)
    requires Legal(s, Malloc(len, align))
    ensures align == H.NO_ALIGN || align == H.PAGE_ALIGN
  {
  }

  lemma StepSafe(s: State, owner: Owner, op: Op) returns (owner': Owner)
    requires Safe(s, owner) && Legal(s, op)
    ensures Step(s, op).Panicked? ==> op.MapFile? && Step(s, op).reason in {NotAllowed, InvalidLength}
    ensures Step(s, op).Returned? ==> Safe(Step(s, op).value, owner')
  {
    hide Safe, Legal, Step;
    owner' := owner;
    match op
    case Malloc(len, align) =>
      assert align == H.NO_ALIGN || align == H.PAGE_ALIGN by { LegalMalloc(s, len, align); }
      MallocSafe(s, owner, len, align);
    case Free(mem) => FreeSafe(s, owner, mem);
    case AddTrans(_, _, _, _) => owner' := AddTransSafe(s, owner, op);
    case AddLoose(_, _, _) => owner' := AddLooseSafe(s, owner, op);
    case Map(_, _, _) => owner' := MapSafe(s, owner, op);
    case Protection(_, _, _) => ProtectionSafe(s, owner, op);
    case MapFile(_, _, _, _, _, _, _) => owner' := MapFileSafe(s, owner, op);
  }

  /** Every legal run of the memory manager, from any safe state: the consistency panics
      ("invalid size", "alignment request failed", "invalid address", "non-kernel based
      address") are unreachable, only sys_mmap can run into a range or length panic, and every
      state reached before memory runs out is safe again. */
  lemma {:induction false} RunSafe(s: State, owner: Owner, ops: seq<Op>) returns (owner': Owner)
    requires Safe(s, owner) && LegalRun(s, ops)
    ensures Run(s, ops).Panicked? ==> Run(s, ops).reason in {NotAllowed, InvalidLength}
    ensures Run(s, ops).Panicked? ==> exists i :: 0 <= i < |ops| && ops[i].MapFile?
    ensures Run(s, ops).Returned? ==> Safe(Run(s, ops).value, owner')
    decreases |ops|
  {
    hide Safe, Legal, Step;
    owner' := owner;
    if ops != [] {
      owner' := StepSafe(s, owner, ops[0]);
      if Step(s, ops[0]).Returned? {
        owner' := RunSafe(Step(s, ops[0]).value, owner', ops[1..]);
        assert forall i | 0 <= i < |ops[1..]| :: ops[1..][i] == ops[i + 1];
      }
    }
  }

  /** The state kernel_main builds: boot tables and an empty arena above the kernel. */
  function Boot(ram: seq<byte>, len: nat): Outcome<State> {
    var h :- H.InitAllocator(KERNEL_BASE + PS_LIMIT, len);
    Returned(State(Mm(h, InitPagetable(SetupPaging()), ram, NOT_MMAPPED), Pins({}, {})))
  }

  lemma BootSafe(ram: seq<byte>, len: nat)
    requires PS_LIMIT + len <= |ram| <= 0x4000_0000
    ensures Boot(ram, len).Returned? <==> len != 0 && len % 0x1000 == 0
    ensures Boot(ram, len).Returned? ==> Safe(Boot(ram, len).value, BootOwner())
  {
    hide Owned, H.Inv;
    H.InitInv(KERNEL_BASE + PS_LIMIT, len);
    BootOwned();
    if len != 0 && len % 0x1000 == 0 {
      var s := Boot(ram, len).value;
      assert s.m.ts == InitPagetable(SetupPaging());
      assert forall t <- s.m.ts :: BootTable(t);
      assert H.Restrict(s.m.heap.size, {}) == map[];
      assert Core(s.m, BootOwner());
    }
  }

  lemma SafeKernelPart(s: State, owner: Owner)
    requires Safe(s, owner)
    ensures KernelPart(s.m.ts)
  {
  }

  /** Every legal run from boot: each state reached before memory runs out is safe, physical
      agrees with the walk on the kernel's window, and no user walk enters the kernel's slot or
      its first 2MB. */
  lemma RunFromBoot(ram: seq<byte>, len: nat, ops: seq<Op>, v: nat, w: bool) returns (owner': Owner)
    requires PS_LIMIT + len <= |ram| <= 0x4000_0000 && len != 0 && len % 0x1000 == 0
    requires Boot(ram, len).Returned? && LegalRun(Boot(ram, len).value, ops)
    ensures var r := Run(Boot(ram, len).value, ops);
            r.Returned? ==>
              var ts := r.value.m.ts;
              && Safe(r.value, owner')
              && (KERNEL_BASE <= v < KERNEL_BASE + 0x4000_0000 ==>
                    Physical(v).Returned? && Translate(ts, v, false, w) == Some(Physical(v).value))
              && (v / 0x80_0000_0000 % 512 == 1 || v < 0x20_0000 ==> Translate(ts, v, true, w) == None)
  {
    hide Safe, Legal, Step, LegalRun, Run, Boot, Translate, Physical;
    BootSafe(ram, len);
    owner' := RunSafe(Boot(ram, len).value, BootOwner(), ops);
    var r := Run(Boot(ram, len).value, ops);
    if r.Returned? {
      assert KernelPart(r.value.m.ts) by { SafeKernelPart(r.value, owner'); }
      KernelWindow(r.value.m.ts, v, w);
    }
  }

  /** Arguments that end the kernel, right after boot with 2MB of heap: an mmap of 2MB, which
      the chunk header makes too much, erases it. */
  lemma BootErased(ram: seq<byte>)
    requires 0x40_0000 <= |ram| <= 0x4000_0000
    ensures Boot(ram, 0x20_0000).Returned?
    ensures var s := Boot(ram, 0x20_0000).value;
            Legal(s, Map(0, 0x20_0000, 3)) && Step(s, Map(0, 0x20_0000, 3)) == Erased(0x20_0000)
  {
    BootSafe(ram, 0x20_0000);
    var s := Boot(ram, 0x20_0000).value;
    assert H.Refused(s.m.heap, H.ChunkSize(0x20_0000), H.PAGE_ALIGN);
    var owner', mem := MmapAnywhere(s.m, BootOwner(), s.mapped, 0, 0x20_0000, 3);
    hide Good, Mmapped, Mmap;
  }

  /** Two more, of sys_mmap: two pages of which the second begins the kernel's 512GB run into
      the range panic, a length in the last page below 2^64 into the length panic. */
  lemma BootPanics(ram: seq<byte>, host: Host, prot: nat, fixed: bool, fd: int, offset: nat)
    requires 0x40_0000 <= |ram| <= 0x4000_0000
    ensures Boot(ram, 0x20_0000).Returned?
    ensures var m := Boot(ram, 0x20_0000).value.m;
            && SysMmap(m, host, 0x7f_ffff_f000, 0x2000, prot, true, fd, offset) == Panicked(NotAllowed)
            && SysMmap(m, host, 0, TWO64 - 1, prot, fixed, fd, offset) == Panicked(InvalidLength)
  {
    BootSafe(ram, 0x20_0000);
    var s := Boot(ram, 0x20_0000).value;
    assert !UserPages(0x7f_ffff_f000, 0x2000) by { assert !UserRangeOk(0x80_0000_0000); }
    hide Good, SysMmap;
    FixedRangePanics(s.m, BootOwner(), s.mapped, host, 0x7f_ffff_f000, 0x2000, prot, fd, offset);
    LengthPanics(s.m, BootOwner(), s.mapped, host, 0, TWO64 - 1, prot, fixed, fd, offset);
  }

  // ---------------------------------------------------------------- what safety means

  /** Physical bytes p..p+n. */
  predicate Apart(p: int, n: nat, q: int, k: nat) {
    p + n <= q || q + k <= p
  }

  lemma ChunkApart(h: H.Heap, c: nat, d: nat)
    requires H.Inv(h) && c in h.size && d in h.size && c != d
    ensures Apart(c, h.size[c], d, h.size[d])
  {
  }

  /** A table is apart from every chunk that is not its own. */
  lemma TableApart(s: State, owner: Owner, t: nat, c: nat)
    requires Good(s.m, owner, s.mapped) && t in s.m.ts && c in s.m.heap.size
    requires BootTable(t) || c != ChunkAt(t)
    ensures Apart(KERNEL_BASE + t, 0x1000, c, s.m.heap.size[c])
  {
    hide Owned, Mapped, H.Phased;
    if BootTable(t) {
      assert KERNEL_BASE + PS_LIMIT <= c;
    } else {
      assert TableChunk(s.m.heap, t);
      ChunkApart(s.m.heap, ChunkAt(t), c);
    }
  }

  lemma PagesApart(f: nat, t: nat)
    requires f != t && f % 0x1000 == 0 && t % 0x1000 == 0
    ensures Apart(f, 0x1000, t, 0x1000)
  {
    var i, j := f / 0x1000, t / 0x1000;
    assert f == 0x1000 * i && t == 0x1000 * j;
  }

  lemma TablesApart(s: State, owner: Owner, t: nat, t': nat)
    requires Good(s.m, owner, s.mapped) && t in s.m.ts && t' in s.m.ts && t != t'
    ensures Apart(t, 0x1000, t', 0x1000)
  {
    hide Owned, Mapped, H.Inv;
    assert BootTable(t) || TableChunk(s.m.heap, t);
    assert BootTable(t') || TableChunk(s.m.heap, t');
    assert t % 0x1000 == 0 && t' % 0x1000 == 0;
    PagesApart(t, t');
  }

  /** How frame f, mapped by chunk or loose, stands to chunk c.  A frame that is not loose lies
      inside c or is apart from it.  A loose frame starts the memory of one chunk, and is apart
      from every other chunk except those that begin on its page after that one's end. */
  ghost predicate FrameHome(h: H.Heap, mapped: Pins, f: nat, c: nat)
    requires c in h.size
  {
    if f !in mapped.loose then PageInside(h, c, f) || Apart(KERNEL_BASE + f, 0x1000, c, h.size[c])
    else
      && H.Live(h, ChunkAt(f))
      && (|| c == ChunkAt(f)
          || Apart(KERNEL_BASE + f, 0x1000, c, h.size[c])
          || ChunkAt(f) + h.size[ChunkAt(f)] <= c < KERNEL_BASE + f + 0x1000)
  }

  lemma FrameApart(s: State, owner: Owner, f: nat, t: nat, c: nat)
    requires Good(s.m, owner, s.mapped) && t in s.m.ts && c in s.m.heap.size
    requires InPinned(s.m.heap, s.mapped, f) && f !in s.mapped.loose
    ensures Apart(f, 0x1000, t, 0x1000) && FrameHome(s.m.heap, s.mapped, f, c)
  {
    var d :| d in s.mapped.chunks && PageInside(s.m.heap, d, f);
    assert H.Inv(s.m.heap);
    hide Core;
    CoreShape(s.m, owner);
    TableApart(s, owner, t, d);
    if c != d { ChunkApart(s.m.heap, c, d); }
    hide H.Inv, Mapped;
  }

  lemma LooseChunk(m: Mm, owner: Owner, mapped: Pins, f: nat)
    requires Good(m, owner, mapped) && f in mapped.loose
    ensures H.Inv(m.heap) && H.Live(m.heap, ChunkAt(f)) && f % 0x1000 == 0 && PS_LIMIT <= f
  {
    hide Owned, H.Inv, TablesHeld;
    LivePlaced(m, ChunkAt(f));
  }

  lemma LooseNoTable(m: Mm, owner: Owner, mapped: Pins, f: nat, t: nat)
    requires Good(m, owner, mapped) && f in mapped.loose && t in m.ts
    ensures BootTable(t) || (t != f && t % 0x1000 == 0)
  {
    hide Owned, H.Inv, Placed;
    assert BootTable(t) || TableChunk(m.heap, t);
  }

  lemma LooseApart(s: State, owner: Owner, f: nat, t: nat, c: nat)
    requires Good(s.m, owner, s.mapped) && t in s.m.ts && c in s.m.heap.size && f in s.mapped.loose
    ensures Apart(f, 0x1000, t, 0x1000) && FrameHome(s.m.heap, s.mapped, f, c)
  {
    hide Good, H.Inv;
    LooseChunk(s.m, owner, s.mapped, f);
    LooseNoTable(s.m, owner, s.mapped, f, t);
    if !BootTable(t) { PagesApart(f, t); }
    if c != ChunkAt(f) { ChunkApart(s.m.heap, c, ChunkAt(f)); }
  }

  lemma PageStart(f: nat, o: nat)
    requires f % 0x1000 == 0 && o < 0x1000
    ensures PageDown(f + o) == f
  {
  }

  lemma PinnedLow(m: Mm, mapped: Pins, f: nat)
    requires H.Inv(m.heap) && Placed(m) && InPinned(m.heap, mapped, f)
    requires forall f <- mapped.loose :: f + 0x1000 <= 0x4000_0000
    ensures f + 0x1000 <= 0x4000_0000
  {
    if f !in mapped.loose {
      var c :| c in mapped.chunks && PageInside(m.heap, c, f);
      LivePlaced(m, c);
    }
  }

  /** A walk that gets through has come along present entries. */
  lemma WalkPresent(ts: Tables, v: nat, u: bool, w: bool)
    requires Translate(ts, v, u, w).Some?
    ensures var e4 := Get(ts, CR3, I4(v));
            var e3 := Get(ts, e4.frame, I3(v));
            e4.present && e3.present && Get(ts, e3.frame, I2(v)).present
  {
    hide Get, I4, I3, I2, I1, ClearBase;
  }

  /** It ends in the frame of the last-level entry. */
  lemma WalkEnds(ts: Tables, v: nat, u: bool, w: bool, t: nat)
    requires Translate(ts, v, u, w).Some? && Reaches(ts, v, t)
    ensures var e := Get(ts, t, I1(v));
            e.present && Translate(ts, v, u, w) == Some(ClearBase(e.frame) + v % 0x1000)
  {
    hide Get, I4, I3, I2, I1, ClearBase;
  }

  lemma LowFrame(f: nat)
    requires f < 0x4000_0000
    ensures ClearBase(f) == f
  {
  }

  lemma LowLoose(m: Mm, owner: Owner, mapped: Pins)
    requires Good(m, owner, mapped)
    ensures forall f <- mapped.loose :: f + 0x1000 <= 0x4000_0000
  {
  }

  /** Where a walk of a user address ends, in whatever mode, a mapped frame starts. */
  lemma FrameOf(s: State, owner: Owner, v: nat, u: bool, w: bool)
    requires Good(s.m, owner, s.mapped) && UserRangeOk(v) && Translate(s.m.ts, v, u, w).Some?
    ensures InPinned(s.m.heap, s.mapped, PageDown(Translate(s.m.ts, v, u, w).value))
  {
    hide Good, Core, Translate, Get, I4, I3, I2, I1, InPinned, UserRangeOk, Reaches, PageDown, ClearBase;
    var m, e4 := s.m, Get(s.m.ts, CR3, I4(v));
    var t := Get(m.ts, Get(m.ts, e4.frame, I3(v)).frame, I2(v)).frame;
    GoodCore(m, owner, s.mapped);
    CoreShape(m, owner);
    WalkPresent(m.ts, v, u, w);
    UserPath(m, owner, v);
    WalkEnds(m.ts, v, u, w, t);
    ReachesSlot(m.ts, owner, v, t);
    var f := Get(m.ts, t, I1(v)).frame;
    LeafFrame(m, owner, s.mapped, t, I1(v));
    assert f + 0x1000 <= 0x4000_0000 by { LowLoose(m, owner, s.mapped); PinnedLow(m, s.mapped, f); }
    assert ClearBase(f) == f by { LowFrame(f); }
    PageStart(f, v % 0x1000);
  }

  /** In every safe state: page tables are apart from each other, from every frame that a user
      address leads to in any mode, and from every chunk that is not their own, headers and
      free-list nodes included; and such a frame lies in one mapped chunk, apart from every
      other, unless it is loose, when it may reach into what follows its chunk on the page. */
  lemma Separated(s: State, owner: Owner, t: nat, t': nat, c: nat, v: nat, u: bool, w: bool)
    requires Safe(s, owner) && t in s.m.ts && t' in s.m.ts && c in s.m.heap.size
    ensures t != t' ==> Apart(t, 0x1000, t', 0x1000)
    ensures BootTable(t) || c != ChunkAt(t) ==> Apart(KERNEL_BASE + t, 0x1000, c, s.m.heap.size[c])
    ensures UserRangeOk(v) && Translate(s.m.ts, v, u, w).Some? ==>
              var f := PageDown(Translate(s.m.ts, v, u, w).value);
              && InPinned(s.m.heap, s.mapped, f)
              && Apart(f, 0x1000, t, 0x1000)
              && FrameHome(s.m.heap, s.mapped, f, c)
  {
    hide Good, LastOk, Translate, BootTable, InPinned, FrameHome, Apart, UserRangeOk;
    if t != t' { TablesApart(s, owner, t, t'); }
    if BootTable(t) || c != ChunkAt(t) { TableApart(s, owner, t, c); }
    if UserRangeOk(v) && Translate(s.m.ts, v, u, w).Some? {
      FrameOf(s, owner, v, u, w);
      var f := PageDown(Translate(s.m.ts, v, u, w).value);
      if f in s.mapped.loose { LooseApart(s, owner, f, t, c); } else { FrameApart(s, owner, f, t, c); }
    }
  }
}
