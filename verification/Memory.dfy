/**
  The memory manager of the guest kernel on values: heap, page tables and RAM together
  (kernel/mm/translate.c and kernel/mm/mmap.c).

  RAM holds the bytes of the chunks handed out; chunk headers and page tables are kept in
  the heap and in the tables.  That the three never share a byte is proved below.
 */
module Memory {
  import opened Machine
  import opened Paging
  import H = Heap

  datatype Mm = Mm(heap: H.Heap, ts: Tables, ram: seq<byte>, last: nat)

  // ---------------------------------------------------------------- RAM

  function Zeros(n: nat): (z: seq<byte>)
    ensures |z| == n && forall i | 0 <= i < n :: z[i] == 0
  {
    seq(n, _ => 0)
  }

  // ---------------------------------------------------------------- operations

  /** kmalloc with its clearing of the memory handed out. */
  function Alloc(m: Mm, len: nat, align: nat): Outcome<(Mm, nat)> {
    var r :- H.Kmalloc(m.heap, len, align);
    if r.1 == 0 then Returned((m.(heap := r.0), 0))
    else Returned((m.(heap := r.0, ram := Blit(m.ram, ClearBase(r.1), Zeros(len))), r.1))
  }

  /** The macro PAGING of add_trans_user: the table below cell i of table t, made if absent. */
  function Descend(m: Mm, t: nat, i: nat): Outcome<(Mm, nat)> {
    var e := Get(m.ts, t, i);
    if !e.present then
      var r :- Alloc(m, 0x1000, H.PAGE_ALIGN);
      var f :- Physical(r.1);
      Returned((r.0.(ts := Link(r.0.ts, t, i, f)), f))
    else if !e.user then Panicked(InvalidAddress)
    else Returned((m, e.frame))
  }

  function AddTransUser(m: Mm, v: nat, p: nat, prot: nat): Outcome<Mm> {
    if !UserRangeOk(v) then Panicked(NotAllowed)
    else
      var r3 :- Descend(m, CR3, I4(v));
      var r2 :- Descend(r3.0, r3.1, I3(v));
      var r1 :- Descend(r2.0, r2.1, I2(v));
      Returned(r1.0.(ts := SetCell(r1.0.ts, r1.1, I1(v), Leaf(ClearBase(p), prot))))
  }

  // ---------------------------------------------------------------- invariant

  predicate BootTable(t: nat) {
    t == CR3 || t == PDP0 || t == PD0 || t == KPDP || t == KPD
  }

  /** The chunk whose memory starts at physical address f. */
  function ChunkAt(f: nat): nat {
    KERNEL_BASE + f - H.HEADER
  }

  /** Table t fills the memory of a live chunk of its own. */
  ghost predicate TableChunk(h: H.Heap, t: nat) {
    && t % 0x1000 == 0
    && H.Live(h, ChunkAt(t))
    && h.size[ChunkAt(t)] >= H.HEADER + 0x1000
  }

  ghost predicate TablesHeld(m: Mm) {
    forall t <- m.ts :: BootTable(t) || TableChunk(m.heap, t)
  }

  /** The arena lies above the kernel image and its tables, inside RAM and the kernel window. */
  ghost predicate Placed(m: Mm) {
    && KERNEL_BASE + PS_LIMIT <= m.heap.min
    && m.heap.top + m.heap.topSize <= KERNEL_BASE + |m.ram|
    && |m.ram| <= 0x4000_0000
  }

  ghost predicate Core(m: Mm, owner: Owner) {
    H.Inv(m.heap) && Placed(m) && Owned(m.ts, owner) && TablesHeld(m)
  }

  /** Live chunks stay live, with their sizes and their bytes; so do the bytes of the kernel
      below the arena. */
  ghost predicate Grows(m: Mm, m': Mm) {
    && |m'.ram| == |m.ram|
    && (forall a: nat | a < PS_LIMIT && a < |m.ram| :: m'.ram[a] == m.ram[a])
    && (forall c | H.Live(m.heap, c) :: H.Live(m'.heap, c) && m'.heap.size[c] == m.heap.size[c])
    && (forall c: nat, a: nat | H.Live(m.heap, c) && c <= KERNEL_BASE + a < c + m.heap.size[c] && a < |m.ram| ::
          m'.ram[a] == m.ram[a])
  }

  /** Physical byte p lies in a live chunk. */
  ghost predicate LiveByte(h: H.Heap, p: nat) {
    exists c: nat :: H.Live(h, c) && c <= KERNEL_BASE + p < c + h.size[c]
  }

  lemma LiveByteKept(m: Mm, m': Mm, p: nat)
    requires Grows(m, m') && LiveByte(m.heap, p) && p < |m.ram|
    ensures LiveByte(m'.heap, p) && |m'.ram| == |m.ram| && m'.ram[p] == m.ram[p]
  {
    var c: nat :| H.Live(m.heap, c) && c <= KERNEL_BASE + p < c + m.heap.size[c];
    assert H.Live(m'.heap, c) && c <= KERNEL_BASE + p < c + m'.heap.size[c];
  }

  lemma LiveDisjoint(h: H.Heap, c: nat, d: nat)
    requires H.Inv(h) && H.Live(h, c) && H.Live(h, d) && c != d
    ensures c + h.size[c] <= d || d + h.size[d] <= c
  {
  }

  lemma LivePlaced(m: Mm, c: nat)
    requires H.Inv(m.heap) && Placed(m) && H.Live(m.heap, c)
    ensures KERNEL_BASE + PS_LIMIT <= c && c + m.heap.size[c] <= KERNEL_BASE + |m.ram|
  {
  }

  lemma BaseBit(v: nat)
    requires KERNEL_BASE <= v < KERNEL_BASE + 0x4000_0000
    ensures Physical(v) == Returned(v - KERNEL_BASE) && ClearBase(v) == v - KERNEL_BASE
  {
  }

  /** What a non-null kmalloc gives the memory manager. */
  ghost predicate Fresh(m: Mm, m': Mm, mem: nat, len: nat) {
    && KERNEL_BASE + PS_LIMIT + H.HEADER <= mem
    && H.Granted(m.heap, m'.heap, mem, H.ChunkSize(len)) && len + H.HEADER <= H.ChunkSize(len)
    && mem - KERNEL_BASE + len <= |m'.ram|
    && (forall a | mem - KERNEL_BASE <= a < mem - KERNEL_BASE + len :: m'.ram[a] == 0)
  }

  /** Clearing a chunk just granted keeps what was live, and the kernel below the arena. */
  lemma AllocGrows(m: Mm, m': Mm, mem: nat, len: nat)
    requires H.Inv(m'.heap) && Placed(m') && KERNEL_BASE + PS_LIMIT + H.HEADER <= mem
    requires H.Granted(m.heap, m'.heap, mem, H.ChunkSize(len)) && len + H.HEADER <= H.ChunkSize(len)
    requires m'.ram == Blit(m.ram, mem - KERNEL_BASE, Zeros(len))
    ensures Grows(m, m') && Fresh(m, m', mem, len)
  {
    hide H.Inv, H.ChunkSize, Blit;
    var c := mem - H.HEADER;
    LivePlaced(m', c);
    forall d: nat, a: nat | H.Live(m.heap, d) && d <= KERNEL_BASE + a < d + m.heap.size[d] && a < |m.ram|
      ensures m'.ram[a] == m.ram[a]
    {
      LiveDisjoint(m'.heap, c, d);
    }
    var p: nat := mem - KERNEL_BASE;
    forall a | p <= a < p + len ensures m'.ram[a] == 0 {
      var i := a - p;
      assert m'.ram[p + i] == Zeros(len)[i];
    }
  }

  /** kmalloc never panics.  It erases the kernel exactly when 0 < len < 2^32 bytes find no
      room; null is returned, with nothing changed, only for other lengths; else the memory
      lies in RAM and is cleared, and everything live keeps its bytes. */
  lemma AllocCore(m: Mm, owner: Owner, len: nat, align: nat)
    requires Core(m, owner) && (align == H.NO_ALIGN || align == H.PAGE_ALIGN)
    ensures Alloc(m, len, align).Returned? || Alloc(m, len, align) == Erased(len)
    ensures Alloc(m, len, align).Erased? <==> 0 < len < TWO32 && H.Refused(m.heap, H.ChunkSize(len), align)
    ensures Alloc(m, len, align).Returned? ==>
              var (m', mem) := Alloc(m, len, align).value;
              && Core(m', owner) && m'.ts == m.ts && m'.last == m.last
              && (len >= TWO32 ==> mem == 0)
              && (mem == 0 ==> m' == m && (len == 0 || len >= TWO32))
              && (mem != 0 ==> Fresh(m, m', mem, len) && Grows(m, m') && Physical(mem) == Returned(mem - KERNEL_BASE))
              && (align == H.PAGE_ALIGN ==> mem % 0x1000 == 0)
  {
    hide H.Inv, H.Kmalloc, Owned, H.Refused;
    H.KmallocInv(m.heap, len, align);
    if Alloc(m, len, align).Returned? && Alloc(m, len, align).value.1 != 0 {
      var (m', mem) := Alloc(m, len, align).value;
      var c := mem - H.HEADER;
      assert H.Live(m'.heap, c) && m'.heap.size[c] >= len + H.HEADER;
      LivePlaced(m', c);
      BaseBit(mem);
      AllocGrows(m, m', mem, len);
    }
  }

  // ---------------------------------------------------------------- mapped frames

  /** Chunks whose memory is mapped, and loose frames: frames that are mapped although the
      chunk whose memory they start need not fill them. */
  datatype Pins = Pins(chunks: set<nat>, loose: set<nat>) {
    function With(c: nat): Pins {
      Pins(chunks + {c}, loose)
    }

    function WithLoose(f: nat): Pins {
      Pins(chunks + {ChunkAt(f)}, loose + {f})
    }
  }

  ghost predicate PageInside(h: H.Heap, c: nat, f: nat) {
    && H.Live(h, c)
    && c + H.HEADER <= KERNEL_BASE + f && KERNEL_BASE + f + 0x1000 <= c + h.size[c]
  }

  /** The page frame at physical address f lies in the memory of a chunk of `pinned`, or is
      one of its loose frames. */
  ghost predicate InPinned(h: H.Heap, pinned: Pins, f: nat) {
    f in pinned.loose || exists c <- pinned.chunks :: PageInside(h, c, f)
  }

  /** The chunks of `pinned` are live and hold no table, a loose frame is a page that starts
      the memory of one of them, and every last-level entry that is present maps a page frame
      inside one of them or a loose one. */
  ghost predicate Mapped(m: Mm, owner: Owner, pinned: Pins)
    requires Shape(m.ts, owner)
  {
    && (forall c <- pinned.chunks :: H.Live(m.heap, c))
    && (forall f <- pinned.loose :: f % 0x1000 == 0 && f + 0x1000 <= 0x4000_0000 && ChunkAt(f) in pinned.chunks)
    && (forall t <- m.ts | !BootTable(t) :: ChunkAt(t) !in pinned.chunks)
    && (forall t <- m.ts, i | 0 <= i < 512 && owner[t].Pt? && m.ts[t][i].present ::
          m.ts[t][i].frame % 0x1000 == 0 && InPinned(m.heap, pinned, m.ts[t][i].frame))
  }

  ghost predicate Good(m: Mm, owner: Owner, pinned: Pins) {
    Core(m, owner) && Mapped(m, owner, pinned)
  }

  /** Nothing that was reachable in the tables has changed. */
  ghost predicate Extends(ts: Tables, ts': Tables) {
    forall t: nat, i: nat | Get(ts, t, i).present :: Get(ts', t, i) == Get(ts, t, i)
  }

  ghost predicate SameTranslations(ts: Tables, ts': Tables) {
    forall v, u, w :: Translate(ts', v, u, w) == Translate(ts, v, u, w)
  }

  lemma PinnedGrows(m: Mm, m': Mm, pinned: Pins, f: nat)
    requires Grows(m, m') && InPinned(m.heap, pinned, f)
    ensures InPinned(m'.heap, pinned, f)
  {
    if f !in pinned.loose {
      var c :| c in pinned.chunks && PageInside(m.heap, c, f);
      assert PageInside(m'.heap, c, f);
    }
  }

  lemma CoreShape(m: Mm, owner: Owner)
    requires Core(m, owner)
    ensures Owned(m.ts, owner) && Shape(m.ts, owner) && H.Inv(m.heap) && Placed(m) && TablesHeld(m)
  {
  }

  /** Memory from kmalloc keeps every mapped frame where it was. */
  lemma AllocGood(m: Mm, owner: Owner, pinned: Pins, len: nat, align: nat)
    requires Good(m, owner, pinned) && (align == H.NO_ALIGN || align == H.PAGE_ALIGN)
    ensures Alloc(m, len, align).Returned? ==> Good(Alloc(m, len, align).value.0, owner, pinned)
  {
    hide Core, Alloc, Fresh, InPinned, H.Refused;
    AllocCore(m, owner, len, align);
    if Alloc(m, len, align).Returned? {
      var m' := Alloc(m, len, align).value.0;
      forall f | m' != m && InPinned(m.heap, pinned, f) ensures InPinned(m'.heap, pinned, f) {
        PinnedGrows(m, m', pinned, f);
      }
      assert Shape(m.ts, owner) by { CoreShape(m, owner); }
    }
  }

  /** The chunk kmalloc has just handed out holds no table, and is not pinned. */
  lemma FreshUnused(m: Mm, m': Mm, owner: Owner, pinned: Pins, mem: nat, len: nat)
    requires Good(m, owner, pinned) && Fresh(m, m', mem, len)
    ensures mem - H.HEADER !in pinned.chunks
    ensures mem - KERNEL_BASE !in m.ts
    ensures forall t <- m.ts | !BootTable(t) :: KERNEL_BASE + t != mem
  {
    hide H.Inv, Owned;
  }

  // ---------------------------------------------------------------- what an erasure hits

  /** The kernel's first 2MB, its code, its data and the tables at cr3, stand at their own
      addresses for the kernel to write: clearing len bytes from address 0 on overwrites each
      of them that is below len. */
  lemma ErasureHits(m: Mm, owner: Owner, v: nat)
    requires Core(m, owner) && v < PS_LIMIT
    ensures Translate(m.ts, v, false, true) == Some(v)
    ensures BootTable(v) ==> v in m.ts
  {
    hide Translate, H.Inv;
    KernelWindow(m.ts, v, true);
    BootSlots(m.ts, owner);
  }
}
