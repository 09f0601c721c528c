/**
  The kernel heap (kernel/mm/kmalloc.c) as operations on values.

  A chunk is named by the address of its header.  `size` holds the size field
  of every chunk header below `top`; `bin` lists the free chunks in the order of
  the linked list `sorted_bin`; every other chunk is live.
 */
module Heap {
  import opened Machine

  // offsetof(struct chunk, next): the caller's memory starts here.
  const HEADER: nat := 16
  // sizeof(struct chunk): what a free chunk must be able to hold.
  const CHUNK_STRUCT: nat := 24
  const NO_ALIGN: nat := 0
  const PAGE_ALIGN: nat := 0x1000

  datatype Heap = Heap(min: nat, top: nat, topSize: nat, size: map<nat, nat>, bin: seq<nat>)

  // ---------------------------------------------------------------- operations

  function InitAllocator(addr: nat, len: nat): Outcome<Heap> {
    if len == 0 || len % 0x1000 != 0 then Panicked(InvalidLength)
    else Returned(Heap(addr, addr, len, map[], []))
  }

  predicate InvalidChunkSize(s: nat) {
    s == 0 || s >= TWO32 || s % 16 != 0
  }

  /** The size field at address a; memory that holds no header reads as zero. */
  function SizeAt(size: map<nat, nat>, a: nat): nat {
    if a in size then size[a] else 0
  }

  function InsertSorted(bin: seq<nat>, size: map<nat, nat>, c: nat): seq<nat> {
    if bin == [] || SizeAt(size, bin[0]) >= SizeAt(size, c) then [c] + bin
    else [bin[0]] + InsertSorted(bin[1..], size, c)
  }

  /** Index, from k on, of the first free chunk of at least nb bytes, or |bin|. */
  function FirstFit(h: Heap, nb: nat, k: nat): Outcome<nat>
    requires k <= |h.bin|
    decreases |h.bin| - k
  {
    if k == |h.bin| then Returned(k)
    else if InvalidChunkSize(SizeAt(h.size, h.bin[k])) then Panicked(InvalidBinSize)
    else if SizeAt(h.size, h.bin[k]) >= nb then Returned(k)
    else FirstFit(h, nb, k + 1)
  }

  /** Takes nb bytes from the front of the k-th free chunk; a rest goes back to the bin. */
  function Carve(h: Heap, k: nat, nb: nat): Heap
    requires k < |h.bin| && SizeAt(h.size, h.bin[k]) >= nb
  {
    var now := h.bin[k];
    var rest := SizeAt(h.size, now) - nb;
    var bin := h.bin[..k] + h.bin[k + 1..];
    if rest == 0 then h.(bin := bin)
    else
      var size := h.size[now + nb := rest];
      h.(size := size[now := nb], bin := InsertSorted(bin, size, now + nb))
  }

  function FetchSortedBin(h: Heap, nb: nat): Outcome<(Heap, nat)> {
    var k :- FirstFit(h, nb, 0);
    if k < |h.bin| && SizeAt(h.size, h.bin[k]) >= nb then Returned((Carve(h, k, nb), h.bin[k] + HEADER))
    else Returned((h, 0))
  }

  function MallocTop(h: Heap, nb: nat): (Heap, nat) {
    if h.topSize < nb then (h, 0)
    else (h.(top := h.top + nb, topSize := h.topSize - nb, size := h.size[h.top := nb]), h.top + HEADER)
  }

  function Kfree(h: Heap, mem: nat): Outcome<Heap> {
    if mem == 0 then Returned(h)
    else if mem < HEADER || InvalidChunkSize(SizeAt(h.size, mem - HEADER)) then Panicked(InvalidFreeSize)
    else
      var c := mem - HEADER;
      var s := SizeAt(h.size, c);
      if c + s == h.top then Returned(h.(top := c, topSize := h.topSize + s, size := h.size - {c}))
      else Returned(h.(bin := InsertSorted(h.bin, h.size, c)))
  }

  /** Bytes to skip so that the memory of a chunk put at top is page aligned. */
  function Gap(top: nat): nat {
    (0x1ff0 - top % 0x1000) % 0x1000
  }

  function IntKmalloc(h: Heap, nb: nat, align: nat): Outcome<(Heap, nat)> {
    if align == NO_ALIGN then
      var r :- FetchSortedBin(h, nb);
      if r.1 == 0 then Returned(MallocTop(r.0, nb)) else Returned(r)
    else if align != PAGE_ALIGN then Panicked(InvalidAlignment)
    else
      var consume := Gap(h.top);
      if consume == 0 then Returned(MallocTop(h, nb))
      else
        var (h1, gap) := MallocTop(h, consume);
        if gap == 0 then Returned((h, 0))
        else
          var (h2, mem) := MallocTop(h1, nb);
          var h3 :- Kfree(h2, gap);
          Returned((h3, mem))
  }

  /** The chunk size that serves a request of len bytes. */
  function ChunkSize(len: nat): nat {
    var v := len + HEADER;
    if v % 0x80 != 0 then v - v % 0x80 + 0x80 else v
  }

  /** kmalloc.  Its memset of the result runs for null too: see Erased. */
  function Kmalloc(h: Heap, len: nat, align: nat): Outcome<(Heap, nat)> {
    if len >= TWO32 then Returned((h, 0))
    else
      var r :- IntKmalloc(h, ChunkSize(len), align);
      if align != NO_ALIGN && r.1 % 0x1000 != 0 then Panicked(AlignmentFailed)
      else if r.1 == 0 && len > 0 then Erased(len)
      else Returned(r)
  }

  // ---------------------------------------------------------------- invariants

  /** Chunks have bytes, lie in min..top, do not overlap, and leave no hole:
      where one ends another begins, up to top. */
  ghost predicate Tiled(min: nat, top: nat, size: map<nat, nat>) {
    && (forall a <- size :: 0 < size[a] && min <= a && a + size[a] <= top)
    && (forall a <- size :: a + size[a] == top || a + size[a] in size)
    && (min == top || min in size)
    && (forall a <- size, b <- size :: a < b ==> a + size[a] <= b)
  }

  ghost predicate Listed(bin: seq<nat>, size: map<nat, nat>) {
    && (forall i | 0 <= i < |bin| :: bin[i] in size)
    && (forall i, j | 0 <= i < j < |bin| :: bin[i] != bin[j])
  }

  ghost predicate Sorted(bin: seq<nat>, size: map<nat, nat>) {
    forall i, j | 0 <= i < j < |bin| :: SizeAt(size, bin[i]) <= SizeAt(size, bin[j])
  }

  ghost predicate WellFormed(h: Heap) {
    && 0 < h.min && h.min % 0x1000 == 0
    && h.min <= h.top
    && h.top + h.topSize < h.min + TWO32
    && Tiled(h.min, h.top, h.size)
    && Listed(h.bin, h.size)
    && Sorted(h.bin, h.size)
  }

  /** Chunk boundaries are 0 or 0x70 modulo 0x80.  Only a free chunk may lead from the
      first phase to the second, and none leads back. */
  ghost predicate PhasedChunk(a: nat, s: nat, free: bool) {
    || ((a % 0x80 == 0 || a % 0x80 == 0x70) && s % 0x80 == 0)
    || (a % 0x80 == 0 && s % 0x80 == 0x70 && free)
  }

  ghost predicate Phased(h: Heap) {
    && (h.top % 0x80 == 0 || h.top % 0x80 == 0x70)
    && forall a <- h.size :: PhasedChunk(a, h.size[a], a in h.bin)
  }

  ghost predicate Inv(h: Heap) {
    WellFormed(h) && Phased(h)
  }

  predicate Live(h: Heap, c: nat) {
    c in h.size && c !in h.bin
  }

  // ---------------------------------------------------------------- insertion

  /** insert_sorted puts c before the first free chunk that is not smaller. */
  lemma {:induction false} InsertSortedAt(bin: seq<nat>, size: map<nat, nat>, c: nat, k: nat)
    requires k <= |bin|
    requires forall i | 0 <= i < k :: SizeAt(size, bin[i]) < SizeAt(size, c)
    requires k < |bin| ==> SizeAt(size, bin[k]) >= SizeAt(size, c)
    ensures InsertSorted(bin, size, c) == bin[..k] + [c] + bin[k..]
  {
    if k > 0 {
      InsertSortedAt(bin[1..], size, c, k - 1);
      assert bin[1..][..k - 1] == bin[1..k];
      assert [bin[0]] + bin[1..k] == bin[..k];
    }
  }

  lemma {:induction false} InsertionPoint(bin: seq<nat>, size: map<nat, nat>, c: nat) returns (k: nat)
    ensures k <= |bin|
    ensures forall i | 0 <= i < k :: SizeAt(size, bin[i]) < SizeAt(size, c)
    ensures k < |bin| ==> SizeAt(size, bin[k]) >= SizeAt(size, c)
    ensures InsertSorted(bin, size, c) == bin[..k] + [c] + bin[k..]
  {
    k := 0;
    while k < |bin| && SizeAt(size, bin[k]) < SizeAt(size, c)
      invariant k <= |bin|
      invariant forall i | 0 <= i < k :: SizeAt(size, bin[i]) < SizeAt(size, c)
    {
      k := k + 1;
    }
    InsertSortedAt(bin, size, c, k);
  }

  lemma InsertAtMembers(bin: seq<nat>, c: nat, k: nat, a: nat)
    requires k <= |bin|
    ensures a in bin[..k] + [c] + bin[k..] <==> a == c || a in bin
    ensures multiset(bin[..k] + [c] + bin[k..]) == multiset(bin) + multiset{c}
  {
    assert bin == bin[..k] + bin[k..];
  }

  lemma InsertAtListed(bin: seq<nat>, size: map<nat, nat>, c: nat, k: nat)
    requires k <= |bin| && Listed(bin, size) && c in size && c !in bin
    ensures Listed(bin[..k] + [c] + bin[k..], size)
  {
  }

  lemma InsertAtSorted(bin: seq<nat>, size: map<nat, nat>, c: nat, k: nat)
    requires k <= |bin| && Sorted(bin, size)
    requires forall i | 0 <= i < k :: SizeAt(size, bin[i]) < SizeAt(size, c)
    requires k < |bin| ==> SizeAt(size, bin[k]) >= SizeAt(size, c)
    ensures Sorted(bin[..k] + [c] + bin[k..], size)
  {
    assert forall i | k <= i < |bin| :: SizeAt(size, c) <= SizeAt(size, bin[i]);
  }

  /** Insertion keeps the free list sorted and duplicate free, and adds exactly c. */
  lemma InsertSortedKeeps(bin: seq<nat>, size: map<nat, nat>, c: nat)
    requires Listed(bin, size) && Sorted(bin, size)
    requires c in size && c !in bin
    ensures var bin' := InsertSorted(bin, size, c);
            && Listed(bin', size) && Sorted(bin', size)
            && multiset(bin') == multiset(bin) + multiset{c}
            && (forall a :: a in bin' <==> a == c || a in bin)
  {
    var k := InsertionPoint(bin, size, c);
    InsertAtListed(bin, size, c, k);
    InsertAtSorted(bin, size, c, k);
    forall a ensures a in InsertSorted(bin, size, c) <==> a == c || a in bin {
      InsertAtMembers(bin, c, k, a);
    }
    InsertAtMembers(bin, c, k, c);
  }

  // ---------------------------------------------------------------- primitive steps

  lemma MallocTopKeeps(h: Heap, nb: nat)
    requires WellFormed(h) && 0 < nb <= h.topSize
    ensures WellFormed(MallocTop(h, nb).0)
    ensures Live(MallocTop(h, nb).0, h.top)
    ensures h.top !in h.size
  {
    var h' := MallocTop(h, nb).0;
    assert h.top !in h.size;
    assert forall i | 0 <= i < |h.bin| :: SizeAt(h'.size, h.bin[i]) == SizeAt(h.size, h.bin[i]);
  }

  lemma TopChunkBefore(min: nat, top: nat, size: map<nat, nat>, c: nat, a: nat)
    requires Tiled(min, top, size) && c in size && c + size[c] == top && a in size && a != c
    ensures a + size[a] <= c && (a + size[a] == c || (a + size[a] in size && a + size[a] != c))
  {
    assert c < a ==> top <= a;
  }

  lemma TopChunkRemoved(min: nat, top: nat, size: map<nat, nat>, c: nat)
    requires Tiled(min, top, size)
    requires c in size && c + size[c] == top
    ensures Tiled(min, c, size - {c})
  {
    var rest := size - {c};
    forall a <- rest ensures a + rest[a] <= c && (a + rest[a] == c || a + rest[a] in rest) {
      TopChunkBefore(min, top, size, c, a);
    }
    assert min == c || min in rest;
  }

  lemma SizesAgree(bin: seq<nat>, size: map<nat, nat>, size': map<nat, nat>)
    requires Listed(bin, size) && Sorted(bin, size)
    requires forall a :: a in bin ==> a in size' && size'[a] == size[a]
    ensures Listed(bin, size') && Sorted(bin, size')
  {
  }

  /** kfree of a live chunk of valid size never panics, and keeps the heap well formed. */
  lemma KfreeKeeps(h: Heap, c: nat)
    requires WellFormed(h) && Live(h, c) && !InvalidChunkSize(h.size[c])
    ensures Kfree(h, c + HEADER).Returned?
    ensures var h' := Kfree(h, c + HEADER).value;
            && WellFormed(h')
            && h'.top + h'.topSize == h.top + h.topSize && h'.min == h.min
            && !Live(h', c)
            && (forall a | a != c :: Live(h', a) <==> Live(h, a))
            && (forall a | Live(h', a) :: h'.size[a] == h.size[a])
  {
    if c + h.size[c] == h.top {
      TopChunkRemoved(h.min, h.top, h.size, c);
      SizesAgree(h.bin, h.size, h.size - {c});
    } else {
      InsertSortedKeeps(h.bin, h.size, c);
    }
  }

  lemma SplitNext(min: nat, top: nat, size: map<nat, nat>, c: nat, nb: nat, a: nat)
    requires Tiled(min, top, size) && c in size && 0 < nb < size[c]
    requires a in size[c + nb := size[c] - nb][c := nb]
    ensures var size' := size[c + nb := size[c] - nb][c := nb];
            a + size'[a] == top || a + size'[a] in size'
  {
    if a != c && a != c + nb {
      assert a in size;
    } else if a == c + nb {
      assert a + (size[c] - nb) == c + size[c];
    }
  }

  lemma SplitApart(min: nat, top: nat, size: map<nat, nat>, c: nat, nb: nat, a: nat, b: nat)
    requires Tiled(min, top, size) && c in size && 0 < nb < size[c] && c + nb !in size
    requires var size' := size[c + nb := size[c] - nb][c := nb]; a in size' && b in size' && a < b
    ensures a + size[c + nb := size[c] - nb][c := nb][a] <= b
  {
    if a == c + nb {
      assert c < b;
    } else if b == c + nb && a != c {
      assert a in size;
    }
  }

  lemma SplitFree(min: nat, top: nat, size: map<nat, nat>, c: nat, nb: nat)
    requires Tiled(min, top, size) && c in size && 0 < nb < size[c]
    ensures c + nb !in size && (min == top || min in size)
  {
    if c + nb in size { assert false; }
  }

  lemma SplitInside(min: nat, top: nat, size: map<nat, nat>, c: nat, nb: nat, a: nat)
    requires Tiled(min, top, size) && c in size && 0 < nb < size[c]
    requires a in size[c + nb := size[c] - nb][c := nb]
    ensures var size' := size[c + nb := size[c] - nb][c := nb];
            0 < size'[a] && min <= a && a + size'[a] <= top
  {
  }

  lemma SplitTiled(min: nat, top: nat, size: map<nat, nat>, c: nat, nb: nat)
    requires Tiled(min, top, size)
    requires c in size && 0 < nb < size[c]
    ensures c + nb !in size
    ensures Tiled(min, top, size[c + nb := size[c] - nb][c := nb])
  {
    var size' := size[c + nb := size[c] - nb][c := nb];
    assert c + nb !in size by { SplitFree(min, top, size, c, nb); }
    assert min == top || min in size' by { SplitFree(min, top, size, c, nb); }
    forall a <- size' ensures 0 < size'[a] && min <= a && a + size'[a] <= top {
      SplitInside(min, top, size, c, nb, a);
    }
    forall a <- size', b <- size' | a < b ensures a + size'[a] <= b {
      SplitApart(min, top, size, c, nb, a, b);
    }
    forall a <- size' ensures a + size'[a] == top || a + size'[a] in size' {
      SplitNext(min, top, size, c, nb, a);
    }
  }

  lemma RemoveListed(bin: seq<nat>, size: map<nat, nat>, k: nat)
    requires k < |bin| && Listed(bin, size) && Sorted(bin, size)
    ensures Listed(bin[..k] + bin[k + 1..], size) && Sorted(bin[..k] + bin[k + 1..], size)
  {
  }

  lemma RemoveMembers(bin: seq<nat>, size: map<nat, nat>, k: nat, a: nat)
    requires k < |bin| && Listed(bin, size)
    ensures a in bin[..k] + bin[k + 1..] <==> a in bin && a != bin[k]
  {
    if a in bin && a != bin[k] {
      var i :| 0 <= i < |bin| && bin[i] == a;
      assert i < k ==> bin[..k][i] == a;
      assert i > k ==> bin[k + 1..][i - k - 1] == a;
    }
    if a in bin[..k] {
      var i :| 0 <= i < k && bin[..k][i] == a;
      assert bin[i] == a;
    }
    if a in bin[k + 1..] {
      var i :| 0 <= i < |bin| - k - 1 && bin[k + 1..][i] == a;
      assert bin[k + 1 + i] == a;
    }
  }

  lemma SplitBin(bin: seq<nat>, size: map<nat, nat>, c: nat, nb: nat)
    requires Listed(bin, size) && Sorted(bin, size)
    requires c in size && c !in bin && c + nb !in size && 0 < nb < size[c]
    ensures var mid := size[c + nb := size[c] - nb];
            var bin' := InsertSorted(bin, mid, c + nb);
            && Listed(bin', mid[c := nb]) && Sorted(bin', mid[c := nb])
            && (forall a :: a in bin' <==> a == c + nb || a in bin)
  {
    var mid := size[c + nb := size[c] - nb];
    SizesAgree(bin, size, mid);
    InsertSortedKeeps(bin, mid, c + nb);
    SizesAgree(InsertSorted(bin, mid, c + nb), mid, mid[c := nb]);
  }

  lemma CarveSplitKeeps(h: Heap, k: nat, nb: nat, bin: seq<nat>)
    requires WellFormed(h) && k < |h.bin| && 0 < nb < SizeAt(h.size, h.bin[k])
    requires bin == h.bin[..k] + h.bin[k + 1..]
    requires Listed(bin, h.size) && Sorted(bin, h.size) && h.bin[k] !in bin
    ensures var h' := Carve(h, k, nb);
            && WellFormed(h')
            && h.bin[k] + nb !in h.size
            && (forall a :: a in h'.bin <==> a == h.bin[k] + nb || a in bin)
  {
    hide Tiled, Sorted, InsertSorted;
    SplitTiled(h.min, h.top, h.size, h.bin[k], nb);
    SplitBin(bin, h.size, h.bin[k], nb);
  }

  /** Carving from a free chunk keeps the heap well formed; exactly that chunk's front
      becomes live, with the requested size. */
  lemma CarveKeeps(h: Heap, k: nat, nb: nat)
    requires WellFormed(h) && k < |h.bin| && 0 < nb <= SizeAt(h.size, h.bin[k])
    ensures var h' := Carve(h, k, nb);
            var c := h.bin[k];
            && WellFormed(h')
            && Live(h', c) && h'.size[c] == nb
            && (forall a | a != c :: Live(h', a) <==> Live(h, a))
            && (forall a | Live(h, a) :: h'.size[a] == h.size[a])
  {
    var c := h.bin[k];
    var bin := h.bin[..k] + h.bin[k + 1..];
    RemoveListed(h.bin, h.size, k);
    forall a ensures a in bin <==> a in h.bin && a != c {
      RemoveMembers(h.bin, h.size, k, a);
    }
    if nb < h.size[c] {
      CarveSplitKeeps(h, k, nb, bin);
    }
  }

  /** In a well-formed heap whose free sizes are valid, the bin search returns the first fit. */
  lemma {:induction false} FirstFitFinds(h: Heap, nb: nat, k: nat)
    requires k <= |h.bin|
    requires forall i | k <= i < |h.bin| :: !InvalidChunkSize(SizeAt(h.size, h.bin[i]))
    ensures FirstFit(h, nb, k).Returned?
    ensures var r := FirstFit(h, nb, k).value;
            && k <= r <= |h.bin|
            && (forall i | k <= i < r :: SizeAt(h.size, h.bin[i]) < nb)
            && (r < |h.bin| ==> SizeAt(h.size, h.bin[r]) >= nb)
    decreases |h.bin| - k
  {
    if k < |h.bin| && SizeAt(h.size, h.bin[k]) < nb {
      FirstFitFinds(h, nb, k + 1);
    }
  }

  // ---------------------------------------------------------------- allocation

  /** Every chunk of a heap that satisfies the invariant has a valid size and room for
      the free-list header, so neither size panic can fire. */
  lemma ChunkSizesValid(h: Heap, a: nat)
    requires Inv(h) && a in h.size
    ensures h.size[a] % 16 == 0 && 0x70 <= h.size[a]
    ensures CHUNK_STRUCT <= h.size[a] && !InvalidChunkSize(h.size[a])
  {
    assert PhasedChunk(a, h.size[a], a in h.bin);
  }

  /** From h to h' exactly one chunk became live: nb bytes, handed out as mem. */
  ghost predicate Granted(h: Heap, h': Heap, mem: nat, nb: nat) {
    && HEADER + h.min <= mem
    && !Live(h, mem - HEADER) && Live(h', mem - HEADER) && h'.size[mem - HEADER] == nb
    && (forall a | a != mem - HEADER :: Live(h', a) <==> Live(h, a))
    && (forall a | Live(h, a) :: h'.size[a] == h.size[a])
  }

  ghost predicate SameExtent(h: Heap, h': Heap) {
    h'.min == h.min && h'.top + h'.topSize == h.top + h.topSize
  }

  lemma PhaseSplit(a: nat, s: nat, nb: nat)
    requires PhasedChunk(a, s, true) && nb % 0x80 == 0 && nb <= s
    ensures PhasedChunk(a, nb, false) && PhasedChunk(a + nb, s - nb, true)
    ensures nb == s ==> PhasedChunk(a, s, false)
  {
    var n := nb / 0x80;
    QuotientIs(a + nb, 0x80, a / 0x80 + n, a % 0x80);
    QuotientIs(s - nb, 0x80, s / 0x80 - n, s % 0x80);
  }

  lemma TopPhased(h: Heap, nb: nat)
    requires Phased(h) && h.top !in h.bin && nb % 0x80 == 0
    ensures Phased(h.(top := h.top + nb, topSize := 0, size := h.size[h.top := nb]))
  {
    PhaseSplit(h.top, nb, nb);
  }

  lemma TopGranted(h: Heap, nb: nat)
    requires Inv(h) && 0 < nb <= h.topSize && nb % 0x80 == 0
    ensures var (h', mem) := MallocTop(h, nb);
            Inv(h') && SameExtent(h, h') && Granted(h, h', mem, nb)
  {
    MallocTopKeeps(h, nb);
    assert Phased(MallocTop(h, nb).0) by {
      hide PhasedChunk;
      TopPhased(h, nb);
    }
    assert WellFormed(MallocTop(h, nb).0);
    hide Phased, WellFormed, Tiled, Sorted;
  }

  /** Where the chunks of a heap after carving come from. */
  lemma CarveOrigin(h: Heap, k: nat, nb: nat, a: nat)
    requires WellFormed(h) && k < |h.bin| && 0 < nb <= SizeAt(h.size, h.bin[k]) && a in Carve(h, k, nb).size
    ensures var h', c := Carve(h, k, nb), h.bin[k];
            || (a == c && h'.size[a] == nb && a !in h'.bin)
            || (a == c + nb && h'.size[a] == SizeAt(h.size, c) - nb && a in h'.bin)
            || (a in h.size && h'.size[a] == h.size[a] && (a in h'.bin <==> a in h.bin))
  {
    hide Tiled, Sorted, InsertSorted;
    CarveKeeps(h, k, nb);
    var h', c := Carve(h, k, nb), h.bin[k];
    assert c in h.size;
    if nb < h.size[c] { SplitTiled(h.min, h.top, h.size, c, nb); }
    if a != c { assert Live(h', a) <==> Live(h, a); }
  }

  lemma BinListed(h: Heap, k: nat)
    requires WellFormed(h) && k < |h.bin|
    ensures h.bin[k] in h.size
  {
  }

  lemma CarvePhased(h: Heap, k: nat, nb: nat)
    requires Inv(h) && k < |h.bin| && 0 < nb <= SizeAt(h.size, h.bin[k]) && nb % 0x80 == 0
    ensures Inv(Carve(h, k, nb))
  {
    hide PhasedChunk, WellFormed;
    CarveKeeps(h, k, nb);
    var c, h' := h.bin[k], Carve(h, k, nb);
    assert c in h.size by { BinListed(h, k); }
    assert PhasedChunk(c, h.size[c], true);
    PhaseSplit(c, h.size[c], nb);
    forall a <- h'.size ensures PhasedChunk(a, h'.size[a], a in h'.bin) {
      CarveOrigin(h, k, nb, a);
    }
    assert h'.top == h.top;
  }

  lemma FreeSizesValid(h: Heap)
    requires Inv(h)
    ensures forall i | 0 <= i < |h.bin| :: h.bin[i] in h.size && !InvalidChunkSize(SizeAt(h.size, h.bin[i]))
  {
    forall i | 0 <= i < |h.bin| ensures h.bin[i] in h.size && !InvalidChunkSize(SizeAt(h.size, h.bin[i])) {
      ChunkSizesValid(h, h.bin[i]);
    }
  }

  lemma CarveGranted(h: Heap, k: nat, nb: nat)
    requires Inv(h) && k < |h.bin| && 0 < nb <= SizeAt(h.size, h.bin[k]) && nb % 0x80 == 0
    ensures var h' := Carve(h, k, nb);
            && Inv(h') && SameExtent(h, h') && h'.top == h.top
            && Granted(h, h', h.bin[k] + HEADER, nb)
  {
    CarveKeeps(h, k, nb);
    CarvePhased(h, k, nb);
    assert h.min <= h.bin[k];
    hide Inv, WellFormed, Phased, InsertSorted;
  }

  lemma BestFit(h: Heap, nb: nat, k: nat)
    requires Inv(h) && FirstFit(h, nb, 0) == Returned(k) && k < |h.bin|
    ensures h.bin[k] in h.size && h.size[h.bin[k]] >= nb
    ensures forall a | a in h.bin && a in h.size && h.size[a] >= nb :: h.size[h.bin[k]] <= h.size[a]
  {
    FreeSizesValid(h);
    FirstFitFinds(h, nb, 0);
    forall a | a in h.bin && a in h.size && h.size[a] >= nb ensures h.size[h.bin[k]] <= h.size[a] {
      var i :| 0 <= i < |h.bin| && h.bin[i] == a;
      assert k <= i;
      assert SizeAt(h.size, h.bin[k]) <= SizeAt(h.size, h.bin[i]);
    }
  }

  /** Some free chunk has at least nb bytes. */
  ghost predicate BinFits(h: Heap, nb: nat) {
    exists a :: a in h.bin && SizeAt(h.size, a) >= nb
  }

  lemma FetchFits(h: Heap, nb: nat)
    requires Inv(h) && 0 < nb
    ensures FirstFit(h, nb, 0).Returned? && FirstFit(h, nb, 0).value <= |h.bin|
    ensures FirstFit(h, nb, 0).value < |h.bin| <==> BinFits(h, nb)
    ensures FirstFit(h, nb, 0).value < |h.bin| ==> SizeAt(h.size, h.bin[FirstFit(h, nb, 0).value]) >= nb
  {
    FreeSizesValid(h);
    FirstFitFinds(h, nb, 0);
    hide InvalidChunkSize, Inv, FirstFit;
  }

  /** A request without alignment: it never panics; it is refused exactly when no free
      chunk and no top space fits; a fitting free chunk is preferred to top, and the one
      carved is a smallest that fits. */
  lemma UnalignedRequest(h: Heap, nb: nat)
    requires Inv(h) && 0 < nb && nb % 0x80 == 0
    ensures IntKmalloc(h, nb, NO_ALIGN).Returned?
    ensures var (h', mem) := IntKmalloc(h, nb, NO_ALIGN).value;
            && Inv(h') && SameExtent(h, h')
            && (mem == 0 <==> h.topSize < nb && !BinFits(h, nb))
            && (mem == 0 ==> h' == h)
            && (mem != 0 ==> Granted(h, h', mem, nb))
            && (mem != 0 && !BinFits(h, nb) ==>
                  mem == h.top + HEADER && h'.top == h.top + nb && h'.bin == h.bin && h'.size == h.size[h.top := nb])
            && (BinFits(h, nb) ==>
                  && h'.top == h.top
                  && mem >= HEADER && mem - HEADER in h.bin && mem - HEADER in h.size
                  && forall a | a in h.bin && a in h.size && h.size[a] >= nb :: h.size[mem - HEADER] <= h.size[a])
  {
    hide Inv, Granted, BinFits, FirstFit, Carve;
    FetchFits(h, nb);
    var k := FirstFit(h, nb, 0).value;
    if k < |h.bin| {
      CarveGranted(h, k, nb);
      BestFit(h, nb, k);
    } else if nb <= h.topSize {
      TopGranted(h, nb);
    }
  }

  /** Skipping the gap puts the next chunk's memory on a page boundary. */
  lemma GapAligns(top: nat)
    ensures (top + Gap(top) + HEADER) % 0x1000 == 0
    ensures Gap(top) < 0x1000
    ensures top % 0x80 == 0 ==> Gap(top) % 0x80 == 0x70
    ensures top % 0x80 == 0x70 ==> Gap(top) % 0x80 == 0
  {
    var k, c, j := top / 0x1000, top % 0x1000, top / 0x80;
    var q := if c <= 0xff0 then k + 1 else k + 2;
    if c <= 0xff0 {
      QuotientIs(0x1ff0 - c, 0x1000, 1, 0xff0 - c);
    } else {
      QuotientIs(0x1ff0 - c, 0x1000, 0, 0x1ff0 - c);
    }
    assert top + Gap(top) + HEADER == 0x1000 * q;
    hide Gap;
    QuotientIs(top + Gap(top) + HEADER, 0x1000, q, 0);
    if top % 0x80 == 0 { QuotientIs(Gap(top), 0x80, 0x20 * q - j - 1, 0x70); }
    if top % 0x80 == 0x70 { QuotientIs(Gap(top), 0x80, 0x20 * q - j - 1, 0); }
  }

  /** The heap after gap and chunk were both taken from top and the gap was freed. */
  function WithGap(h: Heap, consume: nat, nb: nat): Heap
    requires consume + nb <= h.topSize
  {
    var size := h.size[h.top := consume][h.top + consume := nb];
    Heap(h.min, h.top + consume + nb, h.topSize - consume - nb, size, InsertSorted(h.bin, size, h.top))
  }

  lemma WithGapWellFormed(h: Heap, consume: nat, nb: nat)
    requires WellFormed(h) && 0 < nb && 0 < consume && consume + nb <= h.topSize
    ensures var h' := WithGap(h, consume, nb);
            && WellFormed(h') && h.top !in h.size && h.top + consume !in h.size && h.top + consume !in h'.bin
            && (forall a :: a in h'.bin <==> a == h.top || a in h.bin)
  {
    hide Tiled, Sorted, InsertSorted;
    MallocTopKeeps(h, consume);
    var h1 := MallocTop(h, consume).0;
    MallocTopKeeps(h1, nb);
    var h2 := MallocTop(h1, nb).0;
    InsertSortedKeeps(h2.bin, h2.size, h.top);
  }

  lemma GapPhases(top: nat, nb: nat)
    requires nb % 0x80 == 0 && (top % 0x80 == 0 || top % 0x80 == 0x70)
    ensures PhasedChunk(top, Gap(top), true) && PhasedChunk(top + Gap(top), nb, false)
    ensures (top + Gap(top) + nb) % 0x80 == 0x70
    ensures Gap(top) % 16 == 0
  {
    GapAligns(top);
  }

  lemma MinBelowTop(h: Heap)
    requires WellFormed(h)
    ensures h.min <= h.top
  {
  }

  lemma TopPhase(h: Heap)
    requires Inv(h)
    ensures h.top % 0x80 == 0 || h.top % 0x80 == 0x70
  {
  }

  lemma InvWellFormed(h: Heap)
    requires Inv(h)
    ensures WellFormed(h)
  {
  }

  lemma WithGapGranted(h: Heap, consume: nat, nb: nat)
    requires Inv(h) && 0 < nb && nb % 0x80 == 0
    requires 0 < consume == Gap(h.top) && consume + nb <= h.topSize
    ensures var h' := WithGap(h, consume, nb);
            Inv(h') && Granted(h, h', h.top + consume + HEADER, nb)
  {
    hide WellFormed, PhasedChunk, InsertSorted, Gap, Sorted;
    InvWellFormed(h);
    TopPhase(h);
    WithGapWellFormed(h, consume, nb);
    GapPhases(h.top, nb);
    var h' := WithGap(h, consume, nb);
    assert h.min <= h.top by { MinBelowTop(h); }
    forall a <- h'.size ensures PhasedChunk(a, h'.size[a], a in h'.bin) {
      if a != h.top && a != h.top + consume { assert a in h.size; }
    }
    assert Granted(h, h', h.top + consume + HEADER, nb) by {
      assert forall a | Live(h, a) :: a in h.size && a != h.top && a != h.top + consume;
    }
  }

  lemma GapFreed(h: Heap, consume: nat, nb: nat)
    requires Inv(h) && 0 < nb && nb % 0x80 == 0
    requires 0 < consume == Gap(h.top) && consume <= h.topSize
    ensures var h1 := MallocTop(h, consume).0;
            Kfree(MallocTop(h1, nb).0, h.top + HEADER)
            == Returned(if consume + nb <= h.topSize then WithGap(h, consume, nb) else h)
  {
    hide Inv, Gap, InsertSorted, WellFormed, PhasedChunk;
    assert h.top % 0x80 == 0 || h.top % 0x80 == 0x70 by { TopPhase(h); }
    GapPhases(h.top, nb);
    GapAligns(h.top);
    InvWellFormed(h);
    MallocTopKeeps(h, consume);
    assert !InvalidChunkSize(consume);
    assert h.size[h.top := consume] - {h.top} == h.size;
  }

  /** A page-aligned request: it never panics, the memory starts a page, it is refused
      exactly when gap and chunk do not fit below the end, and a refusal changes nothing. */
  lemma AlignedRequest(h: Heap, nb: nat)
    requires Inv(h) && 0 < nb && nb % 0x80 == 0
    ensures IntKmalloc(h, nb, PAGE_ALIGN).Returned?
    ensures var (h', mem) := IntKmalloc(h, nb, PAGE_ALIGN).value;
            && Inv(h') && SameExtent(h, h')
            && mem % 0x1000 == 0
            && (mem == 0 <==> h.topSize < Gap(h.top) + nb)
            && (mem == 0 ==> h' == h)
            && (mem != 0 ==> Granted(h, h', mem, nb))
            && (mem != 0 ==> h.top + HEADER <= mem < h.top + HEADER + 0x1000 && h'.top == mem - HEADER + nb)
  {
    hide Inv, Granted, Gap, Kfree;
    var consume := Gap(h.top);
    GapAligns(h.top);
    if consume == 0 {
      if nb <= h.topSize { TopGranted(h, nb); }
    } else if consume <= h.topSize {
      GapFreed(h, consume, nb);
      if consume + nb <= h.topSize { WithGapGranted(h, consume, nb); }
    }
  }

  lemma ChunkSizeOk(len: nat)
    ensures ChunkSize(len) > 0 && ChunkSize(len) % 0x80 == 0
    ensures len + 16 <= ChunkSize(len) < len + 16 + 0x80
  {
    var v := len + 16;
    if v % 0x80 == 0 {
      QuotientIs(v, 0x80, v / 0x80, 0);
    } else {
      QuotientIs(v - v % 0x80 + 0x80, 0x80, v / 0x80 + 1, 0);
    }
  }

  /** Where chunk c goes when it is freed. */
  ghost predicate Freed(h: Heap, h': Heap, c: nat)
    requires c in h.size
  {
    if c + h.size[c] == h.top then
      h' == h.(top := c, topSize := h.topSize + h.size[c], size := h.size - {c})
    else
      && h' == h.(bin := h'.bin)
      && multiset(h'.bin) == multiset(h.bin) + multiset{c} && Sorted(h'.bin, h'.size)
  }

  lemma KfreeExact(h: Heap, c: nat)
    requires WellFormed(h) && Live(h, c) && !InvalidChunkSize(h.size[c])
    ensures Kfree(h, c + HEADER).Returned? && Freed(h, Kfree(h, c + HEADER).value, c)
  {
    InsertSortedKeeps(h.bin, h.size, c);
  }

  /** A block taken from top and freed at once leaves no trace. */
  lemma TakenAndFreed(h: Heap, len: nat)
    requires Inv(h) && len < TWO32 && !BinFits(h, ChunkSize(len)) && ChunkSize(len) <= h.topSize
    ensures Kmalloc(h, len, NO_ALIGN).Returned?
    ensures var (h1, mem) := Kmalloc(h, len, NO_ALIGN).value;
            mem == h.top + HEADER && Kfree(h1, mem) == Returned(h)
  {
    hide BinFits, IntKmalloc, ChunkSize, Kfree, InvalidChunkSize;
    var nb := ChunkSize(len);
    ChunkSizeOk(len);
    UnalignedRequest(h, nb);
    var (h1, mem) := IntKmalloc(h, nb, NO_ALIGN).value;
    ChunkSizesValid(h1, h.top);
    assert h.top !in h.size;
    assert h.size[h.top := nb] - {h.top} == h.size;
    KfreeExact(h1, h.top);
  }

  /** There is no room for a chunk of nb bytes. */
  ghost predicate Refused(h: Heap, nb: nat, align: nat) {
    if align == NO_ALIGN then h.topSize < nb && !BinFits(h, nb) else h.topSize < Gap(h.top) + nb
  }

  /** kmalloc on every reachable heap: no panic, at least len usable bytes, page alignment
      when asked for, all other live chunks untouched.  Without room for the chunk the kernel
      is erased, unless nothing was asked for; a null result is harmless exactly for no bytes
      and for 2^32 bytes or more, and then changes nothing. */
  lemma KmallocInv(h: Heap, len: nat, align: nat)
    requires Inv(h) && (align == NO_ALIGN || align == PAGE_ALIGN)
    ensures var r := Kmalloc(h, len, align);
            && (r.Returned? || r == Erased(len))
            && (r.Erased? <==> 0 < len < TWO32 && Refused(h, ChunkSize(len), align))
            && (r.Returned? ==>
                  var (h', mem) := r.value;
                  && Inv(h') && SameExtent(h, h')
                  && (mem == 0 <==> len >= TWO32 || (len == 0 && Refused(h, ChunkSize(0), align)))
                  && (mem == 0 ==> h' == h)
                  && (mem != 0 ==> Granted(h, h', mem, ChunkSize(len)) && ChunkSize(len) >= len + HEADER)
                  && (align == PAGE_ALIGN ==> mem % 0x1000 == 0))
    ensures ChunkSize(len) % 0x80 == 0 && len + 16 <= ChunkSize(len) < len + 16 + 0x80
  {
    ChunkSizeOk(len);
    if len < TWO32 {
      var nb := ChunkSize(len);
      if align == NO_ALIGN { UnalignedRequest(h, nb); } else { AlignedRequest(h, nb); }
      hide Inv, Granted, IntKmalloc;
    }
  }

  /** A page-aligned request that fits with a whole page to spare is served, at the cost of
      no more than that. */
  lemma AlignedFits(h: Heap, len: nat)
    requires Inv(h) && len < TWO32 && 0x1000 + ChunkSize(len) <= h.topSize
    ensures Kmalloc(h, len, PAGE_ALIGN).Returned?
    ensures var (h', mem) := Kmalloc(h, len, PAGE_ALIGN).value;
            mem != 0 && h.topSize - 0x1000 - ChunkSize(len) <= h'.topSize
  {
    hide Inv, Granted, Gap, Kfree, ChunkSize;
    var nb, consume := ChunkSize(len), Gap(h.top);
    ChunkSizeOk(len);
    AlignedRequest(h, nb);
    GapAligns(h.top);
    if consume != 0 { GapFreed(h, consume, nb); }
  }

  lemma FetchTop(h: Heap, nb: nat)
    ensures FetchSortedBin(h, nb).Returned? ==> FetchSortedBin(h, nb).value.0.topSize == h.topSize
  {
    hide FirstFit, InsertSorted;
  }

  /** A request that fits into top is served, at the cost of no more than its chunk. */
  lemma UnalignedFits(h: Heap, len: nat)
    requires Inv(h) && len < TWO32 && ChunkSize(len) <= h.topSize
    ensures Kmalloc(h, len, NO_ALIGN).Returned?
    ensures var (h', mem) := Kmalloc(h, len, NO_ALIGN).value;
            mem != 0 && h.topSize - ChunkSize(len) <= h'.topSize
  {
    hide Inv, Granted, ChunkSize, FetchSortedBin, BinFits;
    ChunkSizeOk(len);
    UnalignedRequest(h, ChunkSize(len));
    FetchTop(h, ChunkSize(len));
  }

  lemma KfreePhased(h: Heap, c: nat)
    requires Inv(h) && Live(h, c) && !InvalidChunkSize(h.size[c])
    ensures Phased(Kfree(h, c + HEADER).value)
  {
    var h' := Kfree(h, c + HEADER).value;
    KfreeKeeps(h, c);
    PhaseSplit(c, h.size[c], 0);
    assert PhasedChunk(c, h.size[c], false);
    hide PhasedChunk, Tiled, Sorted, InsertSorted;
    forall a <- h'.size ensures PhasedChunk(a, h'.size[a], a in h'.bin) {
      if a != c { assert Live(h', a) <==> Live(h, a); }
    }
  }

  /** kfree of null or of a live chunk: no panic, the invariant holds again, and only that
      chunk stops being live.  The last chunk merges into top, with the free list as it was; any
      other joins the free list, with top as it was. */
  lemma KfreeInv(h: Heap, mem: nat)
    requires Inv(h)
    requires mem != 0 ==> HEADER <= mem && Live(h, mem - HEADER)
    ensures Kfree(h, mem).Returned?
    ensures var h' := Kfree(h, mem).value;
            && Inv(h') && SameExtent(h, h')
            && (forall a :: Live(h', a) <==> Live(h, a) && (mem != 0 ==> a != mem - HEADER))
            && (forall a | Live(h', a) :: h'.size[a] == h.size[a])
            && (mem == 0 ==> h' == h)
            && (mem != 0 ==> Freed(h, h', mem - 16))
  {
    if mem != 0 {
      var c := mem - HEADER;
      ChunkSizesValid(h, c);
      KfreeKeeps(h, c);
      KfreePhased(h, c);
      hide WellFormed, Phased, InsertSorted, InvalidChunkSize, Freed;
      KfreeExact(h, c);
    }
  }

  // ---------------------------------------------------------------- what tiling means

  lemma LastChunk(min: nat, top: nat, size: map<nat, nat>) returns (c: nat)
    requires Tiled(min, top, size) && min < top
    ensures c in size && c + size[c] == top
  {
    c := min;
    while c + size[c] != top
      invariant c in size && c + size[c] <= top
      decreases top - c
    {
      c := c + size[c];
    }
  }

  /** Every address between min and top belongs to exactly one chunk. */
  lemma CoveredOnce(h: Heap, x: nat)
    requires WellFormed(h) && h.min <= x < h.top
    ensures exists a <- h.size :: a <= x < a + h.size[a]
    ensures forall a <- h.size, b <- h.size ::
              a <= x < a + h.size[a] && b <= x < b + h.size[b] ==> a == b
  {
    var c: nat := h.min;
    while x >= c + h.size[c]
      invariant c in h.size && c <= x
      decreases h.top - c
    {
      c := c + h.size[c];
    }
  }

  lemma PhaseChanges(a: nat, s: nat, free: bool)
    requires PhasedChunk(a, s, free) && s % 0x80 != 0
    ensures free && a % 0x80 == 0 && (a + s) % 0x80 == 0x70
  {
  }

  lemma PhaseStays(a: nat, s: nat, free: bool)
    requires PhasedChunk(a, s, free) && a % 0x80 == 0x70
    ensures (a + s) % 0x80 == 0x70
  {
  }

  /** At most one chunk has a size that is not a multiple of 0x80, and it is free. */
  lemma OnePhaseChange(h: Heap, a: nat, b: nat)
    requires Inv(h) && a in h.size && b in h.size && a <= b
    requires h.size[a] % 0x80 != 0 && h.size[b] % 0x80 != 0
    ensures a == b && a in h.bin
  {
    hide PhasedChunk;
    assert PhasedChunk(a, h.size[a], a in h.bin) && PhasedChunk(b, h.size[b], b in h.bin);
    PhaseChanges(a, h.size[a], a in h.bin);
    PhaseChanges(b, h.size[b], b in h.bin);
    if a < b {
      var c: nat := a + h.size[a];
      while c != b
        invariant c in h.size && c <= b && c % 0x80 == 0x70
        decreases b - c
      {
        assert PhasedChunk(c, h.size[c], c in h.bin);
        PhaseStays(c, h.size[c], c in h.bin);
        c := c + h.size[c];
      }
      assert false;
    }
  }

  ghost function Bytes(m: map<nat, nat>): nat {
    if m == map[] then 0
    else
      var a :| a in m;
      m[a] + Bytes(m - {a})
  }

  lemma {:induction false} BytesRemove(m: map<nat, nat>, a: nat)
    requires a in m
    ensures Bytes(m) == m[a] + Bytes(m - {a})
  {
    var b :| b in m && Bytes(m) == m[b] + Bytes(m - {b});
    if b != a {
      BytesRemove(m - {b}, a);
      BytesRemove(m - {a}, b);
      assert m - {b} - {a} == m - {a} - {b};
    }
  }

  lemma {:induction false} BytesTiled(min: nat, top: nat, size: map<nat, nat>)
    requires Tiled(min, top, size) && min <= top
    ensures Bytes(size) == top - min
    decreases top - min
  {
    if min == top {
      assert size == map[] by {
        if a :| a in size { assert false; }
      }
    } else {
      var c := LastChunk(min, top, size);
      TopChunkRemoved(min, top, size, c);
      BytesTiled(min, c, size - {c});
      BytesRemove(size, c);
    }
  }

  ghost function Restrict(m: map<nat, nat>, keys: set<nat>): map<nat, nat> {
    map a | a in m && a in keys :: m[a]
  }

  lemma {:induction false} BytesSplit(m: map<nat, nat>, keys: set<nat>)
    ensures Bytes(m) == Bytes(Restrict(m, keys)) + Bytes(m - keys)
    decreases m.Keys
  {
    if a :| a in m {
      BytesSplit(m - {a}, keys);
      BytesRemove(m, a);
      if a in keys {
        BytesRemove(Restrict(m, keys), a);
        assert Restrict(m, keys) - {a} == Restrict(m - {a}, keys);
        assert m - {a} - keys == m - keys;
      } else {
        BytesRemove(m - keys, a);
        assert Restrict(m, keys) == Restrict(m - {a}, keys);
        assert m - keys - {a} == m - {a} - keys;
      }
    } else {
      assert m == map[] && m - keys == map[] && Restrict(m, keys) == map[];
    }
  }

  ghost function FreeSet(h: Heap): set<nat> {
    set i | 0 <= i < |h.bin| :: h.bin[i]
  }

  /** Live bytes, free bytes and top bytes always add up to the whole arena. */
  lemma Conservation(h: Heap)
    requires WellFormed(h)
    ensures Bytes(h.size - FreeSet(h)) + Bytes(Restrict(h.size, FreeSet(h))) + h.topSize
         == h.top + h.topSize - h.min
  {
    BytesTiled(h.min, h.top, h.size);
    BytesSplit(h.size, FreeSet(h));
  }

  // ---------------------------------------------------------------- runs

  datatype Op = Malloc(len: nat, align: nat) | Free(mem: nat)

  /** What the kernel's callers keep to: one of the two alignments, and only null or the
      memory of a live chunk is freed. */
  ghost predicate Legal(h: Heap, op: Op) {
    match op
    case Malloc(_, align) => align == NO_ALIGN || align == PAGE_ALIGN
    case Free(mem) => mem != 0 ==> HEADER <= mem && Live(h, mem - HEADER)
  }

  function Step(h: Heap, op: Op): Outcome<Heap> {
    match op
    case Malloc(len, align) => var r :- Kmalloc(h, len, align); Returned(r.0)
    case Free(mem) => Kfree(h, mem)
  }

  function Run(h: Heap, ops: seq<Op>): Outcome<Heap>
    decreases ops
  {
    if ops == [] then Returned(h)
    else
      var h' :- Step(h, ops[0]);
      Run(h', ops[1..])
  }

  ghost predicate LegalRun(h: Heap, ops: seq<Op>)
    decreases ops
  {
    ops != [] ==>
      && Legal(h, ops[0])
      && (Step(h, ops[0]).Returned? ==> LegalRun(Step(h, ops[0]).value, ops[1..]))
  }

  /** At some point of the run a request for 0 < len < 2^32 bytes finds no room. */
  ghost predicate Exhausts(h: Heap, ops: seq<Op>)
    decreases ops
  {
    ops != [] &&
    (|| (ops[0].Malloc? && 0 < ops[0].len < TWO32 && Refused(h, ChunkSize(ops[0].len), ops[0].align))
     || (Step(h, ops[0]).Returned? && Exhausts(Step(h, ops[0]).value, ops[1..])))
  }

  lemma InitInv(addr: nat, len: nat)
    requires 0 < addr && addr % 0x1000 == 0 && len < TWO32
    ensures InitAllocator(addr, len).Returned? <==> len != 0 && len % 0x1000 == 0
    ensures InitAllocator(addr, len).Returned? ==>
              var h := InitAllocator(addr, len).value;
              && Inv(h) && h.min == h.top == addr && h.topSize == len
              && (forall a :: a !in h.size) && h.bin == []
  {
  }

  /** Every run of kmalloc and kfree from a fresh arena: no panic is reached, and unless a
      refused request erases the kernel the heap stays tiled, sorted and phased, its extent is
      the initial one, and no byte is lost. */
  lemma {:induction false} RunSafe(h: Heap, ops: seq<Op>)
    requires Inv(h) && LegalRun(h, ops)
    ensures !Run(h, ops).Panicked?
    ensures Run(h, ops).Returned? ==>
              var h' := Run(h, ops).value;
              && Inv(h') && SameExtent(h, h')
              && Bytes(h'.size - FreeSet(h')) + Bytes(Restrict(h'.size, FreeSet(h'))) + h'.topSize
              == h.top + h.topSize - h.min
    ensures Run(h, ops).Erased? <==> Exhausts(h, ops)
    decreases ops
  {
    hide Inv, Kmalloc, Kfree, Bytes, Restrict, FreeSet, Granted;
    if ops == [] {
      assert WellFormed(h) by { InvWellFormed(h); }
      Conservation(h);
    } else {
      match ops[0] {
        case Malloc(len, align) => KmallocInv(h, len, align);
        case Free(mem) => KfreeInv(h, mem);
      }
      if Step(h, ops[0]).Returned? { RunSafe(Step(h, ops[0]).value, ops[1..]); }
    }
  }

  // ---------------------------------------------------------------- the panics, on any heap

  /** kfree panics exactly on a size field that is 0, 2^32 or more, or no multiple of 16. */
  lemma KfreePanics(h: Heap, c: nat)
    ensures var s := if c in h.size then h.size[c] else 0;
            Kfree(h, c + 16) == Panicked(InvalidFreeSize) <==> s == 0 || s >= 0x1_0000_0000 || s % 16 != 0
  {
  }

  /** Such a size stands on the free list before every chunk that would fit. */
  ghost predicate BadBefore(h: Heap, nb: nat, k: nat, j: nat)
    requires j < |h.bin|
  {
    && (var s := SizeAt(h.size, h.bin[j]); s == 0 || s >= 0x1_0000_0000 || s % 16 != 0)
    && forall i | k <= i < j :: SizeAt(h.size, h.bin[i]) < nb
  }

  /** fetch_sorted_bin panics exactly when its walk meets such a size. */
  lemma {:induction false} FetchPanics(h: Heap, nb: nat, k: nat)
    requires k <= |h.bin|
    ensures FirstFit(h, nb, k) == Panicked(InvalidBinSize) <==> exists j :: k <= j < |h.bin| && BadBefore(h, nb, k, j)
    ensures FirstFit(h, nb, k).Returned? || FirstFit(h, nb, k) == Panicked(InvalidBinSize)
    decreases |h.bin| - k
  {
    if k < |h.bin| {
      FetchPanics(h, nb, k + 1);
      if InvalidChunkSize(SizeAt(h.size, h.bin[k])) {
        assert BadBefore(h, nb, k, k);
      } else if SizeAt(h.size, h.bin[k]) < nb {
        var n := k + 1;
        if j :| k <= j < |h.bin| && BadBefore(h, nb, k, j) { assert j != k && BadBefore(h, nb, n, j); }
        if j :| n <= j < |h.bin| && BadBefore(h, nb, n, j) { assert BadBefore(h, nb, k, j); }
      }
    }
  }

  /** kmalloc panics on an alignment that is neither none nor a page, unless the length makes it
      give up before. */
  lemma BadAlignment(h: Heap, len: nat, align: nat)
    requires align != 0 && align != 0x1000
    ensures Kmalloc(h, len, align) == if len < 0x1_0000_0000 then Panicked(InvalidAlignment) else Returned((h, 0))
  {
  }
}
