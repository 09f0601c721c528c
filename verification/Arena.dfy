/**
  The kernel heap as the kernel runs it: one arena object whose chunk headers hold a
  size field and a next field, with the free chunks on a singly linked list that the
  loops walk with two pointers.  Address 0 is the null pointer; as `prev` it stands for
  the list head `arena.sorted_bin`.
 */
module Arena {
  import opened Machine
  import H = Heap

  /** The i-th address of a list, or null past its end. */
  function At(s: seq<nat>, i: nat): nat {
    if i < |s| then s[i] else 0
  }

  ghost predicate Distinct(s: seq<nat>) {
    forall i, j | 0 <= i < j < |s| :: s[i] != s[j]
  }

  /** Following next from head visits exactly bin, and ends in null. */
  ghost predicate Chain(head: nat, next: map<nat, nat>, bin: seq<nat>) {
    && head == At(bin, 0)
    && (forall i | 0 <= i < |bin| :: bin[i] != 0 && bin[i] in next && next[bin[i]] == At(bin, i + 1))
    && Distinct(bin)
  }

  /** Following the links, one step. */
  lemma ChainAt(head: nat, next: map<nat, nat>, bin: seq<nat>, k: nat)
    requires Chain(head, next, bin) && k <= |bin|
    ensures head == At(bin, 0)
    ensures k < |bin| ==> bin[k] != 0 && bin[k] in next && next[bin[k]] == At(bin, k + 1)
  {
  }

  lemma DistinctInsert(s: seq<nat>, k: nat, c: nat)
    requires Distinct(s) && k <= |s| && c !in s
    ensures Distinct(s[..k] + [c] + s[k..])
  {
  }

  lemma DistinctRemove(s: seq<nat>, k: nat)
    requires Distinct(s) && k < |s|
    ensures Distinct(s[..k] + s[k + 1..])
  {
  }

  lemma DistinctFrom(s: seq<nat>, k: nat)
    requires Distinct(s) && k < |s|
    ensures forall i | 0 <= i < |s| && i != k :: s[i] != s[k]
  {
  }

  /** The i-th link after c was put in before position k. */
  lemma SpliceLink(next: map<nat, nat>, bin: seq<nat>, k: nat, c: nat, i: nat)
    requires k <= |bin| && c != 0 && c !in bin && i <= |bin|
    requires forall i | 0 <= i < |bin| :: bin[i] != 0 && bin[i] in next && next[bin[i]] == At(bin, i + 1)
    requires k > 0 ==> forall i | 0 <= i < |bin| && i != k - 1 :: bin[i] != bin[k - 1]
    ensures var bin' := bin[..k] + [c] + bin[k..];
            var next' := (if k == 0 then next else next[bin[k - 1] := c])[c := At(bin, k)];
            bin'[i] != 0 && bin'[i] in next' && next'[bin'[i]] == At(bin', i + 1)
  {
    var bin' := bin[..k] + [c] + bin[k..];
    if i < k {
      assert bin'[i] == bin[i] && At(bin', i + 1) == if i == k - 1 then c else At(bin, i + 1);
      assert bin[i] != c;
    } else if i > k {
      assert bin'[i] == bin[i - 1] && At(bin', i + 1) == At(bin, i);
      assert bin[i - 1] != c;
    } else {
      assert bin'[i] == c && At(bin', i + 1) == At(bin, k);
    }
  }

  /** Linking c in before position k splices it into the list there. */
  lemma ChainSplice(head: nat, next: map<nat, nat>, bin: seq<nat>, k: nat, c: nat)
    requires Chain(head, next, bin) && k <= |bin| && c != 0 && c !in bin
    ensures var bin' := bin[..k] + [c] + bin[k..];
            var next' := if k == 0 then next else next[bin[k - 1] := c];
            Chain(if k == 0 then c else head, next'[c := At(bin, k)], bin')
  {
    hide Distinct;
    DistinctInsert(bin, k, c);
    if k > 0 { DistinctFrom(bin, k - 1); }
    var bin' := bin[..k] + [c] + bin[k..];
    var next' := (if k == 0 then next else next[bin[k - 1] := c])[c := At(bin, k)];
    assert At(bin', 0) == if k == 0 then c else head;
    forall i | 0 <= i < |bin'| ensures bin'[i] != 0 && bin'[i] in next' && next'[bin'[i]] == At(bin', i + 1) {
      SpliceLink(next, bin, k, c, i);
    }
  }

  /** Unlinking the k-th element removes exactly it. */
  lemma ChainUnlink(head: nat, next: map<nat, nat>, bin: seq<nat>, k: nat)
    requires Chain(head, next, bin) && k < |bin|
    ensures var bin' := bin[..k] + bin[k + 1..];
            if k == 0 then Chain(next[bin[0]], next, bin')
            else Chain(head, next[bin[k - 1] := next[bin[k]]], bin')
  {
    var bin' := bin[..k] + bin[k + 1..];
    var next' := if k == 0 then next else next[bin[k - 1] := next[bin[k]]];
    DistinctRemove(bin, k);
    if k > 0 { DistinctFrom(bin, k - 1); }
    hide Distinct;
    forall i | 0 <= i < |bin'|
      ensures bin'[i] != 0 && bin'[i] in next' && next'[bin'[i]] == At(bin', i + 1)
    {
      if i < k {
        assert bin'[i] == bin[i] && At(bin', i + 1) == if i == k - 1 then At(bin, k + 1) else At(bin, i + 1);
      } else {
        assert bin'[i] == bin[i + 1] && At(bin', i + 1) == At(bin, i + 2);
      }
    }
  }

  lemma SplitFits(h: H.Heap, k: nat, nb: nat)
    requires H.Inv(h) && k < |h.bin| && 0 < nb <= H.SizeAt(h.size, h.bin[k])
    ensures h.bin[k] in h.size
    ensures nb < h.size[h.bin[k]] ==> h.bin[k] + nb !in h.bin[..k] + h.bin[k + 1..]
  {
    if nb < h.size[h.bin[k]] {
      H.SplitTiled(h.min, h.top, h.size, h.bin[k], nb);
      H.RemoveListed(h.bin, h.size, k);
    }
  }

  /** A request for a whole chunk returns, with the invariant kept and a refusal undone. */
  lemma ChunkRequest(h: H.Heap, nb: nat, align: nat)
    requires H.Inv(h) && 0 < nb && nb % 0x80 == 0 && (align == H.NO_ALIGN || align == H.PAGE_ALIGN)
    ensures H.IntKmalloc(h, nb, align).Returned?
    ensures var (h', mem) := H.IntKmalloc(h, nb, align).value;
            H.Inv(h') && (mem == 0 ==> h' == h) && (align == H.PAGE_ALIGN ==> mem % 0x1000 == 0)
  {
    hide H.Inv, H.IntKmalloc, H.Granted, H.BinFits, H.Gap;
    if align == H.NO_ALIGN { H.UnalignedRequest(h, nb); } else { H.AlignedRequest(h, nb); }
  }

  class Arena {
    var top: nat
    var topSize: nat
    var minAddr: nat
    var head: nat             // sorted_bin.next
    var size: map<nat, nat>   // size field of the header at each chunk address
    var next: map<nat, nat>   // next field of the header at each chunk address
    ghost var bin: seq<nat>   // the linked list, in order

    ghost function Abs(): H.Heap
      reads this
    {
      H.Heap(minAddr, top, topSize, size, bin)
    }

    ghost predicate Linked()
      reads this
    {
      Chain(head, next, bin)
    }

    ghost predicate Valid()
      reads this
    {
      Linked() && H.Inv(Abs())
    }

    constructor (addr: nat, len: nat)
      requires len != 0 && len % 0x1000 == 0
      ensures Linked() && H.InitAllocator(addr, len) == Returned(Abs())
      ensures 0 < addr && addr % 0x1000 == 0 && len < TWO32 ==> Valid()
    {
      hide H.Inv;
      if 0 < addr && addr % 0x1000 == 0 && len < TWO32 { H.InitInv(addr, len); }
      top, topSize, minAddr := addr, len, addr;
      head, size, next, bin := 0, map[], map[], [];
    }

    /** init_allocator.  It takes any start address and any page multiple; what the hypervisor
        hands over, a page boundary and less than 4GB, makes the arena valid. */
    static method InitAllocator(addr: nat, len: nat) returns (r: Outcome<Arena>)
      ensures !r.Returned? ==> H.InitAllocator(addr, len) == r.PropagateFailure()
      ensures r.Returned? ==> fresh(r.value) && H.InitAllocator(addr, len) == Returned(r.value.Abs())
      ensures r.Returned? && 0 < addr && addr % 0x1000 == 0 && len < TWO32 ==> r.value.Valid()
    {
      if len == 0 || len % 0x1000 != 0 { return Panicked(InvalidLength); }
      var a := new Arena(addr, len);
      return Returned(a);
    }

    /** prev->next = c; c->next = now */
    method Splice(prev: nat, c: nat, now: nat, ghost k: nat)
      requires Linked() && c != 0 && c !in bin
      requires k <= |bin| && now == At(bin, k) && prev == if k == 0 then 0 else bin[k - 1]
      modifies this`head, this`next, this`bin
      ensures Linked() && bin == old(bin)[..k] + [c] + old(bin)[k..]
    {
      ChainSplice(head, next, bin, k, c);
      if prev == 0 { head := c; } else { next := next[prev := c]; }
      next := next[c := now];
      bin := bin[..k] + [c] + bin[k..];
    }

    /** insert_sorted */
    method InsertSorted(c: nat)
      requires Linked() && c != 0 && c !in bin
      modifies this`head, this`next, this`bin
      ensures Linked() && bin == H.InsertSorted(old(bin), size, c)
    {
      var now, prev := head, 0;
      ghost var k := 0;
      while now != 0 && H.SizeAt(size, now) < H.SizeAt(size, c)
        invariant k <= |bin| && now == At(bin, k)
        invariant prev == if k == 0 then 0 else bin[k - 1]
        invariant forall i | 0 <= i < k :: H.SizeAt(size, bin[i]) < H.SizeAt(size, c)
        decreases |bin| - k
      {
        prev := now;
        now := next[now];
        k := k + 1;
      }
      H.InsertSortedAt(bin, size, c, k);
      Splice(prev, c, now, k);
    }

    /** prev->next = now->next */
    method Unlink(prev: nat, now: nat, ghost k: nat)
      requires Linked()
      requires k < |bin| && now == bin[k] && prev == if k == 0 then 0 else bin[k - 1]
      modifies this`head, this`next, this`bin
      ensures Linked() && bin == old(bin)[..k] + old(bin)[k + 1..]
    {
      ChainUnlink(head, next, bin, k);
      if prev == 0 { head := next[now]; } else { next := next[prev := next[now]]; }
      bin := bin[..k] + bin[k + 1..];
    }

    /** What is left of a free chunk larger than the request goes back to the list. */
    method Split(now: nat, nb: nat)
      requires Linked() && now in size && 0 < nb < size[now] && now + nb !in bin
      modifies this`head, this`next, this`bin, this`size
      ensures Linked() && size == old(size)[now + nb := old(size)[now] - nb]
      ensures bin == H.InsertSorted(old(bin), size, now + nb)
    {
      var r := now + nb;
      size := size[r := size[now] - nb];
      InsertSorted(r);
    }

    /** The part of fetch_sorted_bin after a fit is found. */
    method Take(prev: nat, now: nat, nb: nat, ghost k: nat)
      requires Valid() && 0 < nb
      requires k < |bin| && now == bin[k] && prev == if k == 0 then 0 else bin[k - 1]
      requires H.SizeAt(size, now) >= nb
      modifies this`head, this`next, this`bin, this`size
      ensures Linked() && Abs() == H.Carve(old(Abs()), k, nb)
    {
      hide H.Inv, Chain, H.InsertSorted;
      ghost var h := Abs();
      SplitFits(h, k, nb);
      Unlink(prev, now, k);
      if size[now] != nb { Split(now, nb); }
      size := size[now := nb];
    }

    /** fetch_sorted_bin: the walk finds the first fit, unlinks it and inserts what is left. */
    method FetchSortedBin(nb: nat) returns (r: Outcome<nat>)
      requires Valid() && 0 < nb
      modifies this`head, this`next, this`bin, this`size
      ensures r.Returned? && Linked()
      ensures H.FetchSortedBin(old(Abs()), nb) == Returned((Abs(), r.value))
    {
      hide H.Inv, H.Carve, H.InvalidChunkSize, Chain;
      var now, prev := head, 0;
      ghost var k := 0;
      H.FreeSizesValid(Abs());
      ChainAt(head, next, bin, 0);
      while now != 0
        invariant k <= |bin| && now == At(bin, k) && (now == 0 ==> k == |bin|)
        invariant prev == if k == 0 then 0 else bin[k - 1]
        invariant unchanged(this)
        invariant H.FirstFit(Abs(), nb, 0) == H.FirstFit(Abs(), nb, k)
        decreases |bin| - k
      {
        if H.InvalidChunkSize(H.SizeAt(size, now)) { return Panicked(InvalidBinSize); }
        if H.SizeAt(size, now) >= nb {
          Take(prev, now, nb, k);
          return Returned(now + H.HEADER);
        }
        prev := now;
        ChainAt(head, next, bin, k);
        now := next[now];
        k := k + 1;
        ChainAt(head, next, bin, k);
      }
      return Returned(0);
    }

    method MallocTop(nb: nat) returns (mem: nat)
      requires Linked()
      modifies this`top, this`topSize, this`size
      ensures Linked() && H.MallocTop(old(Abs()), nb) == (Abs(), mem)
    {
      if topSize < nb { return 0; }
      topSize := topSize - nb;
      var c := top;
      size := size[c := nb];
      top := top + nb;
      return c + H.HEADER;
    }

    /** kfree of any address; freeing what is not a live chunk is left to the callers' discipline. */
    method Kfree(mem: nat) returns (r: Outcome<()>)
      requires Linked()
      requires mem != 0 ==> mem > H.HEADER && mem - H.HEADER !in bin
      modifies this
      ensures Linked()
      ensures r.Returned? ==> H.Kfree(old(Abs()), mem) == Returned(Abs())
      ensures !r.Returned? ==> H.Kfree(old(Abs()), mem) == r.PropagateFailure() && unchanged(this)
      ensures old(Valid()) && (mem != 0 ==> H.Live(old(Abs()), mem - H.HEADER)) ==> r.Returned? && Valid()
    {
      hide H.Inv;
      if Valid() && (mem != 0 ==> H.Live(Abs(), mem - H.HEADER)) { H.KfreeInv(Abs(), mem); }
      if mem == 0 { return Returned(()); }
      var c := mem - H.HEADER;
      if H.InvalidChunkSize(H.SizeAt(size, c)) { return Panicked(InvalidFreeSize); }
      if size[c] + c == top {
        top := c;
        topSize := topSize + size[c];
        size := size - {c};
      } else {
        InsertSorted(c);
      }
      return Returned(());
    }

    method IntKmalloc(nb: nat, align: nat) returns (r: Outcome<nat>)
      requires Valid() && 0 < nb && nb % 0x80 == 0
      modifies this
      ensures Linked()
      ensures r.Returned? ==> H.IntKmalloc(old(Abs()), nb, align) == Returned((Abs(), r.value))
      ensures !r.Returned? ==> H.IntKmalloc(old(Abs()), nb, align) == r.PropagateFailure()
    {
      hide H.Inv, H.WellFormed, Chain;
      ghost var h := Abs();
      H.InvWellFormed(h);
      if align == H.NO_ALIGN {
        r := FetchSortedBin(nb);
        if r.value == 0 {
          var mem := MallocTop(nb);
          r := Returned(mem);
        }
        return;
      }
      if align != H.PAGE_ALIGN { return Panicked(InvalidAlignment); }
      var consume := H.Gap(top);
      var gap := 0;
      if consume != 0 {
        gap := MallocTop(consume);
        if gap == 0 { return Returned(0); }
        H.MallocTopKeeps(h, consume);
        H.GapFreed(h, consume, nb);
      }
      var mem := MallocTop(nb);
      var f := Kfree(gap);
      return Returned(mem);
    }

    /** kmalloc refines its description on values; with a legal alignment it never panics
        and leaves the arena valid, and untouched when it finds no room. */
    method Kmalloc(len: nat, align: nat) returns (r: Outcome<nat>)
      requires Valid()
      modifies this
      ensures align == H.NO_ALIGN || align == H.PAGE_ALIGN ==>
                !r.Panicked? && Valid() && (r.Erased? ==> Abs() == old(Abs()))
      ensures r.Returned? ==> H.Kmalloc(old(Abs()), len, align) == Returned((Abs(), r.value))
      ensures !r.Returned? ==> H.Kmalloc(old(Abs()), len, align) == r.PropagateFailure()
    {
      hide H.Inv, H.IntKmalloc, H.ChunkSize;
      ghost var h := Abs();
      if len >= TWO32 { return Returned(0); }
      H.ChunkSizeOk(len);
      if align == H.NO_ALIGN || align == H.PAGE_ALIGN { ChunkRequest(h, H.ChunkSize(len), align); }
      r := IntKmalloc(H.ChunkSize(len), align);
      if r.Returned? && align != H.NO_ALIGN && r.value % 0x1000 != 0 { return Panicked(AlignmentFailed); }
      if r.Returned? && r.value == 0 && len > 0 { return Erased(len); }
    }
  }
}
