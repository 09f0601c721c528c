/**
  Memory as a user program sees it through the page tables, and the stores the kernel makes
  on its behalf.
 */
module UserView {
  import opened Machine
  import opened Paging
  import opened Memory
  import opened UserAccess
  import B = ByteMemory
  import H = Heap

  /** The bytes a user program sees at the addresses of dom. */
  function View(m: Mm, dom: set<nat>): B.Mem {
    map x | x in dom :: UserByte(m, x)
  }

  /** The addresses a..a+n belong to dom. */
  ghost predicate Within(dom: set<nat>, a: nat, n: nat) {
    forall x: nat | a <= x < a + n :: x in dom
  }

  lemma ViewRd(m: Mm, dom: set<nat>, x: nat)
    requires x in dom && x < TWO48
    ensures B.Rd(View(m, dom), x) == B.Rd(UserMem(m), x)
  {
    hide UserByte;
  }

  // ---------------------------------------------------------------- stores

  function SetByte(ram: seq<byte>, p: nat, b: byte): (r: seq<byte>)
    ensures |r| == |ram|
  {
    if p < |ram| then ram[p := b] else ram
  }

  /** The kernel stores data at va, byte by byte; with the write-protect bit of cr0 set, its
      stores fault on pages that are not writable. */
  function Poke(m: Mm, va: nat, data: seq<byte>): Outcome<Mm>
    decreases |data|
  {
    if data == [] then Returned(m)
    else if va >= TWO48 then Panicked(PageFault)
    else
      match Translate(m.ts, va, false, true)
      case None => Panicked(PageFault)
      case Some(p) => Poke(m.(ram := SetByte(m.ram, p, data[0])), va + 1, data[1..])
  }

  /** The kernel cannot store at x: no 48-bit address, or not writable for it. */
  predicate Unwritable(ts: Tables, x: nat) {
    x >= 0x1_0000_0000_0000 || Translate(ts, x, false, true).None?
  }

  /** A store faults exactly when one of its addresses is unwritable, and never changes the
      tables or the heap. */
  lemma {:induction false} PokeFaults(m: Mm, va: nat, data: seq<byte>)
    ensures Poke(m, va, data).Returned? || Poke(m, va, data) == Panicked(PageFault)
    ensures Poke(m, va, data).Panicked? <==> exists x: nat :: va <= x < va + |data| && Unwritable(m.ts, x)
    ensures Poke(m, va, data).Returned? ==>
              Poke(m, va, data).value == m.(ram := Poke(m, va, data).value.ram)
    decreases |data|
  {
    hide Translate, SetByte;
    if data != [] {
      if Unwritable(m.ts, va) {
      } else {
        var p := Translate(m.ts, va, false, true).value;
        PokeFaults(m.(ram := SetByte(m.ram, p, data[0])), va + 1, data[1..]);
        if x: nat :| va <= x < va + |data| && Unwritable(m.ts, x) { assert x != va && va + 1 <= x; }
      }
    }
  }

  /** Addresses lo..lo+n lead, for reading and writing, to RAM from phys on. */
  ghost predicate Window(m: Mm, lo: nat, n: nat, phys: nat) {
    && phys + n <= |m.ram| && lo + n <= TWO48
    && forall x: nat, u, w | lo <= x < lo + n :: Translate(m.ts, x, u, w) == Some(phys + x - lo)
  }

  lemma BlitHead(ram: seq<byte>, p: nat, data: seq<byte>)
    requires data != [] && p + |data| <= |ram|
    ensures Blit(SetByte(ram, p, data[0]), p + 1, data[1..]) == Blit(ram, p, data)
  {
  }

  lemma {:induction false} PokeWindow(m: Mm, lo: nat, n: nat, phys: nat, va: nat, data: seq<byte>)
    requires Window(m, lo, n, phys) && lo <= va && va + |data| <= lo + n
    ensures Poke(m, va, data) == Returned(m.(ram := Blit(m.ram, phys + (va - lo), data)))
    decreases |data|
  {
    hide Translate, Blit;
    if data == [] {
      assert Blit(m.ram, phys + (va - lo), []) == m.ram by { BlitNone(m.ram, phys + (va - lo)); }
    } else {
      var p := phys + (va - lo);
      BlitHead(m.ram, p, data);
      PokeWindow(m.(ram := SetByte(m.ram, p, data[0])), lo, n, phys, va + 1, data[1..]);
    }
  }

  // ---------------------------------------------------------------- stores in the view

  /** Every address of dom leads its user to a byte of a live chunk. */
  ghost predicate Backed(m: Mm, dom: set<nat>) {
    forall x <- dom ::
      var t := Translate(m.ts, x, true, false);
      x < TWO48 && t.Some? && t.value < |m.ram| && LiveByte(m.heap, t.value)
  }

  /** lo..lo+n is a window of the view, and no other address of the view leads behind it. */
  ghost predicate Stack(m: Mm, dom: set<nat>, lo: nat, n: nat, phys: nat) {
    && Window(m, lo, n, phys) && Within(dom, lo, n)
    && forall x <- dom | !(lo <= x < lo + n) && Translate(m.ts, x, true, false).Some? ::
         !(phys <= Translate(m.ts, x, true, false).value < phys + n)
  }

  /** Nothing but RAM behind the window has changed. */
  ghost predicate WritesRam(m: Mm, m': Mm, phys: nat, n: nat) {
    && m' == m.(ram := m'.ram) && |m'.ram| == |m.ram|
    && forall a | 0 <= a < |m.ram| && !(phys <= a < phys + n) :: m'.ram[a] == m.ram[a]
  }

  lemma WritesRamTwice(a: Mm, b: Mm, c: Mm, phys: nat, n: nat)
    requires WritesRam(a, b, phys, n) && WritesRam(b, c, phys, n)
    ensures WritesRam(a, c, phys, n)
  {
  }

  lemma StackSame(m: Mm, m': Mm, dom: set<nat>, lo: nat, n: nat, phys: nat)
    requires Stack(m, dom, lo, n, phys) && m'.ts == m.ts && |m'.ram| == |m.ram|
    ensures Stack(m', dom, lo, n, phys)
  {
    hide Translate;
  }

  /** Storing through the page tables is storing in the user's view: RAM written behind the
      window changes the view of exactly the addresses written. */
  lemma StoreThrough(m: Mm, dom: set<nat>, lo: nat, n: nat, phys: nat, va: nat, data: seq<byte>)
    requires Stack(m, dom, lo, n, phys) && lo <= va && va + |data| <= lo + n
    ensures View(m.(ram := Blit(m.ram, phys + (va - lo), data)), dom) == B.Store(View(m, dom), va, data)
  {
    hide Translate, B.Store, Blit;
    var p := phys + (va - lo);
    var m' := m.(ram := Blit(m.ram, p, data));
    B.StoreEffect(View(m, dom), va, data);
    var r := B.Store(View(m, dom), va, data);
    forall x | x in dom ensures UserByte(m', x) == B.Rd(r, x) {
      if lo <= x < lo + n {
        assert Translate(m.ts, x, true, false) == Some(phys + x - lo);
        if va <= x < va + |data| { assert m'.ram[p + (x - va)] == data[x - va]; }
      }
    }
    assert forall x | x in dom :: r[x] == B.Rd(r, x);
  }

  /** A store into the window does not fault, and is a store in the view. */
  lemma PokeView(m: Mm, dom: set<nat>, lo: nat, n: nat, phys: nat, va: nat, data: seq<byte>)
    requires Stack(m, dom, lo, n, phys) && lo <= va && va + |data| <= lo + n
    ensures Poke(m, va, data).Returned?
    ensures var m' := Poke(m, va, data).value;
            && View(m', dom) == B.Store(View(m, dom), va, data)
            && WritesRam(m, m', phys, n) && Stack(m', dom, lo, n, phys)
  {
    hide Poke, B.Store, Blit, View, Translate;
    PokeWindow(m, lo, n, phys, va, data);
    StoreThrough(m, dom, lo, n, phys, va, data);
    StackSame(m, Poke(m, va, data).value, dom, lo, n, phys);
  }

  /** The view does not change while live memory is kept and the tables stay. */
  lemma ViewKept(m: Mm, m': Mm, dom: set<nat>)
    requires Backed(m, dom) && Grows(m, m') && m'.ts == m.ts
    ensures View(m', dom) == View(m, dom)
  {
    hide Translate, Grows, LiveByte;
    forall x | x in dom ensures UserByte(m', x) == UserByte(m, x) {
      LiveByteKept(m, m', Translate(m.ts, x, true, false).value);
    }
  }
}
