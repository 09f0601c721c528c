/**
  Four-level page tables (kernel/mm/translate.c).  A table is named by its physical
  address; memory that holds no table reads as zero, that is as an absent entry.
 */
module Paging {
  import opened Machine

  // cr3, MAX_KERNEL_SIZE of the hypervisor; the boot tables follow it.
  const CR3: nat := 0x1f_7000
  const PDP0: nat := 0x1f_8000
  const PD0: nat := 0x1f_9000
  const KPDP: nat := 0x1f_a000
  const KPD: nat := 0x1f_b000
  // First physical address the kernel heap may own.
  const PS_LIMIT: nat := 0x20_0000

  // ---------------------------------------------------------------- entries

  datatype Entry = Entry(present: bool, rw: bool, user: bool, ps: bool, frame: nat)

  const ABSENT := Entry(false, false, false, false, 0)

  /** The entry add_trans_user puts above the last level. */
  function Dir(frame: nat): Entry {
    Entry(true, true, true, false, frame)
  }

  predicate Readable(prot: nat) { prot % 2 == 1 }

  predicate Writable(prot: nat) { prot / 2 % 2 == 1 }

  function Leaf(frame: nat, prot: nat): Entry {
    Entry(true, Writable(prot), Readable(prot), false, frame)
  }

  function Flag(b: bool, weight: nat): nat { if b then weight else 0 }

  /** The 64-bit word that stands for an entry. */
  function Word(e: Entry): nat {
    e.frame + Flag(e.present, 1) + Flag(e.rw, 2) + Flag(e.user, 4) + Flag(e.ps, 0x80)
  }

  /** What the macros read from a word: bits 0, 1, 2 and 7, and `w & -0x1000`. */
  function Decode(w: nat): Entry {
    Entry(w % 2 == 1, w / 2 % 2 == 1, w / 4 % 2 == 1, w / 0x80 % 2 == 1, w - w % 0x1000)
  }

  lemma FlagBits(e: Entry, low: nat)
    requires low == Flag(e.present, 1) + Flag(e.rw, 2) + Flag(e.user, 4) + Flag(e.ps, 0x80)
    ensures low < 0x1000
    ensures (low % 2 == 1 <==> e.present) && (low / 2 % 2 == 1 <==> e.rw)
    ensures (low / 4 % 2 == 1 <==> e.user) && (low / 0x80 % 2 == 1 <==> e.ps)
  {
  }

  lemma Bit0(k: nat, low: nat)
    ensures (0x1000 * k + low) % 2 == low % 2
  {
    QuotientIs(0x1000 * k + low, 2, 0x800 * k + low / 2, low % 2);
  }

  lemma Bit1(k: nat, low: nat)
    ensures (0x1000 * k + low) / 2 % 2 == low / 2 % 2
  {
    var h := low / 2;
    QuotientIs(0x1000 * k + low, 2, 0x800 * k + h, low % 2);
    QuotientIs(0x800 * k + h, 2, 0x400 * k + h / 2, h % 2);
  }

  lemma Bit2(k: nat, low: nat)
    ensures (0x1000 * k + low) / 4 % 2 == low / 4 % 2
  {
    var h := low / 4;
    QuotientIs(0x1000 * k + low, 4, 0x400 * k + h, low % 4);
    QuotientIs(0x400 * k + h, 2, 0x200 * k + h / 2, h % 2);
  }

  lemma Bit7(k: nat, low: nat)
    ensures (0x1000 * k + low) / 0x80 % 2 == low / 0x80 % 2
  {
    var h := low / 0x80;
    QuotientIs(0x1000 * k + low, 0x80, 0x20 * k + h, low % 0x80);
    QuotientIs(0x20 * k + h, 2, 0x10 * k + h / 2, h % 2);
  }

  lemma Bits12(k: nat, low: nat)
    requires low < 0x1000
    ensures (0x1000 * k + low) % 0x1000 == low
  {
    QuotientIs(0x1000 * k + low, 0x1000, k, low);
  }

  lemma Bits21(k: nat, low: nat)
    requires low < 0x1000
    ensures var w := 0x1000 * k + low;
            w - w % 0x20_0000 == 0x1000 * k - 0x1000 * k % 0x20_0000
  {
    var q, r := k / 0x200, k % 0x200;
    QuotientIs(0x1000 * k + low, 0x20_0000, q, 0x1000 * r + low);
    QuotientIs(0x1000 * k, 0x20_0000, q, 0x1000 * r);
  }

  /** Reading back the word of an entry gives the entry, and the 2MB mask of the word is
      that of the frame. */
  lemma WordFaithful(e: Entry)
    requires e.frame % 0x1000 == 0
    ensures Decode(Word(e)) == e
    ensures Word(e) - Word(e) % 0x20_0000 == e.frame - e.frame % 0x20_0000
  {
    var low, k := Word(e) - e.frame, e.frame / 0x1000;
    assert e.frame == 0x1000 * k && Word(e) == 0x1000 * k + low;
    FlagBits(e, low);
    hide Word, Flag;
    Bit0(k, low);
    Bit1(k, low);
    Bit2(k, low);
    Bit7(k, low);
    Bits12(k, low);
    Bits21(k, low);
  }

  // ---------------------------------------------------------------- addresses

  function I4(v: nat): (i: nat)
    ensures i < 512
  {
    v / 0x80_0000_0000 % 512
  }

  function I3(v: nat): (i: nat)
    ensures i < 512
  {
    v / 0x4000_0000 % 512
  }

  function I2(v: nat): (i: nat)
    ensures i < 512
  {
    v / 0x20_0000 % 512
  }

  function I1(v: nat): (i: nat)
    ensures i < 512
  {
    v / 0x1000 % 512
  }

  /** The bits of v that a walk looks at, above the page offset. */
  function PageOf(v: nat): nat { v / 0x1000 % 0x10_0000_0000 }

  lemma IndexDigits(n: nat)
    ensures n % 0x10_0000_0000
         == ((n / 0x800_0000 % 512 * 512 + n / 0x4_0000 % 512) * 512 + n / 512 % 512) * 512 + n % 512
  {
    var n1, r1 := n / 512, n % 512;
    var n2, r2 := n1 / 512, n1 % 512;
    var n3, r3 := n2 / 512, n2 % 512;
    var n4, r4 := n3 / 512, n3 % 512;
    QuotientIs(n, 0x4_0000, n2, 512 * r2 + r1);
    QuotientIs(n, 0x800_0000, n3, 512 * (512 * r3 + r2) + r1);
    QuotientIs(n, 0x10_0000_0000, n4, ((r4 * 512 + r3) * 512 + r2) * 512 + r1);
  }

  lemma IndicesOf(v: nat)
    ensures PageOf(v) == ((I4(v) * 512 + I3(v)) * 512 + I2(v)) * 512 + I1(v)
  {
    var n, o := v / 0x1000, v % 0x1000;
    QuotientIs(v, 0x20_0000, n / 512, 0x1000 * (n % 512) + o);
    QuotientIs(v, 0x4000_0000, n / 0x4_0000, 0x1000 * (n % 0x4_0000) + o);
    QuotientIs(v, 0x80_0000_0000, n / 0x800_0000, 0x1000 * (n % 0x800_0000) + o);
    IndexDigits(n);
  }

  /** Two addresses use the same four table indices exactly when they are on the same page. */
  lemma IndicesName(v: nat, w: nat)
    ensures PageOf(v) == PageOf(w) <==> I4(v) == I4(w) && I3(v) == I3(w) && I2(v) == I2(w) && I1(v) == I1(w)
  {
    IndicesOf(v);
    IndicesOf(w);
  }

  /** USER_MEM_RANGE_OK */
  predicate UserRangeOk(v: nat) {
    v >= 0x20_0000 && v / 0x1_0000_0000_0000 == 0 && v / 0x80_0000_0000 != 1
  }

  lemma UserBelow(x: nat)
    requires UserRangeOk(x)
    ensures x < TWO48
  {
  }

  /** `p & ~KERNEL_BASE_OFFSET`, and equally `(p | KERNEL_BASE_OFFSET) ^ KERNEL_BASE_OFFSET`. */
  function ClearBase(p: nat): nat {
    if p / 0x80_0000_0000 % 2 == 1 then p - 0x80_0000_0000 else p
  }

  /** physical: panics on an address without the kernel base bit. */
  function Physical(v: nat): Outcome<nat> {
    if v / 0x80_0000_0000 % 2 == 1 then Returned(v - 0x80_0000_0000) else Panicked(NotKernelBased)
  }

  // ---------------------------------------------------------------- walking

  type Tables = map<nat, seq<Entry>>

  function Get(ts: Tables, t: nat, i: nat): Entry {
    if t in ts && i < |ts[t]| then ts[t][i] else ABSENT
  }

  predicate Passes(e: Entry, usermode: bool, writable: bool) {
    e.present && (usermode ==> e.user) && (writable ==> e.rw)
  }

  /** translate: None stands for -1. */
  function Translate(ts: Tables, v: nat, usermode: bool, writable: bool): Option<nat> {
    var e4 := Get(ts, CR3, I4(v));
    if !Passes(e4, usermode, writable) then None
    else
      var e3 := Get(ts, e4.frame, I3(v));
      if !Passes(e3, usermode, writable) then None
      else
        var e2 := Get(ts, e3.frame, I2(v));
        if !Passes(e2, usermode, writable) then None
        else if e2.ps then Some(e2.frame - e2.frame % 0x20_0000 + v % 0x20_0000)
        else
          var e1 := Get(ts, e2.frame, I1(v));
          if !Passes(e1, usermode, writable) then None
          else Some(ClearBase(e1.frame) + v % 0x1000)
  }

  lemma PageNumber(x: nat, y: nat)
    requires PageDown(x) == PageDown(y)
    ensures x / 0x1000 == y / 0x1000 && PageOf(x) == PageOf(y)
  {
    assert x == 0x1000 * (x / 0x1000) + x % 0x1000;
    assert y == 0x1000 * (y / 0x1000) + y % 0x1000;
  }

  lemma RangeByPage(x: nat)
    ensures var n := x / 0x1000;
            UserRangeOk(x) <==> n >= 0x200 && n < 0x10_0000_0000 && !(0x800_0000 <= n < 0x1000_0000)
  {
  }

  /** All bytes of a page have the same standing. */
  lemma SamePage(ts: Tables, u: bool, w: bool, x: nat, y: nat)
    requires PageDown(x) == PageDown(y)
    ensures Translate(ts, x, u, w).Some? <==> Translate(ts, y, u, w).Some?
    ensures UserRangeOk(x) <==> UserRangeOk(y)
  {
    PageNumber(x, y);
    IndicesName(x, y);
    assert UserRangeOk(x) <==> UserRangeOk(y) by { RangeByPage(x); RangeByPage(y); }
    hide I4, I3, I2, I1, PageOf, PageDown, UserRangeOk, Get, ClearBase;
  }

  // ---------------------------------------------------------------- the tree

  /** The place of a table in the tree: which table indices lead to it. */
  datatype Slot = Pml4 | Pdp(a: nat) | Pd(a: nat, b: nat) | Pt(a: nat, b: nat, c: nat)

  function Child(s: Slot, i: nat): Slot
    requires !s.Pt?
  {
    match s
    case Pml4 => Pdp(i)
    case Pdp(a) => Pd(a, i)
    case Pd(a, b) => Pt(a, b, i)
  }

  /** Cells that belong to the kernel: its 512GB slot and the first 2MB of memory. */
  predicate KernelCell(s: Slot, i: nat) {
    match s
    case Pml4 => i == 1
    case Pdp(a) => a == 1
    case Pd(a, b) => a == 1 || (a == 0 && b == 0 && i == 0)
    case Pt(a, b, c) => a == 1
  }

  type Owner = map<nat, Slot>

  ghost predicate Shape(ts: Tables, owner: Owner) {
    && owner.Keys == ts.Keys
    && CR3 in ts && owner[CR3] == Pml4
    && (forall t <- ts :: |ts[t]| == 512)
  }

  /** An entry that leads to a table leads to the one table of that slot. */
  ghost predicate Tree(ts: Tables, owner: Owner)
    requires Shape(ts, owner)
  {
    forall t <- ts, i | 0 <= i < 512 ::
      !owner[t].Pt? && ts[t][i].present && !(owner[t].Pd? && ts[t][i].ps) ==>
        ts[t][i].frame in ts && owner[ts[t][i].frame] == Child(owner[t], i)
  }

  /** Above the last level, what is present and not the kernel's is an open directory entry. */
  ghost predicate UserDirs(ts: Tables, owner: Owner)
    requires Shape(ts, owner)
  {
    forall t <- ts, i | 0 <= i < 512 ::
      !owner[t].Pt? && ts[t][i].present && !KernelCell(owner[t], i) ==> ts[t][i] == Dir(ts[t][i].frame)
  }

  /** The entries the kernel lives in, as setup_paging and init_pagetable left them. */
  ghost predicate KernelPart(ts: Tables) {
    && Get(ts, CR3, 0) == Dir(PDP0)
    && Get(ts, PDP0, 0) == Dir(PD0)
    && Get(ts, PD0, 0) == Entry(true, true, false, true, 0)
    && Get(ts, CR3, 1) == Entry(true, true, false, false, KPDP)
    && Get(ts, KPDP, 0) == Entry(true, true, false, false, KPD)
    && (forall i | 0 < i < 512 :: !Get(ts, KPDP, i).present)
    && (forall i | 0 <= i < 512 :: Get(ts, KPD, i) == Entry(true, true, false, true, i * 0x20_0000))
  }

  ghost predicate Owned(ts: Tables, owner: Owner) {
    Shape(ts, owner) && Tree(ts, owner) && UserDirs(ts, owner) && KernelPart(ts)
  }

  /** Following an entry of a table stays inside the tree. */
  lemma Follow(ts: Tables, owner: Owner, t: nat, i: nat)
    requires Owned(ts, owner) && t in ts && i < 512
    requires Get(ts, t, i).present && !owner[t].Pt? && !(owner[t].Pd? && Get(ts, t, i).ps)
    ensures Get(ts, t, i).frame in ts
    ensures owner[Get(ts, t, i).frame] == Child(owner[t], i)
  {
  }

  lemma UserDir(ts: Tables, owner: Owner, t: nat, i: nat)
    requires Owned(ts, owner) && t in ts && i < 512
    requires Get(ts, t, i).present && !owner[t].Pt? && !KernelCell(owner[t], i)
    ensures Get(ts, t, i) == Dir(Get(ts, t, i).frame)
  {
  }

  // ---------------------------------------------------------------- updates

  /** A table fresh from kmalloc: all zero. */
  function EmptyTable(): seq<Entry> {
    seq(512, _ => ABSENT)
  }

  function SetCell(ts: Tables, t: nat, i: nat, e: Entry): Tables {
    if t in ts && i < |ts[t]| then ts[t := ts[t][i := e]] else ts
  }

  /** A cleared table at f, and a directory entry for it in cell i of table t. */
  function Link(ts: Tables, t: nat, i: nat, f: nat): Tables {
    SetCell(ts[f := EmptyTable()], t, i, Dir(f))
  }

  lemma GetSet(ts: Tables, t: nat, i: nat, e: Entry, t': nat, i': nat)
    requires t in ts && i < |ts[t]|
    ensures Get(SetCell(ts, t, i, e), t', i') == if t' == t && i' == i then e else Get(ts, t', i')
  {
  }

  lemma GetLink(ts: Tables, t: nat, i: nat, f: nat, t': nat, i': nat)
    requires t in ts && i < |ts[t]| && f !in ts
    ensures Get(Link(ts, t, i, f), t', i')
         == if t' == f then ABSENT else if t' == t && i' == i then Dir(f) else Get(ts, t', i')
  {
  }

  /** A new empty table in a free user cell keeps the tree. */
  lemma LinkOwned(ts: Tables, owner: Owner, t: nat, i: nat, f: nat)
    requires Owned(ts, owner) && t in ts && i < 512 && f !in ts
    requires !owner[t].Pt? && !Get(ts, t, i).present && !KernelCell(owner[t], i)
    ensures Owned(Link(ts, t, i, f), owner[f := Child(owner[t], i)])
  {
    var ts', owner' := Link(ts, t, i, f), owner[f := Child(owner[t], i)];
    forall x, j { GetLink(ts, t, i, f, x, j); }
    assert Shape(ts', owner');
    assert Tree(ts', owner') by { hide KernelPart, UserDirs; }
    assert UserDirs(ts', owner') by { hide KernelPart, Tree; }
    assert KernelPart(ts') by { hide Tree, UserDirs; }
  }

  /** A new empty table in a free user cell changes no translation. */
  lemma LinkTranslate(ts: Tables, owner: Owner, t: nat, i: nat, f: nat, v: nat, u: bool, w: bool)
    requires Owned(ts, owner) && t in ts && i < 512 && f !in ts
    requires !owner[t].Pt? && !Get(ts, t, i).present && !KernelCell(owner[t], i)
    ensures Translate(Link(ts, t, i, f), v, u, w) == Translate(ts, v, u, w)
  {
    hide Tree, UserDirs, KernelPart, Get, Link, ClearBase, I4, I3, I2, I1;
    forall x, j { GetLink(ts, t, i, f, x, j); }
    forall x, j | x in ts && j < 512 && Get(ts, x, j).present && !owner[x].Pt? && !(owner[x].Pd? && Get(ts, x, j).ps)
      ensures Get(ts, x, j).frame in ts && owner[Get(ts, x, j).frame] == Child(owner[x], j)
    {
      Follow(ts, owner, x, j);
    }
  }

  /** Directory entries lead from cr3 to the last-level table t of v. */
  ghost predicate Reaches(ts: Tables, v: nat, t: nat) {
    var e4 := Get(ts, CR3, I4(v));
    var e3 := Get(ts, e4.frame, I3(v));
    e4 == Dir(e4.frame) && e3 == Dir(e3.frame) && Get(ts, e3.frame, I2(v)) == Dir(t)
  }

  lemma ReachesSlot(ts: Tables, owner: Owner, v: nat, t: nat)
    requires Owned(ts, owner) && Reaches(ts, v, t)
    ensures t in ts && owner[t] == Pt(I4(v), I3(v), I2(v))
  {
    var e4 := Get(ts, CR3, I4(v));
    var e3 := Get(ts, e4.frame, I3(v));
    Follow(ts, owner, CR3, I4(v));
    Follow(ts, owner, e4.frame, I3(v));
    Follow(ts, owner, e3.frame, I2(v));
  }

  /** The five boot tables are not last-level tables. */
  lemma BootSlots(ts: Tables, owner: Owner)
    requires Owned(ts, owner)
    ensures {CR3, PDP0, PD0, KPDP, KPD} <= ts.Keys
    ensures owner[CR3] == Pml4 && owner[PDP0] == Pdp(0) && owner[PD0] == Pd(0, 0)
    ensures owner[KPDP] == Pdp(1) && owner[KPD] == Pd(1, 0)
  {
    Follow(ts, owner, CR3, 0);
    Follow(ts, owner, PDP0, 0);
    Follow(ts, owner, CR3, 1);
    Follow(ts, owner, KPDP, 0);
  }

  /** Whatever is written into a last-level table, the tree stays. */
  lemma LeafOwned(ts: Tables, owner: Owner, t: nat, i: nat, e: Entry)
    requires Owned(ts, owner) && t in ts && i < 512 && owner[t].Pt?
    ensures Owned(SetCell(ts, t, i, e), owner)
  {
    var ts' := SetCell(ts, t, i, e);
    BootSlots(ts, owner);
    forall x, j { GetSet(ts, t, i, e, x, j); }
    assert Tree(ts', owner) by { hide KernelPart, UserDirs; }
    assert UserDirs(ts', owner) by { hide KernelPart, Tree; }
    assert KernelPart(ts') by { hide Tree, UserDirs; }
  }

  /** Writing the last-level entry of v decides the translation of every address on v's
      page, and of no other. */
  lemma LeafTranslate(ts: Tables, owner: Owner, v: nat, t: nat, e: Entry, x: nat, u: bool, w: bool)
    requires Owned(ts, owner) && Reaches(ts, v, t) && t in ts && |ts[t]| == 512
    ensures Translate(SetCell(ts, t, I1(v), e), x, u, w)
         == if PageOf(x) != PageOf(v) then Translate(ts, x, u, w)
            else if Passes(e, u, w) then Some(ClearBase(e.frame) + x % 0x1000)
            else None
  {
    hide Tree, UserDirs, KernelPart, Get, SetCell, PageOf, ClearBase, I4, I3, I2, I1;
    ReachesSlot(ts, owner, v, t);
    IndicesName(v, x);
    var e4 := Get(ts, CR3, I4(x));
    GetSet(ts, t, I1(v), e, CR3, I4(x));
    if e4.present {
      Follow(ts, owner, CR3, I4(x));
      var e3 := Get(ts, e4.frame, I3(x));
      GetSet(ts, t, I1(v), e, e4.frame, I3(x));
      if e3.present {
        Follow(ts, owner, e4.frame, I3(x));
        var e2 := Get(ts, e3.frame, I2(x));
        GetSet(ts, t, I1(v), e, e3.frame, I2(x));
        if e2.present && !e2.ps {
          Follow(ts, owner, e3.frame, I2(x));
          GetSet(ts, t, I1(v), e, e2.frame, I1(x));
        }
      }
    }
  }

  // ---------------------------------------------------------------- the kernel window

  lemma WindowIndices(v: nat)
    requires KERNEL_BASE <= v < KERNEL_BASE + 0x4000_0000
    ensures I4(v) == 1 && I3(v) == 0 && I2(v) * 0x20_0000 + v % 0x20_0000 == v - 0x80_0000_0000
    ensures v / 0x80_0000_0000 == 1
  {
    var w := v - KERNEL_BASE;
    QuotientIs(v, 0x80_0000_0000, 1, w);
    QuotientIs(v, 0x4000_0000, 512, w);
    QuotientIs(v, 0x20_0000, 0x4_0000 + w / 0x20_0000, w % 0x20_0000);
    QuotientIs(0x4_0000 + w / 0x20_0000, 512, 512, w / 0x20_0000);
  }

  /** Whatever user mappings exist, physical agrees with the walk on the kernel's 1GB
      window, and no user-mode walk enters the kernel's 512GB slot or the first 2MB. */
  lemma KernelWindow(ts: Tables, v: nat, w: bool)
    requires KernelPart(ts)
    ensures KERNEL_BASE <= v < KERNEL_BASE + 0x4000_0000 ==>
              Physical(v).Returned? && Translate(ts, v, false, w) == Some(Physical(v).value)
    ensures v / 0x80_0000_0000 % 512 == 1 ==> Translate(ts, v, true, w) == None
    ensures v < 0x20_0000 ==> Translate(ts, v, true, w) == None && Translate(ts, v, false, w) == Some(v)
  {
    if KERNEL_BASE <= v < KERNEL_BASE + 0x4000_0000 {
      WindowIndices(v);
    }
  }

  // ---------------------------------------------------------------- the tree, as paths

  /** The table that a path of indices leads to. */
  function TableAt(ts: Tables, path: seq<nat>): Option<nat> {
    if path == [] then Some(CR3)
    else
      var n := |path| - 1;
      match TableAt(ts, path[..n])
      case None => None
      case Some(t) =>
        var e := Get(ts, t, path[n]);
        if e.present && !(n == 2 && e.ps) then Some(e.frame) else None
  }

  ghost function SlotOf(path: seq<nat>): Slot
    requires |path| <= 3
  {
    if |path| == 0 then Pml4 else if |path| == 1 then Pdp(path[0])
    else if |path| == 2 then Pd(path[0], path[1]) else Pt(path[0], path[1], path[2])
  }

  lemma {:induction false} TableAtSlot(ts: Tables, owner: Owner, path: seq<nat>)
    requires Owned(ts, owner) && |path| <= 3 && (forall i | 0 <= i < |path| :: path[i] < 512)
    requires TableAt(ts, path).Some?
    ensures TableAt(ts, path).value in ts && owner[TableAt(ts, path).value] == SlotOf(path)
  {
    if path != [] {
      var n := |path| - 1;
      TableAtSlot(ts, owner, path[..n]);
      Follow(ts, owner, TableAt(ts, path[..n]).value, path[n]);
    }
  }

  /** The tables reachable from cr3 form a tree: different index paths lead to different tables. */
  lemma PathsInjective(ts: Tables, owner: Owner, p: seq<nat>, q: seq<nat>)
    requires Owned(ts, owner) && |p| <= 3 && |q| <= 3
    requires (forall i | 0 <= i < |p| :: p[i] < 512) && (forall i | 0 <= i < |q| :: q[i] < 512)
    requires TableAt(ts, p).Some? && TableAt(ts, p) == TableAt(ts, q)
    ensures p == q
  {
    TableAtSlot(ts, owner, p);
    TableAtSlot(ts, owner, q);
    hide Owned, TableAt;
  }

  // ---------------------------------------------------------------- boot

  function OneEntry(i: nat, e: Entry): seq<Entry>
    requires i < 512
  {
    EmptyTable()[i := e]
  }

  /** setup_paging: 0..2MB for the kernel, reached through directory entries open to users. */
  function SetupPaging(): Tables {
    map[CR3 := OneEntry(0, Dir(PDP0)), PDP0 := OneEntry(0, Dir(PD0)),
        PD0 := OneEntry(0, Entry(true, true, false, true, 0))]
  }

  function BigPage(i: int): Entry {
    Entry(true, true, false, true, if i < 0 then 0 else i * 0x20_0000)
  }

  /** init_pagetable: the kernel's window, 512 pages of 2MB. */
  function InitPagetable(ts: Tables): Tables
    requires CR3 in ts && |ts[CR3]| == 512
  {
    ts[CR3 := ts[CR3][1 := Entry(true, true, false, false, KPDP)]]
      [KPDP := OneEntry(0, Entry(true, true, false, false, KPD))]
      [KPD := seq(512, i => BigPage(i))]
  }

  ghost function BootOwner(): Owner {
    map[CR3 := Pml4, PDP0 := Pdp(0), PD0 := Pd(0, 0), KPDP := Pdp(1), KPD := Pd(1, 0)]
  }

  /** What a present entry of the boot tables is. */
  lemma BootEntry(t: nat, i: nat)
    requires t in InitPagetable(SetupPaging()) && i < |InitPagetable(SetupPaging())[t]|
    requires InitPagetable(SetupPaging())[t][i].present
    ensures t in BootOwner()
    ensures var e := InitPagetable(SetupPaging())[t][i];
            || (t == CR3 && i == 0 && e == Dir(PDP0)) || (t == PDP0 && i == 0 && e == Dir(PD0))
            || (t == PD0 && i == 0 && e.ps) || (t == CR3 && i == 1 && e.frame == KPDP)
            || (t == KPDP && i == 0 && e.frame == KPD) || (t == KPD && e.ps)
  {
  }

  lemma BootTree()
    ensures var ts, owner := InitPagetable(SetupPaging()), BootOwner();
            Shape(ts, owner) && Tree(ts, owner) && UserDirs(ts, owner)
  {
    var ts, owner := InitPagetable(SetupPaging()), BootOwner();
    assert ts[KPD] == seq(512, i => BigPage(i));
    assert Shape(ts, owner);
    forall t, i | t in ts && 0 <= i < 512 && ts[t][i].present { BootEntry(t, i); }
  }

  lemma BootKernel()
    ensures KernelPart(InitPagetable(SetupPaging()))
  {
    assert InitPagetable(SetupPaging())[KPD] == seq(512, i => BigPage(i));
  }

  /** The boot tables are a tree with the kernel part in place. */
  lemma BootOwned()
    ensures Owned(InitPagetable(SetupPaging()), BootOwner())
  {
    BootTree();
    BootKernel();
  }

  // ---------------------------------------------------------------- in plain numbers

  /** The words the kernel and the hypervisor put into their tables: directory entries, pages of
      2MB, and last-level entries by protection (1 to read, 2 to write, 4 to execute). */
  lemma EntryWords(frame: nat, i: nat, prot: nat)
    requires prot < 8
    ensures Word(Dir(frame)) == frame + 7
    ensures Word(BigPage(i)) == 0x20_0000 * i + 0x83
    ensures Word(Leaf(frame, prot)) == frame + (if prot in {0, 4} then 1
                                                else if prot in {1, 5} then 5
                                                else if prot in {2, 6} then 3
                                                else 7)
  {
  }

  /** The entries a walk of v meets, down to a page of 2MB or of 4KB, whatever they allow. */
  function Path(ts: Tables, v: nat): seq<Entry> {
    var e4 := Get(ts, CR3, I4(v));
    var e3 := Get(ts, e4.frame, I3(v));
    var e2 := Get(ts, e3.frame, I2(v));
    if e2.ps then [e4, e3, e2] else [e4, e3, e2, Get(ts, e2.frame, I1(v))]
  }

  /** translate is the processor's walk: it gets through exactly when every entry on the path is
      present, for a user open to users, for a write writable; and it then leads to the frame of
      the last entry. */
  lemma TranslateMeaning(ts: Tables, v: nat, u: bool, w: bool)
    ensures var path := Path(ts, v);
            var last := path[|path| - 1];
            && (Translate(ts, v, u, w).Some? <==>
                  forall i | 0 <= i < |path| :: path[i].present && (u ==> path[i].user) && (w ==> path[i].rw))
            && (Translate(ts, v, u, w).Some? ==>
                  Translate(ts, v, u, w).value
                  == if |path| == 3 then last.frame - last.frame % 0x20_0000 + v % 0x20_0000
                     else ClearBase(last.frame) + v % 0x1000)
  {
    hide Get, I4, I3, I2, I1, ClearBase;
    var path := Path(ts, v);
    assert path[0] == Get(ts, CR3, I4(v)) && path[1] == Get(ts, path[0].frame, I3(v));
    assert path[2] == Get(ts, path[1].frame, I2(v));
    assert |path| == 4 ==> path[3] == Get(ts, path[2].frame, I1(v));
  }

  /** physical takes the kernel's base off an address of the kernel's 512GB, and panics below. */
  lemma PhysicalMeaning(v: nat)
    requires v < 0x100_0000_0000
    ensures Physical(v) == if v < 0x80_0000_0000 then Panicked(NotKernelBased) else Returned(v - 0x80_0000_0000)
  {
    if v < 0x80_0000_0000 {
      QuotientIs(v, 0x80_0000_0000, 0, v);
    } else {
      QuotientIs(v, 0x80_0000_0000, 1, v - 0x80_0000_0000);
    }
  }

  /** ClearBase clears bit 39, whatever else is set. */
  lemma ClearBaseMeaning(p: nat)
    ensures ClearBase(p) / 0x80_0000_0000 % 2 == 0
    ensures p == ClearBase(p) || p == ClearBase(p) + 0x80_0000_0000
  {
    var q, r := p / 0x80_0000_0000, p % 0x80_0000_0000;
    if q % 2 == 1 {
      QuotientIs(p - 0x80_0000_0000, 0x80_0000_0000, q - 1, r);
      QuotientIs(q - 1, 2, q / 2, 0);
    }
  }
}
