/**
  modify_permission (kernel/mm/translate.c) and mprotect (kernel/mm/mmap.c).
 */
module Protect {
  import opened Machine
  import opened Paging
  import opened Memory
  import opened Mapping
  import H = Heap

  /** modify_permission, which mprotect only calls on user addresses: None stands for -1. */
  function ModifyPermission(ts: Tables, v: nat, prot: nat): Option<Tables>
    requires UserRangeOk(v)
  {
    var e4 := Get(ts, CR3, I4(v));
    if !e4.present then None
    else
      var e3 := Get(ts, e4.frame, I3(v));
      if !e3.present then None
      else
        var e2 := Get(ts, e3.frame, I2(v));
        if !e2.present then None
        else
          var e1 := Get(ts, e2.frame, I1(v));
          if !e1.present then None
          else Some(SetCell(ts, e2.frame, I1(v), e1.(user := Readable(prot), rw := Writable(prot))))
  }

  /** The loop of mprotect, from byte i on. */
  function ProtectPages(m: Mm, addr: nat, len: nat, prot: nat, i: nat): (Mm, int)
    decreases if i < len then len - i else 0
  {
    if i >= len then (m, 0)
    else if !UserRangeOk(addr + i) then (m, -EACCES)
    else
      match ModifyPermission(m.ts, addr + i, prot)
      case None => (m, -EACCES)
      case Some(ts) => ProtectPages(m.(ts := ts), addr, len, prot, i + 0x1000)
  }

  function Mprotect(m: Mm, addr: nat, len: nat, prot: nat): (Mm, int) {
    if addr % 0x1000 != 0 then (m, -EINVAL) else ProtectPages(m, addr, len, prot, 0)
  }

  // ---------------------------------------------------------------- one page

  /** From ts to ts' only the permissions of va..va+len change: where a kernel walk led there
      before it still does, and user and write walks follow it exactly as prot allows. */
  ghost predicate Protects(ts: Tables, ts': Tables, va: nat, len: nat, prot: nat) {
    forall x: nat, u, w ::
      Translate(ts', x, u, w)
      == if !(va <= x % 0x1_0000_0000_0000 < va + len) then Translate(ts, x, u, w)
         else if Allows(prot, u, w) then Translate(ts, x, false, false)
         else None
  }

  /** A present path of a user address consists of open directory entries. */
  lemma UserPath(m: Mm, owner: Owner, v: nat)
    requires Core(m, owner) && UserRangeOk(v)
    requires var e4 := Get(m.ts, CR3, I4(v));
             var e3 := Get(m.ts, e4.frame, I3(v));
             e4.present && e3.present && Get(m.ts, e3.frame, I2(v)).present
    ensures var e4 := Get(m.ts, CR3, I4(v));
            var e3 := Get(m.ts, e4.frame, I3(v));
            Reaches(m.ts, v, Get(m.ts, e3.frame, I2(v)).frame)
  {
    hide H.Inv, KernelCell, I4, I3, I2, TablesHeld, Get, UserRangeOk, Tree, UserDirs, KernelPart;
    UserCells(v);
    var e4 := Get(m.ts, CR3, I4(v));
    UserDir(m.ts, owner, CR3, I4(v));
    Follow(m.ts, owner, CR3, I4(v));
    var e3 := Get(m.ts, e4.frame, I3(v));
    UserDir(m.ts, owner, e4.frame, I3(v));
    Follow(m.ts, owner, e4.frame, I3(v));
    UserDir(m.ts, owner, e3.frame, I2(v));
  }

  lemma WalkAbsent(m: Mm, owner: Owner, v: nat)
    requires Core(m, owner) && UserRangeOk(v)
    ensures ModifyPermission(m.ts, v, 0).Some? <==> Translate(m.ts, v, false, false).Some?
  {
    var e4 := Get(m.ts, CR3, I4(v));
    var e3 := Get(m.ts, e4.frame, I3(v));
    var e2 := Get(m.ts, e3.frame, I2(v));
    if e4.present && e3.present && e2.present { UserPath(m, owner, v); }
    hide Core, Get, I4, I3, I2, I1, UserRangeOk, ClearBase;
  }

  lemma SetSame(ts: Tables, t: nat, i: nat)
    requires t in ts && i < |ts[t]|
    ensures SetCell(ts, t, i, Get(ts, t, i)) == ts
  {
    assert ts[t][i := ts[t][i]] == ts[t];
  }

  lemma LeafFrame(m: Mm, owner: Owner, pinned: Pins, t: nat, i: nat)
    requires Good(m, owner, pinned) && t in m.ts && i < 512 && t in owner && owner[t].Pt? && Get(m.ts, t, i).present
    ensures Get(m.ts, t, i).frame % 0x1000 == 0 && InPinned(m.heap, pinned, Get(m.ts, t, i).frame)
  {
  }

  lemma ChangeLeaf(m: Mm, owner: Owner, pinned: Pins, v: nat, t: nat, prot: nat)
    requires Good(m, owner, pinned) && v < TWO48 && Reaches(m.ts, v, t) && Get(m.ts, t, I1(v)).present
    ensures var e := Get(m.ts, t, I1(v)).(user := Readable(prot), rw := Writable(prot));
            var ts' := SetCell(m.ts, t, I1(v), e);
            Good(m.(ts := ts'), owner, pinned) && Protects(m.ts, ts', PageDown(v), 0x1000, prot)
  {
    hide Core, Mapped, Reaches, Translate, PageOf, PageDown, SetCell, InPinned, ClearBase;
    CoreShape(m, owner);
    ReachesSlot(m.ts, owner, v, t);
    var old1 := Get(m.ts, t, I1(v));
    var e := old1.(user := Readable(prot), rw := Writable(prot));
    assert old1.frame % 0x1000 == 0 && InPinned(m.heap, pinned, old1.frame) by {
      LeafFrame(m, owner, pinned, t, I1(v));
    }
    LeafGood(m, owner, pinned, t, I1(v), e);
    SetSame(m.ts, t, I1(v));
    forall x: nat, u, w
      ensures Translate(SetCell(m.ts, t, I1(v), e), x, u, w)
           == if !(PageDown(v) <= x % 0x1_0000_0000_0000 < PageDown(v) + 0x1000) then Translate(m.ts, x, u, w)
              else if Allows(prot, u, w) then Translate(m.ts, x, false, false) else None
    {
      OnPage(v, x);
      LeafTranslate(m.ts, owner, v, t, e, x, u, w);
      LeafTranslate(m.ts, owner, v, t, old1, x, false, false);
    }
  }

  lemma PermissionChange(m: Mm, owner: Owner, pinned: Pins, v: nat, prot: nat)
    requires Good(m, owner, pinned) && UserRangeOk(v) && ModifyPermission(m.ts, v, prot).Some?
    requires var e4 := Get(m.ts, CR3, I4(v));
             var e3 := Get(m.ts, e4.frame, I3(v));
             Reaches(m.ts, v, Get(m.ts, e3.frame, I2(v)).frame)
    ensures var ts' := ModifyPermission(m.ts, v, prot).value;
            Good(m.(ts := ts'), owner, pinned) && Protects(m.ts, ts', PageDown(v), 0x1000, prot)
  {
    var e4 := Get(m.ts, CR3, I4(v));
    var e3 := Get(m.ts, e4.frame, I3(v));
    var t := Get(m.ts, e3.frame, I2(v)).frame;
    ChangeLeaf(m, owner, pinned, v, t, prot);
    hide Good, Protects, Get, Reaches, UserRangeOk;
  }

  /** modify_permission on every user address: it fails exactly when the page is not
      mapped; otherwise it changes only that page's permissions, and not where it leads. */
  lemma ModifyPermissionCorrect(m: Mm, owner: Owner, pinned: Pins, v: nat, prot: nat)
    requires Good(m, owner, pinned) && UserRangeOk(v)
    ensures ModifyPermission(m.ts, v, prot).Some? <==> Translate(m.ts, v, false, false).Some?
    ensures ModifyPermission(m.ts, v, prot).Some? ==>
              var ts' := ModifyPermission(m.ts, v, prot).value;
              && Good(m.(ts := ts'), owner, pinned)
              && Protects(m.ts, ts', PageDown(v), 0x1000, prot)
  {
    assert Core(m, owner) by { GoodCore(m, owner, pinned); }
    WalkAbsent(m, owner, v);
    if ModifyPermission(m.ts, v, prot).Some? {
      UserPath(m, owner, v);
      PermissionChange(m, owner, pinned, v, prot);
    }
    hide Good, Core, Protects, Translate, Reaches;
  }

  // ---------------------------------------------------------------- mprotect

  /** mprotect can change the page of x: a user page that is mapped. */
  predicate Protectable(ts: Tables, x: nat) {
    UserRangeOk(x) && Translate(ts, x, false, false).Some?
  }

  ghost predicate AllProtectable(ts: Tables, addr: nat, len: nat) {
    forall x: nat | addr <= x < addr + len && (x - addr) % 0x1000 == 0 :: Protectable(ts, x)
  }

  lemma ProtectsStep(ts0: Tables, ts1: Tables, ts2: Tables, va: nat, i: nat, prot: nat)
    requires Protects(ts0, ts1, va, i, prot) && Protects(ts1, ts2, va + i, 0x1000, prot)
    ensures Protects(ts0, ts2, va, i + 0x1000, prot)
  {
    hide Translate;
  }

  lemma ProtectableStep(ts: Tables, addr: nat, i: nat)
    requires i % 0x1000 == 0 && AllProtectable(ts, addr, i) && Protectable(ts, addr + i)
    ensures AllProtectable(ts, addr, i + 0x1000)
  {
    hide Protectable;
    forall x: nat | addr <= x < addr + i + 0x1000 && (x - addr) % 0x1000 == 0 ensures Protectable(ts, x) {
      if x >= addr + i { assert x == addr + i; }
    }
  }

  /** Changing permissions does not change where a page leads. */
  lemma ProtectsLead(ts: Tables, ts': Tables, va: nat, len: nat, prot: nat, x: nat)
    requires Protects(ts, ts', va, len, prot)
    ensures Translate(ts', x, false, false) == Translate(ts, x, false, false)
  {
    hide Translate;
  }

  /** The loop handles n bytes, page by page, and stops at the end or at the first page it
      cannot change. */
  lemma {:induction false} ProtectPagesCorrect(ts0: Tables, m: Mm, owner: Owner, pinned: Pins,
                                               addr: nat, len: nat, prot: nat, i: nat) returns (n: nat)
    requires Good(m, owner, pinned) && addr % 0x1000 == 0 && i % 0x1000 == 0 && i < len + 0x1000
    requires Protects(ts0, m.ts, addr, i, prot) && AllProtectable(ts0, addr, i)
    ensures var (m', r) := ProtectPages(m, addr, len, prot, i);
            && m' == m.(ts := m'.ts) && Good(m', owner, pinned)
            && n % 0x1000 == 0 && n < len + 0x1000
            && Protects(ts0, m'.ts, addr, n, prot) && AllProtectable(ts0, addr, n)
            && (r == 0 ==> n >= len)
            && (r != 0 ==> r == -EACCES && n < len && !Protectable(ts0, addr + n))
    decreases len + 0x1000 - i
  {
    hide Good, ModifyPermission, UserRangeOk, Translate, Protects, AllProtectable, PageDown;
    n := i;
    if i < len {
      ProtectsLead(ts0, m.ts, addr, i, prot, addr + i);
      PageSame(addr, i);
      QuotientIs(i + 0x1000, 0x1000, i / 0x1000 + 1, 0);
      if UserRangeOk(addr + i) {
        ModifyPermissionCorrect(m, owner, pinned, addr + i, prot);
        if ModifyPermission(m.ts, addr + i, prot).Some? {
          var ts' := ModifyPermission(m.ts, addr + i, prot).value;
          ProtectsStep(ts0, m.ts, ts', addr, i, prot);
          ProtectableStep(ts0, addr, i);
          n := ProtectPagesCorrect(ts0, m.(ts := ts'), owner, pinned, addr, len, prot, i + 0x1000);
        }
      }
    }
  }

  lemma ProtectsNone(ts: Tables, va: nat, prot: nat)
    ensures Protects(ts, ts, va, 0, prot)
  {
    hide Translate;
  }

  lemma PagesOf(len: nat, n: nat)
    requires n % 0x1000 == 0 && len <= n < len + 0x1000
    ensures n == PageUp(len)
  {
  }

  /** mprotect for every address and length: -EINVAL exactly on an unaligned address; 0
      exactly when every page is a mapped user page, and then the permissions of exactly
      those pages become prot; else -EACCES, with the pages before the first bad one changed. */
  lemma MprotectCorrect(m: Mm, owner: Owner, pinned: Pins, addr: nat, len: nat, prot: nat) returns (n: nat)
    requires Good(m, owner, pinned)
    ensures var (m', r) := Mprotect(m, addr, len, prot);
            && m' == m.(ts := m'.ts) && Good(m', owner, pinned)
            && Protects(m.ts, m'.ts, addr, n, prot)
            && (addr % 0x1000 != 0 <==> r == -EINVAL)
            && (addr % 0x1000 == 0 ==> (r == 0 <==> AllProtectable(m.ts, addr, len)))
            && (r == 0 ==> n == PageUp(len))
            && (r == -EINVAL ==> n == 0)
            && (r != 0 && r != -EINVAL ==>
                  r == -EACCES && n < len && n % 0x1000 == 0
                  && AllProtectable(m.ts, addr, n) && !Protectable(m.ts, addr + n))
  {
    hide Good, Protectable, PageUp, Protects;
    ProtectsNone(m.ts, addr, prot);
    n := 0;
    if addr % 0x1000 == 0 {
      n := ProtectPagesCorrect(m.ts, m, owner, pinned, addr, len, prot, 0);
      var r := ProtectPages(m, addr, len, prot, 0).1;
      if r == 0 { PagesOf(len, n); }
    }
  }

  /** Every address of a protectable range is a mapped one below 2^48. */
  lemma ProtectableAt(ts: Tables, addr: nat, len: nat, x: nat)
    requires AllProtectable(ts, addr, len) && addr % 0x1000 == 0 && addr <= x < addr + PageUp(len)
    ensures x < TWO48 && Translate(ts, x, false, false).Some?
  {
    hide Translate, UserRangeOk;
    var q, k, l := addr / 0x1000, x / 0x1000, len / 0x1000;
    var y := 0x1000 * k;
    assert addr == 0x1000 * q && PageDown(x) == y && q <= k;
    assert y < addr + len;
    QuotientIs(y - addr, 0x1000, k - q, 0);
    QuotientIs(y, 0x1000, k, 0);
    assert Protectable(ts, y);
    SamePage(ts, false, false, x, y);
    UserBelow(x);
  }

  /** After a successful mprotect every address of its pages is guarded by the new protection, and
      leads where it led. */
  lemma ProtectedGuarded(m: Mm, owner: Owner, pinned: Pins, addr: nat, len: nat, prot: nat, x: nat)
    requires Good(m, owner, pinned) && prot < 8 && Mprotect(m, addr, len, prot).1 == 0
    requires addr <= x < addr + PageUp(len)
    ensures Guarded(Mprotect(m, addr, len, prot).0.ts, x, prot)
    ensures Translate(Mprotect(m, addr, len, prot).0.ts, x, false, false) == Translate(m.ts, x, false, false)
  {
    hide Good, Mprotect, Translate, Allows, PageUp, AllProtectable;
    var n := MprotectCorrect(m, owner, pinned, addr, len, prot);
    AllowsNumbers(prot);
    ProtectableAt(m.ts, addr, len, x);
    QuotientIs(x, 0x1_0000_0000_0000, 0, x);
  }
}
