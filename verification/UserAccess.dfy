/**
  The checks on user pointers (kernel/mm/uaccess.c) and the string scan they rest on
  (kernel/utils/string.c).
 */
module UserAccess {
  import opened Machine
  import opened Paging
  import opened Memory
  import B = ByteMemory

  // ---------------------------------------------------------------- access_ok

  /** The loop of access_ok over pages v, v+0x1000, .. below end. */
  predicate PagesOk(ts: Tables, write: bool, v: nat, end: nat)
    decreases if v < end then end - v else 0
  {
    v < end ==> Translate(ts, v, true, write).Some? && PagesOk(ts, write, v + 0x1000, end)
  }

  /** The last byte of the range, in 64-bit arithmetic. */
  function LastByte(addr: nat, size: nat): nat {
    (addr + size - 1) % 0x1_0000_0000_0000_0000
  }

  predicate AccessOk(ts: Tables, write: bool, addr: nat, size: nat) {
    && UserRangeOk(addr)
    && UserRangeOk(LastByte(addr, size))
    && PagesOk(ts, write, PageDown(addr), PageUp((addr + size) % 0x1_0000_0000_0000_0000))
  }

  /** access_ok */
  method CheckAccess(ts: Tables, write: bool, addr: nat, size: nat) returns (ok: bool)
    ensures ok == AccessOk(ts, write, addr, size)
  {
    hide Translate, UserRangeOk, LastByte, PageUp, PageDown;
    if !UserRangeOk(addr) { return false; }
    if !UserRangeOk(LastByte(addr, size)) { return false; }
    var v, end := PageDown(addr), PageUp((addr + size) % 0x1_0000_0000_0000_0000);
    while v < end
      invariant PagesOk(ts, write, PageDown(addr), end) == PagesOk(ts, write, v, end)
      decreases if v < end then end - v else 0
    {
      if Translate(ts, v, true, write).None? { return false; }
      v := v + 0x1000;
    }
    return true;
  }

  /** A user program may access byte x. */
  predicate ByteOk(ts: Tables, write: bool, x: nat) {
    UserRangeOk(x) && Translate(ts, x, true, write).Some?
  }

  ghost predicate Accessible(ts: Tables, write: bool, addr: nat, size: nat) {
    forall x: nat | addr <= x < addr + size :: ByteOk(ts, write, x)
  }

  lemma {:induction false} PagesOkAt(ts: Tables, write: bool, v: nat, end: nat)
    requires v % 0x1000 == 0 && end % 0x1000 == 0
    ensures PagesOk(ts, write, v, end) <==>
            forall x: nat | v <= x < end :: Translate(ts, x, true, write).Some?
    decreases if v < end then end - v else 0
  {
    hide Translate;
    if v < end {
      PagesOkAt(ts, write, v + 0x1000, end);
      forall x: nat | v <= x < v + 0x1000
        ensures Translate(ts, x, true, write).Some? <==> Translate(ts, v, true, write).Some?
      {
        assert PageDown(x) == v == PageDown(v);
        SamePage(ts, true, write, x, v);
      }
    }
  }

  lemma Rounded(addr: nat)
    ensures PageDown(addr) % 0x1000 == 0 && PageUp(addr) % 0x1000 == 0
    ensures PageDown(addr) <= addr < PageDown(addr) + 0x1000
    ensures addr <= PageUp(addr) < addr + 0x1000
    ensures addr > 0 ==> PageUp(addr) == PageDown(addr - 1) + 0x1000
  {
    var q, r := addr / 0x1000, addr % 0x1000;
    QuotientIs(PageDown(addr), 0x1000, q, 0);
    if r == 0 {
      if addr > 0 { QuotientIs(addr - 1, 0x1000, q - 1, 0xfff); }
    } else {
      QuotientIs(PageUp(addr), 0x1000, q + 1, 0);
      QuotientIs(addr - 1, 0x1000, q, r - 1);
    }
  }

  /** A byte of a page that a range touches has the standing of a byte of the range. */
  lemma InRoundedRange(addr: nat, size: nat, x: nat) returns (y: nat)
    requires 0 < size && PageDown(addr) <= x < PageUp(addr + size)
    ensures addr <= y < addr + size && PageDown(y) == PageDown(x)
  {
    Rounded(addr);
    Rounded(addr + size);
    y := if x < addr then addr else if x < addr + size then x else addr + size - 1;
  }

  /** Between two user addresses, a byte that translates for users is a user byte. */
  lemma Between(ts: Tables, write: bool, lo: nat, hi: nat, x: nat)
    requires KernelPart(ts) && UserRangeOk(lo) && UserRangeOk(hi) && lo <= x <= hi
    requires Translate(ts, x, true, write).Some?
    ensures UserRangeOk(x)
  {
    KernelWindow(ts, x, write);
    hide Translate;
  }

  /** access_ok means what it says: for every non-empty range below 2^64 it accepts exactly
      when every single byte is a user byte that translates with the permission asked for,
      also when the range reaches over the kernel's 512GB. */
  lemma AccessOkMeaning(ts: Tables, write: bool, addr: nat, size: nat)
    requires KernelPart(ts) && 0 < size && addr + size <= TWO64
    ensures AccessOk(ts, write, addr, size) <==> Accessible(ts, write, addr, size)
  {
    hide Translate, PageDown, PageUp, PagesOk, UserRangeOk, KernelPart;
    Rounded(addr);
    Rounded(addr + size);
    var last := addr + size - 1;
    assert LastByte(addr, size) == last;
    if AccessOk(ts, write, addr, size) {
      assert UserRangeOk(addr + size - 1) && addr + size < TWO64 by { UserBelow(last); }
      PagesOkAt(ts, write, PageDown(addr), PageUp(addr + size));
      forall x: nat | addr <= x < addr + size ensures ByteOk(ts, write, x) {
        Between(ts, write, addr, last, x);
      }
    }
    if Accessible(ts, write, addr, size) {
      assert ByteOk(ts, write, addr) && ByteOk(ts, write, last);
      UserBelow(last);
      forall x: nat | PageDown(addr) <= x < PageUp(addr + size) ensures Translate(ts, x, true, write).Some? {
        var y := InRoundedRange(addr, size, x);
        assert ByteOk(ts, write, y);
        SamePage(ts, true, write, x, y);
      }
      PagesOkAt(ts, write, PageDown(addr), PageUp(addr + size));
    }
  }

  /** access_ok of an empty range looks at the bytes on both sides of it. */
  lemma AccessOkEmpty(ts: Tables, write: bool, addr: nat)
    requires 0 < addr < TWO64
    ensures AccessOk(ts, write, addr, 0) <==>
            && UserRangeOk(addr) && UserRangeOk(addr - 1)
            && (addr % 0x1000 != 0 ==> Translate(ts, addr, true, write).Some?)
  {
    hide Translate, UserRangeOk;
    assert LastByte(addr, 0) == addr - 1;
    assert (addr + 0) % 0x1_0000_0000_0000_0000 == addr;
    if addr % 0x1000 != 0 {
      assert PagesOk(ts, write, PageDown(addr), PageDown(addr) + 0x1000) <==>
             Translate(ts, PageDown(addr), true, write).Some?;
      assert PageDown(PageDown(addr)) == PageDown(addr);
      SamePage(ts, true, write, addr, PageDown(addr));
    }
  }

  lemma TopNotUser()
    ensures !UserRangeOk(TWO64 - 1)
  {
  }

  lemma DownTwice(x: nat)
    ensures PageDown(PageDown(x)) == PageDown(x)
  {
  }

  lemma DownMono(x: nat, y: nat)
    requires x <= y && PageDown(x) != PageDown(y)
    ensures PageDown(x) + 0x1000 <= PageDown(y)
  {
    var i, j := x / 0x1000, y / 0x1000;
    assert PageDown(x) == 0x1000 * i && PageDown(y) == 0x1000 * j;
  }

  /** For a range that runs over the end of the address space, no program owns all bytes, yet
      access_ok can accept it: exactly when both end points are user addresses and, if they
      share a page, that page translates. */
  lemma AccessOkWraps(ts: Tables, write: bool, addr: nat, size: nat)
    requires addr < TWO64 < addr + size && size < TWO64
    ensures !Accessible(ts, write, addr, size)
    ensures AccessOk(ts, write, addr, size) <==>
            && UserRangeOk(addr) && UserRangeOk(addr + size - 1 - TWO64)
            && (PageDown(addr) == PageDown(addr + size - 1 - TWO64) ==> Translate(ts, addr, true, write).Some?)
  {
    hide Translate, PageUp, UserRangeOk, PageDown;
    var end := addr + size - TWO64;
    assert !ByteOk(ts, write, TWO64 - 1) by { TopNotUser(); }
    QuotientIs(addr + size - 1, 0x1_0000_0000_0000_0000, 1, end - 1);
    QuotientIs(addr + size, 0x1_0000_0000_0000_0000, 1, end);
    Rounded(addr);
    Rounded(end);
    if PageDown(addr) == PageDown(end - 1) {
      assert PagesOk(ts, write, PageDown(addr), PageDown(addr) + 0x1000) <==>
             Translate(ts, PageDown(addr), true, write).Some?;
      assert PageDown(PageDown(addr)) == PageDown(addr) by { DownTwice(addr); }
      SamePage(ts, true, write, addr, PageDown(addr));
    } else {
      assert PageUp(end) <= PageDown(addr) by { DownMono(end - 1, addr); }
    }
  }

  // ---------------------------------------------------------------- strings

  /** The byte at address v, as the kernel reads it on a user's behalf. */
  function UserByte(m: Mm, v: nat): byte {
    match Translate(m.ts, v, true, false)
    case Some(p) => if p < |m.ram| then m.ram[p] else 0
    case None => 0
  }

  /** Memory as the user sees it: the 48-bit address space. */
  function UserMem(m: Mm): B.Mem {
    map x: nat | x < TWO48 :: UserByte(m, x)
  }

  lemma UserRd(m: Mm, x: nat)
    requires x < TWO48
    ensures x in UserMem(m) && B.Rd(UserMem(m), x) == UserByte(m, x)
  {
  }

  /** Where a user walk gets through, a kernel walk gets to the same place: after an access
      check the kernel reads what the user sees. */
  lemma KernelReads(ts: Tables, v: nat, w: bool)
    requires Translate(ts, v, true, w).Some?
    ensures Translate(ts, v, false, w) == Translate(ts, v, true, w)
    ensures Translate(ts, v, true, false) == Translate(ts, v, true, w)
  {
    hide Get, I4, I3, I2, I1, ClearBase;
  }

  /** access_string_ok */
  predicate AccessStringOk(m: Mm, addr: nat)
    decreases if addr < TWO48 then TWO48 - addr else 0
  {
    if !AccessOk(m.ts, false, addr, 1) then false
    else
      assert addr < TWO48 by { UserBelow(addr); }
      var remain := 0x1000 - addr % 0x1000;
      if B.Strnlen(UserMem(m), addr, remain) == remain then AccessStringOk(m, addr + remain) else true
  }

  /** The bytes from addr to the first zero byte at end are all readable by the user. */
  ghost predicate StringAt(m: Mm, addr: nat, end: nat) {
    && addr <= end && B.Rd(UserMem(m), end) == 0
    && Accessible(m.ts, false, addr, end - addr + 1)
    && forall k: nat | addr <= k < end :: B.Rd(UserMem(m), k) != 0
  }

  lemma RestOfPage(addr: nat, x: nat)
    requires addr <= x < addr + (0x1000 - addr % 0x1000)
    ensures PageDown(x) == PageDown(addr)
  {
  }

  lemma NotUser(addr: nat)
    requires addr >= TWO64
    ensures !UserRangeOk(addr)
  {
  }

  /** One readable byte makes its whole page readable. */
  lemma PageReadable(m: Mm, addr: nat)
    requires KernelPart(m.ts)
    ensures AccessOk(m.ts, false, addr, 1) ==> Accessible(m.ts, false, addr, 0x1000 - addr % 0x1000)
    ensures addr < TWO64 ==> (AccessOk(m.ts, false, addr, 1) <==> ByteOk(m.ts, false, addr))
  {
    hide KernelPart, Translate, PageDown, PageUp, UserRangeOk, LastByte, PagesOk;
    if addr < TWO64 {
      AccessOkMeaning(m.ts, false, addr, 1);
      if ByteOk(m.ts, false, addr) {
        forall x: nat | addr <= x < addr + (0x1000 - addr % 0x1000) ensures ByteOk(m.ts, false, x) {
          RestOfPage(addr, x);
          SamePage(m.ts, true, false, x, addr);
        }
      }
    } else {
      assert !UserRangeOk(addr) by { NotUser(addr); }
    }
  }

  lemma OkBelow(m: Mm, addr: nat)
    requires AccessOk(m.ts, false, addr, 1)
    ensures addr < TWO48
  {
  }

  lemma FirstByte(m: Mm, addr: nat, end: nat)
    requires StringAt(m, addr, end)
    ensures ByteOk(m.ts, false, addr) && addr < TWO64
  {
  }

  /** A string whose bytes are non-zero and readable up to next is a string from next on. */
  lemma StringContinues(m: Mm, addr: nat, next: nat)
    requires addr < next && Accessible(m.ts, false, addr, next - addr)
    requires forall k: nat | addr <= k < next :: B.Rd(UserMem(m), k) != 0
    ensures (exists end: nat :: StringAt(m, addr, end)) <==> exists end: nat :: StringAt(m, next, end)
  {
    hide UserMem, ByteOk;
    if end: nat :| StringAt(m, addr, end) {
      assert StringAt(m, next, end);
    }
    if end: nat :| StringAt(m, next, end) {
      assert StringAt(m, addr, end);
    }
  }

  /** access_string_ok terminates, by the distance to 2^48, and accepts exactly the addresses
      where a string starts: a zero byte follows, and every byte up to it is readable. */
  lemma {:induction false} AccessStringMeaning(m: Mm, addr: nat)
    requires KernelPart(m.ts)
    ensures AccessStringOk(m, addr) <==> exists end: nat :: StringAt(m, addr, end)
    decreases if addr < TWO48 then TWO48 - addr else 0
  {
    hide KernelPart, Translate, UserMem, AccessOk, B.Strnlen, UserRangeOk;
    PageReadable(m, addr);
    if !AccessOk(m.ts, false, addr, 1) {
      forall end: nat ensures !StringAt(m, addr, end) {
        if StringAt(m, addr, end) { FirstByte(m, addr, end); assert false; }
      }
    } else {
      assert addr < TWO48 by { OkBelow(m, addr); }
      var remain := 0x1000 - addr % 0x1000;
      var l := B.Strnlen(UserMem(m), addr, remain);
      B.StrnlenMeaning(UserMem(m), addr, remain);
      if l < remain {
        assert StringAt(m, addr, addr + l);
      } else {
        AccessStringMeaning(m, addr + remain);
        StringContinues(m, addr, addr + remain);
      }
    }
  }
}
