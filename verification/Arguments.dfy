/**
  How a program's arguments travel: copy_argv puts them on the kernel's first stack
  (hypervisor/hypervisor.c), switch_user moves them to a page of the user
  (kernel/kernel_main.c), create_elf_info lays them out on the user's stack
  (kernel/syscalls/sys_execve.c).
 */
module Arguments {
  import opened Machine
  import opened ByteMemory

  // ---------------------------------------------------------------- pushing

  datatype Pushed = Pushed(mem: Mem, sp: nat, ptrs: seq<nat>)

  /** Pushes strings from last to first, each with its terminating zero. */
  function PushStrings(mem: Mem, sp: nat, ss: seq<seq<byte>>): Pushed
    requires Size(ss) <= sp
    decreases |ss|
  {
    if ss == [] then Pushed(mem, sp, [])
    else
      var n := |ss| - 1;
      var a := sp - |ss[n]| - 1;
      var r := PushStrings(Store(mem, a, ss[n] + [0]), a, ss[..n]);
      r.(ptrs := r.ptrs + [a])
  }

  /** Pushes 64-bit words from last to first. */
  function PushWords(mem: Mem, sp: nat, ws: seq<nat>): Mem
    requires 8 * |ws| <= sp
    decreases |ws|
  {
    if ws == [] then mem
    else
      var n := |ws| - 1;
      PushWords(Store(mem, sp - 8, Word(ws[n])), sp - 8, ws[..n])
  }

  predicate Strings(ss: seq<seq<byte>>) {
    forall i | 0 <= i < |ss| :: Plain(ss[i]) && |ss[i]| < 0x7fff_ffff_ffff_ffff
  }

  /** mem' differs from mem only in lo..hi. */
  ghost predicate WritesOnly(mem: Mem, mem': Mem, lo: nat, hi: nat) {
    && (forall x: nat :: !(lo <= x < hi) ==> Rd(mem', x) == Rd(mem, x))
    && (forall x: nat :: x in mem ==> x in mem')
    && (forall x: nat :: x in mem' ==> x in mem || lo <= x < hi)
  }

  /** Strings lie one after the other between lo and hi, at ptrs. */
  ghost predicate StringsAt(mem: Mem, ptrs: seq<nat>, ss: seq<seq<byte>>, lo: nat, hi: nat) {
    && |ptrs| == |ss|
    && (forall i | 0 <= i < |ss| :: HasString(mem, ptrs[i], ss[i]) && lo <= ptrs[i] && ptrs[i] + |ss[i]| + 1 <= hi)
    && (forall i, j | 0 <= i < j < |ss| :: ptrs[i] + |ss[i]| + 1 <= ptrs[j])
  }

  lemma WritesTwice(a: Mem, b: Mem, c: Mem, lo: nat, hi': nat, lo': nat, hi: nat)
    requires lo <= lo' && hi' <= hi && WritesOnly(a, b, lo', hi) && WritesOnly(b, c, lo, hi')
    ensures WritesOnly(a, c, lo, hi)
  {
  }

  lemma WritesNone(mem: Mem, lo: nat, hi: nat)
    ensures WritesOnly(mem, mem, lo, hi)
  {
  }

  lemma StoredString(mem: Mem, a: nat, s: seq<byte>)
    requires Plain(s) && |s| < 0x7fff_ffff_ffff_ffff
    ensures HasString(Store(mem, a, s + [0]), a, s)
    ensures WritesOnly(mem, Store(mem, a, s + [0]), a, a + |s| + 1)
  {
    hide Store;
    StoreEffect(mem, a, s + [0]);
  }

  lemma StringKept(mem: Mem, mem': Mem, lo: nat, hi: nat, a: nat, s: seq<byte>)
    requires HasString(mem, a, s) && WritesOnly(mem, mem', lo, hi)
    requires a + |s| + 1 <= lo || hi <= a
    ensures HasString(mem', a, s)
  {
  }

  lemma StringsKept(mem: Mem, mem': Mem, ptrs: seq<nat>, ss: seq<seq<byte>>, lo: nat, hi: nat, wlo: nat, whi: nat)
    requires StringsAt(mem, ptrs, ss, lo, hi) && WritesOnly(mem, mem', wlo, whi) && (hi <= wlo || whi <= lo)
    ensures StringsAt(mem', ptrs, ss, lo, hi)
  {
    hide HasString, WritesOnly;
    forall i | 0 <= i < |ss| ensures HasString(mem', ptrs[i], ss[i]) {
      StringKept(mem, mem', wlo, whi, ptrs[i], ss[i]);
    }
  }

  /** Pushed strings stand in their order, without overlap, exactly below sp. */
  lemma StringsParts(ss: seq<seq<byte>>, n: nat)
    requires Strings(ss) && n < |ss|
    ensures Strings(ss[..n]) && Plain(ss[n]) && |ss[n]| < 0x7fff_ffff_ffff_ffff
  {
  }

  lemma NoStrings(mem: Mem, a: nat)
    ensures StringsAt(mem, [], [], a, a)
  {
  }

  lemma StringsAppend(mem: Mem, ptrs: seq<nat>, ss: seq<seq<byte>>, lo: nat, a: nat, s: seq<byte>, hi: nat)
    requires StringsAt(mem, ptrs, ss, lo, a) && HasString(mem, a, s) && lo <= a && a + |s| + 1 == hi
    ensures |ptrs| == |ss| && StringsAt(mem, ptrs + [a], ss + [s], lo, hi)
  {
    hide HasString;
  }

  lemma {:induction false} PushStringsLayout(mem: Mem, sp: nat, ss: seq<seq<byte>>)
    requires Size(ss) <= sp && Strings(ss)
    ensures var r := PushStrings(mem, sp, ss);
            && r.sp == sp - Size(ss)
            && WritesOnly(mem, r.mem, r.sp, sp)
            && StringsAt(r.mem, r.ptrs, ss, r.sp, sp)
            && (ss != [] ==> r.ptrs[|ss| - 1] + |ss[|ss| - 1]| + 1 == sp)
    decreases |ss|
  {
    hide HasString, Store, WritesOnly, StringsAt, Strings;
    if ss != [] {
      var n := |ss| - 1;
      var s := ss[n];
      var a := sp - |s| - 1;
      var m1 := Store(mem, a, s + [0]);
      StringsParts(ss, n);
      StoredString(mem, a, s);
      PushStringsLayout(m1, a, ss[..n]);
      var r := PushStrings(m1, a, ss[..n]);
      WritesTwice(mem, m1, r.mem, r.sp, a, a, sp);
      StringKept(m1, r.mem, r.sp, a, a, s);
      StringsAppend(r.mem, r.ptrs, ss[..n], r.sp, a, s, sp);
      assert ss[..n] + [s] == ss;
    } else {
      WritesNone(mem, sp, sp);
      NoStrings(mem, sp);
    }
  }

  lemma StoredWord(mem: Mem, a: nat, w: nat)
    requires w < TWO64
    ensures Rd64(Store(mem, a, Word(w)), a) == w
    ensures WritesOnly(mem, Store(mem, a, Word(w)), a, a + 8)
  {
    hide Store, Word;
    StoreEffect(mem, a, Word(w));
    WordRead(Store(mem, a, Word(w)), a, w);
  }

  lemma WordKept(mem: Mem, mem': Mem, lo: nat, hi: nat, a: nat)
    requires WritesOnly(mem, mem', lo, hi) && (a + 8 <= lo || hi <= a)
    ensures Rd64(mem', a) == Rd64(mem, a)
  {
    WordSame(mem, mem', a, a);
  }

  ghost predicate WordsAt(mem: Mem, a: nat, ws: seq<nat>) {
    forall i | 0 <= i < |ws| :: Rd64(mem, a + 8 * i) == ws[i]
  }

  lemma {:induction false} PushWordsLayout(mem: Mem, sp: nat, ws: seq<nat>)
    requires 8 * |ws| <= sp && forall i | 0 <= i < |ws| :: ws[i] < TWO64
    ensures var mem' := PushWords(mem, sp, ws);
            WritesOnly(mem, mem', sp - 8 * |ws|, sp) && WordsAt(mem', sp - 8 * |ws|, ws)
    decreases |ws|
  {
    hide Rd64, Store, WritesOnly, Word;
    if ws != [] {
      var n := |ws| - 1;
      var m1 := Store(mem, sp - 8, Word(ws[n]));
      StoredWord(mem, sp - 8, ws[n]);
      PushWordsLayout(m1, sp - 8, ws[..n]);
      var m2 := PushWords(m1, sp - 8, ws[..n]);
      WritesTwice(mem, m1, m2, sp - 8 * |ws|, sp - 8, sp - 8, sp);
      WordKept(m1, m2, sp - 8 * |ws|, sp - 8, sp - 8);
    } else {
      WritesNone(mem, sp, sp);
    }
  }

  /** Pushing a word after others puts it below them. */
  lemma {:induction false} PushWordsMore(mem: Mem, sp: nat, w: nat, ws: seq<nat>)
    requires 8 * (|ws| + 1) <= sp
    ensures PushWords(mem, sp, [w] + ws) == Store(PushWords(mem, sp, ws), sp - 8 * (|ws| + 1), Word(w))
    decreases |ws|
  {
    hide Store, Word;
    if ws == [] {
      assert [w] + ws == [w] && [w][..0] == [];
    } else {
      var n := |ws| - 1;
      assert ([w] + ws)[..n + 1] == [w] + ws[..n] && ([w] + ws)[n + 1] == ws[n];
      PushWordsMore(Store(mem, sp - 8, Word(ws[n])), sp - 8, w, ws[..n]);
    }
  }

  // ---------------------------------------------------------------- argument vectors

  /** At argv stand pointers to the strings ss, then a null pointer; the strings lie between
      lo and hi. */
  ghost predicate ArgvAt(mem: Mem, argv: nat, ss: seq<seq<byte>>, lo: nat, hi: nat) {
    && Rd64(mem, argv + 8 * |ss|) == 0
    && exists ptrs: seq<nat> :: WordsAt(mem, argv, ptrs) && StringsAt(mem, ptrs, ss, lo, hi)
  }

  /** The memories hold the same bytes in lo..hi. */
  ghost predicate Agree(mem: Mem, mem': Mem, lo: nat, hi: nat) {
    forall x: nat | lo <= x < hi :: Rd(mem', x) == Rd(mem, x)
  }

  lemma WordAgrees(mem: Mem, mem': Mem, lo: nat, hi: nat, a: nat)
    requires Agree(mem, mem', lo, hi) && lo <= a && a + 8 <= hi
    ensures Rd64(mem', a) == Rd64(mem, a)
  {
    WordSame(mem', mem, a, a);
  }

  lemma WordAt(mem: Mem, a: nat, ws: seq<nat>, i: nat)
    requires WordsAt(mem, a, ws) && i < |ws|
    ensures Rd64(mem, a + 8 * i) == ws[i]
  {
  }

  lemma WordsAgree(mem: Mem, mem': Mem, lo: nat, hi: nat, a: nat, ws: seq<nat>)
    requires Agree(mem, mem', lo, hi) && lo <= a && a + 8 * |ws| <= hi && WordsAt(mem, a, ws)
    ensures WordsAt(mem', a, ws)
  {
    hide Rd64, Agree;
    forall i | 0 <= i < |ws| ensures Rd64(mem', a + 8 * i) == ws[i] {
      WordAt(mem, a, ws, i);
      WordAgrees(mem, mem', lo, hi, a + 8 * i);
    }
  }

  lemma StringAgrees(mem: Mem, mem': Mem, lo: nat, hi: nat, a: nat, s: seq<byte>)
    requires Agree(mem, mem', lo, hi) && lo <= a && a + |s| + 1 <= hi && HasString(mem, a, s)
    ensures HasString(mem', a, s)
  {
  }

  /** An argument vector and its strings are the same in memories that agree on them. */
  lemma ArgvAgrees(mem: Mem, mem': Mem, lo: nat, hi: nat, argv: nat, ss: seq<seq<byte>>, slo: nat, shi: nat)
    requires Agree(mem, mem', lo, hi) && ArgvAt(mem, argv, ss, slo, shi)
    requires lo <= argv && argv + 8 * (|ss| + 1) <= hi && lo <= slo && shi <= hi
    ensures ArgvAt(mem', argv, ss, slo, shi)
  {
    hide Rd64, HasString, Agree, WordsAt;
    WordAgrees(mem, mem', lo, hi, argv + 8 * |ss|);
    var ptrs: seq<nat> :| WordsAt(mem, argv, ptrs) && StringsAt(mem, ptrs, ss, slo, shi);
    WordsAgree(mem, mem', lo, hi, argv, ptrs);
    forall i | 0 <= i < |ss| ensures HasString(mem', ptrs[i], ss[i]) {
      StringAgrees(mem, mem', lo, hi, ptrs[i], ss[i]);
    }
    assert StringsAt(mem', ptrs, ss, slo, shi);
  }

  // ---------------------------------------------------------------- copy_argv

  lemma {:induction false} PushSp(mem: Mem, sp: nat, ss: seq<seq<byte>>)
    requires Size(ss) <= sp
    ensures PushStrings(mem, sp, ss).sp == sp - Size(ss) && |PushStrings(mem, sp, ss).ptrs| == |ss|
    decreases |ss|
  {
    hide Store;
    if ss != [] {
      var n := |ss| - 1;
      PushSp(Store(mem, sp - |ss[n]| - 1, ss[n] + [0]), sp - |ss[n]| - 1, ss[..n]);
    }
  }

  /** Memory and rsp after copy_argv on a stack that starts at top. */
  function CopyArgv(mem: Mem, top: nat, args: seq<seq<byte>>): (Mem, nat)
    requires Size(args) + 16 + 8 * (|args| + 2) <= top
  {
    var r := PushStrings(mem, top, args);
    PushSp(mem, top, args);
    var sp := r.sp - r.sp % 16;
    (PushWords(r.mem, sp, [|args|] + r.ptrs + [0]), sp - 8 * (|args| + 2))
  }

  lemma PointersBelow(mem: Mem, ptrs: seq<nat>, ss: seq<seq<byte>>, lo: nat, hi: nat)
    requires StringsAt(mem, ptrs, ss, lo, hi)
    ensures |ptrs| == |ss| && forall i | 0 <= i < |ptrs| :: lo <= ptrs[i] < hi
  {
  }

  lemma StringsWider(mem: Mem, ptrs: seq<nat>, ss: seq<seq<byte>>, lo: nat, hi: nat, lo': nat)
    requires StringsAt(mem, ptrs, ss, lo, hi) && lo' <= lo
    ensures StringsAt(mem, ptrs, ss, lo', hi)
  {
  }

  lemma WordsTail(mem: Mem, a: nat, ws: seq<nat>, ps: seq<nat>)
    requires WordsAt(mem, a, ws) && |ws| == |ps| + 2 && forall i | 0 <= i < |ps| :: ws[i + 1] == ps[i]
    ensures WordsAt(mem, a + 8, ps)
  {
    hide Rd64;
    forall i | 0 <= i < |ps| ensures Rd64(mem, a + 8 + 8 * i) == ps[i] {
      assert Rd64(mem, a + 8 * (i + 1)) == ws[i + 1];
      assert a + 8 + 8 * i == a + 8 * (i + 1);
    }
  }

  /** Pushing count, pointers and null below pushed strings makes an argument vector. */
  lemma VectorPushed(mem: Mem, r: Pushed, sp: nat, top: nat, args: seq<seq<byte>>)
    requires WritesOnly(mem, r.mem, r.sp, top) && StringsAt(r.mem, r.ptrs, args, r.sp, top)
    requires 8 * (|args| + 2) <= sp <= r.sp <= top < TWO64 && |args| < TWO32
    ensures |r.ptrs| == |args|
    ensures var mem', rsp := PushWords(r.mem, sp, [|args|] + r.ptrs + [0]), sp - 8 * (|args| + 2);
            && Rd64(mem', rsp) == |args|
            && ArgvAt(mem', rsp + 8, args, rsp + 8 * (|args| + 2), top)
            && WritesOnly(mem, mem', rsp, top)
            && (args != [] ==> Rd64(mem', rsp + 8 * |args|) == r.ptrs[|args| - 1])
  {
    hide HasString, Rd64, WritesOnly, PushWords, WordsAt, StringsAt;
    PointersBelow(r.mem, r.ptrs, args, r.sp, top);
    var ws := [|args|] + r.ptrs + [0];
    PushWordsLayout(r.mem, sp, ws);
    var mem', rsp := PushWords(r.mem, sp, ws), sp - 8 * (|args| + 2);
    StringsKept(r.mem, mem', r.ptrs, args, r.sp, top, rsp, sp);
    WordsTail(mem', rsp, ws, r.ptrs);
    StringsWider(mem', r.ptrs, args, r.sp, top, rsp + 8 * (|args| + 2));
    WordAt(mem', rsp, ws, 0);
    WordAt(mem', rsp, ws, |args| + 1);
    WritesTwice(mem, r.mem, mem', rsp, sp, r.sp, top);
    if args != [] { WordAt(mem', rsp, ws, |args|); }
  }

  /** After copy_argv, argc is at rsp and the argument vector at rsp + 8; it and its strings
      fill the stack up to top, where the last string ends; the vector ends on the last multiple
      of 16 at or below the first string. */
  lemma CopyArgvCorrect(mem: Mem, top: nat, args: seq<seq<byte>>)
    requires Size(args) + 16 + 8 * (|args| + 2) <= top < TWO64 && Strings(args) && |args| < TWO32
    ensures var (mem', rsp) := CopyArgv(mem, top, args);
            && rsp + 8 * (|args| + 2) <= top
            && Rd64(mem', rsp) == |args|
            && ArgvAt(mem', rsp + 8, args, rsp + 8 * (|args| + 2), top)
            && WritesOnly(mem, mem', rsp, top)
            && (args != [] ==> Rd64(mem', rsp + 8 * |args|) + |args[|args| - 1]| + 1 == top)
            && (rsp + 8 * (|args| + 2)) % 16 == 0
            && top - Size(args) - 16 < rsp + 8 * (|args| + 2) <= top - Size(args)
  {
    hide HasString, Rd64, WritesOnly, PushStrings, PushWords, StringsAt, Size, ArgvAt;
    PushStringsLayout(mem, top, args);
    var r := PushStrings(mem, top, args);
    VectorPushed(mem, r, r.sp - r.sp % 16, top, args);
    QuotientIs(r.sp - r.sp % 16, 16, r.sp / 16, 0);
  }

  // ---------------------------------------------------------------- switch_user

  /** Bytes from argv to the end of the last string. */
  function TotalLen(mem: Mem, argc: nat, argv: nat): int
    requires 0 < argc
  {
    var last := Rd64(mem, argv + 8 * (argc - 1));
    last + Strlen(mem, last) + 1 - argv
  }

  /** The loop that makes the pointers relative to sp, from index i on. */
  function Relocate(mem: Mem, argc: nat, argv: nat, sp: nat, i: nat): Mem
    decreases if i < argc then argc - i else 0
  {
    if i >= argc then mem
    else
      var p := (Rd64(mem, argv + 8 * i) - argv + sp) % 0x1_0000_0000_0000_0000;
      Relocate(Store(mem, argv + 8 * i, Word(p)), argc, argv, sp, i + 1)
  }

  /** Memory after switch_user has moved the arguments to the page at sp. */
  function SwitchUser(mem: Mem, argc: nat, argv: nat, sp: nat): Mem
    requires 0 < argc && TotalLen(mem, argc, argv) >= 0
  {
    var moved := Relocate(mem, argc, argv, sp, 0);
    Store(moved, sp, Load(moved, argv, TotalLen(mem, argc, argv)))
  }

  lemma WordStored(mem: Mem, a: nat, n: nat, i: nat, w: nat, j: nat)
    requires i < n && j < n && w < TWO64
    ensures var mem' := Store(mem, a + 8 * i, Word(w));
            && Rd64(mem', a + 8 * j) == (if j == i then w else Rd64(mem, a + 8 * j))
            && WritesOnly(mem, mem', a, a + 8 * n)
  {
    hide Rd64, Store;
    StoredWord(mem, a + 8 * i, w);
    if j != i { WordKept(mem, Store(mem, a + 8 * i, Word(w)), a + 8 * i, a + 8 * i + 8, a + 8 * j); }
  }

  lemma RelocateStep(mem: Mem, argc: nat, argv: nat, sp: nat, i: nat, p: nat)
    requires i < argc && p == Rd64(mem, argv + 8 * i) - argv + sp && p < TWO64
    ensures Relocate(mem, argc, argv, sp, i) == Relocate(Store(mem, argv + 8 * i, Word(p)), argc, argv, sp, i + 1)
  {
    hide Rd64, Store, Word;
    assert p % 0x1_0000_0000_0000_0000 == p;
  }

  lemma RelocateEnd(mem: Mem, argc: nat, argv: nat, sp: nat)
    ensures Relocate(mem, argc, argv, sp, argc) == mem
  {
  }

  /** Whatever the words are, relocation moves each from index i on by sp - argv, in 64-bit
      arithmetic, and no other. */
  lemma {:induction false} RelocateWraps(mem: Mem, argc: nat, argv: nat, sp: nat, i: nat, j: nat)
    requires i <= argc && j < argc
    ensures Rd64(Relocate(mem, argc, argv, sp, i), argv + 8 * j)
         == if j < i then Rd64(mem, argv + 8 * j)
            else (Rd64(mem, argv + 8 * j) - argv + sp) % 0x1_0000_0000_0000_0000
    decreases argc - i
  {
    hide Rd64, Store, Word;
    if i < argc {
      var p := (Rd64(mem, argv + 8 * i) - argv + sp) % 0x1_0000_0000_0000_0000;
      WordStored(mem, argv, argc, i, p, j);
      RelocateWraps(Store(mem, argv + 8 * i, Word(p)), argc, argv, sp, i + 1, j);
    }
  }

  /** The pointers with the first i of them moved from argv to sp. */
  ghost function Shifted(ptrs: seq<nat>, argv: nat, sp: nat, i: nat): (r: seq<nat>)
    requires i <= |ptrs| && forall j | 0 <= j < |ptrs| :: argv <= ptrs[j]
    ensures |r| == |ptrs|
    ensures forall j | 0 <= j < |ptrs| :: r[j] == if j < i then ptrs[j] - argv + sp else ptrs[j]
  {
    if i == 0 then ptrs else var r := Shifted(ptrs, argv, sp, i - 1); r[i - 1 := ptrs[i - 1] - argv + sp]
  }

  /** Relocation adds the distance of the move to every pointer from index i on. */
  lemma {:induction false} RelocateWords(mem: Mem, ptrs: seq<nat>, argv: nat, sp: nat, i: nat)
    requires forall j | 0 <= j < |ptrs| :: argv <= ptrs[j] && ptrs[j] - argv + sp < TWO64
    requires i <= |ptrs| && WordsAt(mem, argv, Shifted(ptrs, argv, sp, i))
    ensures var mem' := Relocate(mem, |ptrs|, argv, sp, i);
            WritesOnly(mem, mem', argv, argv + 8 * |ptrs|) && WordsAt(mem', argv, Shifted(ptrs, argv, sp, |ptrs|))
    decreases |ptrs| - i
  {
    hide Rd64, Store, WritesOnly, Word, Relocate;
    if i < |ptrs| {
      var p := ptrs[i] - argv + sp;
      WordAt(mem, argv, Shifted(ptrs, argv, sp, i), i);
      RelocateStep(mem, |ptrs|, argv, sp, i, p);
      var m1 := Store(mem, argv + 8 * i, Word(p));
      forall j | 0 <= j < |ptrs| ensures Rd64(m1, argv + 8 * j) == Shifted(ptrs, argv, sp, i + 1)[j] {
        WordStored(mem, argv, |ptrs|, i, p, j);
        WordAt(mem, argv, Shifted(ptrs, argv, sp, i), j);
      }
      WordStored(mem, argv, |ptrs|, i, p, i);
      RelocateWords(m1, ptrs, argv, sp, i + 1);
      WritesTwice(mem, m1, Relocate(m1, |ptrs|, argv, sp, i + 1), argv, argv + 8 * |ptrs|, argv, argv + 8 * |ptrs|);
    } else {
      RelocateEnd(mem, |ptrs|, argv, sp);
      WritesNone(mem, argv, argv + 8 * |ptrs|);
    }
  }

  lemma CopyEffect(mem: Mem, src: nat, dst: nat, n: nat)
    ensures var mem' := Store(mem, dst, Load(mem, src, n));
            && WritesOnly(mem, mem', dst, dst + n)
            && forall x: nat | dst <= x < dst + n :: Rd(mem', x) == Rd(mem, x - dst + src)
  {
    hide Store;
    StoreEffect(mem, dst, Load(mem, src, n));
  }

  lemma MovedWord(mem: Mem, mem': Mem, src: nat, dst: nat, n: nat, a: nat)
    requires forall x: nat | dst <= x < dst + n :: Rd(mem', x) == Rd(mem, x - dst + src)
    requires src <= a && a + 8 <= src + n
    ensures Rd64(mem', a - src + dst) == Rd64(mem, a)
  {
    WordSame(mem', mem, a - src + dst, a);
  }

  lemma MovedString(mem: Mem, mem': Mem, src: nat, dst: nat, n: nat, a: nat, s: seq<byte>)
    requires forall x: nat | dst <= x < dst + n :: Rd(mem', x) == Rd(mem, x - dst + src)
    requires src <= a && a + |s| + 1 <= src + n && HasString(mem, a, s)
    ensures HasString(mem', a - src + dst, s)
  {
  }

  lemma TwoWrites(a: Mem, b: Mem, c: Mem, argv: nat, mid: nat, end: nat, sp: nat, len: nat)
    requires WritesOnly(a, b, argv, mid) && mid <= end && WritesOnly(b, c, sp, sp + len)
    ensures forall x: nat | !(argv <= x < end) && !(sp <= x < sp + len) :: Rd(c, x) == Rd(a, x)
  {
  }

  lemma MovedStrings(mem: Mem, mem': Mem, src: nat, dst: nat, n: nat, ptrs: seq<nat>, qs: seq<nat>,
                     ss: seq<seq<byte>>, lo: nat)
    requires forall x: nat | dst <= x < dst + n :: Rd(mem', x) == Rd(mem, x - dst + src)
    requires src <= lo && StringsAt(mem, ptrs, ss, lo, src + n)
    requires |qs| == |ptrs| && forall j | 0 <= j < |ptrs| :: qs[j] == ptrs[j] - src + dst
    ensures StringsAt(mem', qs, ss, lo - src + dst, dst + n)
  {
    hide HasString;
    forall i | 0 <= i < |ss| ensures HasString(mem', qs[i], ss[i]) {
      MovedString(mem, mem', src, dst, n, ptrs[i], ss[i]);
    }
  }

  lemma MovedWords(mem: Mem, mem': Mem, src: nat, dst: nat, n: nat, ws: seq<nat>)
    requires forall x: nat | dst <= x < dst + n :: Rd(mem', x) == Rd(mem, x - dst + src)
    requires WordsAt(mem, src, ws) && 8 * |ws| <= n
    ensures WordsAt(mem', dst, ws)
  {
    hide Rd64;
    forall i | 0 <= i < |ws| ensures Rd64(mem', dst + 8 * i) == ws[i] {
      MovedWord(mem, mem', src, dst, n, src + 8 * i);
      assert src + 8 * i - src + dst == dst + 8 * i;
    }
  }

  lemma MoveBlock(mem: Mem, argv: nat, end: nat, args: seq<seq<byte>>, ptrs: seq<nat>, sp: nat)
    requires argv + 8 * (|args| + 1) <= end && sp + (end - argv) < TWO64
    requires WordsAt(mem, argv, ptrs) && StringsAt(mem, ptrs, args, argv + 8 * (|args| + 1), end)
    requires Rd64(mem, argv + 8 * |args|) == 0
    ensures var m1 := Relocate(mem, |args|, argv, sp, 0);
            var mem' := Store(m1, sp, Load(m1, argv, end - argv));
            && ArgvAt(mem', sp, args, sp + 8 * (|args| + 1), sp + (end - argv))
            && (forall x: nat | !(argv <= x < end) && !(sp <= x < sp + (end - argv)) :: Rd(mem', x) == Rd(mem, x))
  {
    hide Rd64, Store, Word, HasString, Load, Relocate, WordsAt, WritesOnly, StringsAt;
    var n, len := |args|, end - argv;
    PointersBelow(mem, ptrs, args, argv + 8 * (n + 1), end);
    RelocateWords(mem, ptrs, argv, sp, 0);
    var m1 := Relocate(mem, n, argv, sp, 0);
    var qs := Shifted(ptrs, argv, sp, n);
    CopyEffect(m1, argv, sp, len);
    var m2 := Store(m1, sp, Load(m1, argv, len));
    WordKept(mem, m1, argv, argv + 8 * n, argv + 8 * n);
    MovedWord(m1, m2, argv, sp, len, argv + 8 * n);
    MovedWords(m1, m2, argv, sp, len, qs);
    StringsKept(mem, m1, ptrs, args, argv + 8 * (n + 1), end, argv, argv + 8 * n);
    MovedStrings(m1, m2, argv, sp, len, ptrs, qs, args, argv + 8 * (n + 1));
    TwoWrites(mem, m1, m2, argv, argv + 8 * n, end, sp, len);
  }

  /** switch_user moves a whole argument block: the vector at argv with its strings up to end
      appears at sp, with the same strings in the same order, and a null pointer after the
      last; everything is inside sp..sp+(end-argv). */
  lemma SwitchUserCorrect(mem: Mem, argv: nat, end: nat, args: seq<seq<byte>>, sp: nat)
    requires args != [] && argv + 8 * (|args| + 1) <= end && sp + (end - argv) < TWO64
    requires ArgvAt(mem, argv, args, argv + 8 * (|args| + 1), end)
    requires Rd64(mem, argv + 8 * (|args| - 1)) + |args[|args| - 1]| + 1 == end
    ensures TotalLen(mem, |args|, argv) == end - argv
    ensures var mem' := SwitchUser(mem, |args|, argv, sp);
            && ArgvAt(mem', sp, args, sp + 8 * (|args| + 1), sp + (end - argv))
            && (forall x: nat | !(argv <= x < end) && !(sp <= x < sp + (end - argv)) :: Rd(mem', x) == Rd(mem, x))
  {
    hide Rd64, Store, WritesOnly, Word, HasString, Load, Relocate, Strlen;
    var n, len := |args|, end - argv;
    var ptrs: seq<nat> :| WordsAt(mem, argv, ptrs) && StringsAt(mem, ptrs, args, argv + 8 * (n + 1), end);
    WordAt(mem, argv, ptrs, n - 1);
    StrlenString(mem, ptrs[n - 1], args[n - 1]);
    MoveBlock(mem, argv, end, args, ptrs, sp);
  }

  // ---------------------------------------------------------------- the loops

  /** The string loop of copy_argv, from the last argument to the first. */
  method PushEach(mem: Mem, sp: nat, ss: seq<seq<byte>>) returns (r: Pushed)
    requires Size(ss) <= sp
    ensures r == PushStrings(mem, sp, ss)
  {
    hide Store;
    var m, p: nat, copy: seq<nat>, i: nat := mem, sp, [], |ss|;
    assert ss[..i] == ss;
    while i > 0
      invariant 0 <= i <= |ss| && Size(ss[..i]) <= p
      invariant var rest := PushStrings(m, p, ss[..i]);
                PushStrings(mem, sp, ss) == rest.(ptrs := rest.ptrs + copy)
    {
      i := i - 1;
      assert ss[..i + 1][..i] == ss[..i];
      p := p - |ss[i]| - 1;
      m := Store(m, p, ss[i] + [0]);
      copy := [p] + copy;
    }
    r := Pushed(m, p, copy);
  }

  /** Pushing words one by one, from the last to the first. */
  method PushEachWord(mem: Mem, sp: nat, ws: seq<nat>) returns (r: Mem)
    requires 8 * |ws| <= sp
    ensures r == PushWords(mem, sp, ws)
  {
    hide Store, Word;
    var p: nat, i: nat := sp, |ws|;
    assert ws[..i] == ws;
    r := mem;
    while i > 0
      invariant 0 <= i <= |ws| && 8 * i <= p
      invariant PushWords(mem, sp, ws) == PushWords(r, p, ws[..i])
    {
      i := i - 1;
      assert ws[..i + 1][..i] == ws[..i];
      p := p - 8;
      r := Store(r, p, Word(ws[i]));
    }
  }

  /** copy_argv */
  method CopyArguments(mem: Mem, top: nat, args: seq<seq<byte>>) returns (mem': Mem, rsp: nat)
    requires Size(args) + 16 + 8 * (|args| + 2) <= top
    ensures (mem', rsp) == CopyArgv(mem, top, args)
  {
    hide PushStrings, PushWords, Size;
    PushSp(mem, top, args);
    var r := PushEach(mem, top, args);
    var sp := r.sp - r.sp % 16;
    mem' := PushEachWord(r.mem, sp, [|args|] + r.ptrs + [0]);
    rsp := sp - 8 * (|args| + 2);
  }

  /** The pointer loop and the copy of switch_user. */
  method MoveArguments(mem: Mem, argc: nat, argv: nat, sp: nat) returns (r: Mem)
    requires 0 < argc && TotalLen(mem, argc, argv) >= 0
    ensures r == SwitchUser(mem, argc, argv, sp)
  {
    hide Store, Word, Rd64, TotalLen, Load;
    var len := TotalLen(mem, argc, argv);
    var i := 0;
    r := mem;
    while i < argc
      invariant 0 <= i <= argc && Relocate(mem, argc, argv, sp, 0) == Relocate(r, argc, argv, sp, i)
    {
      var p := (Rd64(r, argv + 8 * i) - argv + sp) % 0x1_0000_0000_0000_0000;
      r := Store(r, argv + 8 * i, Word(p));
      i := i + 1;
    }
    r := Store(r, sp, Load(r, argv, len));
  }
}
