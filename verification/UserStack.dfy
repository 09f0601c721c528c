/**
  create_elf_info (kernel/syscalls/sys_execve.c): the argument vectors are checked and read
  through the page tables, and the initial stack is written through them.
 */
module UserStack {
  import opened Machine
  import opened Paging
  import opened Memory
  import opened FileMap
  import opened Mapping
  import opened ByteMemory
  import opened Arguments
  import opened UserAccess
  import opened UserView
  import H = Heap

  /** check_and_get_count: None stands for -EFAULT. */
  function Count(m: Mm, ary: nat): Option<nat>
    decreases if ary < TWO48 then TWO48 - ary else 0
  {
    if !AccessOk(m.ts, false, ary, 8) then None
    else
      assert ary < TWO48 by { UserBelow(ary); }
      var p := Rd64(UserMem(m), ary);
      if p == 0 then Some(0)
      else if !AccessStringOk(m, p) then None
      else
        match Count(m, ary + 8)
        case None => None
        case Some(n) => Some(n + 1)
  }

  datatype Copied = Copied(m: Mm, sp: nat, ptrs: seq<nat>)

  /** Pushes copies of the first n strings of the array, from last to first. */
  function CopyStrings(m: Mm, sp: nat, ary: nat, n: nat): Outcome<Copied>
    decreases n
  {
    if n == 0 then Returned(Copied(m, sp, []))
    else
      var p := Rd64(UserMem(m), ary + 8 * (n - 1));
      var len := Strlen(UserMem(m), p) + 1;
      if len > sp then Panicked(PageFault)
      else
        var m1 :- Poke(m, sp - len, Load(UserMem(m), p, len));
        var r :- CopyStrings(m1, sp - len, ary, n - 1);
        Returned(r.(ptrs := r.ptrs + [sp - len]))
  }

  /** Pushes 64-bit words from last to first. */
  function PokeWords(m: Mm, sp: int, ws: seq<nat>): Outcome<Mm>
    decreases |ws|
  {
    if ws == [] then Returned(m)
    else if sp < 8 then Panicked(PageFault)
    else
      var n := |ws| - 1;
      var m1 :- Poke(m, sp - 8, ByteMemory.Word(ws[n]));
      PokeWords(m1, sp - 8, ws[..n])
  }

  datatype Started = Ready(rsp: nat) | BadPointer

  /** Where the words go: below the strings, so that rsp ends up 16-byte aligned. */
  function WordsTop(sp: nat, count: nat): int {
    sp - sp % 16 - (if count % 2 == 1 then 8 else 0)
  }

  function FillStack(m: Mm, copy: nat, rsp: nat, argv: nat, argc: nat, envp: nat, envc: nat): Outcome<(Mm, nat)> {
    var e :- CopyStrings(m, rsp, envp, envc);
    var a :- CopyStrings(e.m, e.sp, argv, argc);
    var ws := a.ptrs + [0] + e.ptrs + [0];
    var top := WordsTop(a.sp, argc + envc + 3);
    var m1 :- PokeWords(a.m, top, ws);
    var h :- H.Kfree(m1.heap, copy);
    var m2 :- PokeWords(m1.(heap := h), top - 8 * |ws|, [argc]);
    if top < 8 * (|ws| + 1) then Panicked(PageFault)
    else Returned((m2, top - 8 * (|ws| + 1)))
  }

  /** The part of create_elf_info after the counting: the copy array is taken, and given back
      when its pointers are on the stack. */
  function LayOut(m: Mm, rsp: nat, argv: nat, argc: nat, envp: nat, envc: nat): Outcome<(Mm, nat)> {
    var c :- Alloc(m, 8 * (argc + envc + 2), H.NO_ALIGN);
    FillStack(c.0, c.1, rsp, argv, argc, envp, envc)
  }

  function CreateElfInfo(m: Mm, rsp: nat, argv: nat, envp: nat): Outcome<(Mm, Started)> {
    match Count(m, argv)
    case None => Returned((m, BadPointer))
    case Some(argc) =>
      match Count(m, envp)
      case None => Returned((m, BadPointer))
      case Some(envc) =>
        var r :- LayOut(m, rsp, argv, argc, envp, envc);
        Returned((r.0, Ready(r.1)))
  }

  // ---------------------------------------------------------------- counting

  ghost predicate ReadableString(m: Mm, p: nat, s: seq<byte>) {
    HasString(UserMem(m), p, s) && Accessible(m.ts, false, p, |s| + 1)
  }

  /** An argument vector that a user program can read: pointers at ary, strings ss. */
  ghost predicate Readable(m: Mm, ary: nat, ptrs: seq<nat>, ss: seq<seq<byte>>) {
    && |ptrs| == |ss| && WordsAt(UserMem(m), ary, ptrs) && Rd64(UserMem(m), ary + 8 * |ss|) == 0
    && Accessible(m.ts, false, ary, 8 * (|ss| + 1))
    && (forall i | 0 <= i < |ss| :: ReadableString(m, ptrs[i], ss[i]))
  }

  lemma StringIsOk(m: Mm, p: nat, s: seq<byte>)
    requires KernelPart(m.ts) && ReadableString(m, p, s)
    ensures AccessStringOk(m, p) && 0 < p < TWO48
  {
    assert ByteOk(m.ts, false, p);
    assert 0 < p < TWO48 by { hide Translate; }
    hide UserMem, ByteOk, AccessStringOk, KernelPart;
    assert StringAt(m, p, p + |s|);
    AccessStringMeaning(m, p);
  }

  lemma ReadableTail(m: Mm, ary: nat, ptrs: seq<nat>, ss: seq<seq<byte>>)
    requires Readable(m, ary, ptrs, ss) && ss != []
    ensures Readable(m, ary + 8, ptrs[1..], ss[1..])
    ensures Rd64(UserMem(m), ary) == ptrs[0]
  {
    hide Rd64, ReadableString, UserMem, ByteOk;
    WordAt(UserMem(m), ary, ptrs, 0);
    forall i | 0 <= i < |ptrs[1..]| ensures Rd64(UserMem(m), ary + 8 + 8 * i) == ptrs[1..][i] {
      WordAt(UserMem(m), ary, ptrs, i + 1);
      assert ary + 8 + 8 * i == ary + 8 * (i + 1);
    }
    assert ary + 8 + 8 * |ss[1..]| == ary + 8 * |ss|;
  }

  /** The check on one element of the array. */
  lemma ElementOk(m: Mm, ary: nat)
    requires KernelPart(m.ts)
    ensures AccessOk(m.ts, false, ary, 8) <==> Accessible(m.ts, false, ary, 8)
  {
    hide KernelPart, Translate;
    if ary + 8 <= TWO64 {
      AccessOkMeaning(m.ts, false, ary, 8);
    } else {
      assert !UserRangeOk(ary);
      assert !ByteOk(m.ts, false, ary);
    }
  }

  /** check_and_get_count counts the strings of a readable vector. */
  lemma {:induction false} CountReadable(m: Mm, ary: nat, ptrs: seq<nat>, ss: seq<seq<byte>>)
    requires KernelPart(m.ts) && Readable(m, ary, ptrs, ss)
    ensures Count(m, ary) == Some(|ss|)
    decreases |ss|
  {
    hide Rd64, HasString, WordsAt, UserMem, AccessOk, AccessStringOk, KernelPart, ByteOk;
    ElementOk(m, ary);
    if ss != [] {
      ReadableTail(m, ary, ptrs, ss);
      assert ReadableString(m, ptrs[0], ss[0]);
      StringIsOk(m, ptrs[0], ss[0]);
      CountReadable(m, ary + 8, ptrs[1..], ss[1..]);
    }
  }

  lemma LastUser(m: Mm, p: nat, end: nat)
    requires StringAt(m, p, end)
    ensures end < TWO48
  {
    assert ByteOk(m.ts, false, end);
  }

  lemma OkIsString(m: Mm, p: nat) returns (s: seq<byte>)
    requires KernelPart(m.ts) && AccessStringOk(m, p)
    ensures ReadableString(m, p, s)
  {
    hide UserMem, AccessStringOk, KernelPart, ByteOk;
    AccessStringMeaning(m, p);
    var end: nat :| StringAt(m, p, end);
    s := Load(UserMem(m), p, end - p);
    assert end < TWO48 by { LastUser(m, p, end); }
    forall x: nat | p <= x < p + |s| ensures Rd(UserMem(m), x) == s[x - p] {
      assert s[x - p] == Rd(UserMem(m), p + (x - p));
    }
    forall i | 0 <= i < |s| ensures s[i] != 0 {
      assert Rd(UserMem(m), p + i) != 0;
    }
  }

  lemma ReadableCons(m: Mm, ary: nat, p: nat, s: seq<byte>, ptrs: seq<nat>, ss: seq<seq<byte>>)
    requires Readable(m, ary + 8, ptrs, ss) && Accessible(m.ts, false, ary, 8)
    requires Rd64(UserMem(m), ary) == p && ReadableString(m, p, s)
    ensures Readable(m, ary, [p] + ptrs, [s] + ss)
  {
    hide Rd64, ReadableString, UserMem, ByteOk;
    forall i | 0 <= i < |ptrs| + 1 ensures Rd64(UserMem(m), ary + 8 * i) == ([p] + ptrs)[i] {
      if i > 0 {
        WordAt(UserMem(m), ary + 8, ptrs, i - 1);
        assert ary + 8 + 8 * (i - 1) == ary + 8 * i;
      }
    }
    assert ary + 8 + 8 * |ss| == ary + 8 * |[s] + ss|;
  }

  lemma UserFirst(m: Mm, ary: nat)
    requires AccessOk(m.ts, false, ary, 8)
    ensures ary < TWO48
  {
  }

  /** Whatever check_and_get_count accepts is a readable vector of that many strings. */
  lemma {:induction false} CountSound(m: Mm, ary: nat) returns (ptrs: seq<nat>, ss: seq<seq<byte>>)
    requires KernelPart(m.ts) && Count(m, ary).Some?
    ensures |ss| == Count(m, ary).value && Readable(m, ary, ptrs, ss)
    decreases if ary < TWO48 then TWO48 - ary else 0
  {
    hide Rd64, HasString, UserMem, AccessOk, AccessStringOk, KernelPart, ByteOk;
    assert ary < TWO48 by { UserFirst(m, ary); }
    ElementOk(m, ary);
    ptrs, ss := [], [];
    if Rd64(UserMem(m), ary) != 0 {
      var s := OkIsString(m, Rd64(UserMem(m), ary));
      ptrs, ss := CountSound(m, ary + 8);
      ReadableCons(m, ary, Rd64(UserMem(m), ary), s, ptrs, ss);
      ptrs, ss := [Rd64(UserMem(m), ary)] + ptrs, [s] + ss;
    }
  }

  // ---------------------------------------------------------------- copying

  /** The vector and its strings lie outside lo..hi. */
  ghost predicate Outside(ary: nat, ptrs: seq<nat>, ss: seq<seq<byte>>, lo: nat, hi: nat)
    requires |ptrs| == |ss|
  {
    && (ary + 8 * (|ss| + 1) <= lo || hi <= ary)
    && (forall i | 0 <= i < |ss| :: ptrs[i] + |ss[i]| + 1 <= lo || hi <= ptrs[i])
  }

  /** The vector holds the pointers, and the pointers lead to the strings. */
  ghost predicate Source(mem: Mem, ary: nat, ptrs: seq<nat>, ss: seq<seq<byte>>) {
    && |ptrs| == |ss| && WordsAt(mem, ary, ptrs)
    && (forall i | 0 <= i < |ss| :: HasString(mem, ptrs[i], ss[i]))
  }

  lemma SourceKept(mem: Mem, mem': Mem, ary: nat, ptrs: seq<nat>, ss: seq<seq<byte>>, lo: nat, hi: nat)
    requires Source(mem, ary, ptrs, ss) && Outside(ary, ptrs, ss, lo, hi) && WritesOnly(mem, mem', lo, hi)
    ensures Source(mem', ary, ptrs, ss)
  {
    hide Rd64, HasString, WritesOnly;
    forall i | 0 <= i < |ss| ensures HasString(mem', ptrs[i], ss[i]) {
      StringKept(mem, mem', lo, hi, ptrs[i], ss[i]);
    }
    forall i | 0 <= i < |ptrs| ensures Rd64(mem', ary + 8 * i) == ptrs[i] {
      WordKept(mem, mem', lo, hi, ary + 8 * i);
      WordAt(mem, ary, ptrs, i);
    }
  }

  lemma SourcePrefix(mem: Mem, ary: nat, ptrs: seq<nat>, ss: seq<seq<byte>>, lo: nat, hi: nat, hi': nat)
    requires Source(mem, ary, ptrs, ss) && Outside(ary, ptrs, ss, lo, hi) && ss != [] && hi' <= hi
    ensures Source(mem, ary, ptrs[..|ss| - 1], ss[..|ss| - 1])
    ensures Outside(ary, ptrs[..|ss| - 1], ss[..|ss| - 1], lo, hi')
  {
    hide Rd64, HasString;
  }

  lemma WiderWrites(mem: Mem, mem': Mem, lo: nat, hi: nat, lo': nat)
    requires WritesOnly(mem, mem', lo, hi) && lo' <= lo
    ensures WritesOnly(mem, mem', lo', hi)
  {
  }

  lemma StringParts(mem: Mem, p: nat, s: seq<byte>)
    requires HasString(mem, p, s)
    ensures Plain(s) && |s| < 0x7fff_ffff_ffff_ffff
  {
  }

  /** The vector and its strings are inside dom. */
  ghost predicate Inside(dom: set<nat>, ary: nat, ptrs: seq<nat>, ss: seq<seq<byte>>)
    requires |ptrs| == |ss|
  {
    && Within(dom, ary, 8 * (|ss| + 1))
    && (forall i | 0 <= i < |ss| :: Within(dom, ptrs[i], |ss[i]| + 1))
  }

  lemma ViewAgrees(m: Mm, dom: set<nat>, a: nat, n: nat)
    requires Backed(m, dom) && Within(dom, a, n)
    ensures Agree(View(m, dom), UserMem(m), a, a + n) && Agree(UserMem(m), View(m, dom), a, a + n)
  {
    hide UserMem, View, Translate;
    forall x: nat | a <= x < a + n ensures Rd(View(m, dom), x) == Rd(UserMem(m), x) {
      assert x in dom;
      ViewRd(m, dom, x);
    }
  }

  /** What the kernel reads when it copies the last string of a vector. */
  lemma LastString(m: Mm, dom: set<nat>, ary: nat, ptrs: seq<nat>, ss: seq<seq<byte>>)
    requires Backed(m, dom) && Source(View(m, dom), ary, ptrs, ss) && Inside(dom, ary, ptrs, ss) && ss != []
    ensures var n := |ss| - 1;
            && Rd64(UserMem(m), ary + 8 * n) == ptrs[n]
            && Strlen(UserMem(m), ptrs[n]) == |ss[n]|
            && Load(UserMem(m), ptrs[n], |ss[n]| + 1) == ss[n] + [0]
            && Plain(ss[n]) && |ss[n]| < 0x7fff_ffff_ffff_ffff
  {
    hide Rd64, HasString, Strlen, Load, View, UserMem, Backed, WordsAt, Agree;
    var n := |ss| - 1;
    ViewAgrees(m, dom, ary, 8 * (|ss| + 1));
    WordAgrees(View(m, dom), UserMem(m), ary, ary + 8 * (|ss| + 1), ary + 8 * n);
    WordAt(View(m, dom), ary, ptrs, n);
    ViewAgrees(m, dom, ptrs[n], |ss[n]| + 1);
    StringAgrees(View(m, dom), UserMem(m), ptrs[n], ptrs[n] + |ss[n]| + 1, ptrs[n], ss[n]);
    StrlenString(UserMem(m), ptrs[n], ss[n]);
    StringParts(View(m, dom), ptrs[n], ss[n]);
  }

  lemma InsidePrefix(dom: set<nat>, ary: nat, ptrs: seq<nat>, ss: seq<seq<byte>>)
    requires |ptrs| == |ss| && Inside(dom, ary, ptrs, ss) && ss != []
    ensures Inside(dom, ary, ptrs[..|ss| - 1], ss[..|ss| - 1])
  {
  }

  lemma BackedSame(m: Mm, m': Mm, dom: set<nat>)
    requires Backed(m, dom) && m'.ts == m.ts && m'.heap == m.heap && |m'.ram| == |m.ram|
    ensures Backed(m', dom)
  {
    hide Translate, LiveByte;
  }

  lemma SourceCount(mem: Mem, ary: nat, ptrs: seq<nat>, ss: seq<seq<byte>>)
    requires Source(mem, ary, ptrs, ss)
    ensures |ptrs| == |ss|
  {
  }

  /** Copying the strings of a vector is pushing those strings in the user's view, when vector
      and strings lie outside the part of the stack that is written. */
  lemma {:induction false} CopiesAreStrings(m: Mm, dom: set<nat>, lo: nat, k: nat, phys: nat,
                                            sp: nat, ary: nat, ptrs: seq<nat>, ss: seq<seq<byte>>)
    requires Backed(m, dom) && Stack(m, dom, lo, k, phys)
    requires Source(View(m, dom), ary, ptrs, ss) && Inside(dom, ary, ptrs, ss) && Outside(ary, ptrs, ss, lo, sp)
    requires lo + Size(ss) <= sp <= lo + k
    ensures CopyStrings(m, sp, ary, |ss|).Returned?
    ensures var r, p := CopyStrings(m, sp, ary, |ss|).value, PushStrings(View(m, dom), sp, ss);
            && r.sp == p.sp && r.ptrs == p.ptrs && View(r.m, dom) == p.mem
            && WritesRam(m, r.m, phys, k) && Stack(r.m, dom, lo, k, phys) && Backed(r.m, dom)
    decreases |ss|
  {
    hide Rd64, HasString, WritesOnly, Store, Load, Strlen, Stack, Backed, View, Poke, UserMem, Source, Outside,
      Inside;
    if ss != [] {
      var n := |ss| - 1;
      var s, len, mem := ss[n], |ss[n]| + 1, View(m, dom);
      assert |ptrs| == |ss| by { SourceCount(mem, ary, ptrs, ss); }
      LastString(m, dom, ary, ptrs, ss);
      PokeView(m, dom, lo, k, phys, sp - len, s + [0]);
      var m1 := Poke(m, sp - len, s + [0]).value;
      StoredString(mem, sp - len, s);
      WiderWrites(mem, View(m1, dom), sp - len, sp, lo);
      SourceKept(mem, View(m1, dom), ary, ptrs, ss, lo, sp);
      SourcePrefix(View(m1, dom), ary, ptrs, ss, lo, sp, sp - len);
      InsidePrefix(dom, ary, ptrs, ss);
      BackedSame(m, m1, dom);
      CopiesAreStrings(m1, dom, lo, k, phys, sp - len, ary, ptrs[..n], ss[..n]);
      WritesRamTwice(m, m1, CopyStrings(m1, sp - len, ary, n).value.m, phys, k);
    }
  }

  /** Pushing words through the page tables is pushing them in the view. */
  lemma {:induction false} PokeWordsView(m: Mm, dom: set<nat>, lo: nat, k: nat, phys: nat, sp: nat, ws: seq<nat>)
    requires Stack(m, dom, lo, k, phys) && lo + 8 * |ws| <= sp <= lo + k
    ensures PokeWords(m, sp, ws).Returned?
    ensures var m' := PokeWords(m, sp, ws).value;
            && View(m', dom) == PushWords(View(m, dom), sp, ws)
            && WritesRam(m, m', phys, k) && Stack(m', dom, lo, k, phys)
    decreases |ws|
  {
    hide Stack, View, Poke, Store, ByteMemory.Word;
    if ws != [] {
      var n := |ws| - 1;
      PokeView(m, dom, lo, k, phys, sp - 8, ByteMemory.Word(ws[n]));
      var m1 := Poke(m, sp - 8, ByteMemory.Word(ws[n])).value;
      PokeWordsView(m1, dom, lo, k, phys, sp - 8, ws[..n]);
      WritesRamTwice(m, m1, PokeWords(m1, sp - 8, ws[..n]).value, phys, k);
    }
  }

  // ---------------------------------------------------------------- the initial process stack

  /** The initial stack of section 3.4.1 of the System V AMD64 psABI, without the auxiliary
      vector: count, argument vector, environment vector, then the strings: the arguments
      in slo..mid, the environment in mid..top. */
  ghost predicate InitialStack(mem: Mem, rsp: nat, args: seq<seq<byte>>, env: seq<seq<byte>>,
                               slo: nat, mid: nat, top: nat) {
    && rsp % 16 == 0
    && Rd64(mem, rsp) == |args|
    && ArgvAt(mem, rsp + 8, args, slo, mid)
    && ArgvAt(mem, rsp + 8 + 8 * (|args| + 1), env, mid, top)
    && rsp + 8 * (|args| + |env| + 3) <= slo <= mid <= top
  }

  lemma WordsTopAligned(sp: nat, count: nat)
    requires 24 + 8 * count <= sp
    ensures var top := WordsTop(sp, count);
            sp - 24 < top <= sp && (top - 8 * count) % 16 == 0
  {
    var k := count / 2;
    assert count == 2 * k + count % 2;
    var q := sp / 16;
    assert WordsTop(sp, count) - 8 * count == 16 * (q - k - count % 2);
    QuotientIs(WordsTop(sp, count) - 8 * count, 16, q - k - count % 2, 0);
  }

  /** Words of a concatenation, as parts. */
  lemma WordsSplit(mem: Mem, a: nat, ws: seq<nat>, lo: nat, part: seq<nat>)
    requires WordsAt(mem, a, ws) && lo + |part| <= |ws| && ws[lo..lo + |part|] == part
    ensures WordsAt(mem, a + 8 * lo, part)
  {
    hide Rd64;
    forall i | 0 <= i < |part| ensures Rd64(mem, a + 8 * lo + 8 * i) == part[i] {
      WordAt(mem, a, ws, lo + i);
      assert a + 8 * (lo + i) == a + 8 * lo + 8 * i;
      assert ws[lo..lo + |part|][i] == ws[lo + i];
    }
  }

  lemma StackWords(mem: Mem, mem': Mem, top: nat, e: Pushed, a: Pushed,
                   args: seq<seq<byte>>, env: seq<seq<byte>>, rsp0: nat)
    requires StringsAt(a.mem, a.ptrs, args, a.sp, e.sp) && StringsAt(a.mem, e.ptrs, env, e.sp, rsp0)
    requires a.sp <= e.sp <= rsp0 < TWO48 && |args| < TWO32
    requires 8 * (|args| + |env| + 3) <= top <= a.sp
    requires mem' == PushWords(a.mem, top, [|args|] + a.ptrs + [0] + e.ptrs + [0])
    requires (top - 8 * (|args| + |env| + 3)) % 16 == 0
    ensures var rsp := top - 8 * (|args| + |env| + 3);
            InitialStack(mem', rsp, args, env, a.sp, e.sp, rsp0) && WritesOnly(a.mem, mem', rsp, top)
  {
    hide Rd64, HasString, WritesOnly, WordsAt, StringsAt, PushWords;
    PointersBelow(a.mem, a.ptrs, args, a.sp, e.sp);
    PointersBelow(a.mem, e.ptrs, env, e.sp, rsp0);
    var n := |args|;
    var ws := [n] + a.ptrs + [0] + e.ptrs + [0];
    var rsp := top - 8 * |ws|;
    PushWordsLayout(a.mem, top, ws);
    StringsKept(a.mem, mem', a.ptrs, args, a.sp, e.sp, rsp, top);
    StringsKept(a.mem, mem', e.ptrs, env, e.sp, rsp0, rsp, top);
    WordAt(mem', rsp, ws, 0);
    assert ws[1..1 + n] == a.ptrs;
    WordsSplit(mem', rsp, ws, 1, a.ptrs);
    WordAt(mem', rsp, ws, n + 1);
    assert ws[n + 2..n + 2 + |env|] == e.ptrs;
    WordsSplit(mem', rsp, ws, n + 2, e.ptrs);
    WordAt(mem', rsp, ws, n + 2 + |env|);
    assert rsp + 8 * (n + 1) == rsp + 8 + 8 * n;
    assert rsp + 8 * (n + 2) == rsp + 8 + 8 * (n + 1);
    assert rsp + 8 * (n + 2 + |env|) == rsp + 8 + 8 * (n + 1) + 8 * |env|;
  }

  lemma OutsideNarrower(ary: nat, ptrs: seq<nat>, ss: seq<seq<byte>>, lo: nat, hi: nat, hi': nat)
    requires |ptrs| == |ss| && Outside(ary, ptrs, ss, lo, hi) && hi' <= hi
    ensures Outside(ary, ptrs, ss, lo, hi')
  {
  }

  /** Environment and arguments copied, in that order, are both strings pushed. */
  lemma TwoCopies(m: Mm, dom: set<nat>, lo: nat, k: nat, phys: nat, rsp: nat, argv: nat, ap: seq<nat>,
                  args: seq<seq<byte>>, envp: nat, ep: seq<nat>, env: seq<seq<byte>>)
    requires Backed(m, dom) && Stack(m, dom, lo, k, phys) && |ap| == |args| && |ep| == |env|
    requires Source(View(m, dom), argv, ap, args) && Inside(dom, argv, ap, args) && Outside(argv, ap, args, lo, rsp)
    requires Source(View(m, dom), envp, ep, env) && Inside(dom, envp, ep, env) && Outside(envp, ep, env, lo, rsp)
    requires Strings(args) && Strings(env) && lo + Size(args) + Size(env) <= rsp <= lo + k
    ensures CopyStrings(m, rsp, envp, |env|).Returned?
    ensures var e := CopyStrings(m, rsp, envp, |env|).value;
            && CopyStrings(e.m, e.sp, argv, |args|).Returned?
            && var a, e', a' := CopyStrings(e.m, e.sp, argv, |args|).value, View(e.m, dom),
                                View(CopyStrings(e.m, e.sp, argv, |args|).value.m, dom);
               && e.sp == rsp - Size(env) && a.sp == e.sp - Size(args)
               && WritesOnly(View(m, dom), e', e.sp, rsp) && WritesOnly(e', a', a.sp, e.sp)
               && StringsAt(a', a.ptrs, args, a.sp, e.sp) && StringsAt(a', e.ptrs, env, e.sp, rsp)
               && WritesRam(m, a.m, phys, k) && Stack(a.m, dom, lo, k, phys)
  {
    hide HasString, WritesOnly, WordsAt, StringsAt, Outside, Inside, PushStrings, CopyStrings, Size, Source, Strings,
      Stack, Backed, View, WritesRam;
    CopiesAreStrings(m, dom, lo, k, phys, rsp, envp, ep, env);
    PushStringsLayout(View(m, dom), rsp, env);
    var e := CopyStrings(m, rsp, envp, |env|).value;
    WiderWrites(View(m, dom), View(e.m, dom), e.sp, rsp, lo);
    SourceKept(View(m, dom), View(e.m, dom), argv, ap, args, lo, rsp);
    OutsideNarrower(argv, ap, args, lo, rsp, e.sp);
    CopiesAreStrings(e.m, dom, lo, k, phys, e.sp, argv, ap, args);
    PushStringsLayout(View(e.m, dom), e.sp, args);
    var a := CopyStrings(e.m, e.sp, argv, |args|).value;
    StringsKept(View(e.m, dom), View(a.m, dom), e.ptrs, env, e.sp, rsp, a.sp, e.sp);
    WritesRamTwice(m, e.m, a.m, phys, k);
  }

  /** The words under the strings complete the initial stack. */
  lemma FinishStack(mem: Mem, e: Pushed, a: Pushed, args: seq<seq<byte>>, env: seq<seq<byte>>, low: nat, rsp: nat)
    requires StringsAt(a.mem, a.ptrs, args, a.sp, e.sp) && StringsAt(a.mem, e.ptrs, env, e.sp, rsp)
    requires low + 8 * (|args| + |env| + 3) + 24 <= a.sp <= e.sp <= rsp < TWO48 && |args| < TWO32
    requires WritesOnly(mem, e.mem, e.sp, rsp) && WritesOnly(e.mem, a.mem, a.sp, e.sp)
    ensures |a.ptrs| == |args| && |e.ptrs| == |env|
    ensures var ws := [|args|] + a.ptrs + [0] + e.ptrs + [0];
            var top := WordsTop(a.sp, |args| + |env| + 3);
            && low <= top - 8 * |ws| && top <= a.sp
            && InitialStack(PushWords(a.mem, top, ws), top - 8 * |ws|, args, env, a.sp, e.sp, rsp)
            && WritesOnly(mem, PushWords(a.mem, top, ws), top - 8 * |ws|, rsp)
  {
    hide Rd64, HasString, WritesOnly, WordsAt, StringsAt, PushWords, InitialStack, WordsTop;
    PointersBelow(a.mem, a.ptrs, args, a.sp, e.sp);
    PointersBelow(a.mem, e.ptrs, env, e.sp, rsp);
    var ws := [|args|] + a.ptrs + [0] + e.ptrs + [0];
    WordsTopAligned(a.sp, |args| + |env| + 3);
    var top := WordsTop(a.sp, |args| + |env| + 3);
    var mem' := PushWords(a.mem, top, ws);
    StackWords(mem, mem', top, e, a, args, env, rsp);
    WritesTwice(mem, e.mem, a.mem, a.sp, e.sp, e.sp, rsp);
    WritesTwice(mem, a.mem, mem', top - 8 * |ws|, top, a.sp, rsp);
  }

  /** From m to m' the tables and the live chunks stay, and so does every byte of the kernel
      and of a live chunk that is not behind the window. */
  ghost predicate Touches(m: Mm, m': Mm, phys: nat, k: nat) {
    && m'.ts == m.ts && m'.last == m.last && |m'.ram| == |m.ram| && SameLive(m.heap, m'.heap)
    && forall a: nat | a < |m.ram| && !(phys <= a < phys + k) && (a < PS_LIMIT || LiveByte(m.heap, a)) ::
         m'.ram[a] == m.ram[a]
  }

  lemma TouchesRam(m: Mm, m1: Mm, m2: Mm, m': Mm, phys: nat, k: nat)
    requires Grows(m, m1) && m1.ts == m.ts && m1.last == m.last && WritesRam(m1, m2, phys, k)
    requires m' == m2.(heap := m'.heap) && SameLive(m.heap, m'.heap)
    ensures Touches(m, m', phys, k)
  {
    hide SameLive;
    forall a: nat | a < |m.ram| && !(phys <= a < phys + k) && (a < PS_LIMIT || LiveByte(m.heap, a))
      ensures m'.ram[a] == m.ram[a]
    {
      if a >= PS_LIMIT { LiveByteKept(m, m1, a); }
    }
  }

  lemma HeapUnseen(m: Mm, h: H.Heap, dom: set<nat>)
    ensures View(m.(heap := h), dom) == View(m, dom)
  {
  }

  lemma OneWord(mem: Mem, sp: nat, w: nat)
    requires 8 <= sp
    ensures PushWords(mem, sp, [w]) == Store(mem, sp - 8, ByteMemory.Word(w))
  {
    hide Store, ByteMemory.Word;
    assert [w][..0] == [];
  }

  /** The words of create_elf_info, with the copy array given back before the last. */
  lemma WordsLaidOut(m: Mm, h: H.Heap, dom: set<nat>, lo: nat, k: nat, phys: nat, top: nat, w: nat, ws: seq<nat>)
    requires Stack(m, dom, lo, k, phys) && lo + 8 * (|ws| + 1) <= top <= lo + k
    ensures PokeWords(m, top, ws).Returned?
    ensures var m1 := PokeWords(m, top, ws).value;
            && WritesRam(m, m1, phys, k)
            && PokeWords(m1.(heap := h), top - 8 * |ws|, [w]).Returned?
            && var m2 := PokeWords(m1.(heap := h), top - 8 * |ws|, [w]).value;
               && WritesRam(m.(heap := h), m2, phys, k)
               && View(m2, dom) == PushWords(View(m, dom), top, [w] + ws)
  {
    hide Stack, View, PokeWords, Store, ByteMemory.Word, PushWords;
    PokeWordsView(m, dom, lo, k, phys, top, ws);
    var m1 := PokeWords(m, top, ws).value;
    HeapUnseen(m1, h, dom);
    StackSame(m1, m1.(heap := h), dom, lo, k, phys);
    PokeWordsView(m1.(heap := h), dom, lo, k, phys, top - 8 * |ws|, [w]);
    PushWordsMore(View(m, dom), top, w, ws);
    OneWord(View(m1, dom), top - 8 * |ws|, w);
    WritesRamTwice(m.(heap := h), m1.(heap := h), PokeWords(m1.(heap := h), top - 8 * |ws|, [w]).value, phys, k);
  }

  /** Where rsp ends up below strings that start at slo, with count words to push: they end on
      the last multiple of 16 there, or 8 below it when their number is odd. */
  function FinalRsp(slo: nat, count: nat): int {
    slo - slo % 16 - 8 * count - (if count % 2 == 1 then 8 else 0)
  }

  /** What create_elf_info has done when it is ready: rsp is 16-byte aligned on the initial
      process stack, as the user's walks see it, each pointer leading to an intact copy of its
      string, copies in order and apart; and nothing but the used part of the stack has been
      written, in the user's view or behind it. */
  ghost predicate StackDone(m: Mm, m': Mm, owner: Owner, pinned: Pins, dom: set<nat>, lo: nat, k: nat, phys: nat,
                            rsp: nat, rsp': nat, args: seq<seq<byte>>, env: seq<seq<byte>>) {
    && Good(m', owner, pinned) && Touches(m, m', phys, k)
    && lo <= rsp' && WritesOnly(View(m, dom), View(m', dom), rsp', rsp)
    && Size(env) + Size(args) <= rsp && rsp' == FinalRsp(rsp - Size(env) - Size(args), |args| + |env| + 3)
    && InitialStack(View(m', dom), rsp', args, env, rsp - Size(env) - Size(args), rsp - Size(env), rsp)
  }

  /** The two vectors can be copied from the view onto the stack below rsp. */
  ghost predicate Copyable(m: Mm, dom: set<nat>, lo: nat, rsp: nat, ary: nat, ptrs: seq<nat>, ss: seq<seq<byte>>) {
    && |ptrs| == |ss| && Strings(ss)
    && Source(View(m, dom), ary, ptrs, ss) && Inside(dom, ary, ptrs, ss) && Outside(ary, ptrs, ss, lo, rsp)
  }

  lemma FillStackSteps(m: Mm, copy: nat, rsp: nat, argv: nat, argc: nat, envp: nat, envc: nat,
                       e: Copied, a: Copied, ws: seq<nat>, top: int, m1: Mm, h: H.Heap, m2: Mm)
    requires CopyStrings(m, rsp, envp, envc) == Returned(e) && CopyStrings(e.m, e.sp, argv, argc) == Returned(a)
    requires ws == a.ptrs + [0] + e.ptrs + [0] && top == WordsTop(a.sp, argc + envc + 3) >= 8 * (|ws| + 1)
    requires PokeWords(a.m, top, ws) == Returned(m1) && H.Kfree(m1.heap, copy) == Returned(h)
    requires PokeWords(m1.(heap := h), top - 8 * |ws|, [argc]) == Returned(m2)
    ensures FillStack(m, copy, rsp, argv, argc, envp, envc) == Returned((m2, top - 8 * (|ws| + 1)))
  {
    hide CopyStrings, PokeWords, H.Kfree, WordsTop;
  }

  lemma SameHeap(m: Mm, m': Mm, phys: nat, k: nat)
    requires WritesRam(m, m', phys, k)
    ensures m'.heap == m.heap
  {
  }

  lemma TopIs(sp: nat, count: nat)
    ensures WordsTop(sp, count) - 8 * count == FinalRsp(sp, count)
  {
  }

  /** The words after the strings, through the page tables. */
  lemma WordsFinish(m: Mm, e: Copied, a: Copied, h: H.Heap, dom: set<nat>, lo: nat, k: nat, phys: nat, rsp: nat,
                    args: seq<seq<byte>>, env: seq<seq<byte>>) returns (m1: Mm, m2: Mm, rsp': nat)
    requires Stack(a.m, dom, lo, k, phys)
    requires StringsAt(View(a.m, dom), a.ptrs, args, a.sp, e.sp) && StringsAt(View(a.m, dom), e.ptrs, env, e.sp, rsp)
    requires lo + 8 * (|args| + |env| + 3) + 24 <= a.sp <= e.sp <= rsp <= lo + k && rsp < TWO48 && |args| < TWO32
    requires WritesOnly(View(m, dom), View(e.m, dom), e.sp, rsp)
    requires WritesOnly(View(e.m, dom), View(a.m, dom), a.sp, e.sp)
    ensures var ws, top := a.ptrs + [0] + e.ptrs + [0], WordsTop(a.sp, |args| + |env| + 3);
            && lo <= rsp' == top - 8 * (|ws| + 1) && rsp' == FinalRsp(a.sp, |args| + |env| + 3)
            && PokeWords(a.m, top, ws) == Returned(m1)
            && PokeWords(m1.(heap := h), top - 8 * |ws|, [|args|]) == Returned(m2)
    ensures WritesRam(a.m, m1, phys, k) && WritesRam(a.m.(heap := h), m2, phys, k)
    ensures WritesOnly(View(m, dom), View(m2, dom), rsp', rsp)
    ensures InitialStack(View(m2, dom), rsp', args, env, a.sp, e.sp, rsp)
  {
    hide Stack, PokeWords, View, WritesOnly, StringsAt, InitialStack, WordsTop, PushWords, WritesRam;
    var em, am := Pushed(View(e.m, dom), e.sp, e.ptrs), Pushed(View(a.m, dom), a.sp, a.ptrs);
    FinishStack(View(m, dom), em, am, args, env, lo, rsp);
    var ws, top := a.ptrs + [0] + e.ptrs + [0], WordsTop(a.sp, |args| + |env| + 3);
    assert [|args|] + ws == [|args|] + a.ptrs + [0] + e.ptrs + [0];
    WordsLaidOut(a.m, h, dom, lo, k, phys, top, |args|, ws);
    m1 := PokeWords(a.m, top, ws).value;
    m2 := PokeWords(m1.(heap := h), top - 8 * |ws|, [|args|]).value;
    rsp' := top - 8 * (|ws| + 1);
    TopIs(a.sp, |args| + |env| + 3);
  }

  lemma RamAfterHeap(m1: Mm, a: Mm, m2: Mm, h: H.Heap, phys: nat, k: nat)
    requires WritesRam(m1, a, phys, k) && WritesRam(a.(heap := h), m2, phys, k)
    ensures WritesRam(m1, m2.(heap := m1.heap), phys, k)
  {
  }

  /** Everything between taking the copy array and the end. */
  lemma StackFilled(m: Mm, mem: nat, dom: set<nat>, lo: nat, k: nat, phys: nat, rsp: nat,
                    argv: nat, ap: seq<nat>, args: seq<seq<byte>>, envp: nat, ep: seq<nat>, env: seq<seq<byte>>)
    requires Backed(m, dom) && Stack(m, dom, lo, k, phys) && H.Kfree(m.heap, mem).Returned?
    requires Copyable(m, dom, lo, rsp, argv, ap, args) && Copyable(m, dom, lo, rsp, envp, ep, env)
    requires lo + Size(args) + Size(env) + 8 * (|args| + |env| + 3) + 24 <= rsp <= lo + k && rsp < TWO48
    requires |args| < TWO32
    ensures FillStack(m, mem, rsp, argv, |args|, envp, |env|).Returned?
    ensures var (m', rsp') := FillStack(m, mem, rsp, argv, |args|, envp, |env|).value;
            && m'.heap == H.Kfree(m.heap, mem).value && WritesRam(m, m'.(heap := m.heap), phys, k)
            && lo <= rsp' && WritesOnly(View(m, dom), View(m', dom), rsp', rsp)
            && rsp' == FinalRsp(rsp - Size(env) - Size(args), |args| + |env| + 3)
            && InitialStack(View(m', dom), rsp', args, env, rsp - Size(env) - Size(args), rsp - Size(env), rsp)
  {
    hide Backed, Stack, CopyStrings, PokeWords, H.Kfree, View, Size, WritesOnly, StringsAt, InitialStack, WordsTop,
      Strings, Source, Inside, Outside, WritesRam, FillStack, FinalRsp;
    TwoCopies(m, dom, lo, k, phys, rsp, argv, ap, args, envp, ep, env);
    var e := CopyStrings(m, rsp, envp, |env|).value;
    var a := CopyStrings(e.m, e.sp, argv, |args|).value;
    var h := H.Kfree(m.heap, mem).value;
    assert a.m.heap == m.heap by { SameHeap(m, a.m, phys, k); }
    var m1, m2, rsp' := WordsFinish(m, e, a, h, dom, lo, k, phys, rsp, args, env);
    var ws, top := a.ptrs + [0] + e.ptrs + [0], WordsTop(a.sp, |args| + |env| + 3);
    assert m1.heap == m.heap by { SameHeap(a.m, m1, phys, k); }
    RamAfterHeap(m, a.m, m2, h, phys, k);
    assert m2.heap == h by { SameHeap(a.m.(heap := h), m2, phys, k); }
    FillStackSteps(m, mem, rsp, argv, |args|, envp, |env|, e, a, ws, top, m1, h, m2);
  }

  lemma CopyableKept(m: Mm, m': Mm, dom: set<nat>, lo: nat, rsp: nat, ary: nat, ptrs: seq<nat>, ss: seq<seq<byte>>)
    requires Copyable(m, dom, lo, rsp, ary, ptrs, ss) && View(m', dom) == View(m, dom)
    ensures Copyable(m', dom, lo, rsp, ary, ptrs, ss)
  {
  }

  lemma BackedGrows(m: Mm, m': Mm, dom: set<nat>)
    requires Backed(m, dom) && Grows(m, m') && m'.ts == m.ts
    ensures Backed(m', dom)
  {
    hide Translate, Grows, LiveByte;
    forall x | x in dom ensures LiveByte(m'.heap, Translate(m.ts, x, true, false).value) && |m'.ram| == |m.ram| {
      LiveByteKept(m, m', Translate(m.ts, x, true, false).value);
    }
  }

  lemma LayOutCorrect(m: Mm, owner: Owner, pinned: Pins, dom: set<nat>, lo: nat, k: nat, phys: nat, rsp: nat,
                      argv: nat, ap: seq<nat>, args: seq<seq<byte>>, envp: nat, ep: seq<nat>, env: seq<seq<byte>>)
    requires Good(m, owner, pinned) && Backed(m, dom) && Stack(m, dom, lo, k, phys)
    requires Copyable(m, dom, lo, rsp, argv, ap, args) && Copyable(m, dom, lo, rsp, envp, ep, env)
    requires lo + Size(args) + Size(env) + 8 * (|args| + |env| + 3) + 24 <= rsp <= lo + k && rsp < TWO48
    requires 8 * (|args| + |env| + 2) < TWO32
    ensures var r := LayOut(m, rsp, argv, |args|, envp, |env|);
            && (r.Returned? || r == Erased(8 * (|args| + |env| + 2)))
            && (Alloc(m, 8 * (|args| + |env| + 2), H.NO_ALIGN).Returned? ==> r.Returned?)
            && (r.Returned? ==> StackDone(m, r.value.0, owner, pinned, dom, lo, k, phys, rsp, r.value.1, args, env))
  {
    hide Good, Backed, Stack, Alloc, FillStack, H.Kfree, View, Size, WritesOnly, InitialStack, Copyable, Fresh,
      Physical, SameLive, Touches, Grows;
    var n := 8 * (|args| + |env| + 2);
    ScratchGood(m, owner, pinned, n, m.ram);
    if Alloc(m, n, H.NO_ALIGN).Returned? {
      var (m1, mem) := Alloc(m, n, H.NO_ALIGN).value;
      ViewKept(m, m1, dom);
      GrowsLength(m, m1);
      StackSame(m, m1, dom, lo, k, phys);
      BackedGrows(m, m1, dom);
      CopyableKept(m, m1, dom, lo, rsp, argv, ap, args);
      CopyableKept(m, m1, dom, lo, rsp, envp, ep, env);
      StackFilled(m1, mem, dom, lo, k, phys, rsp, argv, ap, args, envp, ep, env);
      var m2 := FillStack(m1, mem, rsp, argv, |args|, envp, |env|).value.0;
      ScratchGood(m, owner, pinned, n, m2.ram);
      assert m1.(heap := m2.heap, ram := m2.ram) == m2;
      TouchesRam(m, m1, m2.(heap := m1.heap), m2, phys, k);
    }
  }

  /** A vector that passes the checks, inside the view and off the stack, can be copied. */
  lemma ReadableCopyable(m: Mm, dom: set<nat>, lo: nat, rsp: nat, ary: nat, ptrs: seq<nat>, ss: seq<seq<byte>>)
    requires Readable(m, ary, ptrs, ss) && Backed(m, dom)
    requires Inside(dom, ary, ptrs, ss) && Outside(ary, ptrs, ss, lo, rsp)
    ensures Copyable(m, dom, lo, rsp, ary, ptrs, ss)
  {
    hide HasString, Backed, View, UserMem, Agree, WordsAt, Accessible, Outside;
    ViewAgrees(m, dom, ary, 8 * (|ss| + 1));
    WordsAgree(UserMem(m), View(m, dom), ary, ary + 8 * (|ss| + 1), ary, ptrs);
    forall i | 0 <= i < |ss|
      ensures HasString(View(m, dom), ptrs[i], ss[i]) && Plain(ss[i]) && |ss[i]| < 0x7fff_ffff_ffff_ffff
    {
      assert ReadableString(m, ptrs[i], ss[i]);
      ViewAgrees(m, dom, ptrs[i], |ss[i]| + 1);
      StringAgrees(UserMem(m), View(m, dom), ptrs[i], ptrs[i] + |ss[i]| + 1, ptrs[i], ss[i]);
      StringParts(View(m, dom), ptrs[i], ss[i]);
    }
  }

  lemma GoodKernel(m: Mm, owner: Owner, pinned: Pins)
    requires Good(m, owner, pinned)
    ensures KernelPart(m.ts)
  {
  }

  /** create_elf_info, for every argument and environment vector that passes the access checks
      and every stack window they fit on: if the copy array can be had, the process can start. */
  lemma CreateElfInfoCorrect(m: Mm, owner: Owner, pinned: Pins, dom: set<nat>, lo: nat, k: nat, phys: nat, rsp: nat,
                             argv: nat, ap: seq<nat>, args: seq<seq<byte>>,
                             envp: nat, ep: seq<nat>, env: seq<seq<byte>>)
    requires Good(m, owner, pinned) && Backed(m, dom) && Stack(m, dom, lo, k, phys)
    requires Readable(m, argv, ap, args) && Inside(dom, argv, ap, args) && Outside(argv, ap, args, lo, rsp)
    requires Readable(m, envp, ep, env) && Inside(dom, envp, ep, env) && Outside(envp, ep, env, lo, rsp)
    requires lo + Size(args) + Size(env) + 8 * (|args| + |env| + 3) + 24 <= rsp <= lo + k && rsp < TWO48
    requires 8 * (|args| + |env| + 2) < TWO32
    ensures var r := CreateElfInfo(m, rsp, argv, envp);
            && (r.Returned? || r == Erased(8 * (|args| + |env| + 2)))
            && (Alloc(m, 8 * (|args| + |env| + 2), H.NO_ALIGN).Returned? ==> r.Returned?)
            && (r.Returned? ==>
                  && r.value.1.Ready?
                  && StackDone(m, r.value.0, owner, pinned, dom, lo, k, phys, rsp, r.value.1.rsp, args, env))
  {
    hide Good, Backed, Stack, LayOut, StackDone, Count, Readable, Inside, Outside, Size, Copyable, Alloc;
    ReadableCopyable(m, dom, lo, rsp, argv, ap, args);
    ReadableCopyable(m, dom, lo, rsp, envp, ep, env);
    assert KernelPart(m.ts) by { GoodKernel(m, owner, pinned); }
    CountReadable(m, argv, ap, args);
    CountReadable(m, envp, ep, env);
    LayOutCorrect(m, owner, pinned, dom, lo, k, phys, rsp, argv, ap, args, envp, ep, env);
  }

  // ---------------------------------------------------------------- the loops

  /** check_and_get_count */
  method CountEach(m: Mm, ary: nat) returns (r: Option<nat>)
    ensures r == Count(m, ary)
  {
    hide Rd64, AccessOk, AccessStringOk, UserMem;
    var a, i := ary, 0;
    if !AccessOk(m.ts, false, a, 8) { return None; }
    while Rd64(UserMem(m), a) != 0
      invariant AccessOk(m.ts, false, a, 8)
      invariant Count(m, ary) == match Count(m, a) case None => None case Some(n) => Some(n + i)
      decreases TWO48 - a
    {
      if !AccessStringOk(m, Rd64(UserMem(m), a)) { return None; }
      assert a < TWO48 by { UserFirst(m, a); }
      a, i := a + 8, i + 1;
      if !AccessOk(m.ts, false, a, 8) { return None; }
      assert a < TWO48 by { UserFirst(m, a); }
    }
    return Some(i);
  }

  /** A result with the pointers of the strings that were pushed before it. */
  ghost function Continued(r: Outcome<Copied>, copy: seq<nat>): Outcome<Copied> {
    if r.Returned? then Returned(r.value.(ptrs := r.value.ptrs + copy)) else r
  }

  lemma ContinuedMore(r: Outcome<Copied>, a: nat, copy: seq<nat>)
    ensures Continued(Continued(r, [a]), copy) == Continued(r, [a] + copy)
    ensures Continued(r, []) == r
  {
    if r.Returned? {
      assert r.value.ptrs + [a] + copy == r.value.ptrs + ([a] + copy);
      assert r.value.ptrs + [] == r.value.ptrs;
    }
  }

  /** The copying loops of create_elf_info. */
  method CopyEach(m: Mm, sp: nat, ary: nat, n: nat) returns (r: Outcome<Copied>)
    ensures r == CopyStrings(m, sp, ary, n)
  {
    hide Rd64, Poke, Load, Strlen, UserMem;
    var m1, p: nat, copy: seq<nat>, i: nat := m, sp, [], n;
    ContinuedMore(CopyStrings(m, sp, ary, n), 0, []);
    while i > 0
      invariant 0 <= i <= n
      invariant CopyStrings(m, sp, ary, n) == Continued(CopyStrings(m1, p, ary, i), copy)
    {
      i := i - 1;
      var s := Rd64(UserMem(m1), ary + 8 * i);
      var len := Strlen(UserMem(m1), s) + 1;
      if len > p { return Panicked(PageFault); }
      p := p - len;
      m1 :- Poke(m1, p, Load(UserMem(m1), s, len));
      ContinuedMore(CopyStrings(m1, p, ary, i), p, copy);
      copy := [p] + copy;
    }
    assert [] + copy == copy;
    return Returned(Copied(m1, p, copy));
  }

  /** The word loop of create_elf_info. */
  method PokeEach(m: Mm, sp: int, ws: seq<nat>) returns (r: Outcome<Mm>)
    ensures r == PokeWords(m, sp, ws)
  {
    hide Poke, ByteMemory.Word;
    var m1, p, i: nat := m, sp, |ws|;
    assert ws[..i] == ws;
    while i > 0
      invariant 0 <= i <= |ws|
      invariant PokeWords(m, sp, ws) == PokeWords(m1, p, ws[..i])
    {
      i := i - 1;
      assert ws[..i + 1][..i] == ws[..i];
      if p < 8 { return Panicked(PageFault); }
      p := p - 8;
      m1 :- Poke(m1, p, ByteMemory.Word(ws[i]));
    }
    return Returned(m1);
  }

  /** create_elf_info */
  method LayOutStack(m: Mm, rsp: nat, argv: nat, envp: nat) returns (r: Outcome<(Mm, Started)>)
    ensures r == CreateElfInfo(m, rsp, argv, envp)
  {
    hide Count, CopyStrings, WordsTop, PokeWords, Alloc, H.Kfree;
    var argc := CountEach(m, argv);
    if argc.None? { return Returned((m, BadPointer)); }
    var envc := CountEach(m, envp);
    if envc.None? { return Returned((m, BadPointer)); }
    var c :- Alloc(m, 8 * (argc.value + envc.value + 2), H.NO_ALIGN);
    var e :- CopyEach(c.0, rsp, envp, envc.value);
    var a :- CopyEach(e.m, e.sp, argv, argc.value);
    var ws := a.ptrs + [0] + e.ptrs + [0];
    var top := WordsTop(a.sp, argc.value + envc.value + 3);
    var m1 :- PokeEach(a.m, top, ws);
    var h :- H.Kfree(m1.heap, c.1);
    var m2 :- PokeEach(m1.(heap := h), top - 8 * |ws|, [argc.value]);
    if top < 8 * (|ws| + 1) { return Panicked(PageFault); }
    return Returned((m2, Ready(top - 8 * (|ws| + 1))));
  }

  // ---------------------------------------------------------------- refusals

  ghost predicate HasVector(m: Mm, ary: nat) {
    exists ptrs, ss :: Readable(m, ary, ptrs, ss)
  }

  /** check_and_get_count fails exactly when no readable vector starts at ary. */
  lemma CountRefuses(m: Mm, ary: nat)
    requires KernelPart(m.ts)
    ensures Count(m, ary).None? <==> !HasVector(m, ary)
  {
    hide KernelPart, Readable, Count;
    if Count(m, ary).Some? {
      var ptrs, ss := CountSound(m, ary);
      assert Readable(m, ary, ptrs, ss);
    }
    if HasVector(m, ary) {
      var ptrs, ss :| Readable(m, ary, ptrs, ss);
      CountReadable(m, ary, ptrs, ss);
    }
  }

  /** create_elf_info refuses, with nothing changed, exactly when one of its vectors cannot be
      read. */
  lemma VectorsRefused(m: Mm, rsp: nat, argv: nat, envp: nat)
    requires KernelPart(m.ts)
    ensures CreateElfInfo(m, rsp, argv, envp) == Returned((m, BadPointer)) <==>
            !HasVector(m, argv) || !HasVector(m, envp)
  {
    hide KernelPart, HasVector, Count, LayOut;
    CountRefuses(m, argv);
    CountRefuses(m, envp);
  }
}
