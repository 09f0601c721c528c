/**
  From boot to the user's first instruction, through the page tables: switch_user
  (kernel/kernel_main.c), then sys_execve with sys_open, load_binary and create_elf_info
  (kernel/syscalls/sys_open.c, kernel/syscalls/sys_execve.c).
 */
module ProcessStart {
  import opened Machine
  import opened Paging
  import opened Memory
  import opened Mapping
  import opened FileMap
  import B = ByteMemory
  import opened Arguments
  import opened UserAccess
  import opened UserView
  import opened UserStack
  import opened Loader
  import Runs
  import H = Heap

  // ---------------------------------------------------------------- switch_user

  function RamAt(ram: seq<byte>, a: nat): byte {
    if a < |ram| then ram[a] else 0
  }

  /** The kernel's memory below the arena, where its first stack is. */
  function Low(ram: seq<byte>): B.Mem {
    map x: nat | x < 0x20_0000 :: RamAt(ram, x)
  }

  /** The page for user-accessible data: mapped at its own physical address. */
  function StartPage(m: Mm, len: nat): Outcome<(Mm, nat)> {
    var r :- Alloc(m, len, H.PAGE_ALIGN);
    var sp :- Physical(r.1);
    var m1 :- AddTransUser(r.0, sp, sp, PROT_RW);
    Returned((m1, sp))
  }

  /** total_len, an int, as kmalloc and memcpy see it. */
  function BlockLen(mem: B.Mem, argc: nat, argv: nat): nat
    requires 0 < argc
  {
    W(ToInt32(TotalLen(mem, argc, argv)))
  }

  lemma BlockLenIs(mem: B.Mem, argc: nat, argv: nat)
    requires 0 < argc && 0 <= TotalLen(mem, argc, argv) < 0x8000_0000
    ensures BlockLen(mem, argc, argv) == TotalLen(mem, argc, argv)
  {
    hide TotalLen;
    var n := TotalLen(mem, argc, argv);
    QuotientIs(n, 0x1_0000_0000, 0, n);
    SmallW(n);
  }

  /** switch_user up to sys_execve: the new state, and where the arguments are now. */
  function SwitchToUser(m: Mm, argc: nat, argv: nat): Outcome<(Mm, nat)>
    requires 0 < argc
  {
    var len := BlockLen(Low(m.ram), argc, argv);
    var r :- StartPage(m, len);
    var moved := Relocate(Low(r.0.ram), argc, argv, r.1, 0);
    var inPlace := Blit(r.0.ram, argv, B.Load(moved, argv, 8 * argc));
    Returned((r.0.(ram := Blit(inPlace, r.1, B.Load(moved, argv, len))), r.1))
  }

  /** The chunk behind the start page holds len bytes at physical address sp. */
  ghost predicate StartChunk(m: Mm, sp: nat, len: nat) {
    && 0x20_0000 <= sp && sp % 0x1000 == 0 && sp + 0x1000 <= 0x4000_0000
    && H.Live(m.heap, ChunkAt(sp))
    && m.heap.size[ChunkAt(sp)] == H.ChunkSize(len) >= len + H.HEADER
    && sp + len <= |m.ram|
  }

  lemma ChunkSizePage(len: nat)
    ensures H.ChunkSize(len) >= 0x1010 <==> len > 0xff0
  {
    var v := len + 16;
    if v <= 0x1000 {
      assert v % 0x80 != 0 ==> v - v % 0x80 + 0x80 <= 0x1000;
    }
  }

  /** The frame of the start page belongs to its chunk alone exactly when more than 0xff0
      bytes of arguments were asked for: with fewer, the mapping reaches beyond the chunk. */
  lemma StartPageInside(m: Mm, sp: nat, len: nat)
    requires StartChunk(m, sp, len)
    ensures PageInside(m.heap, ChunkAt(sp), sp) <==> len > 0xff0
  {
    ChunkSizePage(len);
    hide H.ChunkSize;
  }

  lemma LowRange(sp: nat)
    requires 0x20_0000 <= sp < 0x4000_0000
    ensures UserRangeOk(sp) && sp < TWO48 && ClearBase(sp) == sp
  {
  }

  lemma ChunkRoom(len: nat)
    ensures H.ChunkSize(len) > H.HEADER
  {
  }

  /** A page that starts below the end of the kernel's window ends there at the latest. */
  lemma PageBelow(mem: nat)
    requires KERNEL_BASE <= mem < KERNEL_BASE + 0x4000_0000 && mem % 0x1000 == 0
    ensures (mem - KERNEL_BASE) % 0x1000 == 0 && mem - KERNEL_BASE + 0x1000 <= 0x4000_0000
  {
    QuotientIs(mem - KERNEL_BASE, 0x1000, mem / 0x1000 - 0x800_0000, 0);
  }

  lemma StartRange(m: Mm, m1: Mm, owner: Owner, pinned: Pins, mem: nat, len: nat)
    requires Good(m1, owner, pinned) && Fresh(m, m1, mem, len) && mem % 0x1000 == 0 && len <= 0x1000
    ensures StartChunk(m1, mem - KERNEL_BASE, len) && Physical(mem) == Returned(mem - KERNEL_BASE)
    ensures !H.Live(m.heap, mem - H.HEADER)
  {
    hide Owned, H.Inv, Mapped, H.ChunkSize, Physical;
    LivePlaced(m1, mem - H.HEADER);
    ChunkRoom(len);
    BaseBit(mem);
    PageBelow(mem);
  }

  lemma ChunkGrows(m: Mm, m': Mm, sp: nat, len: nat)
    requires StartChunk(m, sp, len) && Grows(m, m')
    ensures StartChunk(m', sp, len)
  {
    hide H.ChunkSize;
  }

  /** The start page: mapped one to one for reading and writing, everything else as before. */
  lemma StartPageCorrect(m: Mm, owner: Owner, pinned: Pins, len: nat) returns (owner': Owner)
    requires Good(m, owner, pinned) && 0 < len <= 0x1000
    ensures StartPage(m, len).Returned? || StartPage(m, len).Erased?
    ensures StartPage(m, len).Returned? ==>
              var (m', sp) := StartPage(m, len).value;
              && Good(m', owner', pinned.WithLoose(sp)) && Grows(m, m') && m'.last == m.last
              && StartChunk(m', sp, len) && !H.Live(m.heap, ChunkAt(sp))
              && Maps(m.ts, m'.ts, sp, 0x1000, sp, PROT_RW)
  {
    hide Good, Alloc, AddTransUser, Maps, Grows, H.Live, ClearBase, UserRangeOk, H.ChunkSize, H.Refused;
    owner' := owner;
    AllocCoreGood(m, owner, pinned, len);
    if Alloc(m, len, H.PAGE_ALIGN).Returned? {
      var (m1, mem) := Alloc(m, len, H.PAGE_ALIGN).value;
      var sp := mem - KERNEL_BASE;
      StartRange(m, m1, owner, pinned, mem, len);
      Runs.PinLoose(m1, owner, pinned, sp) by { FreshUnused(m, m1, owner, pinned, mem, len); }
      LowRange(sp);
      owner' := AddTransUserCorrect(m1, owner, pinned.WithLoose(sp), sp, sp, PROT_RW);
      if AddTransUser(m1, sp, sp, PROT_RW).Returned? {
        var m' := AddTransUser(m1, sp, sp, PROT_RW).value;
        GrowsTrans(m, m1, m');
        ChunkGrows(m1, m', sp, len);
      }
    }
  }

  /** What the start page costs at most. */
  function PageCost(len: nat): nat {
    0x1000 + H.ChunkSize(len) + 3 * TABLE_COST
  }

  lemma StartPageSucceeds(m: Mm, owner: Owner, pinned: Pins, len: nat)
    requires Good(m, owner, pinned) && 0 < len <= 0x1000 && PageCost(len) <= m.heap.topSize
    ensures StartPage(m, len).Returned? && m.heap.topSize - PageCost(len) <= StartPage(m, len).value.0.heap.topSize
  {
    hide Good, AddTransUser, Maps, Grows, H.Live, ClearBase, UserRangeOk, H.ChunkSize, H.Refused, H.Kmalloc, Blit;
    assert H.Inv(m.heap) by { GoodCore(m, owner, pinned); CoreShape(m, owner); }
    H.AlignedFits(m.heap, len);
    AllocCoreGood(m, owner, pinned, len);
    var (m1, mem) := Alloc(m, len, H.PAGE_ALIGN).value;
    StartRange(m, m1, owner, pinned, mem, len);
    LowRange(mem - KERNEL_BASE);
    AddTransUserSucceeds(m1, owner, pinned, mem - KERNEL_BASE, mem - KERNEL_BASE, PROT_RW);
  }

  /** The bytes of RAM from sp on are those that mem has there. */
  ghost predicate RamShows(ram: seq<byte>, mem: B.Mem, sp: nat, len: nat) {
    sp + len <= |ram| && forall x: nat | sp <= x < sp + len :: ram[x] == B.Rd(mem, x)
  }

  /** An argument block of args on the kernel's first stack, from argv up to its end. */
  ghost predicate KernelArgs(ram: seq<byte>, argv: nat, args: seq<seq<byte>>) {
    && args != [] && argv + 8 * (|args| + 1) <= 0x20_0000
    && ArgvAt(Low(ram), argv, args, argv + 8 * (|args| + 1), 0x20_0000)
    && B.Rd64(Low(ram), argv + 8 * (|args| - 1)) + |args[|args| - 1]| + 1 == 0x20_0000
  }

  lemma LowSame(m: Mm, m': Mm)
    requires Grows(m, m')
    ensures Low(m'.ram) == Low(m.ram)
  {
    assert PS_LIMIT == 0x20_0000;
    forall x: nat | x < 0x20_0000 ensures RamAt(m'.ram, x) == RamAt(m.ram, x) {
    }
  }

  /** What switch_user leaves: the page at sp holds the block, relocated, in a chunk of its own
      and is mapped one to one; argv[0] in the kernel's own copy is the first pointer of it. */
  ghost predicate Switched(m: Mm, m': Mm, owner': Owner, pinned: Pins, argv: nat, args: seq<seq<byte>>, sp: nat)
    requires args != [] && argv <= 0x20_0000 && TotalLen(Low(m.ram), |args|, argv) >= 0
  {
    var mem := SwitchUser(Low(m.ram), |args|, argv, sp);
    && Good(m', owner', pinned.WithLoose(sp)) && m'.last == m.last
    && StartChunk(m', sp, 0x20_0000 - argv)
    && Maps(m.ts, m'.ts, sp, 0x1000, sp, PROT_RW)
    && RamShows(m'.ram, mem, sp, 0x20_0000 - argv)
    && B.Rd64(Low(m'.ram), argv) == B.Rd64(mem, sp)
  }

  lemma MovedBytes(ram: seq<byte>, ram': seq<byte>, mem: B.Mem, argc: nat, argv: nat, sp: nat, len: nat)
    requires 0 < argc && TotalLen(mem, argc, argv) == len && sp + len <= |ram|
    requires ram' == Blit(ram, sp, B.Load(Relocate(mem, argc, argv, sp, 0), argv, len))
    ensures RamShows(ram', SwitchUser(mem, argc, argv, sp), sp, len)
  {
    hide TotalLen, Relocate, B.Store;
    var moved := Relocate(mem, argc, argv, sp, 0);
    var data := B.Load(moved, argv, len);
    B.StoreEffect(moved, sp, data);
    forall x: nat | sp <= x < sp + len ensures ram'[x] == B.Rd(SwitchUser(mem, argc, argv, sp), x) {
      assert ram'[sp + (x - sp)] == data[x - sp];
    }
  }

  lemma LowRead(ram: seq<byte>, x: nat)
    requires x < 0x20_0000
    ensures B.Rd(Low(ram), x) == RamAt(ram, x)
  {
  }

  /** argv[0], relocated in place, and its copy on the page are the same pointer. */
  lemma FirstPointer(ram: seq<byte>, ram': seq<byte>, mem: B.Mem, argc: nat, argv: nat, sp: nat, len: nat)
    requires 0 < argc && TotalLen(mem, argc, argv) == len && sp + len <= |ram|
    requires 8 * argc <= len && argv + 8 * argc <= 0x20_0000 <= sp
    requires var moved := Relocate(mem, argc, argv, sp, 0);
             ram' == Blit(Blit(ram, argv, B.Load(moved, argv, 8 * argc)), sp, B.Load(moved, argv, len))
    ensures B.Rd64(Low(ram'), argv) == B.Rd64(SwitchUser(mem, argc, argv, sp), sp)
  {
    hide TotalLen, Relocate, B.Store, B.Rd64, Blit, Low;
    var moved := Relocate(mem, argc, argv, sp, 0);
    var inPlace := Blit(ram, argv, B.Load(moved, argv, 8 * argc));
    CopyEffect(moved, argv, sp, len);
    forall x: nat | argv <= x < argv + 8
      ensures B.Rd(Low(ram'), x) == B.Rd(SwitchUser(mem, argc, argv, sp), x - argv + sp)
    {
      LowRead(ram', x);
      assert inPlace[argv + (x - argv)] == B.Load(moved, argv, 8 * argc)[x - argv];
      assert ram'[x] == inPlace[x];
    }
    B.WordSame(Low(ram'), SwitchUser(mem, argc, argv, sp), argv, sp);
  }

  /** switch_user on every argument block of at most one page. */
  lemma SwitchToUserCorrect(m: Mm, owner: Owner, pinned: Pins, argv: nat, args: seq<seq<byte>>) returns (owner': Owner)
    requires Good(m, owner, pinned) && KernelArgs(m.ram, argv, args) && 0x20_0000 - argv <= 0x1000
    ensures TotalLen(Low(m.ram), |args|, argv) == 0x20_0000 - argv
    ensures var r := SwitchToUser(m, |args|, argv);
            && (r.Returned? || r.Erased?)
            && (StartPage(m, 0x20_0000 - argv).Returned? ==>
                  r.Returned? && r.value.1 == StartPage(m, 0x20_0000 - argv).value.1
                  && r.value.0.heap == StartPage(m, 0x20_0000 - argv).value.0.heap)
            && (r.Returned? ==> Switched(m, r.value.0, owner', pinned, argv, args, r.value.1))
  {
    hide Good, StartPage, Maps, Grows, Low, ArgvAt, B.Rd64, Relocate, SwitchUser, TotalLen, RamShows, BlockLen;
    var n, len := |args|, 0x20_0000 - argv;
    SwitchUserCorrect(Low(m.ram), argv, 0x20_0000, args, 0);
    BlockLenIs(Low(m.ram), n, argv);
    owner' := StartPageCorrect(m, owner, pinned, len);
    if StartPage(m, len).Returned? {
      var (m1, sp) := StartPage(m, len).value;
      SwitchUserCorrect(Low(m.ram), argv, 0x20_0000, args, sp);
      LowSame(m, m1);
      var moved := Relocate(Low(m1.ram), n, argv, sp, 0);
      var inPlace := Blit(m1.ram, argv, B.Load(moved, argv, 8 * n));
      var ram := Blit(inPlace, sp, B.Load(moved, argv, len));
      assert SwitchToUser(m, n, argv) == Returned((m1.(ram := ram), sp));
      GoodRam(m1, owner', pinned.WithLoose(sp), ram);
      MovedBytes(inPlace, ram, Low(m.ram), n, argv, sp, len);
      FirstPointer(m1.ram, ram, Low(m.ram), n, argv, sp, len);
    }
  }

  // ---------------------------------------------------------------- sys_open

  /** The host's files, by name. */
  type Files = map<seq<byte>, seq<byte>>

  /** The C string at p, as the host reads it. */
  function NameAt(ram: seq<byte>, p: nat): seq<byte>
    decreases |ram| - p
  {
    if p >= |ram| || ram[p] == 0 then [] else [ram[p]] + NameAt(ram, p + 1)
  }

  /** What copy_str_from_user asks for: the length is an int. */
  function NameSize(m: Mm, path: nat): nat {
    W(ToInt32(B.Strlen(UserMem(m), path)) + 1)
  }

  /** The host's answer to an open: the file, or its errno. */
  function Lookup(files: Files, errno: int, name: seq<byte>): Result<seq<byte>> {
    if name in files then Ok(files[name]) else Err(-errno)
  }

  function HostOpen(ram: seq<byte>, files: Files, errno: int, p: nat): Result<seq<byte>> {
    Lookup(files, errno, NameAt(ram, p))
  }

  /** The part of sys_open after the copy of the name at mem is made. */
  function OpenCopy(m: Mm, files: Files, errno: int, mem: nat): Outcome<(Mm, Result<seq<byte>>)> {
    var p :- Physical(mem);
    var h :- H.Kfree(m.heap, mem);
    Returned((m.(heap := h), HostOpen(m.ram, files, errno, p)))
  }

  /** sys_open with copy_str_from_user: the contents of the file, or an error code. */
  function SysOpen(m: Mm, files: Files, errno: int, path: nat): Outcome<(Mm, Result<seq<byte>>)> {
    if !AccessStringOk(m, path) then Returned((m, Err(-EFAULT)))
    else
      var n := NameSize(m, path);
      var d :- Alloc(m, n, H.NO_ALIGN);
      if d.1 == 0 then Returned((d.0, Err(-ENOMEM)))
      else
        var copied := d.0.(ram := Blit(d.0.ram, ClearBase(d.1), B.Load(UserMem(d.0), path, n)));
        OpenCopy(copied, files, errno, d.1)
  }

  lemma {:induction false} NameRead(ram: seq<byte>, p: nat, s: seq<byte>)
    requires B.Plain(s) && p + |s| < |ram|
    requires (forall i | 0 <= i < |s| :: ram[p + i] == s[i]) && ram[p + |s|] == 0
    ensures NameAt(ram, p) == s
    decreases |s|
  {
    if s != [] {
      assert ram[p + 0] == s[0];
      forall i | 0 <= i < |s[1..]| ensures ram[p + 1 + i] == s[1..][i] { assert ram[p + (1 + i)] == s[1 + i]; }
      NameRead(ram, p + 1, s[1..]);
    }
  }

  /** Writing into a scratch block and giving it back keeps everything live. */
  lemma ScratchGrows(m: Mm, m1: Mm, owner: Owner, pinned: Pins, m': Mm, mem: nat, data: seq<byte>)
    requires Good(m1, owner, pinned) && Grows(m, m1) && Fresh(m, m1, mem, |data|) && SameLive(m.heap, m'.heap)
    requires m'.ram == Blit(m1.ram, mem - KERNEL_BASE, data)
    ensures Grows(m, m')
  {
    hide Good, H.Inv, Blit, H.ChunkSize;
    var b := mem - H.HEADER;
    assert H.Inv(m1.heap) by { GoodCore(m1, owner, pinned); CoreShape(m1, owner); }
    forall c: nat, a: nat | H.Live(m.heap, c) && c <= KERNEL_BASE + a < c + m.heap.size[c] && a < |m.ram|
      ensures m'.ram[a] == m.ram[a]
    {
      LiveDisjoint(m1.heap, b, c);
    }
  }

  /** What the kernel reads at a string of the view, before and after an allocation. */
  lemma ReadsString(m: Mm, m1: Mm, dom: set<nat>, p: nat, s: seq<byte>)
    requires B.HasString(UserMem(m), p, s) && Within(dom, p, |s| + 1)
    requires Backed(m, dom) && Grows(m, m1) && m1.ts == m.ts
    ensures B.Strlen(UserMem(m), p) == |s| && B.Load(UserMem(m1), p, |s| + 1) == s + [0] && B.Plain(s)
  {
    hide B.HasString, UserMem, Grows, View, Backed, Agree, B.Strlen, B.Load;
    B.StrlenString(UserMem(m), p, s);
    ViewAgrees(m, dom, p, |s| + 1);
    StringAgrees(UserMem(m), View(m, dom), p, p + |s| + 1, p, s);
    ViewKept(m, m1, dom);
    BackedGrows(m, m1, dom);
    ViewAgrees(m1, dom, p, |s| + 1);
    StringAgrees(View(m1, dom), UserMem(m1), p, p + |s| + 1, p, s);
    B.StrlenString(UserMem(m1), p, s);
    StringParts(UserMem(m), p, s);
  }

  lemma LengthPlusOne(n: nat)
    requires n < 0x4000_0000
    ensures W(ToInt32(n) + 1) == n + 1
  {
    QuotientIs(n, 0x1_0000_0000, 0, n);
    SmallW(n + 1);
  }

  lemma FreshPlace(m: Mm, m1: Mm, owner: Owner, pinned: Pins, mem: nat, n: nat)
    requires Good(m1, owner, pinned) && Fresh(m, m1, mem, n) && 0 < n
    ensures ClearBase(mem) == mem - KERNEL_BASE && mem - KERNEL_BASE + n <= |m1.ram| && mem != 0
  {
    hide Owned, H.Inv, Mapped, TablesHeld, ClearBase;
    LivePlaced(m1, mem - H.HEADER);
    BaseBit(mem);
  }

  lemma BlitRead(ram: seq<byte>, p: nat, s: seq<byte>)
    requires B.Plain(s) && p + |s| + 1 <= |ram|
    ensures NameAt(Blit(ram, p, s + [0]), p) == s
  {
    hide Blit, NameAt;
    var r := Blit(ram, p, s + [0]);
    forall i | 0 <= i < |s| ensures r[p + i] == s[i] { assert r[p + i] == (s + [0])[i]; }
    assert r[p + |s|] == (s + [0])[|s|];
    NameRead(r, p, s);
  }

  /** sys_open of a name the user can read: the file of that name, with everything live kept. */
  lemma SysOpenCorrect(m: Mm, owner: Owner, pinned: Pins, files: Files, errno: int, dom: set<nat>, path: nat,
                       s: seq<byte>)
    requires Good(m, owner, pinned) && Backed(m, dom) && Within(dom, path, |s| + 1)
    requires ReadableString(m, path, s) && |s| < 0x4000_0000
    ensures var r := SysOpen(m, files, errno, path);
            && (r.Returned? || r.Erased?)
            && (Alloc(m, |s| + 1, H.NO_ALIGN).Returned? ==>
                  r.Returned? && Alloc(m, |s| + 1, H.NO_ALIGN).value.0.heap.topSize <= r.value.0.heap.topSize)
            && (r.Returned? ==>
                  var (m', f) := r.value;
                  && Good(m', owner, pinned) && Grows(m, m') && m'.ts == m.ts && m'.last == m.last
                  && SameLive(m.heap, m'.heap)
                  && f == Lookup(files, errno, s))
  {
    hide Good, Alloc, H.Kfree, Physical, SameLive, Grows, AccessStringOk, Backed, UserMem, B.Strlen, B.Load,
      B.HasString, Blit, NameAt, W, ToInt32, Fresh, ClearBase;
    var n := |s| + 1;
    StringIsOk(m, path, s) by { GoodKernel(m, owner, pinned); }
    assert Grows(m, m) by { GrowsRefl(m); }
    ReadsString(m, m, dom, path, s);
    LengthPlusOne(|s|);
    ScratchGood(m, owner, pinned, n, m.ram);
    if Alloc(m, n, H.NO_ALIGN).Returned? {
      var (m1, mem) := Alloc(m, n, H.NO_ALIGN).value;
      ReadsString(m, m1, dom, path, s);
      AllocGood(m, owner, pinned, n, H.NO_ALIGN);
      var p := mem - KERNEL_BASE;
      assert ClearBase(mem) == p && p + n <= |m1.ram| && mem != 0 by { FreshPlace(m, m1, owner, pinned, mem, n); }
      var ram := Blit(m1.ram, p, s + [0]);
      GrowsLength(m, m1);
      ScratchGood(m, owner, pinned, n, ram);
      BlitRead(m1.ram, p, s);
      var m' := m1.(heap := H.Kfree(m1.heap, mem).value, ram := ram);
      ScratchGrows(m, m1, owner, pinned, m', mem, s + [0]);
      FreeTop(m1.heap, mem);
    }
  }

  // ---------------------------------------------------------------- sys_execve

  /** How sys_execve ends: the process runs, or an error code; or load_binary has stopped with
      a code that is not negative, and sys_execve goes on with a stack pointer never set. */
  datatype ExecResult = Running(entry: nat, rsp: nat) | Failed(code: int) | Unset

  /** The part of sys_execve after the file was opened. */
  function RunFile(m: Mm, host: Host, fd: nat, argv: nat, envp: nat): Outcome<(Mm, ExecResult)> {
    var l :- LoadBinary(m, host, fd);
    match l.1
    case Stopped(code) => Returned((l.0, if code < 0 then Failed(code) else Unset))
    case Loaded(p) =>
      var c :- CreateElfInfo(l.0, p.rsp, argv, envp);
      match c.1
      case BadPointer => Returned((c.0, Failed(-EFAULT)))
      case Ready(rsp) => Returned((c.0, Running(W(p.entry + p.load), rsp)))
  }

  function Execve(m: Mm, files: Files, errno: nat, fd: nat, path: nat, argv: nat, envp: nat)
    : Outcome<(Mm, ExecResult)>
  {
    var o :- SysOpen(m, files, errno, path);
    match o.1
    case Err(code) => Returned((o.0, Failed(code)))
    case Ok(file) => RunFile(o.0, Host(Some(file), errno), fd, argv, envp)
  }

  /** switch_user: the kernel's argv[0] is the path, the moved vector and its final null are
      the arguments and the empty environment. */
  function StartProgram(m: Mm, files: Files, errno: nat, fd: nat, argc: nat, argv: nat): Outcome<(Mm, ExecResult)>
    requires 0 < argc
  {
    var r :- SwitchToUser(m, argc, argv);
    Execve(r.0, files, errno, fd, B.Rd64(Low(r.0.ram), argv), r.1, r.1 + 8 * argc)
  }

  // ---------------------------------------------------------------- the argument page

  predicate Between(lo: nat, hi: nat, x: nat) { lo <= x < hi }

  function Range(lo: nat, hi: nat): (r: set<nat>)
    ensures forall x: nat :: x in r <==> lo <= x < hi
  {
    set x: nat | lo <= x < hi && Between(lo, hi, x)
  }

  /** The user sees the argument block args on its page: the bytes of mem, of which they are
      a part. */
  ghost predicate BlockHere(m: Mm, mem: B.Mem, sp: nat, len: nat, args: seq<seq<byte>>) {
    && StartChunk(m, sp, len) && len <= 0x1000 && 8 * (|args| + 1) <= len && args != []
    && RamShows(m.ram, mem, sp, len)
    && ArgvAt(mem, sp, args, sp + 8 * (|args| + 1), sp + len)
    && (forall x: nat | sp <= x < sp + len :: Translate(m.ts, x, true, false) == Some(x))
  }

  lemma SwitchedBlock(m: Mm, m': Mm, owner': Owner, pinned: Pins, argv: nat, args: seq<seq<byte>>, sp: nat)
    requires KernelArgs(m.ram, argv, args) && 0x20_0000 - argv <= 0x1000
    requires TotalLen(Low(m.ram), |args|, argv) >= 0 && Switched(m, m', owner', pinned, argv, args, sp)
    ensures BlockHere(m', SwitchUser(Low(m.ram), |args|, argv, sp), sp, 0x20_0000 - argv, args)
  {
    hide Good, Translate, Low, ArgvAt, B.Rd64, Relocate, SwitchUser, TotalLen, RamShows, H.ChunkSize;
    SwitchUserCorrect(Low(m.ram), argv, 0x20_0000, args, sp);
    forall x: nat | sp <= x < sp + (0x20_0000 - argv) ensures Translate(m'.ts, x, true, false) == Some(x) {
      assert x % 0x1_0000_0000_0000 == x;
    }
  }

  /** The block stays while live memory is kept and its addresses lead where they led. */
  lemma BlockKept(m: Mm, m': Mm, mem: B.Mem, sp: nat, len: nat, args: seq<seq<byte>>)
    requires BlockHere(m, mem, sp, len, args) && Grows(m, m')
    requires forall x: nat | sp <= x < sp + len :: Translate(m'.ts, x, true, false) == Translate(m.ts, x, true, false)
    ensures BlockHere(m', mem, sp, len, args)
  {
    hide Translate, H.ChunkSize, ArgvAt;
    ChunkGrows(m, m', sp, len);
    var c := ChunkAt(sp);
    forall x: nat | sp <= x < sp + len ensures m'.ram[x] == B.Rd(mem, x) {
      assert H.Live(m.heap, c) && c <= KERNEL_BASE + x < c + m.heap.size[c];
    }
  }

  lemma BlockBacked(m: Mm, mem: B.Mem, sp: nat, len: nat, args: seq<seq<byte>>)
    requires BlockHere(m, mem, sp, len, args)
    ensures Backed(m, Range(sp, sp + len)) && Accessible(m.ts, false, sp, len)
    ensures Agree(mem, UserMem(m), sp, sp + len)
  {
    hide Translate, H.ChunkSize, ArgvAt, UserRangeOk;
    var c := ChunkAt(sp);
    forall x: nat | sp <= x < sp + len
      ensures LiveByte(m.heap, x) && ByteOk(m.ts, false, x) && x < |m.ram| && B.Rd(UserMem(m), x) == B.Rd(mem, x)
    {
      assert H.Live(m.heap, c) && c <= KERNEL_BASE + x < c + m.heap.size[c];
      LowRange(x);
      UserRd(m, x);
    }
  }

  lemma {:induction false} SizeFits(mem: B.Mem, ptrs: seq<nat>, ss: seq<seq<byte>>, lo: nat, hi: nat)
    requires StringsAt(mem, ptrs, ss, lo, hi) && lo <= hi
    ensures lo + B.Size(ss) <= hi
    decreases |ss|
  {
    hide B.HasString;
    if ss != [] {
      var n := |ss| - 1;
      SizeFits(mem, ptrs[..n], ss[..n], lo, ptrs[n]);
    }
  }

  lemma NoWords(mem: B.Mem, a: nat)
    ensures WordsAt(mem, a, [])
  {
  }

  /** On the page the user can read the vector, the empty environment after it and every
      string, all between sp and its end. */
  lemma BlockReadable(m: Mm, mem: B.Mem, sp: nat, len: nat, args: seq<seq<byte>>) returns (ptrs: seq<nat>)
    requires BlockHere(m, mem, sp, len, args)
    ensures UserStack.Readable(m, sp, ptrs, args) && UserStack.Readable(m, sp + 8 * |args|, [], [])
    ensures |ptrs| == |args| && ptrs[0] == B.Rd64(mem, sp)
    ensures forall i | 0 <= i < |args| :: sp <= ptrs[i] && ptrs[i] + |args[i]| + 1 <= sp + len
    ensures 8 * (|args| + 1) + B.Size(args) <= len
  {
    hide B.Rd64, B.HasString, B.Size, WordsAt, UserMem, Agree, StartChunk, RamShows, Translate, ByteOk, Backed;
    var n, um := |args|, UserMem(m);
    BlockBacked(m, mem, sp, len, args);
    ptrs :| WordsAt(mem, sp, ptrs) && StringsAt(mem, ptrs, args, sp + 8 * (n + 1), sp + len);
    WordAt(mem, sp, ptrs, 0);
    SizeFits(mem, ptrs, args, sp + 8 * (n + 1), sp + len);
    WordsAgree(mem, um, sp, sp + len, sp, ptrs);
    WordAgrees(mem, um, sp, sp + len, sp + 8 * n);
    forall i | 0 <= i < n ensures ReadableString(m, ptrs[i], args[i]) {
      StringAgrees(mem, um, sp, sp + len, ptrs[i], args[i]);
    }
    NoWords(um, sp + 8 * n);
  }

  // ---------------------------------------------------------------- the first stack

  const STACK_LOW: nat := STACK_BASE - STACK_SIZE
  const FIRST_RSP: nat := STACK_BASE - 0x1000

  /** The argument block and the stack: what create_elf_info reads and writes. */
  function StartDomain(sp: nat, len: nat): set<nat> {
    Range(sp, sp + len) + Range(STACK_LOW, STACK_BASE)
  }

  lemma StackLeads(m0: Mm, m: Mm, stack: nat)
    requires Leads(m0, m, STACK_LOW, STACK_SIZE, stack, PROT_RW) && KERNEL_BASE <= stack
    requires stack - KERNEL_BASE + STACK_SIZE <= |m.ram|
    ensures Window(m, STACK_LOW, STACK_SIZE, stack - KERNEL_BASE)
  {
    hide Translate, Block, H.Live;
  }

  /** After load_binary the stack is a window of the view, nothing of the argument block lies
      behind it, and every byte of the view leads to live memory. */
  lemma StackWindow(m0: Mm, m: Mm, owner: Owner, pinned: Pins, mem: B.Mem, sp: nat, len: nat, args: seq<seq<byte>>,
                    stack: nat)
    requires BlockHere(m, mem, sp, len, args) && Good(m, owner, pinned) && KERNEL_BASE <= stack
    requires StartChunk(m0, sp, len) && Leads(m0, m, STACK_LOW, STACK_SIZE, stack, PROT_RW)
    ensures Stack(m, StartDomain(sp, len), STACK_LOW, STACK_SIZE, stack - KERNEL_BASE)
    ensures Backed(m, StartDomain(sp, len))
  {
    hide Translate, H.ChunkSize, Owned, Mapped, H.Inv, TablesHeld, ArgvAt, RamShows;
    var c, d := ChunkAt(sp), stack - H.HEADER;
    assert H.Live(m.heap, c) && H.Live(m.heap, d) && c != d;
    LiveDisjoint(m.heap, c, d);
    BlockFits(m, owner, stack, STACK_SIZE);
    assert Backed(m, Range(sp, sp + len)) by { BlockBacked(m, mem, sp, len, args); }
    assert Window(m, STACK_LOW, STACK_SIZE, stack - KERNEL_BASE) by { StackLeads(m0, m, stack); }
    forall p: nat | stack <= KERNEL_BASE + p < stack + STACK_SIZE ensures LiveByte(m.heap, p) {
      assert H.Live(m.heap, d) && d <= KERNEL_BASE + p < d + m.heap.size[d];
    }
  }

  /** The initial stack is the same in memories that agree on it. */
  lemma InitialAgrees(mem: B.Mem, mem': B.Mem, rsp: nat, args: seq<seq<byte>>, slo: nat, top: nat)
    requires InitialStack(mem, rsp, args, [], slo, top, top) && Agree(mem, mem', rsp, top)
    ensures InitialStack(mem', rsp, args, [], slo, top, top)
  {
    hide B.Rd64, Agree, ArgvAt;
    WordAgrees(mem, mem', rsp, top, rsp);
    ArgvAgrees(mem, mem', rsp, top, rsp + 8, args, slo, top);
    ArgvAgrees(mem, mem', rsp, top, rsp + 8 + 8 * (|args| + 1), [], top, top);
  }

  lemma AgreePart(mem: B.Mem, mem': B.Mem, lo: nat, hi: nat, a: nat, b: nat)
    requires Agree(mem, mem', lo, hi) && lo <= a && b <= hi
    ensures Agree(mem, mem', a, b)
  {
  }

  lemma SizeNone()
    ensures B.Size([]) == 0
  {
  }

  lemma BlockBounds(m: Mm, mem: B.Mem, sp: nat, len: nat, args: seq<seq<byte>>)
    requires BlockHere(m, mem, sp, len, args)
    ensures sp + len <= STACK_LOW && 8 * (|args| + 1) <= len <= 0x1000
  {
  }

  lemma LiveByteSame(h: H.Heap, h': H.Heap, p: nat)
    requires SameLive(h, h') && LiveByte(h, p)
    ensures LiveByte(h', p)
  {
    var c: nat :| H.Live(h, c) && c <= KERNEL_BASE + p < c + h.size[c];
    assert H.Live(h', c) && c <= KERNEL_BASE + p < c + h'.size[c];
  }

  lemma BackedTouched(m: Mm, m': Mm, dom: set<nat>, phys: nat, k: nat)
    requires Backed(m, dom) && Touches(m, m', phys, k)
    ensures Backed(m', dom)
  {
    hide Translate, LiveByte, SameLive;
    forall x | x in dom ensures LiveByte(m'.heap, Translate(m.ts, x, true, false).value) {
      LiveByteSame(m.heap, m'.heap, Translate(m.ts, x, true, false).value);
    }
  }

  /** create_elf_info with the argument block on its page: the arguments arrive on the stack,
      as every user walk of the new state sees it. */
  lemma ArgumentsOnStack(m0: Mm, m: Mm, owner: Owner, pinned: Pins, mem: B.Mem, sp: nat, len: nat, args: seq<seq<byte>>,
                         stack: nat)
    requires BlockHere(m, mem, sp, len, args) && Good(m, owner, pinned) && KERNEL_BASE <= stack
    requires StartChunk(m0, sp, len) && Leads(m0, m, STACK_LOW, STACK_SIZE, stack, PROT_RW)
    ensures var r := CreateElfInfo(m, FIRST_RSP, sp, sp + 8 * |args|);
            && (r.Returned? || r.Erased?)
            && (Alloc(m, 8 * (|args| + 2), H.NO_ALIGN).Returned? ==> r.Returned?)
            && (r.Returned? ==>
                  && r.value.1.Ready?
                  && Good(r.value.0, owner, pinned) && Touches(m, r.value.0, stack - KERNEL_BASE, STACK_SIZE)
                  && B.Size(args) <= FIRST_RSP && STACK_LOW <= r.value.1.rsp
                  && r.value.1.rsp == FinalRsp(FIRST_RSP - B.Size(args), |args| + 3)
                  && InitialStack(UserMem(r.value.0), r.value.1.rsp, args, [], FIRST_RSP - B.Size(args), FIRST_RSP,
                                  FIRST_RSP))
  {
    hide Good, Leads, BlockHere, StartChunk, CreateElfInfo, InitialStack, Touches, UserStack.Readable, B.Size, Backed,
      Stack, Alloc, View, UserMem, WritesOnly, Agree;
    var n, dom := |args|, StartDomain(sp, len);
    assert sp + len <= STACK_LOW && 8 * (n + 1) <= len <= 0x1000 by { BlockBounds(m, mem, sp, len, args); }
    var ptrs := BlockReadable(m, mem, sp, len, args);
    StackWindow(m0, m, owner, pinned, mem, sp, len, args, stack);
    assert B.Size([]) == 0 by { SizeNone(); }
    CreateElfInfoCorrect(m, owner, pinned, dom, STACK_LOW, STACK_SIZE, stack - KERNEL_BASE, FIRST_RSP, sp, ptrs, args,
                         sp + 8 * n, [], []);
    var r := CreateElfInfo(m, FIRST_RSP, sp, sp + 8 * n);
    if r.Returned? {
      var m', rsp := r.value.0, r.value.1.rsp;
      BackedTouched(m, m', dom, stack - KERNEL_BASE, STACK_SIZE);
      ViewAgrees(m', dom, STACK_LOW, STACK_SIZE);
      AgreePart(View(m', dom), UserMem(m'), STACK_LOW, STACK_BASE, rsp, FIRST_RSP);
      InitialAgrees(View(m', dom), UserMem(m'), rsp, args, FIRST_RSP - B.Size(args), FIRST_RSP);
    }
  }

  // ---------------------------------------------------------------- end to end

  /** A program ready to run: each byte of its segments and the initial stack with its
      arguments are what the user's walks find, and all of the stack can be written. */
  ghost predicate ProgramReady(m: Mm, owner: Owner, pinned: Pins, file: seq<byte>, hdr: seq<byte>,
                               args: seq<seq<byte>>, res: ExecResult) {
    && res.Running? && CheckHeader(hdr).Ok?
    && Good(m, owner, pinned)
    && res.entry == W(EEntry(hdr) + CheckHeader(hdr).value)
    && (forall i: nat, k: nat | i < EPhnum(hdr) && IsLoad(hdr, i) && k < PhdrAt(hdr, i).memsz ::
          SegByteShown(m, file, CheckHeader(hdr).value, PhdrAt(hdr, i), k))
    && Accessible(m.ts, true, 0x7fff_fffb_f000, 0x4_0000)
    && STACK_LOW <= res.rsp && B.Size(args) <= FIRST_RSP
    && res.rsp == FinalRsp(FIRST_RSP - B.Size(args), |args| + 3)
    && InitialStack(UserMem(m), res.rsp, args, [], FIRST_RSP - B.Size(args), FIRST_RSP, FIRST_RSP)
  }

  /** No segment touches the page at sp. */
  ghost predicate PageFree(hdr: seq<byte>, sp: nat) {
    CheckHeader(hdr).Ok? &&
    forall x: nat | sp <= x < sp + 0x1000 :: Untouched(hdr, CheckHeader(hdr).value, EPhnum(hdr), x)
  }

  /** The header page of a file, and what is asked of it: it passes the checks, and its
      segments are proper, on pages of their own, off the stack and off the page at sp. */
  function HeaderFor(file: seq<byte>, errno: nat): seq<byte> {
    HeaderOf(Host(Some(file), errno))
  }

  ghost predicate GoodFile(hdr: seq<byte>, sp: nat) {
    PageFree(hdr, sp) && Loadable(hdr, CheckHeader(hdr).value, EPhnum(hdr))
  }

  ghost predicate AllFits(hdr: seq<byte>) {
    CheckHeader(hdr).Ok? && AllFit(hdr, CheckHeader(hdr).value, EPhnum(hdr))
  }

  lemma ByteTouched(m: Mm, m': Mm, x: nat, b: byte, prot: nat, mem: nat, n: nat)
    requires ShowsByte(m, x, b, prot) && KERNEL_BASE <= mem && Touches(m, m', mem - KERNEL_BASE, n)
    requires OffBlock(m.ts, x, mem, n)
    ensures ShowsByte(m', x, b, prot)
  {
    hide Translate, LiveByte, SameLive;
    LiveByteSame(m.heap, m'.heap, Translate(m.ts, x, false, false).value);
  }

  lemma SegTouched(m: Mm, m': Mm, file: seq<byte>, load: nat, ph: Phdr, k: nat, mem: nat, n: nat)
    requires SegByteShown(m, file, load, ph, k) && SegOff(m.ts, load, ph, mem, n) && k < ph.memsz
    requires KERNEL_BASE <= mem && Touches(m, m', mem - KERNEL_BASE, n)
    ensures SegByteShown(m', file, load, ph, k)
  {
    hide ShowsByte, Touches, OffBlock, SegByteShown;
    SegByteIs(m, file, load, ph, k);
    SegByteIs(m', file, load, ph, k);
    ByteTouched(m, m', load + ph.vaddr + k, SegByte(file, ph, k), PfToProt(ph.flags), mem, n);
  }

  lemma StackWritable(m0: Mm, m: Mm, m': Mm, stack: nat, phys: nat, k: nat)
    requires Leads(m0, m, STACK_LOW, STACK_SIZE, stack, PROT_RW) && Touches(m, m', phys, k)
    ensures Accessible(m'.ts, true, STACK_LOW, STACK_SIZE)
  {
    hide Translate, Block, H.Live, SameLive;
  }

  /** load_binary leaves the argument block on its page. */
  lemma BlockLoaded(m: Mm, m': Mm, mem: B.Mem, sp: nat, len: nat, args: seq<seq<byte>>, hdr: seq<byte>)
    requires BlockHere(m, mem, sp, len, args) && Grows(m, m') && PageFree(hdr, sp)
    requires KeptBelowStack(m.ts, m'.ts, hdr, CheckHeader(hdr).value, EPhnum(hdr))
    ensures BlockHere(m', mem, sp, len, args)
  {
    hide Grows, Translate, Untouched, CheckHeader, EPhnum, RamShows, ArgvAt, H.ChunkSize;
    BlockKept(m, m', mem, sp, len, args);
  }

  lemma BlockChunk(m: Mm, mem: B.Mem, sp: nat, len: nat, args: seq<seq<byte>>)
    requires BlockHere(m, mem, sp, len, args)
    ensures StartChunk(m, sp, len)
  {
  }

  lemma ReadyTouched(m0: Mm, m: Mm, m': Mm, file: seq<byte>, hdr: seq<byte>, load: nat, stack: nat)
    requires forall i: nat, k: nat | i < EPhnum(hdr) && IsLoad(hdr, i) && k < PhdrAt(hdr, i).memsz ::
               SegByteShown(m, file, load, PhdrAt(hdr, i), k)
    requires forall i: nat | i < EPhnum(hdr) && IsLoad(hdr, i) ::
               SegOff(m.ts, load, PhdrAt(hdr, i), stack, STACK_SIZE)
    requires KERNEL_BASE <= stack && Touches(m, m', stack - KERNEL_BASE, STACK_SIZE)
    requires Leads(m0, m, STACK_LOW, STACK_SIZE, stack, PROT_RW)
    ensures forall i: nat, k: nat | i < EPhnum(hdr) && IsLoad(hdr, i) && k < PhdrAt(hdr, i).memsz ::
              SegByteShown(m', file, load, PhdrAt(hdr, i), k)
    ensures Accessible(m'.ts, true, STACK_LOW, STACK_SIZE)
  {
    hide SegByteShown, SegOff, Touches, Leads, EPhnum, IsLoad, PhdrAt, Accessible;
    forall i: nat, k: nat | i < EPhnum(hdr) && IsLoad(hdr, i) && k < PhdrAt(hdr, i).memsz
      ensures SegByteShown(m', file, load, PhdrAt(hdr, i), k)
    {
      SegTouched(m, m', file, load, PhdrAt(hdr, i), k, stack, STACK_SIZE);
    }
    StackWritable(m0, m, m', stack, stack - KERNEL_BASE, STACK_SIZE);
  }

  /** The program of a file whose segments are proper, page-disjoint, and off the stack and the
      argument page: whenever it is running, it is ready; and the arguments themselves never
      stop it. */
  lemma RunFileCorrect(m: Mm, owner: Owner, pinned: Pins, mem: B.Mem, sp: nat, len: nat, args: seq<seq<byte>>,
                       file: seq<byte>, errno: nat, fd: nat) returns (owner': Owner, pinned': Pins)
    requires Good(m, owner, pinned) && Last(m) % 0x1000 == 0 && BlockHere(m, mem, sp, len, args)
    requires GoodFile(HeaderFor(file, errno), sp)
    ensures var host := Host(Some(file), errno);
            var (r, l) := (RunFile(m, host, fd, sp, sp + 8 * |args|), LoadBinary(m, host, fd));
            && (r.Returned? && r.value.1.Running? ==>
                  ProgramReady(r.value.0, owner', pinned', file, HeaderFor(file, errno), args, r.value.1))
            && (l.Returned? && l.value.1.Loaded? ==>
                  && (r.Erased? || (r.Returned? && r.value.1.Running?))
                  && (Alloc(l.value.0, 8 * (|args| + 2), H.NO_ALIGN).Returned? ==> r.Returned?))
  {
    hide Good, LoadBinary, CreateElfInfo, BlockHere, PageFree, Loadable, HeaderOf, CheckHeader, EPhnum, EEntry,
      PhdrAt, IsLoad, SegByteShown, SegOff, Shows, KeptBelowStack, Leads, Grows, InitialStack, Touches, Alloc,
      StartChunk, UserMem, W, B.Size, Accessible;
    var host, n := Host(Some(file), errno), |args|;
    var hdr := HeaderOf(host);
    var stack;
    owner', pinned', stack := LoadBinaryCorrect(m, owner, pinned, file, errno, fd);
    var l := LoadBinary(m, host, fd);
    if l.Returned? && l.value.1.Loaded? {
      var m1 := l.value.0;
      assert CheckHeader(hdr).Ok?;
      BlockLoaded(m, m1, mem, sp, len, args, hdr);
      ArgumentsOnStack(m, m1, owner', pinned', mem, sp, len, args, stack) by { BlockChunk(m, mem, sp, len, args); }
      var c := CreateElfInfo(m1, FIRST_RSP, sp, sp + 8 * n);
      if c.Returned? {
        ReadyTouched(m, m1, c.value.0, file, hdr, l.value.1.p.load, stack);
      }
    }
  }

  /** What sys_execve costs at most: the copy of the name, the program, the copy array. */
  function ExecCost(hdr: seq<byte>, args: seq<seq<byte>>): nat
    requires args != []
  {
    H.ChunkSize(|args[0]| + 1) + LoadCost(hdr) + H.ChunkSize(8 * (|args| + 2))
  }

  lemma FreeOk(hdr: seq<byte>, sp: nat)
    requires PageFree(hdr, sp)
    ensures CheckHeader(hdr).Ok?
  {
  }

  lemma OpenFits(m: Mm, owner: Owner, pinned: Pins, n: nat)
    requires Good(m, owner, pinned) && 0 < n < TWO32 && H.ChunkSize(n) <= m.heap.topSize
    ensures Alloc(m, n, H.NO_ALIGN).Returned?
    ensures m.heap.topSize - H.ChunkSize(n) <= Alloc(m, n, H.NO_ALIGN).value.0.heap.topSize
  {
    hide Good, H.Kmalloc, Blit, H.ChunkSize;
    assert H.Inv(m.heap) by { GoodCore(m, owner, pinned); CoreShape(m, owner); }
    H.UnalignedFits(m.heap, n);
  }

  lemma FirstFits(m: Mm, mem: B.Mem, sp: nat, len: nat, args: seq<seq<byte>>)
    requires BlockHere(m, mem, sp, len, args)
    ensures args != [] && |args[0]| < 0x1000 && 8 * (|args| + 2) < TWO32
  {
    hide ArgvAt, RamShows, StartChunk, Translate, UserStack.Readable;
    var ptrs := BlockReadable(m, mem, sp, len, args);
  }

  /** The path is the first argument, and opening it keeps the block. */
  lemma OpenFirst(m: Mm, owner: Owner, pinned: Pins, mem: B.Mem, sp: nat, len: nat, args: seq<seq<byte>>,
                  files: Files, errno: nat)
    requires Good(m, owner, pinned) && BlockHere(m, mem, sp, len, args) && args != []
    ensures var r := SysOpen(m, files, errno, B.Rd64(mem, sp));
            && (r.Returned? || r.Erased?)
            && (Alloc(m, |args[0]| + 1, H.NO_ALIGN).Returned? ==>
                  r.Returned? && Alloc(m, |args[0]| + 1, H.NO_ALIGN).value.0.heap.topSize <= r.value.0.heap.topSize)
            && (r.Returned? ==>
                  && Good(r.value.0, owner, pinned) && r.value.0.last == m.last && r.value.0.ts == m.ts
                  && BlockHere(r.value.0, mem, sp, len, args)
                  && r.value.1 == Lookup(files, errno, args[0]))
  {
    hide Good, SysOpen, BlockHere, Grows, Alloc, StartChunk, UserMem, B.Rd64, B.Size, Backed, ReadableString,
      Translate, Lookup;
    var s := args[0];
    FirstFits(m, mem, sp, len, args);
    var ptrs := BlockReadable(m, mem, sp, len, args);
    assert ReadableString(m, ptrs[0], s) && sp <= ptrs[0] && ptrs[0] + |s| + 1 <= sp + len;
    BlockBacked(m, mem, sp, len, args);
    SysOpenCorrect(m, owner, pinned, files, errno, Range(sp, sp + len), ptrs[0], s);
    var r := SysOpen(m, files, errno, ptrs[0]);
    if r.Returned? { BlockKept(m, r.value.0, mem, sp, len, args); }
  }

  /** With memory for it, the program is loaded, and the copy array can still be had. */
  lemma LoadedFits(m: Mm, owner: Owner, pinned: Pins, file: seq<byte>, errno: nat, fd: nat, sp: nat, n: nat)
    requires Good(m, owner, pinned) && Last(m) % 0x1000 == 0 && 8 * (n + 2) < TWO32
    requires var hdr := HeaderFor(file, errno);
             && GoodFile(hdr, sp) && AllFits(hdr)
             && LoadCost(hdr) + H.ChunkSize(8 * (n + 2)) <= m.heap.topSize
    ensures var l := LoadBinary(m, Host(Some(file), errno), fd);
            l.Returned? && l.value.1.Loaded? && Alloc(l.value.0, 8 * (n + 2), H.NO_ALIGN).Returned?
  {
    hide Good, PageFree, Loadable, HeaderOf, CheckHeader, EPhnum, EEntry, AllFit, LoadCost, LoadBinary, H.ChunkSize,
      Alloc, Grows, Shows, KeptBelowStack, Leads, SegOff, SegByteShown, IsLoad, PhdrAt;
    LoadBinarySucceeds(m, owner, pinned, file, errno, fd);
    var owner', pinned', stack := LoadBinaryCorrect(m, owner, pinned, file, errno, fd);
    OpenFits(LoadBinary(m, Host(Some(file), errno), fd).value.0, owner', pinned', 8 * (n + 2));
  }

  /** sys_execve with the argument block on its page: it runs the file named by the first
      argument. */
  lemma ExecveCorrect(m: Mm, owner: Owner, pinned: Pins, mem: B.Mem, sp: nat, len: nat, args: seq<seq<byte>>,
                      files: Files, errno: nat, fd: nat) returns (owner': Owner, pinned': Pins)
    requires Good(m, owner, pinned) && Last(m) % 0x1000 == 0 && BlockHere(m, mem, sp, len, args)
    requires args != [] && args[0] in files && GoodFile(HeaderFor(files[args[0]], errno), sp)
    ensures var hdr := HeaderFor(files[args[0]], errno);
            var r := Execve(m, files, errno, fd, B.Rd64(mem, sp), sp, sp + 8 * |args|);
            && (r.Returned? && r.value.1.Running? ==>
                  ProgramReady(r.value.0, owner', pinned', files[args[0]], hdr, args, r.value.1))
            && (AllFits(hdr) && ExecCost(hdr, args) <= m.heap.topSize ==> r.Returned? && r.value.1.Running?)
  {
    hide Good, SysOpen, RunFile, BlockHere, GoodFile, HeaderFor, Grows, Alloc, StartChunk, UserMem, B.Rd64, B.Size,
      ProgramReady, AllFits, LoadCost, LoadBinary, Backed, Within, ReadableString, UserStack.Readable, H.ChunkSize;
    FirstFits(m, mem, sp, len, args);
    var file := files[args[0]];
    OpenFirst(m, owner, pinned, mem, sp, len, args, files, errno);
    owner', pinned' := owner, pinned;
    var o := SysOpen(m, files, errno, B.Rd64(mem, sp));
    if o.Returned? {
      var m1 := o.value.0;
      assert Last(m1) == Last(m);
      owner', pinned' := RunFileCorrect(m1, owner, pinned, mem, sp, len, args, file, errno, fd);
      var hdr := HeaderFor(file, errno);
      if AllFits(hdr) && LoadCost(hdr) + H.ChunkSize(8 * (|args| + 2)) <= m1.heap.topSize {
        LoadedFits(m1, owner, pinned, file, errno, fd, sp, |args|);
      }
    }
    if H.ChunkSize(|args[0]| + 1) <= m.heap.topSize { OpenFits(m, owner, pinned, |args[0]| + 1); }
  }

  // ---------------------------------------------------------------- from boot

  lemma CopyArgvRsp(mem: B.Mem, args: seq<seq<byte>>)
    requires B.Size(args) + 16 + 8 * (|args| + 2) <= 0x20_0000
    ensures 0x20_0000 - CopyArgv(mem, 0x20_0000, args).1 <= B.Size(args) + 15 + 8 * (|args| + 2)
  {
    hide PushWords, PushStrings, B.Size;
    PushSp(mem, 0x20_0000, args);
  }

  /** What copy_argv leaves on the kernel's first stack is an argument block; it is at most a
      page long when the arguments are. */
  lemma CopiedArgs(ram: seq<byte>, mem: B.Mem, args: seq<seq<byte>>)
    requires args != [] && Strings(args) && |args| < TWO32
    requires B.Size(args) + 16 + 8 * (|args| + 2) <= 0x20_0000
    requires var (mem', rsp) := CopyArgv(mem, 0x20_0000, args);
             forall x: nat | rsp <= x < 0x20_0000 :: RamAt(ram, x) == B.Rd(mem', x)
    ensures var rsp := CopyArgv(mem, 0x20_0000, args).1;
            && KernelArgs(ram, rsp + 8, args)
            && B.Rd64(Low(ram), rsp) == |args|
            && 0x20_0000 - (rsp + 8) <= B.Size(args) + 15 + 8 * (|args| + 1)
  {
    hide B.Rd64, B.Size, CopyArgv, ArgvAt, Low, RamAt, WritesOnly, Strings;
    CopyArgvCorrect(mem, 0x20_0000, args);
    CopyArgvRsp(mem, args);
    var (mem', rsp) := CopyArgv(mem, 0x20_0000, args);
    var n := |args|;
    forall x: nat | rsp <= x < 0x20_0000 ensures B.Rd(Low(ram), x) == B.Rd(mem', x) { LowRead(ram, x); }
    ArgvAgrees(mem', Low(ram), rsp, 0x20_0000, rsp + 8, args, rsp + 8 * (n + 2), 0x20_0000);
    B.WordSame(Low(ram), mem', rsp, rsp);
    B.WordSame(Low(ram), mem', rsp + 8 + 8 * (n - 1), rsp + 8 * n);
  }

  lemma BootMemory(h: H.Heap, n: nat)
    requires h == H.Heap(KERNEL_BASE + PS_LIMIT, KERNEL_BASE + PS_LIMIT, h.topSize, map[], []) && 0 < n < TWO32
    ensures var r := H.Kmalloc(h, n, H.PAGE_ALIGN);
            r.Returned? ==> r.value.1 == 0 || r.value.1 == KERNEL_BASE + 0x20_1000
  {
    hide H.Kfree, H.ChunkSize;
    assert H.Gap(h.top) == 0xff0;
  }

  /** From boot, the argument page is the one at 0x201000. */
  lemma BootPage(ram: seq<byte>, len: nat, n: nat)
    requires PS_LIMIT + len <= |ram| <= 0x4000_0000 && len != 0 && len % 0x1000 == 0 && 0 < n <= 0x1000
    ensures Runs.Boot(ram, len).Returned?
    ensures var m := Runs.Boot(ram, len).value.m;
            && m.ram == ram && m.heap.topSize == len && Last(m) % 0x1000 == 0
            && (StartPage(m, n).Returned? ==> StartPage(m, n).value.1 == 0x20_1000)
  {
    hide AddTransUser, Blit, H.ChunkSize;
    var m := Runs.Boot(ram, len).value.m;
    assert H.Gap(m.heap.top) == 0xff0;
    BootMemory(m.heap, n);
  }

  /** The command line is in RAM as copy_argv puts it on the kernel's first stack, which starts
      at the end of the first 2MB, and fits on a page. */
  ghost predicate CommandLine(ram: seq<byte>, mem: B.Mem, args: seq<seq<byte>>) {
    && args != [] && Strings(args) && B.Size(args) + 15 + 8 * (|args| + 1) <= 0x1000
    && var (mem', rsp) := CopyArgv(mem, 0x20_0000, args);
       forall x: nat | rsp <= x < 0x20_0000 :: RamAt(ram, x) == B.Rd(mem', x)
  }

  /** rsp as copy_argv leaves it. */
  function KernelRsp(mem: B.Mem, args: seq<seq<byte>>): nat {
    if B.Size(args) + 16 + 8 * (|args| + 2) <= 0x20_0000 then CopyArgv(mem, 0x20_0000, args).1 else 0
  }

  /** What the start of a program costs at most. */
  function StartCost(hdr: seq<byte>, args: seq<seq<byte>>): nat
    requires args != []
  {
    PageCost(0x1000) + ExecCost(hdr, args)
  }

  lemma PageCostMono(n: nat)
    requires n <= 0x1000
    ensures PageCost(n) <= PageCost(0x1000)
  {
  }

  lemma ArgsBelow(ram: seq<byte>, argv: nat, args: seq<seq<byte>>)
    requires KernelArgs(ram, argv, args)
    ensures argv < 0x20_0000
  {
  }

  lemma SwitchPage(m: Mm, argc: nat, argv: nat, size: nat)
    requires 0 < argc && TotalLen(Low(m.ram), argc, argv) == size < 0x8000_0000 && SwitchToUser(m, argc, argv).Returned?
    ensures StartPage(m, size).Returned? && SwitchToUser(m, argc, argv).value.1 == StartPage(m, size).value.1
  {
    hide StartPage, Low, TotalLen, Relocate, Blit, BlockLen;
    BlockLenIs(Low(m.ram), argc, argv);
  }

  /** End to end.  copy_argv, boot, switch_user, sys_open, load_binary and create_elf_info, for
      every command line that fits on a page and every file of its first word whose segments
      are proper, on pages of their own, and off the stack and the page at 0x201000: whenever
      the program runs, its image is in memory, and the user finds the same strings in the
      same order on the first stack, with an empty environment, in the form the psABI asks
      for.  With memory for it, it does run. */
  lemma ArgumentsArrive(ram: seq<byte>, len: nat, mem: B.Mem, args: seq<seq<byte>>, files: Files, errno: nat, fd: nat)
    returns (owner': Owner, pinned': Pins)
    requires PS_LIMIT + len <= |ram| <= 0x4000_0000 && len != 0 && len % 0x1000 == 0
    requires CommandLine(ram, mem, args) && args[0] in files
    requires GoodFile(HeaderFor(files[args[0]], errno), 0x20_1000)
    ensures B.Rd64(Low(ram), KernelRsp(mem, args)) == |args|
    ensures Runs.Boot(ram, len).Returned?
    ensures var hdr := HeaderFor(files[args[0]], errno);
            var r := StartProgram(Runs.Boot(ram, len).value.m, files, errno, fd, |args|, KernelRsp(mem, args) + 8);
            && (r.Returned? && r.value.1.Running? ==>
                  ProgramReady(r.value.0, owner', pinned', files[args[0]], hdr, args, r.value.1))
            && (AllFits(hdr) && StartCost(hdr, args) <= len ==> r.Returned? && r.value.1.Running?)
  {
    hide Good, Runs.Boot, CopyArgv, Low, SwitchToUser, Execve, BlockHere, GoodFile, HeaderFor, B.Rd64, B.Size,
      ProgramReady, AllFits, TotalLen, KernelArgs, Strings, RamAt, StartPage, PageCost, ExecCost, Runs.LastOk,
      SwitchUser, StartChunk, RamShows, Maps;
    Runs.BootSafe(ram, len);
    var s := Runs.Boot(ram, len).value;
    var m, pins, n, argv := s.m, s.mapped, |args|, KernelRsp(mem, args) + 8;
    CopiedArgs(ram, mem, args);
    assert argv < 0x20_0000 by { ArgsBelow(ram, argv, args); }
    var size := 0x20_0000 - argv;
    BootPage(ram, len, size);
    owner' := SwitchToUserCorrect(m, BootOwner(), pins, argv, args);
    pinned' := pins;
    var r := SwitchToUser(m, n, argv);
    if r.Returned? {
      var (m1, sp) := r.value;
      assert sp == 0x20_1000 by { SwitchPage(m, n, argv, size); }
      SwitchedBlock(m, m1, owner', pins, argv, args, sp);
      var block := SwitchUser(Low(m.ram), n, argv, sp);
      assert Last(m1) == Last(m);
      owner', pinned' := ExecveCorrect(m1, owner', pins.WithLoose(sp), block, sp, size, args, files, errno, fd);
    }
    if StartCost(HeaderFor(files[args[0]], errno), args) <= len {
      PageCostMono(size);
      StartPageSucceeds(m, BootOwner(), pins, size);
    }
  }

  // ---------------------------------------------------------------- refusals

  /** sys_open answers -EFAULT, with nothing changed, when no string starts at the path, and only
      then: else the answer is the file, the host's error, or -ENOMEM. */
  lemma OpenFaults(m: Mm, files: Files, errno: int, path: nat)
    requires KernelPart(m.ts)
    ensures !(exists end: nat :: StringAt(m, path, end)) ==> SysOpen(m, files, errno, path) == Returned((m, Err(-14)))
    ensures (exists end: nat :: StringAt(m, path, end)) && SysOpen(m, files, errno, path).Returned? ==>
              var f := SysOpen(m, files, errno, path).value.1;
              f.Ok? || f == Err(-errno) || f == Err(-12)
  {
    hide KernelPart, AccessStringOk, StringAt, Alloc, Physical, H.Kfree, NameAt, UserMem, NameSize;
    AccessStringMeaning(m, path);
  }

  lemma RefusalCodes(hdr: seq<byte>)
    ensures CheckHeader(hdr).Err? ==> CheckHeader(hdr).code == -8 || CheckHeader(hdr).code == -22
  {
  }

  lemma RunFileRefused(m: Mm, owner: Owner, pinned: Pins, file: seq<byte>, errno: nat, fd: nat, argv: nat, envp: nat)
    requires Good(m, owner, pinned) && CheckHeader(HeaderFor(file, errno)).Err?
    ensures var r := RunFile(m, Host(Some(file), errno), fd, argv, envp);
            r.Returned? ==> r.value.1 == Failed(CheckHeader(HeaderFor(file, errno)).code) && r.value.0.ts == m.ts
  {
    hide Good, LoadBinary, HeaderOf, CheckHeader, Grows;
    LoadBinaryRefused(m, owner, pinned, file, errno, fd);
    RefusalCodes(HeaderFor(file, errno));
  }

  /** sys_execve of a file that the host does not have fails with the host's error, and maps
      nothing. */
  lemma ExecveMissing(m: Mm, owner: Owner, pinned: Pins, mem: B.Mem, sp: nat, len: nat, args: seq<seq<byte>>,
                      files: Files, errno: nat, fd: nat)
    requires Good(m, owner, pinned) && BlockHere(m, mem, sp, len, args) && args != [] && args[0] !in files
    ensures var r := Execve(m, files, errno, fd, B.Rd64(mem, sp), sp, sp + 8 * |args|);
            r.Returned? ==> r.value.1 == Failed(0 - errno) && r.value.0.ts == m.ts
  {
    hide Good, SysOpen, RunFile, BlockHere, Grows, Alloc, StartChunk, UserMem, B.Rd64;
    OpenFirst(m, owner, pinned, mem, sp, len, args, files, errno);
  }

  /** sys_execve of a file whose header fails the checks fails with their code, and maps
      nothing. */
  lemma ExecveRefused(m: Mm, owner: Owner, pinned: Pins, mem: B.Mem, sp: nat, len: nat, args: seq<seq<byte>>,
                      files: Files, file: seq<byte>, errno: nat, fd: nat)
    requires Good(m, owner, pinned) && BlockHere(m, mem, sp, len, args) && args != []
    requires Lookup(files, errno, args[0]) == Ok(file) && CheckHeader(HeaderFor(file, errno)).Err?
    ensures var r := Execve(m, files, errno, fd, B.Rd64(mem, sp), sp, sp + 8 * |args|);
            r.Returned? ==> r.value.1 == Failed(CheckHeader(HeaderFor(file, errno)).code) && r.value.0.ts == m.ts
  {
    hide Good, SysOpen, RunFile, BlockHere, HeaderFor, CheckHeader, Grows, Alloc, StartChunk, UserMem, B.Rd64, Lookup;
    OpenFirst(m, owner, pinned, mem, sp, len, args, files, errno);
    var o := SysOpen(m, files, errno, B.Rd64(mem, sp));
    if o.Returned? {
      RunFileRefused(o.value.0, owner, pinned, file, errno, fd, sp, sp + 8 * |args|);
    }
  }
}
