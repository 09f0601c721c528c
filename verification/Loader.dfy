/**
  load_binary (kernel/syscalls/sys_execve.c): the program headers of an ELF file become
  mappings, and what a process then sees at its addresses.
 */
module Loader {
  import opened Machine
  import opened Paging
  import opened Memory
  import opened Mapping
  import opened Protect
  import opened FileMap
  import B = ByteMemory
  import H = Heap

  const PT_LOAD: nat := 1
  const PROT_RW: nat := 3
  const DYN_BASE: nat := 0x5555_5555_4000
  const STACK_BASE: nat := 0x7fff_ffff_f000
  const STACK_SIZE: nat := 0x4_0000

  // ---------------------------------------------------------------- headers

  function ByteAt(b: seq<byte>, o: nat, i: int): byte {
    if 0 <= o + i < |b| then b[o + i] else 0
  }

  function Field(b: seq<byte>, o: nat, n: nat): seq<byte> {
    seq(n, i => ByteAt(b, o, i))
  }

  /** The little-endian number in n bytes at offset o; bytes past the end count as zero. */
  function Le(b: seq<byte>, o: nat, n: nat): nat {
    B.Num(Field(b, o, n))
  }

  datatype Phdr = Phdr(ptype: nat, flags: nat, offset: nat, vaddr: nat, filesz: nat, memsz: nat)

  function PhdrAt(hdr: seq<byte>, i: nat): Phdr {
    var o := 64 + 56 * i;
    Phdr(Le(hdr, o, 4), Le(hdr, o + 4, 4), Le(hdr, o + 8, 8),
         Le(hdr, o + 16, 8), Le(hdr, o + 32, 8), Le(hdr, o + 40, 8))
  }

  const IDENT: seq<byte> := [0x7f, 0x45, 0x4c, 0x46, 2, 1, 1, 0, 0, 0, 0, 0, 0, 0, 0, 0]

  function EType(hdr: seq<byte>): nat { Le(hdr, 16, 2) }
  function EEntry(hdr: seq<byte>): nat { Le(hdr, 24, 8) }
  function EPhoff(hdr: seq<byte>): nat { Le(hdr, 32, 8) }
  function EPhentsize(hdr: seq<byte>): nat { Le(hdr, 54, 2) }
  function EPhnum(hdr: seq<byte>): nat { Le(hdr, 56, 2) }

  /** pf_to_prot: read is bit 2 of the flags, write bit 1, execute bit 0. */
  function PfToProt(pf: nat): nat {
    Flag(pf / 4 % 2 == 1, 1) + Flag(pf / 2 % 2 == 1, 2) + Flag(pf % 2 == 1, 4)
  }

  // ---------------------------------------------------------------- load_binary

  /** 64-bit wrap-around. */
  function W(x: int): nat { x % 0x1_0000_0000_0000_0000 }

  lemma WMeaning(x: int)
    ensures 0 <= W(x) < 0x1_0000_0000_0000_0000 && (x - W(x)) % 0x1_0000_0000_0000_0000 == 0
  {
    QuotientIs(x - W(x), 0x1_0000_0000_0000_0000, x / 0x1_0000_0000_0000_0000, 0);
  }

  /** One PT_LOAD header: None when the loop goes on, or the code load_binary returns. */
  function LoadSegment(m: Mm, host: Host, fd: nat, load: nat, ph: Phdr): Outcome<(Mm, Option<int>)> {
    var st, ed := W(load + PageDown(ph.vaddr)), W(load + PageUp(W(ph.vaddr + ph.filesz)));
    var prot := PfToProt(ph.flags);
    var r :- SysMmap(m, host, st, W(ph.filesz + ph.offset % 0x1000), prot, true, fd, PageDown(ph.offset));
    match r.1
    case Error(code) => Returned((r.0, Some(code)))
    case At(a) =>
      if a != st then Returned((r.0, Some(ToInt32(a))))
      else
        var bssEnd := W(load + PageUp(W(ph.vaddr + ph.memsz)));
        if ph.memsz <= ph.filesz || bssEnd == ed then Returned((r.0, None))
        else
          var b :- Mmap(r.0, ed, W(bssEnd - ed), prot);
          Returned((b.0, if b.1 != ed then Some(-ENOMEM) else None))
  }

  function LoadSegments(m: Mm, host: Host, fd: nat, load: nat, hdr: seq<byte>, n: nat, i: nat)
    : Outcome<(Mm, Option<int>)>
    requires i <= n
    decreases n - i
  {
    if i == n then Returned((m, None))
    else if PhdrAt(hdr, i).ptype != PT_LOAD then LoadSegments(m, host, fd, load, hdr, n, i + 1)
    else
      var r :- LoadSegment(m, host, fd, load, PhdrAt(hdr, i));
      if r.1.Some? then Returned(r) else LoadSegments(r.0, host, fd, load, hdr, n, i + 1)
  }

  datatype Process = Process(load: nat, entry: nat, rsp: nat)

  datatype LoadResult = Loaded(p: Process) | Stopped(code: int)

  datatype Result<+T> = Ok(value: T) | Err(code: int)

  /** The header checks: the load address, or the error code. */
  function CheckHeader(hdr: seq<byte>): Result<nat>
  {
    if |hdr| < 16 || hdr[..16] != IDENT then Err(-ENOEXEC)
    else if EType(hdr) != 2 && EType(hdr) != 3 then Err(-ENOEXEC)
    else if EPhoff(hdr) != 64 || EPhentsize(hdr) != 56 || 64 + 56 * EPhnum(hdr) > 0x1000 then Err(-EINVAL)
    else Ok(if EType(hdr) == 3 then DYN_BASE else 0)
  }

  /** A field that lies inside the bytes is the little-endian number in them. */
  lemma LeIs(b: seq<byte>, o: nat, n: nat)
    requires o + n <= |b|
    ensures Le(b, o, n) == B.Num(b[o..o + n])
  {
    assert Field(b, o, n) == b[o..o + n];
  }

  /** What the first 64 bytes decide, from the bytes alone: wrong identification or a type other
      than 2 and 3 is -ENOEXEC; program headers that do not follow at 64, are not 56 bytes each or
      leave the first page are -EINVAL; else type 2 is loaded at 0, type 3 at 0x555555554000. */
  lemma HeaderChecked(hdr: seq<byte>)
    requires |hdr| >= 64
    ensures CheckHeader(hdr)
         == if hdr[..16] != [0x7f, 0x45, 0x4c, 0x46, 2, 1, 1, 0, 0, 0, 0, 0, 0, 0, 0, 0] then Err(-8)
            else if hdr[17] != 0 || hdr[16] !in {2, 3} then Err(-8)
            else if hdr[32] != 64 || (exists i :: 33 <= i < 40 && hdr[i] != 0) then Err(-22)
            else if hdr[54] != 56 || hdr[55] != 0 then Err(-22)
            else if 64 + 56 * (hdr[56] as int + 256 * hdr[57] as int) > 0x1000 then Err(-22)
            else if hdr[16] == 2 then Ok(0)
            else Ok(0x5555_5555_4000)
  {
    hide Le, B.Num;
    LeIs(hdr, 16, 2);
    B.NumShort(hdr[16..18]);
    LeIs(hdr, 54, 2);
    B.NumShort(hdr[54..56]);
    LeIs(hdr, 56, 2);
    B.NumShort(hdr[56..58]);
    LeIs(hdr, 32, 8);
    var off := hdr[32..40];
    B.NumSmall(off, 64);
    assert off[0] == hdr[32];
    if i :| 33 <= i < 40 && hdr[i] != 0 { assert off[i - 32] != 0; }
    if i :| 1 <= i < 8 && off[i] != 0 { assert hdr[i + 32] != 0; }
  }

  predicate IsLoad(hdr: seq<byte>, i: nat) { PhdrAt(hdr, i).ptype == PT_LOAD }

  /** Program header i by its bytes, and when it is one to load. */
  lemma PhdrBytes(hdr: seq<byte>, i: nat)
    requires 64 + 56 * (i + 1) <= |hdr|
    ensures var o, ph := 64 + 56 * i, PhdrAt(hdr, i);
            && ph.flags == B.Num(hdr[o + 4..o + 8]) && ph.offset == B.Num(hdr[o + 8..o + 16])
            && ph.vaddr == B.Num(hdr[o + 16..o + 24])
            && ph.filesz == B.Num(hdr[o + 32..o + 40]) && ph.memsz == B.Num(hdr[o + 40..o + 48])
            && (IsLoad(hdr, i) <==> hdr[o..o + 4] == [1, 0, 0, 0])
  {
    hide Le, B.Num;
    var o := 64 + 56 * i;
    LeIs(hdr, o, 4);
    LeIs(hdr, o + 4, 4);
    LeIs(hdr, o + 8, 8);
    LeIs(hdr, o + 16, 8);
    LeIs(hdr, o + 32, 8);
    LeIs(hdr, o + 40, 8);
    B.NumSmall(hdr[o..o + 4], 1);
  }

  /** The entry point and the number of program headers by their bytes. */
  lemma HeaderNumbers(hdr: seq<byte>)
    requires |hdr| >= 64
    ensures EEntry(hdr) == B.Num(hdr[24..32]) && EPhnum(hdr) == hdr[56] as int + 256 * hdr[57] as int
  {
    hide Le, B.Num;
    LeIs(hdr, 24, 8);
    LeIs(hdr, 56, 2);
    B.NumShort(hdr[56..58]);
  }

  /** Segment flags are 4 to read, 2 to write, 1 to execute; protections 1, 2 and 4. */
  lemma FlagNumbers(flags: nat, u: bool, w: bool)
    ensures Allows(PfToProt(flags), u, w) <==> (u ==> flags / 4 % 2 == 1) && (w ==> flags / 2 % 2 == 1)
    ensures flags < 8 ==> PfToProt(flags) == [0, 4, 2, 6, 1, 5, 3, 7][flags]
  {
  }

  /** Segments, then the stack. */
  function LoadImage(m: Mm, host: Host, fd: nat, hdr: seq<byte>): Outcome<(Mm, LoadResult)> {
    match CheckHeader(hdr)
    case Err(code) => Returned((m, Stopped(code)))
    case Ok(load) =>
      var r :- LoadSegments(m, host, fd, load, hdr, EPhnum(hdr), 0);
      if r.1.Some? then Returned((r.0, Stopped(r.1.value)))
      else
        var s :- Mmap(r.0, STACK_BASE - STACK_SIZE, STACK_SIZE, PROT_RW);
        if s.1 != STACK_BASE - STACK_SIZE then Returned((s.0, Stopped(-ENOMEM)))
        else Returned((s.0, Loaded(Process(load, EEntry(hdr), STACK_BASE - 0x1000))))
  }

  /** load_binary: the first page of the file is read into a buffer that stays allocated. */
  function LoadBinary(m: Mm, host: Host, fd: nat): Outcome<(Mm, LoadResult)> {
    var b :- Alloc(m, 0x1000, H.NO_ALIGN);
    var p :- Physical(b.1);
    var m1 :- HpRead(b.0, host, 0, Some(p), 0x1000);
    LoadImage(m1, host, fd, if p + 0x1000 <= |m1.ram| then m1.ram[p..p + 0x1000] else [])
  }

  // ---------------------------------------------------------------- what a process sees

  /** Address x leads to a byte b, for the accesses that prot allows and no others. */
  ghost predicate ShowsByte(m: Mm, x: nat, b: byte, prot: nat) {
    var t := Translate(m.ts, x, false, false);
    && t.Some? && t.value < |m.ram| && m.ram[t.value] == b && LiveByte(m.heap, t.value)
    && forall u, w :: Translate(m.ts, x, u, w) == if Allows(prot, u, w) then t else None
  }

  /** If x lies in the range of data, put at lo, it leads to its byte of data. */
  ghost predicate ShowsAt(m: Mm, lo: nat, data: seq<byte>, prot: nat, x: nat) {
    lo <= x < lo + |data| ==> ShowsByte(m, x, data[x - lo], prot)
  }

  ghost predicate Shows(m: Mm, lo: nat, data: seq<byte>, prot: nat) {
    forall x: nat :: ShowsAt(m, lo, data, prot, x)
  }

  lemma ByteKept(m: Mm, m': Mm, x: nat, b: byte, prot: nat)
    requires ShowsByte(m, x, b, prot) && Grows(m, m')
    requires forall u, w :: Translate(m'.ts, x, u, w) == Translate(m.ts, x, u, w)
    ensures ShowsByte(m', x, b, prot)
  {
    hide Translate, Grows, LiveByte;
    LiveByteKept(m, m', Translate(m.ts, x, false, false).value);
  }

  /** Only translations inside va..va+len differ. */
  ghost predicate Elsewhere(ts: Tables, ts': Tables, va: nat, len: nat) {
    forall x: nat, u, w | !(va <= x % 0x1_0000_0000_0000 < va + len) ::
      Translate(ts', x, u, w) == Translate(ts, x, u, w)
  }

  lemma MapsElsewhere(ts: Tables, ts': Tables, va: nat, len: nat, phys: nat, prot: nat)
    requires Maps(ts, ts', va, len, phys, prot)
    ensures Elsewhere(ts, ts', va, len)
  {
    hide Translate;
  }

  lemma ElsewhereJoined(a: Tables, b: Tables, c: Tables, lo: nat, n: nat, k: nat)
    requires Elsewhere(a, b, lo, n) && Elsewhere(b, c, lo + n, k)
    ensures Elsewhere(a, c, lo, n + k)
  {
    hide Translate;
  }

  /** What is shown stays shown while live memory is kept and other addresses are mapped. */
  lemma ShowsKept(m: Mm, m': Mm, lo: nat, data: seq<byte>, prot: nat, va: nat, len: nat)
    requires Shows(m, lo, data, prot) && Grows(m, m') && Elsewhere(m.ts, m'.ts, va, len)
    requires lo + |data| <= TWO48 && (lo + |data| <= va || va + len <= lo)
    ensures Shows(m', lo, data, prot)
  {
    hide Translate, ShowsByte, Grows;
    forall x: nat ensures ShowsAt(m', lo, data, prot, x) {
      assert ShowsAt(m, lo, data, prot, x);
      if lo <= x < lo + |data| {
        assert x % 0x1_0000_0000_0000 == x;
        ByteKept(m, m', x, data[x - lo], prot);
      }
    }
  }

  lemma ShowsJoined(m: Mm, lo: nat, d: seq<byte>, e: seq<byte>, prot: nat)
    requires Shows(m, lo, d, prot) && Shows(m, lo + |d|, e, prot)
    ensures Shows(m, lo, d + e, prot)
  {
    hide ShowsByte;
    forall x: nat ensures ShowsAt(m, lo, d + e, prot, x) {
      assert ShowsAt(m, lo, d, prot, x) && ShowsAt(m, lo + |d|, e, prot, x);
    }
  }

  /** The bytes of a mapped block: data, then zeros. */
  function Padded(data: seq<byte>, len: nat): (r: seq<byte>)
    requires |data| <= len
    ensures |r| == len
    ensures forall i | 0 <= i < len :: r[i] == if i < |data| then data[i] else 0
  {
    data + Zeros(len - |data|)
  }

  lemma FilledByte(m: Mm, m': Mm, va: nat, len: nat, mem: nat, prot: nat, data: seq<byte>, x: nat)
    requires Block(m', mem, len) && Holds(m', mem, len, data) && Maps(m.ts, m'.ts, va, len, mem - KERNEL_BASE, prot)
    requires va <= x < va + len && x < TWO48
    ensures ShowsByte(m', x, if x - va < |data| then data[x - va] else 0, prot)
  {
    hide Translate;
    assert x % 0x1_0000_0000_0000 == x;
    var p := mem - KERNEL_BASE + x - va;
    assert Translate(m'.ts, x, false, false) == Some(p);
    var c := mem - H.HEADER;
    assert H.Live(m'.heap, c) && c <= KERNEL_BASE + p < c + m'.heap.size[c];
  }

  lemma FilledShows(m: Mm, m': Mm, owner: Owner, pinned: Pins, va: nat, len: nat, mem: nat, prot: nat, data: seq<byte>)
    requires Filled(m, m', owner, pinned, va, len, mem, prot, data) && va + len <= TWO48
    ensures |data| <= len && Shows(m', va, Padded(data, len), prot)
  {
    FilledParts(m, m', owner, pinned, va, len, mem, prot, data);
    assert |data| <= len;
    hide Filled, ShowsByte, Maps, Block, Holds;
    forall x: nat ensures ShowsAt(m', va, Padded(data, len), prot, x) {
      if va <= x < va + len { FilledByte(m, m', va, len, mem, prot, data, x); }
    }
  }

  // ---------------------------------------------------------------- segments

  function SegLo(load: nat, ph: Phdr): nat { load + PageDown(ph.vaddr) }

  /** Bytes of whole pages that the segment touches in memory, and bytes read from the file. */
  function SegLen(ph: Phdr): int { PageUp(ph.vaddr + ph.memsz) - PageDown(ph.vaddr) }

  function FileLen(ph: Phdr): nat { ph.filesz + ph.offset % 0x1000 }

  /** What the format asks of a loadable segment, within the user's address space and the
      32-bit offsets of the seek hypercall. */
  predicate SegOk(load: nat, ph: Phdr) {
    && load % 0x1000 == 0
    && ph.vaddr % 0x1000 == ph.offset % 0x1000
    && ph.filesz <= ph.memsz
    && ph.offset < 0x8000_0000
    && load + PageUp(ph.vaddr + ph.memsz) <= TWO48
  }

  lemma SplitPage(x: nat)
    ensures PageDown(x) % 0x1000 == 0 && x == PageDown(x) + x % 0x1000
  {
  }

  lemma PageSum(x: int, y: int)
    requires y % 0x1000 == 0
    ensures (x + y) % 0x1000 == x % 0x1000
  {
    QuotientIs(x + y, 0x1000, x / 0x1000 + y / 0x1000, x % 0x1000);
  }

  lemma RoundFrom(base: nat, n: nat)
    requires base % 0x1000 == 0
    ensures PageUp(base + n) == base + PageUp(n) && PageUp(n) % 0x1000 == 0 && n <= PageUp(n)
  {
    PageSum(n, base);
    UpAligned(n);
  }

  lemma RoundMono(x: nat, y: nat)
    requires x <= y
    ensures PageUp(x) <= PageUp(y) && PageUp(x) % 0x1000 == 0 && PageUp(y) % 0x1000 == 0
  {
    UpAligned(x);
    UpAligned(y);
    hide PageUp;
    var i, j := PageUp(x) / 0x1000, PageUp(y) / 0x1000;
    assert PageUp(x) == 0x1000 * i && PageUp(y) == 0x1000 * j;
  }

  lemma SegRounded(load: nat, ph: Phdr)
    requires SegOk(load, ph)
    ensures PageUp(ph.vaddr + ph.filesz) == PageDown(ph.vaddr) + PageUp(FileLen(ph)) <= PageUp(ph.vaddr + ph.memsz)
    ensures FileLen(ph) <= PageUp(FileLen(ph)) <= SegLen(ph)
    ensures SegLo(load, ph) % 0x1000 == 0 && SegLen(ph) % 0x1000 == 0 && PageUp(FileLen(ph)) % 0x1000 == 0
  {
    hide PageUp, PageDown;
    var base, lo := PageDown(ph.vaddr), SegLo(load, ph);
    SplitPage(ph.vaddr);
    RoundFrom(base, FileLen(ph));
    RoundMono(ph.vaddr + ph.filesz, ph.vaddr + ph.memsz);
    PageSum(load, base);
    PageSum(PageUp(ph.vaddr + ph.memsz) - base, base);
  }

  lemma SmallOffset(o: nat)
    requires o < 0x8000_0000
    ensures PageDown(o) % 0x1_0000_0000 == PageDown(o)
  {
    QuotientIs(PageDown(o), 0x1_0000_0000, 0, PageDown(o));
  }

  lemma SmallW(k: nat)
    requires k < TWO64
    ensures W(k) == k
  {
    QuotientIs(k, 0x1_0000_0000_0000_0000, 0, k);
  }

  /** The 64-bit arithmetic of load_binary on a segment does not wrap. */
  lemma SegArith(load: nat, ph: Phdr)
    requires SegOk(load, ph)
    ensures W(load + PageDown(ph.vaddr)) == SegLo(load, ph) && SegLo(load, ph) % 0x1000 == 0
    ensures W(ph.filesz + ph.offset % 0x1000) == FileLen(ph) < TWO64
    ensures W(load + PageUp(W(ph.vaddr + ph.filesz))) == SegLo(load, ph) + PageUp(FileLen(ph))
    ensures W(load + PageUp(W(ph.vaddr + ph.memsz))) == SegLo(load, ph) + SegLen(ph)
    ensures FileLen(ph) <= PageUp(FileLen(ph)) <= SegLen(ph)
    ensures SegLen(ph) % 0x1000 == 0 && PageUp(FileLen(ph)) % 0x1000 == 0
    ensures SegLo(load, ph) + SegLen(ph) <= TWO48
    ensures PageDown(ph.offset) % 0x1_0000_0000 == PageDown(ph.offset)
  {
    hide W, PageUp, PageDown;
    SegRounded(load, ph);
    UpAligned(ph.vaddr + ph.memsz);
    SplitPage(ph.vaddr);
    SmallOffset(ph.offset);
    assert ph.vaddr + ph.memsz < TWO64 && load + PageUp(ph.vaddr + ph.memsz) < TWO64;
    SmallW(load + PageDown(ph.vaddr));
    SmallW(FileLen(ph));
    SmallW(ph.vaddr + ph.filesz);
    SmallW(ph.vaddr + ph.memsz);
    SmallW(load + PageUp(ph.vaddr + ph.filesz));
    SmallW(load + PageUp(ph.vaddr + ph.memsz));
  }

  /** The memory image of a segment, from the start of its first page. */
  function Image(host: Host, ph: Phdr): seq<byte>
    requires SegLen(ph) >= FileLen(ph)
  {
    Padded(FileBytes(host, PageDown(ph.offset), FileLen(ph)), SegLen(ph))
  }

  lemma FileBytesAt(file: seq<byte>, errno: nat, pos: nat, n: nat, i: nat)
    requires i < n
    ensures var d := FileBytes(Host(Some(file), errno), pos, n);
            (i < |d| <==> pos + i < |file|) && (i < |d| ==> d[i] == file[pos + i])
  {
  }

  /** The segment's bytes in its image: the file's, where the file has them, up to filesz,
      then zeros up to memsz. */
  lemma ImageBytes(file: seq<byte>, errno: nat, load: nat, ph: Phdr, k: nat)
    requires SegOk(load, ph) && k < ph.memsz
    ensures FileLen(ph) <= SegLen(ph)
    ensures ph.vaddr % 0x1000 + k < SegLen(ph)
    ensures Image(Host(Some(file), errno), ph)[ph.vaddr % 0x1000 + k]
         == if k < ph.filesz && ph.offset + k < |file| then file[ph.offset + k] else 0
  {
    hide FileBytes, PageUp, W;
    SegArith(load, ph);
    RoundFrom(0, ph.vaddr + ph.memsz);
    var i, o := ph.vaddr % 0x1000 + k, PageDown(ph.offset);
    assert o + i == ph.offset + k && (i < FileLen(ph) <==> k < ph.filesz);
    if k < ph.filesz { FileBytesAt(file, errno, o, FileLen(ph), i); }
    FileBytesLength(Host(Some(file), errno), o, FileLen(ph));
    hide PageDown, SegLen, FileLen, SegOk;
  }

  ghost predicate SegShown(m: Mm, host: Host, load: nat, ph: Phdr) {
    && FileLen(ph) <= SegLen(ph)
    && Shows(m, SegLo(load, ph), Image(host, ph), PfToProt(ph.flags))
  }

  /** From m to m' one region was added for the segment and nothing else changed for anyone. */
  ghost predicate SegAdded(m: Mm, m': Mm, owner': Owner, pinned': Pins, lo: nat, len: nat) {
    && Good(m', owner', pinned') && Last(m') % 0x1000 == 0
    && Grows(m, m') && Elsewhere(m.ts, m'.ts, lo, len)
  }

  lemma LastMoved(m: Mm, m': Mm, va: nat)
    requires Last(m) % 0x1000 == 0 && va % 0x1000 == 0 && (m'.last == Last(m) || m'.last == va)
    ensures Last(m') % 0x1000 == 0
  {
  }

  lemma SysPart(m: Mm, owner: Owner, pinned: Pins, host: Host, fd: nat, load: nat, ph: Phdr)
    returns (owner': Owner, pinned': Pins)
    requires Good(m, owner, pinned) && Last(m) % 0x1000 == 0 && SegOk(load, ph)
    ensures var lo, len := SegLo(load, ph), PageUp(FileLen(ph));
            var r := SysMmap(m, host, lo, FileLen(ph), PfToProt(ph.flags), true, fd, PageDown(ph.offset));
            r.Returned? && r.value.1 == At(lo) ==>
              && lo != 0 && SegAdded(m, r.value.0, owner', pinned', lo, len)
              && |FileBytes(host, PageDown(ph.offset), FileLen(ph))| <= len
              && Shows(r.value.0, lo, Padded(FileBytes(host, PageDown(ph.offset), FileLen(ph)), len),
                       PfToProt(ph.flags))
  {
    hide Good, SysMmap, Filled, Shows, PageUp, PageDown, UserPages, FileBytes, SegOk, Place, Elsewhere, H.Refused,
      H.ChunkSize, Invalid, SeekFails;
    SegArith(load, ph);
    var lo, prot := SegLo(load, ph), PfToProt(ph.flags);
    var mem;
    owner', mem := SysMmapCorrect(m, owner, pinned, host, lo, FileLen(ph), prot, true, fd, PageDown(ph.offset));
    pinned' := pinned;
    var r := SysMmap(m, host, lo, FileLen(ph), prot, true, fd, PageDown(ph.offset));
    if r.Returned? && r.value.1 == At(lo) {
      var data := FileBytes(host, PageDown(ph.offset), FileLen(ph));
      FilledParts(m, r.value.0, owner', pinned, lo, PageUp(FileLen(ph)), mem, prot, data);
      pinned' := pinned.With(mem - H.HEADER);
      FilledShows(m, r.value.0, owner', pinned, lo, PageUp(FileLen(ph)), mem, prot, data);
      MapsElsewhere(m.ts, r.value.0.ts, lo, PageUp(FileLen(ph)), mem - KERNEL_BASE, prot);
      LastMoved(m, r.value.0, lo);
    }
  }

  /** From m to m' a block mem was taken, which va..va+len leads to in order. */
  ghost predicate Leads(m: Mm, m': Mm, va: nat, len: nat, mem: nat, prot: nat) {
    && Block(m', mem, len) && !H.Live(m.heap, mem - H.HEADER)
    && forall x: nat, u, w | va <= x < va + len ::
         Translate(m'.ts, x, u, w) == if Allows(prot, u, w) then Some(mem - KERNEL_BASE + x - va) else None
  }

  lemma MapsLead(m: Mm, m': Mm, owner': Owner, pinned: Pins, va: nat, len: nat, mem: nat, prot: nat)
    requires Filled(m, m', owner', pinned, va, len, mem, prot, []) && va + len <= TWO48
    ensures Leads(m, m', va, len, mem, prot)
  {
    hide Translate, Good, Grows, Holds, Block, Backs;
    forall x: nat, u, w | va <= x < va + len
      ensures Translate(m'.ts, x, u, w) == if Allows(prot, u, w) then Some(mem - KERNEL_BASE + x - va) else None
    {
      assert x % 0x1_0000_0000_0000 == x;
    }
  }

  lemma BssPart(m: Mm, owner: Owner, pinned: Pins, lo: nat, len: nat, prot: nat)
    returns (owner': Owner, pinned': Pins, mem: nat)
    requires Good(m, owner, pinned) && Last(m) % 0x1000 == 0
    requires lo % 0x1000 == 0 && len % 0x1000 == 0 && lo + len <= TWO48
    ensures var r := Mmap(m, lo, len, prot);
            r.Returned? && r.value.1 == lo && lo != 0 ==>
              && SegAdded(m, r.value.0, owner', pinned', lo, len) && Shows(r.value.0, lo, Padded([], len), prot)
              && KERNEL_BASE <= mem && Leads(m, r.value.0, lo, len, mem, prot)
  {
    hide Good, Mmap, Mmapped, Filled, Shows, UserPages, Place, Elsewhere, Leads, H.Refused, H.ChunkSize;
    owner', mem := MmapAnywhere(m, owner, pinned, lo, len, prot);
    pinned' := pinned;
    var r := Mmap(m, lo, len, prot);
    if r.Returned? && r.value.1 == lo && lo != 0 {
      MmappedFilled(m, r.value.0, owner', pinned, lo, len, mem, prot);
      FilledParts(m, r.value.0, owner', pinned, lo, len, mem, prot, []);
      pinned' := pinned.With(mem - H.HEADER);
      FilledShows(m, r.value.0, owner', pinned, lo, len, mem, prot, []);
      MapsLead(m, r.value.0, owner', pinned, lo, len, mem, prot);
      MapsElsewhere(m.ts, r.value.0.ts, lo, len, mem - KERNEL_BASE, prot);
      LastMoved(m, r.value.0, lo);
    }
  }

  lemma PaddedJoined(data: seq<byte>, n: nat, k: nat)
    requires |data| <= n
    ensures Padded(data, n) + Padded([], k) == Padded(data, n + k)
  {
  }

  lemma SegAddedTwice(m: Mm, m1: Mm, m2: Mm, o1: Owner, p1: Pins, o2: Owner, p2: Pins, lo: nat, n: nat, k: nat)
    requires SegAdded(m, m1, o1, p1, lo, n) && SegAdded(m1, m2, o2, p2, lo + n, k)
    ensures SegAdded(m, m2, o2, p2, lo, n + k)
  {
    hide Good, Elsewhere, Grows;
    GrowsTrans(m, m1, m2);
    ElsewhereJoined(m.ts, m1.ts, m2.ts, lo, n, k);
  }

  lemma AddedParts(m: Mm, m': Mm, owner': Owner, pinned': Pins, lo: nat, len: nat)
    requires SegAdded(m, m', owner', pinned', lo, len)
    ensures Good(m', owner', pinned') && Last(m') % 0x1000 == 0
    ensures Grows(m, m') && Elsewhere(m.ts, m'.ts, lo, len)
  {
  }

  /** The pages after the file's part continue the image with zeros. */
  lemma BssJoined(m: Mm, m1: Mm, m2: Mm, o1: Owner, p1: Pins, lo: nat, n: nat, k: nat, prot: nat, data: seq<byte>)
    returns (owner': Owner, pinned': Pins)
    requires SegAdded(m, m1, o1, p1, lo, n) && lo != 0 && |data| <= n && Shows(m1, lo, Padded(data, n), prot)
    requires lo % 0x1000 == 0 && n % 0x1000 == 0 && k % 0x1000 == 0 && lo + n + k <= TWO48
    requires Mmap(m1, lo + n, k, prot) == Returned((m2, lo + n))
    ensures SegAdded(m, m2, owner', pinned', lo, n + k) && Shows(m2, lo, Padded(data, n + k), prot)
  {
    hide Good, Mmap, Shows, SegAdded, Grows, Elsewhere, Leads;
    AddedParts(m, m1, o1, p1, lo, n);
    var mem;
    owner', pinned', mem := BssPart(m1, o1, p1, lo + n, k, prot);
    AddedParts(m1, m2, owner', pinned', lo + n, k);
    SegAddedTwice(m, m1, m2, o1, p1, owner', pinned', lo, n, k);
    ShowsKept(m1, m2, lo, Padded(data, n), prot, lo + n, k);
    ShowsJoined(m2, lo, Padded(data, n), Padded([], k), prot);
    PaddedJoined(data, n, k);
  }

  /** A longer memory image than file image means memory beyond the file's bytes. */
  lemma SegMemory(load: nat, ph: Phdr)
    requires SegOk(load, ph)
    ensures SegLen(ph) != PageUp(FileLen(ph)) ==> ph.memsz > ph.filesz
  {
    SegArith(load, ph);
  }

  /** A segment load_binary accepts is shown with its protection, and nothing else moves. */
  lemma LoadSegmentCorrect(m: Mm, owner: Owner, pinned: Pins, host: Host, fd: nat, load: nat, ph: Phdr)
    returns (owner': Owner, pinned': Pins)
    requires Good(m, owner, pinned) && Last(m) % 0x1000 == 0 && SegOk(load, ph)
    ensures var r := LoadSegment(m, host, fd, load, ph);
            r.Returned? && r.value.1.None? ==>
              && SegAdded(m, r.value.0, owner', pinned', SegLo(load, ph), SegLen(ph))
              && SegShown(r.value.0, host, load, ph)
  {
    hide Good, SysMmap, Mmap, Shows, PageUp, PageDown, FileBytes, SegOk, W, SegAdded, SegLo, SegLen, FileLen,
      PfToProt;
    SegArith(load, ph);
    SegMemory(load, ph);
    var lo, n, prot := SegLo(load, ph), PageUp(FileLen(ph)), PfToProt(ph.flags);
    owner', pinned' := SysPart(m, owner, pinned, host, fd, load, ph);
    var r := LoadSegment(m, host, fd, load, ph);
    if r.Returned? && r.value.1.None? && SegLen(ph) != n {
      var m1 := SysMmap(m, host, lo, FileLen(ph), prot, true, fd, PageDown(ph.offset)).value.0;
      var k: nat := SegLen(ph) - n;
      SmallW(k);
      assert W(lo + SegLen(ph) - (lo + n)) == k;
      assert Mmap(m1, lo + n, k, prot) == Returned((r.value.0, lo + n));
      var data := FileBytes(host, PageDown(ph.offset), FileLen(ph));
      owner', pinned' := BssJoined(m, m1, r.value.0, owner', pinned', lo, n, k, prot, data);
    }
  }

  // ---------------------------------------------------------------- the whole file

  predicate SegApart(load: nat, p: Phdr, q: Phdr) {
    SegLo(load, p) + SegLen(p) <= SegLo(load, q) || SegLo(load, q) + SegLen(q) <= SegLo(load, p)
  }

  /** The first n headers describe proper segments on pages of their own, none of them the
      stack's. */
  ghost predicate Loadable(hdr: seq<byte>, load: nat, n: nat) {
    && (forall i: nat | i < n && IsLoad(hdr, i) ::
          && SegOk(load, PhdrAt(hdr, i))
          && (|| SegLo(load, PhdrAt(hdr, i)) + SegLen(PhdrAt(hdr, i)) <= STACK_BASE - STACK_SIZE
              || STACK_BASE <= SegLo(load, PhdrAt(hdr, i))))
    && (forall i: nat, j: nat | i < j < n && IsLoad(hdr, i) && IsLoad(hdr, j) ::
          SegApart(load, PhdrAt(hdr, i), PhdrAt(hdr, j)))
  }

  ghost predicate AllShown(m: Mm, host: Host, hdr: seq<byte>, load: nat, n: nat) {
    forall i: nat | i < n && IsLoad(hdr, i) :: SegShown(m, host, load, PhdrAt(hdr, i))
  }

  /** No segment of the first n headers touches address x. */
  ghost predicate Untouched(hdr: seq<byte>, load: nat, n: nat, x: nat) {
    forall i: nat | i < n && IsLoad(hdr, i) ::
      !(SegLo(load, PhdrAt(hdr, i)) <= x < SegLo(load, PhdrAt(hdr, i)) + SegLen(PhdrAt(hdr, i)))
  }

  /** Addresses that no segment touches translate as before. */
  ghost predicate KeptElse(ts: Tables, ts': Tables, hdr: seq<byte>, load: nat, n: nat) {
    forall x: nat, u, w | x < TWO48 && Untouched(hdr, load, n, x) :: Translate(ts', x, u, w) == Translate(ts, x, u, w)
  }

  lemma KeptStep(ts0: Tables, ts: Tables, ts': Tables, hdr: seq<byte>, load: nat, n: nat, i: nat)
    requires KeptElse(ts0, ts, hdr, load, n) && i < n && IsLoad(hdr, i) && SegOk(load, PhdrAt(hdr, i))
    requires var ph := PhdrAt(hdr, i);
             SegLen(ph) >= 0 && Elsewhere(ts, ts', SegLo(load, ph), SegLen(ph))
    ensures KeptElse(ts0, ts', hdr, load, n)
  {
    hide Translate, PhdrAt, SegOk, SegLo, SegLen;
    forall x: nat, u, w | x < TWO48 && Untouched(hdr, load, n, x)
      ensures Translate(ts', x, u, w) == Translate(ts0, x, u, w)
    {
      assert x % 0x1_0000_0000_0000 == x;
    }
  }

  lemma KeptNone(ts: Tables, hdr: seq<byte>, load: nat, n: nat)
    ensures KeptElse(ts, ts, hdr, load, n)
  {
    hide Translate;
  }

  lemma SegShownKept(m: Mm, m': Mm, host: Host, load: nat, ph: Phdr, lo: nat, len: nat)
    requires SegShown(m, host, load, ph) && Grows(m, m') && Elsewhere(m.ts, m'.ts, lo, len) && SegOk(load, ph)
    requires SegLo(load, ph) + SegLen(ph) <= lo || lo + len <= SegLo(load, ph)
    ensures SegShown(m', host, load, ph)
  {
    SegArith(load, ph);
    hide Shows, Grows, Elsewhere, SegOk, PageUp, PageDown;
    ShowsKept(m, m', SegLo(load, ph), Image(host, ph), PfToProt(ph.flags), lo, len);
  }

  lemma SegRange(load: nat, ph: Phdr)
    requires SegOk(load, ph)
    ensures 0 <= SegLen(ph) && SegLo(load, ph) + SegLen(ph) <= TWO48
  {
    SegArith(load, ph);
  }

  lemma {:induction false} LoadSegmentsCorrect(m0: Mm, m: Mm, owner: Owner, pinned: Pins, host: Host, fd: nat,
                                               load: nat, hdr: seq<byte>, n: nat, i: nat)
    returns (owner': Owner, pinned': Pins)
    requires Good(m, owner, pinned) && Last(m) % 0x1000 == 0 && Loadable(hdr, load, n) && i <= n
    requires AllShown(m, host, hdr, load, i) && Grows(m0, m) && KeptElse(m0.ts, m.ts, hdr, load, n)
    ensures var r := LoadSegments(m, host, fd, load, hdr, n, i);
            r.Returned? && r.value.1.None? ==>
              && Good(r.value.0, owner', pinned') && Last(r.value.0) % 0x1000 == 0
              && AllShown(r.value.0, host, hdr, load, n) && Grows(m0, r.value.0)
              && KeptElse(m0.ts, r.value.0.ts, hdr, load, n)
    decreases n - i
  {
    hide Good, KeptElse, LoadSegment, SegShown, SegOk, SegLo, SegLen, Grows, Elsewhere, PhdrAt;
    owner', pinned' := owner, pinned;
    if i < n {
      var ph := PhdrAt(hdr, i);
      if ph.ptype != PT_LOAD {
        owner', pinned' := LoadSegmentsCorrect(m0, m, owner, pinned, host, fd, load, hdr, n, i + 1);
      } else {
        assert IsLoad(hdr, i);
        owner', pinned' := LoadSegmentCorrect(m, owner, pinned, host, fd, load, ph);
        var r := LoadSegment(m, host, fd, load, ph);
        if r.Returned? && r.value.1.None? {
          var m1 := r.value.0;
          SegRange(load, ph);
          forall j: nat | j < i && IsLoad(hdr, j) ensures SegShown(m1, host, load, PhdrAt(hdr, j)) {
            assert SegApart(load, PhdrAt(hdr, j), ph);
            SegShownKept(m, m1, host, load, PhdrAt(hdr, j), SegLo(load, ph), SegLen(ph));
          }
          GrowsTrans(m0, m, m1);
          KeptStep(m0.ts, m.ts, m1.ts, hdr, load, n, i);
          owner', pinned' := LoadSegmentsCorrect(m0, m1, owner', pinned', host, fd, load, hdr, n, i + 1);
        }
      }
    }
  }

  /** Addresses that neither a segment nor the stack touches translate as before. */
  ghost predicate KeptBelowStack(ts: Tables, ts': Tables, hdr: seq<byte>, load: nat, n: nat) {
    forall x: nat, u, w | x < STACK_BASE - STACK_SIZE && Untouched(hdr, load, n, x) ::
      Translate(ts', x, u, w) == Translate(ts, x, u, w)
  }

  lemma KeptStack(ts0: Tables, ts: Tables, ts': Tables, hdr: seq<byte>, load: nat, n: nat)
    requires KeptElse(ts0, ts, hdr, load, n) && Elsewhere(ts, ts', STACK_BASE - STACK_SIZE, STACK_SIZE)
    ensures KeptBelowStack(ts0, ts', hdr, load, n)
  {
    hide Translate, Untouched;
    forall x: nat, u, w | x < STACK_BASE - STACK_SIZE && Untouched(hdr, load, n, x)
      ensures Translate(ts', x, u, w) == Translate(ts0, x, u, w)
    {
      assert x % 0x1_0000_0000_0000 == x;
    }
  }

  /** Address x does not lead into the block of n bytes at mem. */
  ghost predicate OffBlock(ts: Tables, x: nat, mem: nat, n: nat) {
    var t := Translate(ts, x, false, false);
    t.Some? ==> !(mem <= KERNEL_BASE + t.value < mem + n)
  }

  /** What was shown before a block was taken does not lead into it. */
  lemma ShownOff(m: Mm, m': Mm, owner: Owner, x: nat, b: byte, prot: nat, mem: nat, n: nat)
    requires ShowsByte(m, x, b, prot) && Grows(m, m') && Core(m', owner)
    requires Block(m', mem, n) && !H.Live(m.heap, mem - H.HEADER)
    requires Translate(m'.ts, x, false, false) == Translate(m.ts, x, false, false)
    ensures OffBlock(m'.ts, x, mem, n)
  {
    hide Translate, Owned, TablesHeld, Placed, H.Inv;
    var p := Translate(m.ts, x, false, false).value;
    var c: nat :| H.Live(m.heap, c) && c <= KERNEL_BASE + p < c + m.heap.size[c];
    LiveDisjoint(m'.heap, c, mem - H.HEADER);
  }

  ghost predicate SegOff(ts: Tables, load: nat, ph: Phdr, mem: nat, n: nat) {
    forall x: nat | load + ph.vaddr <= x < load + ph.vaddr + ph.memsz :: OffBlock(ts, x, mem, n)
  }

  lemma ImageLength(host: Host, ph: Phdr)
    requires FileLen(ph) <= SegLen(ph)
    ensures |Image(host, ph)| == SegLen(ph)
  {
  }

  /** A segment that is in place before the stack is taken does not lead into the stack. */
  lemma SegOffBlock(m: Mm, m': Mm, owner: Owner, host: Host, load: nat, ph: Phdr, lo: nat, n: nat, mem: nat)
    requires SegShown(m, host, load, ph) && SegOk(load, ph) && Grows(m, m') && Core(m', owner)
    requires Block(m', mem, n) && !H.Live(m.heap, mem - H.HEADER)
    requires Elsewhere(m.ts, m'.ts, lo, n) && (SegLo(load, ph) + SegLen(ph) <= lo || lo + n <= SegLo(load, ph))
    ensures SegOff(m'.ts, load, ph, mem, n)
  {
    hide Translate, Grows, Core, Image, ShowsByte, OffBlock, W, PageUp, PageDown, H.Live, SegOk, Block;
    SegArith(load, ph);
    SplitPage(ph.vaddr);
    UpAligned(ph.vaddr + ph.memsz);
    ImageLength(host, ph);
    forall x: nat | load + ph.vaddr <= x < load + ph.vaddr + ph.memsz ensures OffBlock(m'.ts, x, mem, n) {
      assert ShowsAt(m, SegLo(load, ph), Image(host, ph), PfToProt(ph.flags), x);
      assert x % 0x1_0000_0000_0000 == x by { QuotientIs(x, 0x1_0000_0000_0000, 0, x); }
      ShownOff(m, m', owner, x, Image(host, ph)[x - SegLo(load, ph)], PfToProt(ph.flags), mem, n);
    }
  }

  lemma SegsOff(m: Mm, m': Mm, owner: Owner, pinned: Pins, host: Host, hdr: seq<byte>, load: nat, n: nat, stack: nat)
    requires AllShown(m, host, hdr, load, n) && Loadable(hdr, load, n) && Grows(m, m') && Good(m', owner, pinned)
    requires Leads(m, m', STACK_BASE - STACK_SIZE, STACK_SIZE, stack, PROT_RW)
    requires Elsewhere(m.ts, m'.ts, STACK_BASE - STACK_SIZE, STACK_SIZE)
    ensures forall i: nat | i < n && IsLoad(hdr, i) :: SegOff(m'.ts, load, PhdrAt(hdr, i), stack, STACK_SIZE)
  {
    hide Good, SegOff, SegShown, SegOk, SegLo, SegLen, Grows, Elsewhere, PhdrAt, Translate, Block, H.Live;
    GoodCore(m', owner, pinned);
    forall i: nat | i < n && IsLoad(hdr, i) ensures SegOff(m'.ts, load, PhdrAt(hdr, i), stack, STACK_SIZE) {
      SegOffBlock(m, m', owner, host, load, PhdrAt(hdr, i), STACK_BASE - STACK_SIZE, STACK_SIZE, stack);
    }
  }

  lemma LeadsFrom(m0: Mm, m: Mm, m': Mm, va: nat, len: nat, mem: nat, prot: nat)
    requires Grows(m0, m) && Leads(m, m', va, len, mem, prot)
    ensures Leads(m0, m', va, len, mem, prot)
  {
    hide Translate;
  }

  /** A header that passes the checks, and the segments and the stack of a successful load. */
  lemma LoadImageCorrect(m: Mm, owner: Owner, pinned: Pins, host: Host, fd: nat, hdr: seq<byte>)
    returns (owner': Owner, pinned': Pins, stack: nat)
    requires Good(m, owner, pinned) && Last(m) % 0x1000 == 0
    requires CheckHeader(hdr).Ok? ==> Loadable(hdr, CheckHeader(hdr).value, EPhnum(hdr))
    ensures var r := LoadImage(m, host, fd, hdr);
            r.Returned? && r.value.1.Loaded? ==>
              && CheckHeader(hdr) == Ok(r.value.1.p.load)
              && Good(r.value.0, owner', pinned') && Grows(m, r.value.0)
              && AllShown(r.value.0, host, hdr, r.value.1.p.load, EPhnum(hdr))
              && Shows(r.value.0, STACK_BASE - STACK_SIZE, Padded([], STACK_SIZE), PROT_RW)
              && KeptBelowStack(m.ts, r.value.0.ts, hdr, r.value.1.p.load, EPhnum(hdr))
              && r.value.1.p.rsp == STACK_BASE - 0x1000 && r.value.1.p.entry == EEntry(hdr)
              && KERNEL_BASE <= stack && Leads(m, r.value.0, STACK_BASE - STACK_SIZE, STACK_SIZE, stack, PROT_RW)
              && (forall i: nat | i < EPhnum(hdr) && IsLoad(hdr, i) ::
                    SegOff(r.value.0.ts, r.value.1.p.load, PhdrAt(hdr, i), stack, STACK_SIZE))
  {
    hide Good, EEntry, SegOff, Leads, KeptElse, KeptBelowStack, LoadSegments, SegShown, SegOk, SegLo, SegLen, Grows,
      Elsewhere, PhdrAt, Mmap, Shows, CheckHeader, EPhnum;
    owner', pinned', stack := owner, pinned, 0;
    if CheckHeader(hdr).Ok? {
      var load, n := CheckHeader(hdr).value, EPhnum(hdr);
      assert Grows(m, m) by { GrowsRefl(m); }
      KeptNone(m.ts, hdr, load, n);
      owner', pinned' := LoadSegmentsCorrect(m, m, owner, pinned, host, fd, load, hdr, n, 0);
      var r := LoadSegments(m, host, fd, load, hdr, n, 0);
      if r.Returned? && r.value.1.None? {
        var m1, lo := r.value.0, STACK_BASE - STACK_SIZE;
        owner', pinned', stack := BssPart(m1, owner', pinned', lo, STACK_SIZE, PROT_RW);
        var s := Mmap(m1, lo, STACK_SIZE, PROT_RW);
        if s.Returned? && s.value.1 == lo {
          GrowsTrans(m, m1, s.value.0);
          KeptStack(m.ts, m1.ts, s.value.0.ts, hdr, load, n);
          LeadsFrom(m, m1, s.value.0, lo, STACK_SIZE, stack, PROT_RW);
          forall j: nat | j < n && IsLoad(hdr, j) ensures SegShown(s.value.0, host, load, PhdrAt(hdr, j)) {
            SegShownKept(m1, s.value.0, host, load, PhdrAt(hdr, j), lo, STACK_SIZE);
          }
          SegsOff(m1, s.value.0, owner', pinned', host, hdr, load, n, stack);
        }
      }
    }
  }

  /** The header page as load_binary reads it: the start of the file, then zeros. */
  function HeaderOf(host: Host): seq<byte> {
    Padded(FileBytes(host, 0, 0x1000), 0x1000)
  }

  /** The byte a segment has at its k-th address. */
  function SegByte(file: seq<byte>, ph: Phdr, k: nat): byte {
    if k < ph.filesz && ph.offset + k < |file| then file[ph.offset + k] else 0
  }

  /** Address x leads to a byte b; a user reads it if flag 4 is set, and a write also needs
      flag 2. */
  ghost predicate ShowsFlagged(m: Mm, x: nat, b: byte, flags: nat) {
    var t := Translate(m.ts, x, false, false);
    && t.Some? && t.value < |m.ram| && m.ram[t.value] == b && LiveByte(m.heap, t.value)
    && forall u, w :: Translate(m.ts, x, u, w)
                   == if (u ==> flags / 4 % 2 == 1) && (w ==> flags / 2 % 2 == 1) then t else None
  }

  /** Byte k of a segment, as the process sees it. */
  ghost predicate SegByteShown(m: Mm, file: seq<byte>, load: nat, ph: Phdr, k: nat) {
    ShowsFlagged(m, load + ph.vaddr + k, SegByte(file, ph, k), ph.flags)
  }

  lemma SegByteIs(m: Mm, file: seq<byte>, load: nat, ph: Phdr, k: nat)
    ensures SegByteShown(m, file, load, ph, k) <==>
            ShowsByte(m, load + ph.vaddr + k, SegByte(file, ph, k), PfToProt(ph.flags))
  {
    hide Translate, LiveByte, PfToProt, Allows;
    forall u, w { FlagNumbers(ph.flags, u, w); }
  }

  lemma ShownByte(m: Mm, file: seq<byte>, errno: nat, hdr: seq<byte>, load: nat, n: nat, i: nat, k: nat)
    requires AllShown(m, Host(Some(file), errno), hdr, load, n) && Loadable(hdr, load, n)
    requires i < n && IsLoad(hdr, i) && k < PhdrAt(hdr, i).memsz
    ensures SegByteShown(m, file, load, PhdrAt(hdr, i), k)
  {
    hide SegByteShown, PhdrAt, ShowsByte, Image, SegOk, PageUp, PageDown, SegLen, FileLen, W;
    var ph, host := PhdrAt(hdr, i), Host(Some(file), errno);
    assert SegShown(m, host, load, ph) && SegOk(load, ph);
    SegArith(load, ph);
    ImageBytes(file, errno, load, ph, k);
    SplitPage(ph.vaddr);
    assert load + ph.vaddr + k == SegLo(load, ph) + (ph.vaddr % 0x1000 + k);
    assert |Image(host, ph)| == SegLen(ph) by { ImageLength(host, ph); }
    assert ShowsAt(m, SegLo(load, ph), Image(host, ph), PfToProt(ph.flags), load + ph.vaddr + k);
    SegByteIs(m, file, load, ph, k);
  }

  lemma HeaderFill(m: Mm, b: Mm, owner: Owner, pinned: Pins, host: Host, mem: nat)
    requires Good(b, owner, pinned) && Fresh(m, b, mem, 0x1000) && Grows(m, b) && b.last == m.last && b.ts == m.ts
    ensures var r := HpRead(b, host, 0, Some(mem - KERNEL_BASE), 0x1000);
            && (r.Returned? || r.Erased?)
            && (r.Returned? ==>
              && Good(r.value, owner, pinned) && Grows(m, r.value) && r.value.last == m.last && r.value.ts == m.ts
              && mem - KERNEL_BASE + 0x1000 <= |r.value.ram|
              && r.value.ram[mem - KERNEL_BASE..mem - KERNEL_BASE + 0x1000] == HeaderOf(host))
  {
    hide Good, HpRead;
    assert Block(b, mem, 0x1000) && Holds(b, mem, 0x1000, []);
    HpReadGood(b, owner, pinned, host, 0, mem, 0x1000, 0x1000);
  }

  /** Reading the header page leaves the invariant and everything live, and the buffer holds
      the start of the file. */
  lemma HeaderRead(m: Mm, owner: Owner, pinned: Pins, host: Host)
    requires Good(m, owner, pinned)
    ensures Alloc(m, 0x1000, H.NO_ALIGN).Returned? || Alloc(m, 0x1000, H.NO_ALIGN).Erased?
    ensures Alloc(m, 0x1000, H.NO_ALIGN).Returned? ==>
              var (b, mem) := Alloc(m, 0x1000, H.NO_ALIGN).value;
              && Physical(mem).Returned?
              && var (p, r) := (Physical(mem).value, HpRead(b, host, 0, Some(Physical(mem).value), 0x1000));
                 && (r.Returned? || r.Erased?)
                 && (r.Returned? ==>
                       var m1 := r.value;
                       && Good(m1, owner, pinned) && Grows(m, m1) && m1.last == m.last && m1.ts == m.ts
                       && p + 0x1000 <= |m1.ram| && m1.ram[p..p + 0x1000] == HeaderOf(host))
  {
    hide Good, Alloc, HpRead, H.Live, Grows, FileBytes, H.Refused;
    AllocCore(m, owner, 0x1000, H.NO_ALIGN) by { GoodCore(m, owner, pinned); }
    AllocGood(m, owner, pinned, 0x1000, H.NO_ALIGN);
    if Alloc(m, 0x1000, H.NO_ALIGN).Returned? {
      var (b, mem) := Alloc(m, 0x1000, H.NO_ALIGN).value;
      HeaderFill(m, b, owner, pinned, host, mem);
    }
  }

  /** load_binary on every file whose PT_LOAD headers are proper and page-disjoint: when it
      succeeds, every segment is in place: each byte of memsz at load address plus vaddr is
      the file's byte below filesz and zero above, seen exactly by the accesses its flags
      allow; the stack is a cleared, writable region that no segment leads into; and addresses
      of neither keep their translation. */
  lemma LoadBinaryCorrect(m: Mm, owner: Owner, pinned: Pins, file: seq<byte>, errno: nat, fd: nat)
    returns (owner': Owner, pinned': Pins, stack: nat)
    requires Good(m, owner, pinned) && Last(m) % 0x1000 == 0
    requires var hdr := HeaderOf(Host(Some(file), errno));
             CheckHeader(hdr).Ok? ==> Loadable(hdr, CheckHeader(hdr).value, EPhnum(hdr))
    ensures var hdr := HeaderOf(Host(Some(file), errno));
            var r := LoadBinary(m, Host(Some(file), errno), fd);
            r.Returned? && r.value.1.Loaded? ==>
              var (m', load) := (r.value.0, r.value.1.p.load);
              && CheckHeader(hdr) == Ok(load)
              && Good(m', owner', pinned') && Grows(m, m')
              && (forall i: nat, k: nat | i < EPhnum(hdr) && IsLoad(hdr, i) && k < PhdrAt(hdr, i).memsz ::
                    SegByteShown(m', file, load, PhdrAt(hdr, i), k))
              && Shows(m', 0x7fff_fffb_f000, Padded([], 0x4_0000), 3)
              && KeptBelowStack(m.ts, m'.ts, hdr, load, EPhnum(hdr))
              && r.value.1.p.rsp == 0x7fff_ffff_e000 && r.value.1.p.entry == EEntry(hdr)
              && KERNEL_BASE <= stack && Leads(m, m', STACK_BASE - STACK_SIZE, STACK_SIZE, stack, PROT_RW)
              && (forall i: nat | i < EPhnum(hdr) && IsLoad(hdr, i) ::
                    SegOff(m'.ts, load, PhdrAt(hdr, i), stack, STACK_SIZE))
  {
    hide Good, EEntry, SegOff, Leads, KeptBelowStack, LoadImage, Grows, Shows, CheckHeader, EPhnum, PhdrAt, HeaderOf,
      IsLoad, HpRead, Alloc, Loadable, SegByteShown, AllShown;
    var host := Host(Some(file), errno);
    var hdr := HeaderOf(host);
    owner', pinned', stack := owner, pinned, 0;
    HeaderRead(m, owner, pinned, host);
    var r := LoadBinary(m, host, fd);
    if r.Returned? && r.value.1.Loaded? {
      var (b, mem) := Alloc(m, 0x1000, H.NO_ALIGN).value;
      var m1 := HpRead(b, host, 0, Some(Physical(mem).value), 0x1000).value;
      assert r == LoadImage(m1, host, fd, hdr);
      owner', pinned', stack := LoadImageCorrect(m1, owner, pinned, host, fd, hdr);
      GrowsTrans(m, m1, r.value.0);
      LeadsFrom(m, m1, r.value.0, STACK_BASE - STACK_SIZE, STACK_SIZE, stack, PROT_RW);
      forall i: nat, k: nat | i < EPhnum(hdr) && IsLoad(hdr, i) && k < PhdrAt(hdr, i).memsz
        ensures SegByteShown(r.value.0, file, r.value.1.p.load, PhdrAt(hdr, i), k)
      {
        ShownByte(r.value.0, file, errno, hdr, r.value.1.p.load, EPhnum(hdr), i, k);
      }
    }
  }

  // ---------------------------------------------------------------- enough memory

  /** A segment that can be loaded: proper, with bytes to read, and on user pages. */
  ghost predicate SegFits(load: nat, ph: Phdr) {
    SegOk(load, ph) && 0 < FileLen(ph) && SegLen(ph) < TWO32 && UserPages(SegLo(load, ph), SegLen(ph))
  }

  /** What its mappings cost at most. */
  function SegCost(ph: Phdr): nat
    requires PageUp(FileLen(ph)) <= SegLen(ph)
  {
    MapCost(PageUp(FileLen(ph))) + 0x100 + MapCost(SegLen(ph) - PageUp(FileLen(ph)))
  }

  /** The segments of headers i..n. */
  function SegsCost(hdr: seq<byte>, n: nat, i: nat): nat
    requires i <= n
    decreases n - i
  {
    if i == n then 0
    else
      var ph := PhdrAt(hdr, i);
      (if IsLoad(hdr, i) && PageUp(FileLen(ph)) <= SegLen(ph) then SegCost(ph) else 0) + SegsCost(hdr, n, i + 1)
  }

  lemma UserPagesPart(va: nat, len: nat, lo: nat, n: nat)
    requires UserPages(va, len) && va <= lo && lo + n <= va + len && (lo - va) % 0x1000 == 0
    ensures UserPages(lo, n)
  {
    hide UserRangeOk;
    forall x: nat | lo <= x < lo + n && (x - lo) % 0x1000 == 0 ensures UserRangeOk(x) {
      PageSum(x - lo, lo - va);
    }
  }

  lemma FirstPage(load: nat, ph: Phdr)
    requires SegFits(load, ph)
    ensures UserRangeOk(SegLo(load, ph)) && SegLo(load, ph) != 0
    ensures !Invalid(SegLo(load, ph), FileLen(ph), true)
  {
    hide PageUp, PageDown, W;
    SegArith(load, ph);
    assert UserRangeOk(SegLo(load, ph));
  }

  /** The fixed range is the one sys_mmap uses. */
  lemma FixedRequest(m: Mm, addr: nat, len: nat)
    requires addr != 0
    ensures Request(m, addr, len, true).0 == addr
  {
    hide PageUp;
  }

  lemma SeekFits(file: seq<byte>, errno: nat, o: nat)
    requires o < 0x8000_0000
    ensures !SeekFails(Host(Some(file), errno), PageDown(o) % 0x1_0000_0000)
  {
    SmallOffset(o);
  }

  lemma SegOffset(load: nat, ph: Phdr)
    requires SegOk(load, ph)
    ensures ph.offset < 0x8000_0000
  {
  }

  lemma LoadSegmentSucceeds(m: Mm, owner: Owner, pinned: Pins, file: seq<byte>, errno: nat, fd: nat, load: nat,
                            ph: Phdr)
    requires Good(m, owner, pinned) && Last(m) % 0x1000 == 0 && SegFits(load, ph)
    requires PageUp(FileLen(ph)) <= SegLen(ph) && SegCost(ph) <= m.heap.topSize
    ensures var r := LoadSegment(m, Host(Some(file), errno), fd, load, ph);
            && r.Returned? && r.value.1.None?
            && m.heap.topSize - SegCost(ph) <= r.value.0.heap.topSize
  {
    hide Good, SysMmap, Mmap, Shows, PageUp, PageDown, FileBytes, SegOk, W, SegAdded, SegLo, SegLen, FileLen,
      PfToProt, UserPages, MapCost, Request, Invalid, SeekFails, Place;
    var host, lo, n, prot := Host(Some(file), errno), SegLo(load, ph), PageUp(FileLen(ph)), PfToProt(ph.flags);
    SegArith(load, ph);
    FirstPage(load, ph);
    FixedRequest(m, lo, FileLen(ph));
    UserPagesPart(lo, SegLen(ph), lo, n);
    SeekFits(file, errno, ph.offset) by { SegOffset(load, ph); }
    SysMmapSucceeds(m, owner, pinned, host, lo, FileLen(ph), prot, true, fd, PageDown(ph.offset));
    var m1 := SysMmap(m, host, lo, FileLen(ph), prot, true, fd, PageDown(ph.offset)).value.0;
    if SegLen(ph) != n {
      var owner', pinned' := SysPart(m, owner, pinned, host, fd, load, ph);
      AddedParts(m, m1, owner', pinned', lo, n);
      var k: nat := SegLen(ph) - n;
      SmallW(k);
      assert W(lo + SegLen(ph) - (lo + n)) == k;
      UserPagesPart(lo, SegLen(ph), lo + n, k);
      PageSum(k, n);
      assert Place(m1, lo + n, k) == lo + n by { GivenPlace(m1, lo + n, k); }
      MmapSucceeds(m1, owner', pinned', lo + n, k, prot);
    }
  }

  ghost predicate AllFit(hdr: seq<byte>, load: nat, n: nat) {
    forall i: nat | i < n && IsLoad(hdr, i) :: SegFits(load, PhdrAt(hdr, i))
  }

  lemma {:induction false} LoadSegmentsSucceeds(m: Mm, owner: Owner, pinned: Pins, file: seq<byte>, errno: nat, fd: nat,
                                                load: nat, hdr: seq<byte>, n: nat, i: nat)
    requires Good(m, owner, pinned) && Last(m) % 0x1000 == 0 && AllFit(hdr, load, n) && i <= n
    requires SegsCost(hdr, n, i) <= m.heap.topSize
    ensures var r := LoadSegments(m, Host(Some(file), errno), fd, load, hdr, n, i);
            && r.Returned? && r.value.1.None?
            && m.heap.topSize - SegsCost(hdr, n, i) <= r.value.0.heap.topSize
    decreases n - i
  {
    hide Good, LoadSegment, SegShown, SegOk, SegLo, SegLen, FileLen, Grows, Elsewhere, PhdrAt, SegCost, PageUp,
      PageDown, W, UserPages;
    if i < n {
      var ph, host := PhdrAt(hdr, i), Host(Some(file), errno);
      if ph.ptype != PT_LOAD {
        LoadSegmentsSucceeds(m, owner, pinned, file, errno, fd, load, hdr, n, i + 1);
      } else {
        assert IsLoad(hdr, i) && SegFits(load, ph);
        SegArith(load, ph);
        LoadSegmentSucceeds(m, owner, pinned, file, errno, fd, load, ph);
        var owner', pinned' := LoadSegmentCorrect(m, owner, pinned, host, fd, load, ph);
        LoadSegmentsSucceeds(LoadSegment(m, host, fd, load, ph).value.0, owner', pinned', file, errno, fd, load, hdr, n,
                             i + 1);
      }
    }
  }

  /** What load_binary costs at most: the header page with a parameter block, the segments,
      and the stack. */
  function LoadCost(hdr: seq<byte>): nat {
    H.ChunkSize(0x1000) + 0x80 + SegsCost(hdr, EPhnum(hdr), 0) + MapCost(STACK_SIZE)
  }

  lemma StackPages()
    ensures UserPages(STACK_BASE - STACK_SIZE, STACK_SIZE) && (STACK_BASE - STACK_SIZE) % 0x1000 == 0
  {
  }

  lemma NoneShown(m: Mm, host: Host, hdr: seq<byte>, load: nat)
    ensures AllShown(m, host, hdr, load, 0)
  {
  }

  lemma LoadImageSucceeds(m: Mm, owner: Owner, pinned: Pins, file: seq<byte>, errno: nat, fd: nat, hdr: seq<byte>)
    requires Good(m, owner, pinned) && Last(m) % 0x1000 == 0
    requires CheckHeader(hdr).Ok? && AllFit(hdr, CheckHeader(hdr).value, EPhnum(hdr))
    requires Loadable(hdr, CheckHeader(hdr).value, EPhnum(hdr))
    requires SegsCost(hdr, EPhnum(hdr), 0) + MapCost(STACK_SIZE) <= m.heap.topSize
    ensures var r := LoadImage(m, Host(Some(file), errno), fd, hdr);
            && r.Returned?
            && r.value.1 == Loaded(Process(CheckHeader(hdr).value, EEntry(hdr), STACK_BASE - 0x1000))
            && m.heap.topSize - SegsCost(hdr, EPhnum(hdr), 0) - MapCost(STACK_SIZE) <= r.value.0.heap.topSize
  {
    hide Good, CheckHeader, AllFit, EPhnum, EEntry, LoadSegments, SegsCost, MapCost, Mmap, UserPages, Place, KeptElse,
      AllShown, Grows, Loadable;
    var host, load, n := Host(Some(file), errno), CheckHeader(hdr).value, EPhnum(hdr);
    LoadSegmentsSucceeds(m, owner, pinned, file, errno, fd, load, hdr, n, 0);
    assert Grows(m, m) by { GrowsRefl(m); }
    KeptNone(m.ts, hdr, load, n);
    assert AllShown(m, host, hdr, load, 0) by { NoneShown(m, host, hdr, load); }
    var owner', pinned' := LoadSegmentsCorrect(m, m, owner, pinned, host, fd, load, hdr, n, 0);
    var m1, lo := LoadSegments(m, host, fd, load, hdr, n, 0).value.0, STACK_BASE - STACK_SIZE;
    StackPages();
    assert Place(m1, lo, STACK_SIZE) == lo by { GivenPlace(m1, lo, STACK_SIZE); }
    MmapSucceeds(m1, owner', pinned', lo, STACK_SIZE, PROT_RW);
  }

  lemma HeaderFits(m: Mm, owner: Owner, pinned: Pins, host: Host)
    requires Good(m, owner, pinned) && H.ChunkSize(0x1000) + 0x80 <= m.heap.topSize
    ensures Alloc(m, 0x1000, H.NO_ALIGN).Returned?
    ensures var (b, mem) := Alloc(m, 0x1000, H.NO_ALIGN).value;
            && Physical(mem).Returned?
            && var r := HpRead(b, host, 0, Some(Physical(mem).value), 0x1000);
               r.Returned? && m.heap.topSize - H.ChunkSize(0x1000) - 0x80 <= r.value.heap.topSize
  {
    hide Good, H.Kmalloc, Blit, H.Kfree, Physical, HostRead, Grows, Fresh, HeaderOf, H.ChunkSize;
    assert H.Inv(m.heap) by { GoodCore(m, owner, pinned); CoreShape(m, owner); }
    H.UnalignedFits(m.heap, 0x1000);
    HeaderRead(m, owner, pinned, host);
    AllocGood(m, owner, pinned, 0x1000, H.NO_ALIGN);
    ScratchFits(Alloc(m, 0x1000, H.NO_ALIGN).value.0, owner, pinned, 24);
  }

  /** Given the memory, load_binary loads every file whose header passes its checks and whose
      PT_LOAD segments are proper, non-empty, on user pages of their own and off the stack. */
  lemma LoadBinarySucceeds(m: Mm, owner: Owner, pinned: Pins, file: seq<byte>, errno: nat, fd: nat)
    requires Good(m, owner, pinned) && Last(m) % 0x1000 == 0
    requires var hdr := HeaderOf(Host(Some(file), errno));
             && CheckHeader(hdr).Ok? && Loadable(hdr, CheckHeader(hdr).value, EPhnum(hdr))
             && AllFit(hdr, CheckHeader(hdr).value, EPhnum(hdr))
             && LoadCost(hdr) <= m.heap.topSize
    ensures var hdr := HeaderOf(Host(Some(file), errno));
            var r := LoadBinary(m, Host(Some(file), errno), fd);
            && r.Returned?
            && r.value.1 == Loaded(Process(CheckHeader(hdr).value, EEntry(hdr), STACK_BASE - 0x1000))
            && m.heap.topSize - LoadCost(hdr) <= r.value.0.heap.topSize
  {
    hide Good, CheckHeader, AllFit, EPhnum, EEntry, LoadImage, SegsCost, MapCost, HeaderOf, HpRead, Alloc, Loadable,
      Grows, H.ChunkSize;
    var host := Host(Some(file), errno);
    HeaderFits(m, owner, pinned, host);
    HeaderRead(m, owner, pinned, host);
    var (b, mem) := Alloc(m, 0x1000, H.NO_ALIGN).value;
    var m1 := HpRead(b, host, 0, Some(Physical(mem).value), 0x1000).value;
    LoadImageSucceeds(m1, owner, pinned, file, errno, fd, HeaderOf(host));
  }

  // ---------------------------------------------------------------- refusals

  lemma LowOffset(o: nat)
    requires o < 0x8000_0000
    ensures PageDown(o) % 0x1_0000_0000 < 0x8000_0000
  {
    SmallOffset(o);
  }

  /** The mmap for the pages after the file's part. */
  lemma RestOfSegment(m: Mm, owner: Owner, pinned: Pins, host: Host, fd: nat, load: nat, ph: Phdr)
    requires Good(m, owner, pinned) && Last(m) % 0x1000 == 0 && SegOk(load, ph)
    requires PageUp(FileLen(ph)) < SegLen(ph)
    ensures var lo, n, prot := SegLo(load, ph), PageUp(FileLen(ph)), PfToProt(ph.flags);
            var r := SysMmap(m, host, lo, FileLen(ph), prot, true, fd, PageDown(ph.offset));
            && W(lo + SegLen(ph) - (lo + n)) == SegLen(ph) - n
            && (r.Returned? && r.value.1 == At(lo) ==>
                  var b := Mmap(r.value.0, lo + n, SegLen(ph) - n, prot);
                  b.Returned? ==> b.value.1 == if SegLen(ph) - n >= TWO32 then 0 else lo + n)
  {
    hide Good, SysMmap, Mmap, PageUp, PageDown, FileBytes, SegOk, W, SegLo, SegLen, FileLen, PfToProt, UserPages,
      Place, SegAdded, Shows, H.Refused, H.ChunkSize, Mmapped;
    SegArith(load, ph);
    var lo, n, prot := SegLo(load, ph), PageUp(FileLen(ph)), PfToProt(ph.flags);
    var k: nat := SegLen(ph) - n;
    SmallW(k);
    var r := SysMmap(m, host, lo, FileLen(ph), prot, true, fd, PageDown(ph.offset));
    if r.Returned? && r.value.1 == At(lo) {
      var owner', pinned' := SysPart(m, owner, pinned, host, fd, load, ph);
      AddedParts(m, r.value.0, owner', pinned', lo, n);
      PageSum(lo, n);
      PageSum(k, n);
      var o2, mem := MmapAnywhere(r.value.0, owner', pinned', lo + n, k, prot);
      assert Place(r.value.0, lo + n, k) == lo + n by { GivenPlace(r.value.0, lo + n, k); }
    }
  }

  /** What load_binary answers for a proper segment it does not load: -EINVAL, with nothing
      changed, when there is nothing to read or the first page is no user page; -ENOMEM, with
      nothing changed, for 2^32 bytes or more; -EBADF when the file is not open; for a segment at
      address 0, the low half of the address the kernel has chosen instead; and -ENOMEM when the
      pages after the file's part are 2^32 bytes or more. */
  lemma LoadSegmentCodes(m: Mm, owner: Owner, pinned: Pins, host: Host, fd: nat, load: nat, ph: Phdr)
    requires Good(m, owner, pinned) && Last(m) % 0x1000 == 0 && SegOk(load, ph)
    ensures var r := LoadSegment(m, host, fd, load, ph);
            var lo, n := SegLo(load, ph), PageUp(FileLen(ph));
            if Invalid(lo, FileLen(ph), true) then r == Returned((m, Some(-22)))
            else if n >= TWO32 then r == Returned((m, Some(-12)))
            else
              && (r.Returned? && host.content.None? ==> r.value.1 == Some(-9))
              && (r.Returned? && host.content.Some? && lo == 0 ==> r.value.1 == Some(ToInt32(Place(m, 0, n))))
              && (r.Returned? && host.content.Some? && lo != 0 ==>
                    r.value.1 == if SegLen(ph) - n >= TWO32 then Some(-12) else None)
  {
    hide Good, SysMmap, Mmap, PageUp, PageDown, FileBytes, SegOk, W, SegLo, SegLen, FileLen, PfToProt, UserPages,
      Place, Invalid, H.Refused, H.ChunkSize, Filled, ToInt32, Mmapped;
    SegArith(load, ph);
    SegMemory(load, ph);
    var lo, n, prot := SegLo(load, ph), PageUp(FileLen(ph)), PfToProt(ph.flags);
    var owner', mem := SysMmapCorrect(m, owner, pinned, host, lo, FileLen(ph), prot, true, fd, PageDown(ph.offset));
    if !Invalid(lo, FileLen(ph), true) {
      assert 0 < n by { ValidLength(lo, FileLen(ph), true); }
      if n < TWO32 {
        assert !(PageDown(ph.offset) % 0x1_0000_0000 >= 0x8000_0000) by { SegOffset(load, ph); LowOffset(ph.offset); }
        QuotientIs(n, 0x1_0000_0000_0000_0000, 0, n);
        var r := SysMmap(m, host, lo, FileLen(ph), prot, true, fd, PageDown(ph.offset));
        if lo != 0 { FixedRequest(m, lo, FileLen(ph)); }
        if r.Returned? && r.value.1 == At(lo) && SegLen(ph) != n {
          RestOfSegment(m, owner, pinned, host, fd, load, ph);
        }
      }
    }
  }

  /** A file whose header fails the checks is refused with their code, and nothing is mapped. */
  lemma LoadBinaryRefused(m: Mm, owner: Owner, pinned: Pins, file: seq<byte>, errno: nat, fd: nat)
    requires Good(m, owner, pinned) && CheckHeader(HeaderOf(Host(Some(file), errno))).Err?
    ensures var r := LoadBinary(m, Host(Some(file), errno), fd);
            && (r.Returned? || r.Erased?)
            && (r.Returned? ==>
                  && r.value.1 == Stopped(CheckHeader(HeaderOf(Host(Some(file), errno))).code)
                  && Good(r.value.0, owner, pinned) && Grows(m, r.value.0) && r.value.0.ts == m.ts)
  {
    hide Good, CheckHeader, HeaderOf, HpRead, Alloc, Grows;
    HeaderRead(m, owner, pinned, Host(Some(file), errno));
  }
}
