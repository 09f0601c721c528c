/**
  Vocabulary shared by the guest-kernel modules: calls that may panic, the
  64-bit bit operations the kernel applies to addresses, written on unbounded
  naturals, and the address-space constants.
 */
module Machine {

  datatype Option<+T> = None | Some(value: T)

  type byte = x: int | 0 <= x < 256

  /** The panics of the kernel's memory manager, one per call site. */
  datatype PanicReason =
    | InvalidLength        // kmalloc.c#init_allocator and mmap.c
    | InvalidBinSize       // kmalloc.c, a free-list size is not a chunk size
    | InvalidAlignment     // kmalloc.c#kmalloc
    | AlignmentFailed      // kmalloc.c#kmalloc
    | InvalidFreeSize      // kmalloc.c#kfree
    | NotAllowed           // translate.c#add_trans_user, outside user memory
    | InvalidAddress       // translate.c#add_trans_user, kernel-only entry on the way
    | NotKernelBased       // translate.c#physical
    | PageFault            // a store to an address that is not mapped; there is no handler

  /** How a call ends.  It returns a value, or panics and never returns, or kmalloc has come
      out with null for len bytes and cleared them all the same, from address 0 on: there the
      kernel's own code and data are, so what runs afterwards is no longer this program. */
  datatype Outcome<+T> = Returned(value: T) | Panicked(reason: PanicReason) | Erased(len: nat) {
    predicate IsFailure() { !Returned? }

    function PropagateFailure<U>(): Outcome<U>
      requires IsFailure()
    {
      if Panicked? then Panicked(reason) else Erased(len)
    }

    function Extract(): T
      requires Returned?
    {
      value
    }
  }

  const KERNEL_BASE: nat := 0x80_0000_0000
  const TWO32: nat := 0x1_0000_0000
  const TWO48: nat := 0x1_0000_0000_0000
  const TWO64: nat := 0x1_0000_0000_0000_0000

  // utils/errno.h
  const ENOEXEC: int := 8
  const EBADF: int := 9
  const ENOMEM: int := 12
  const EACCES: int := 13
  const EFAULT: int := 14
  const EINVAL: int := 22
  const ENFILE: int := 23

  /** Conversion to a 32-bit int. */
  function ToInt32(x: int): int {
    var r := x % 0x1_0000_0000;
    if r >= 0x8000_0000 then r - 0x1_0000_0000 else r
  }

  lemma DivMod(n: int, d: int)
    requires 0 < d
    ensures n == d * (n / d) + n % d && 0 <= n % d < d
  {
  }

  lemma Distance(d: int, q: int, q': int)
    ensures d * (q - q') == d * q - d * q' && d * (q' - q) == d * q' - d * q
  {
  }

  lemma AtLeast(d: int, k: int)
    requires 0 < d && 0 < k
    ensures d <= d * k
  {
  }

  lemma OneQuotient(d: int, q: int, r: int, q': int, r': int)
    requires 0 <= r < d && 0 <= r' < d && d * q + r == d * q' + r'
    ensures q == q' && r == r'
  {
    Distance(d, q, q');
    if q > q' { AtLeast(d, q - q'); } else if q < q' { AtLeast(d, q' - q); }
  }

  /** Quotient and remainder are determined by their equation. */
  lemma QuotientIs(n: int, d: int, q: int, r: int)
    requires 0 <= r < d && n == d * q + r
    ensures n / d == q && n % d == r
  {
    DivMod(n, d);
    OneQuotient(d, q, r, n / d, n % d);
  }

  /** It is the number between -2^31 and 2^31 that differs by a multiple of 2^32. */
  lemma ToInt32Meaning(x: int)
    ensures -0x8000_0000 <= ToInt32(x) < 0x8000_0000 && (x - ToInt32(x)) % 0x1_0000_0000 == 0
  {
    var q, r := x / 0x1_0000_0000, x % 0x1_0000_0000;
    QuotientIs(x - ToInt32(x), 0x1_0000_0000, if r >= 0x8000_0000 then q + 1 else q, 0);
  }

  /** memcpy of data to position p of a memory, when it fits. */
  function Blit(ram: seq<byte>, p: nat, data: seq<byte>): (r: seq<byte>)
    ensures |r| == |ram|
    ensures p + |data| <= |ram| ==>
              && (forall i | 0 <= i < |data| :: r[p + i] == data[i])
              && (forall a | 0 <= a < |ram| && !(p <= a < p + |data|) :: r[a] == ram[a])
  {
    if p + |data| <= |ram| then ram[..p] + data + ram[p + |data|..] else ram
  }

  lemma BlitAt(ram: seq<byte>, p: nat, data: seq<byte>, a: nat)
    requires p <= a < p + |data| <= |ram|
    ensures Blit(ram, p, data)[a] == data[a - p]
  {
    var i := a - p;
    assert Blit(ram, p, data)[p + i] == data[i];
  }

  lemma BlitNone(ram: seq<byte>, p: nat)
    requires p <= |ram|
    ensures Blit(ram, p, []) == ram
  {
  }

  /** The macros aligndown and alignup (utils/misc.h). */
  function PageDown(v: nat): nat {
    v - v % 0x1000
  }

  function PageUp(v: nat): nat {
    if v % 0x1000 != 0 then PageDown(v) + 0x1000 else v
  }
}
