/**
  Byte-addressed memory as a map, with the stores, words and C strings that the argument
  code works on.  An address outside the map reads as zero.
 */
module ByteMemory {
  import opened Machine

  type Mem = map<nat, byte>

  function Rd(mem: Mem, a: nat): byte {
    if a in mem then mem[a] else 0
  }

  /** The byte that data, put at a, has for address x. */
  function Nth(data: seq<byte>, a: nat, x: nat): byte {
    if a <= x < a + |data| then data[x - a] else 0
  }

  function Store(mem: Mem, a: nat, data: seq<byte>): Mem {
    mem + map x: nat | a <= x < a + |data| :: Nth(data, a, x)
  }

  lemma StoreEffect(mem: Mem, a: nat, data: seq<byte>)
    ensures forall x: nat {:trigger Rd(Store(mem, a, data), x)} ::
              Rd(Store(mem, a, data), x) == if a <= x < a + |data| then data[x - a] else Rd(mem, x)
    ensures forall x: nat :: x in Store(mem, a, data) <==> x in mem || a <= x < a + |data|
  {
  }

  function RdFrom(mem: Mem, a: nat, i: int): byte {
    if a + i >= 0 then Rd(mem, a + i) else 0
  }

  function Load(mem: Mem, a: nat, n: nat): (r: seq<byte>)
    ensures |r| == n && forall i | 0 <= i < n :: r[i] == Rd(mem, a + i)
  {
    seq(n, i => RdFrom(mem, a, i))
  }

  // ---------------------------------------------------------------- words

  function Num(b: seq<byte>): nat {
    if b == [] then 0 else b[0] + 256 * Num(b[1..])
  }

  function Bytes(n: nat, k: nat): (b: seq<byte>)
    ensures |b| == k
    decreases k
  {
    if k == 0 then [] else [n % 256] + Bytes(n / 256, k - 1)
  }

  function Pow256(k: nat): nat {
    if k == 0 then 1 else 256 * Pow256(k - 1)
  }

  lemma {:induction false} NumBytes(n: nat, k: nat)
    requires n < Pow256(k)
    ensures Num(Bytes(n, k)) == n
    decreases k
  {
    if k > 0 {
      NumBytes(n / 256, k - 1);
      assert Bytes(n, k)[1..] == Bytes(n / 256, k - 1);
    }
  }

  /** The later a byte, the more it weighs: little-endian. */
  lemma {:induction false} NumLast(b: seq<byte>, x: byte)
    ensures Num(b + [x]) == Num(b) + Pow256(|b|) * x
    decreases |b|
  {
    if b == [] {
      assert [x][1..] == [];
    } else {
      assert (b + [x])[1..] == b[1..] + [x];
      NumLast(b[1..], x);
    }
  }

  /** A short number by its bytes. */
  lemma NumShort(b: seq<byte>)
    requires |b| == 2
    ensures Num(b) == b[0] as int + 256 * b[1] as int
  {
    assert b[1..][1..] == [] && b[1..][0] == b[1];
    assert Num(b[1..]) == b[1] + 256 * Num(b[1..][1..]);
  }

  /** A small number has zeros after its first byte, and only then. */
  lemma {:induction false} NumSmall(b: seq<byte>, n: byte)
    requires b != []
    ensures Num(b) == n <==> b[0] == n && forall i | 1 <= i < |b| :: b[i] == 0
    decreases |b|
  {
    if |b| == 1 {
      assert b[1..] == [];
    } else {
      NumSmall(b[1..], 0);
      assert forall i | 0 <= i < |b| - 1 :: b[1..][i] == b[i + 1];
      assert Num(b) == b[0] + 256 * Num(b[1..]);
      if b[0] == n && forall i | 1 <= i < |b| :: b[i] == 0 { assert b[1..][0] == b[1]; }
      if Num(b) == n {
        assert Num(b[1..]) == 0;
        forall i | 1 <= i < |b| ensures b[i] == 0 { assert b[1..][i - 1] == b[i]; }
      }
    }
  }

  function Word(n: nat): (b: seq<byte>)
    ensures |b| == 8
  {
    Bytes(n, 8)
  }

  function Rd64(mem: Mem, a: nat): nat {
    Num(Load(mem, a, 8))
  }

  lemma WordRead(mem: Mem, a: nat, n: nat)
    requires n < TWO64 && forall i | 0 <= i < 8 :: Rd(mem, a + i) == Word(n)[i]
    ensures Rd64(mem, a) == n
  {
    assert Pow256(8) == TWO64 by {
      assert Pow256(4) == 0x1_0000_0000;
    }
    assert Load(mem, a, 8) == Word(n);
    NumBytes(n, 8);
  }

  /** Memory that agrees on a word agrees on its value. */
  lemma WordSame(mem: Mem, mem': Mem, a: nat, b: nat)
    requires forall x: nat | a <= x < a + 8 :: Rd(mem, x) == Rd(mem', x - a + b)
    ensures Rd64(mem, a) == Rd64(mem', b)
  {
    assert Load(mem, a, 8) == Load(mem', b, 8);
  }

  // ---------------------------------------------------------------- strings

  /** strnlen */
  function Strnlen(mem: Mem, a: nat, maxlen: nat): nat
    decreases maxlen
  {
    if maxlen == 0 || Rd(mem, a) == 0 then 0 else 1 + Strnlen(mem, a + 1, maxlen - 1)
  }

  /** strnlen is the distance to the first zero byte, if there is one within maxlen. */
  lemma {:induction false} StrnlenMeaning(mem: Mem, a: nat, maxlen: nat)
    ensures var l := Strnlen(mem, a, maxlen);
            && l <= maxlen
            && (forall x: nat | a <= x < a + l :: Rd(mem, x) != 0)
            && (l < maxlen ==> Rd(mem, a + l) == 0)
    decreases maxlen
  {
    hide Rd;
    if maxlen > 0 && Rd(mem, a) != 0 { StrnlenMeaning(mem, a + 1, maxlen - 1); }
  }

  method StringLength(mem: Mem, a: nat, maxlen: nat) returns (l: nat)
    ensures l == Strnlen(mem, a, maxlen)
  {
    hide Rd;
    l := 0;
    while l < maxlen
      invariant l <= maxlen && Strnlen(mem, a, maxlen) == l + Strnlen(mem, a + l, maxlen - l)
    {
      if Rd(mem, a + l) == 0 { return; }
      l := l + 1;
    }
  }

  function Strlen(mem: Mem, a: nat): nat {
    Strnlen(mem, a, 0x7fff_ffff_ffff_ffff)
  }

  /** A C string: no zero byte inside. */
  predicate Plain(s: seq<byte>) {
    forall i | 0 <= i < |s| :: s[i] != 0
  }

  /** s and its terminating zero byte are at a. */
  predicate HasString(mem: Mem, a: nat, s: seq<byte>) {
    && Plain(s) && |s| < 0x7fff_ffff_ffff_ffff
    && (forall x: nat | a <= x < a + |s| :: Rd(mem, x) == s[x - a])
    && Rd(mem, a + |s|) == 0
  }

  lemma {:induction false} StrnlenString(mem: Mem, a: nat, s: seq<byte>, maxlen: nat)
    requires Plain(s) && |s| < maxlen
    requires (forall x: nat | a <= x < a + |s| :: Rd(mem, x) == s[x - a]) && Rd(mem, a + |s|) == 0
    ensures Strnlen(mem, a, maxlen) == |s|
    decreases |s|
  {
    if s != [] { StrnlenString(mem, a + 1, s[1..], maxlen - 1); }
  }

  /** strlen of a string is its length, and strlen + 1 bytes are the string and its end. */
  lemma StrlenString(mem: Mem, a: nat, s: seq<byte>)
    requires HasString(mem, a, s)
    ensures Strlen(mem, a) == |s| && Load(mem, a, |s| + 1) == s + [0]
  {
    StrnlenString(mem, a, s, 0x7fff_ffff_ffff_ffff);
  }

  /** Bytes that the strings take, with their terminators. */
  function Size(ss: seq<seq<byte>>): nat {
    if ss == [] then 0 else Size(ss[..|ss| - 1]) + |ss[|ss| - 1]| + 1
  }
}
