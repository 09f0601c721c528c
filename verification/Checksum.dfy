/**
  The incremental Internet checksum of ebpf-http/http-parse-complete.c, against the
  checksum of section 1 of RFC 1071 computed from scratch.
 */
module Checksum {
  import opened Machine

  type Word16 = x: int | 0 <= x < 0x1_0000

  // ---------------------------------------------------------------- from scratch

  function Sum(ws: seq<Word16>): nat {
    if ws == [] then 0 else ws[0] + Sum(ws[1..])
  }

  /** Adding the carries back in until 16 bits are left: the one's complement sum. */
  function Fold(n: nat): nat {
    if n < 0x1_0000 then n else Fold(n / 0x1_0000 + n % 0x1_0000)
  }

  lemma MultipleOf(q: int, x: int)
    ensures (0xffff * q + x) % 0xffff == x % 0xffff
  {
    QuotientIs(0xffff * q + x, 0xffff, q + x / 0xffff, x % 0xffff);
  }

  lemma {:induction false} FoldMeaning(n: nat)
    ensures Fold(n) < 0x1_0000
    ensures n > 0 ==> Fold(n) > 0
    ensures Fold(n) % 0xffff == n % 0xffff
  {
    if n >= 0x1_0000 {
      var q, r := n / 0x1_0000, n % 0x1_0000;
      FoldMeaning(q + r);
      MultipleOf(q, q + r);
      assert n == 0xffff * q + (q + r);
    }
  }

  function Checksum(ws: seq<Word16>): Word16 {
    FoldMeaning(Sum(ws));
    0xffff - Fold(Sum(ws))
  }

  // ---------------------------------------------------------------- incrementally

  /** One addition of the carries. */
  function AddCarries(n: nat): nat {
    n / 0x1_0000 + n % 0x1_0000
  }

  /** csum_incremental_update_modified: equation 3 of section 3 of RFC 1624. */
  function Update(oldCsum: Word16, oldField: Word16, newField: Word16): Word16 {
    var csum := (0xffff - oldCsum) + (0xffff - oldField) + newField;
    var once := AddCarries(csum);
    0xffff - (once + once / 0x1_0000) % 0x1_0000
  }

  lemma FoldOnce(n: nat)
    ensures Fold(n) == if n < 0x1_0000 then n else Fold(AddCarries(n))
  {
  }

  lemma OnceBound(n: nat)
    requires 0 < n <= 3 * 0xffff
    ensures AddCarries(n) <= 0x1_0000 && (n < 0x1_0000 ==> AddCarries(n) == n)
  {
    var q, r := n / 0x1_0000, n % 0x1_0000;
    assert n == 0x1_0000 * q + r && q <= 2;
  }

  lemma CarryOfOne()
    ensures AddCarries(0x1_0000) == 1
  {
  }

  /** Two rounds of carries are enough for a sum of three words. */
  lemma TwoFoldsEnough(n: nat)
    requires 0 < n <= 3 * 0xffff
    ensures (AddCarries(n) + AddCarries(n) / 0x1_0000) % 0x1_0000 == Fold(n)
  {
    hide Fold;
    FoldOnce(n);
    var once := AddCarries(n);
    OnceBound(n);
    FoldOnce(once);
    hide AddCarries;
    if once == 0x1_0000 {
      assert AddCarries(0x1_0000) == 1 by { CarryOfOne(); }
      FoldOnce(1);
    }
  }

  lemma {:induction false} SumUpdate(ws: seq<Word16>, i: nat, w: Word16)
    requires i < |ws|
    ensures Sum(ws[i := w]) == Sum(ws) - ws[i] + w
  {
    if i > 0 {
      SumUpdate(ws[1..], i - 1, w);
      assert ws[i := w][1..] == ws[1..][i - 1 := w];
    } else {
      assert ws[i := w][1..] == ws[1..];
    }
  }

  lemma SumPart(ws: seq<Word16>, i: nat)
    requires i < |ws|
    ensures Sum(ws) >= ws[i]
  {
    SumUpdate(ws, i, 0);
  }

  predicate AllZero(ws: seq<Word16>) {
    forall i | 0 <= i < |ws| :: ws[i] == 0
  }

  lemma {:induction false} SumZero(ws: seq<Word16>)
    ensures Sum(ws) == 0 <==> AllZero(ws)
  {
    if ws != [] {
      SumZero(ws[1..]);
      assert ws == [ws[0]] + ws[1..];
    }
  }

  lemma SameResidue(a: nat, b: nat)
    requires 0 < a <= 0xffff && 0 < b <= 0xffff && a % 0xffff == b % 0xffff
    ensures a == b
  {
  }

  lemma Residue(x: nat, s: nat, o: Word16, w: Word16, s': nat)
    requires x % 0xffff == s % 0xffff && s' == s - o + w && s >= o
    ensures (x + (0xffff - o) + w) % 0xffff == s' % 0xffff
  {
    var q, p := x / 0xffff, s / 0xffff;
    assert x == 0xffff * q + s - 0xffff * p;
    assert x + (0xffff - o) + w == 0xffff * (q - p + 1) + s';
    MultipleOf(q - p + 1, s');
  }

  lemma UpdateIs(oldCsum: Word16, oldField: Word16, newField: Word16, x: nat)
    requires x == (0xffff - oldCsum) + (0xffff - oldField) + newField && x > 0
    ensures Fold(x) < 0x1_0000 && Update(oldCsum, oldField, newField) == 0xffff - Fold(x)
  {
    hide Fold, AddCarries;
    FoldMeaning(x);
    TwoFoldsEnough(x);
  }

  lemma FoldOfZero()
    ensures Fold(0) == 0
  {
  }

  lemma Positive(s: nat, f: nat, o: Word16, w: Word16)
    requires s >= o && (s > 0 ==> f > 0)
    ensures f + (0xffff - o) + w > 0
  {
  }

  /** Two representatives of the same sum agree unless the sum is zero. */
  lemma TwoZeros(fx: nat, fs: nat, s: nat)
    requires 0 < fx < 0x1_0000 && fs < 0x1_0000
    requires fx % 0xffff == s % 0xffff && fs % 0xffff == s % 0xffff
    requires (s > 0 ==> fs > 0) && (s == 0 ==> fs == 0)
    ensures fx == fs <==> s > 0
    ensures s == 0 ==> fx == 0xffff
  {
    if s > 0 { SameResidue(fx, fs); } else { SameResidue(fx, 0xffff); }
  }

  /** For every list of 16-bit words and every change of one of them, the incremental update
      gives the checksum of the changed list, except when the changed list is all zero:
      then the update yields the other zero. */
  lemma UpdateCorrect(ws: seq<Word16>, i: nat, w: Word16)
    requires i < |ws|
    ensures Update(Checksum(ws), ws[i], w) == Checksum(ws[i := w]) <==> !AllZero(ws[i := w])
    ensures AllZero(ws[i := w]) ==> Update(Checksum(ws), ws[i], w) == 0 && Checksum(ws[i := w]) == 0xffff
  {
    hide Fold, Sum, AllZero, Update;
    var s, s' := Sum(ws), Sum(ws[i := w]);
    SumUpdate(ws, i, w);
    SumPart(ws, i);
    SumZero(ws[i := w]);
    FoldMeaning(s);
    FoldMeaning(s');
    FoldOfZero();
    var x := Fold(s) + (0xffff - ws[i]) + w;
    Positive(s, Fold(s), ws[i], w);
    Residue(Fold(s), s, ws[i], w, s');
    FoldMeaning(x);
    UpdateIs(Checksum(ws), ws[i], w, x);
    TwoZeros(Fold(x), Fold(s'), s');
  }

  // ---------------------------------------------------------------- the flags word

  datatype Tcp = Tcp(doff: nat, res1: nat, cwr: nat, ece: nat, urg: nat, ack: nat, psh: nat, rst: nat, syn: nat,
                     fin: nat)

  predicate Fields(t: Tcp) {
    && t.doff < 16 && t.res1 < 16
    && t.cwr < 2 && t.ece < 2 && t.urg < 2 && t.ack < 2 && t.psh < 2 && t.rst < 2 && t.syn < 2 && t.fin < 2
  }

  /** get_tcp_flag, which leaves out the bits ece and cwr. */
  function TcpFlags(t: Tcp): Word16
    requires Fields(t)
  {
    t.res1 * 256 + t.doff * 4096 + t.urg * 32 + t.ack * 16 + t.psh * 8 + t.rst * 4 + t.syn * 2 + t.fin
  }

  /** The 16-bit word of the header that holds these fields. */
  function HeaderWord(t: Tcp): Word16
    requires Fields(t)
  {
    t.doff * 4096 + t.res1 * 256 + t.cwr * 128 + t.ece * 64 + t.urg * 32 + t.ack * 16 + t.psh * 8 + t.rst * 4
    + t.syn * 2 + t.fin
  }

  /** Setting or clearing flags other than ece and cwr: an update with get_tcp_flag's words
      is an update with the header's words, although they may differ. */
  lemma FlagsSuffice(t: Tcp, t': Tcp, csum: Word16)
    requires Fields(t) && Fields(t') && t'.ece == t.ece && t'.cwr == t.cwr
    ensures Update(csum, TcpFlags(t), TcpFlags(t')) == Update(csum, HeaderWord(t), HeaderWord(t'))
    ensures TcpFlags(t) == HeaderWord(t) <==> t.ece == 0 && t.cwr == 0
  {
    hide AddCarries;
    var d := t.cwr * 128 + t.ece * 64;
    assert HeaderWord(t) == TcpFlags(t) + d && HeaderWord(t') == TcpFlags(t') + d;
    hide TcpFlags, HeaderWord;
    assert (0xffff - TcpFlags(t)) + TcpFlags(t') == (0xffff - HeaderWord(t)) + HeaderWord(t');
  }

  /** When no flag changes, the checksum stays, unless it is the zero 0xffff. */
  lemma NoChange(csum: Word16, field: Word16)
    ensures Update(csum, field, field) == csum <==> csum != 0xffff
  {
    hide Fold, AddCarries;
    var x := (0xffff - csum) + 0xffff;
    TwoFoldsEnough(x);
    FoldMeaning(x);
    UpdateIs(csum, field, field, x);
    hide Update;
    assert x % 0xffff == (0xffff - csum) % 0xffff;
    SameResidue(Fold(x), if csum == 0xffff then 0xffff else 0xffff - csum);
  }
}
