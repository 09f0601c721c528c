/**
  The request loop of the RAM disk (lktm/drivers/block/sampleblk/day2/sample_blk.c):
  segmented transfers against one flat copy per request.
 */
module RamDisk {
  import opened Machine

  const EIO: int := 5

  /** A request: its buffers hold what is to be written, or what was read into them. */
  datatype Request = Request(fs: bool, sector: nat, bytes: nat, write: bool, segs: seq<seq<byte>>)

  /** A finished request: the status it was ended with, and its buffers. */
  datatype Done = Done(status: int, segs: seq<seq<byte>>)

  // ---------------------------------------------------------------- the loop

  /** memcpy of the disk's bytes at pos into a buffer, when they exist. */
  function Fill(disk: seq<byte>, pos: nat, buffer: seq<byte>): (r: seq<byte>)
    ensures |r| == |buffer|
  {
    if pos + |buffer| <= |disk| then disk[pos..pos + |buffer|] else buffer
  }

  /** rq_for_each_segment with sampleblk_handle_io: disk and buffers afterwards. */
  function Segments(disk: seq<byte>, pos: nat, write: bool, segs: seq<seq<byte>>): (seq<byte>, seq<seq<byte>>)
    decreases |segs|
  {
    if segs == [] then (disk, [])
    else if write then
      var (d, rest) := Segments(Blit(disk, pos, segs[0]), pos + |segs[0]|, write, segs[1..]);
      (d, [segs[0]] + rest)
    else
      var (d, rest) := Segments(disk, pos + |segs[0]|, write, segs[1..]);
      (d, [Fill(disk, pos, segs[0])] + rest)
  }

  /** `pos = blk_rq_pos(rq) * sampleblk_sect_size` in 64 bits */
  function Pos(rq: Request): nat {
    rq.sector * 512 % 0x1_0000_0000_0000_0000
  }

  predicate Rejected(size: nat, rq: Request) {
    !rq.fs || (Pos(rq) + rq.bytes) % 0x1_0000_0000_0000_0000 > size
  }

  /** One turn of the loop; rv is the variable that lives across turns. */
  function Serve(disk: seq<byte>, rv: int, rq: Request): (seq<byte>, int, Done) {
    if Rejected(|disk|, rq) then (disk, -EIO, Done(-EIO, rq.segs))
    else
      var (d, segs) := Segments(disk, Pos(rq), rq.write, rq.segs);
      var rv' := if rq.segs == [] then rv else 0;
      (d, rv', Done(rv', segs))
  }

  function ServeAll(disk: seq<byte>, rv: int, queue: seq<Request>): (seq<byte>, seq<Done>)
    decreases |queue|
  {
    if queue == [] then (disk, [])
    else
      var (d, rv', done) := Serve(disk, rv, queue[0]);
      var (d', rest) := ServeAll(d, rv', queue[1..]);
      (d', [done] + rest)
  }

  // ---------------------------------------------------------------- the flat meaning

  function Flat(segs: seq<seq<byte>>): seq<byte> {
    if segs == [] then [] else segs[0] + Flat(segs[1..])
  }

  predicate SameShape(a: seq<seq<byte>>, b: seq<seq<byte>>) {
    |a| == |b| && forall i | 0 <= i < |a| :: |a[i]| == |b[i]|
  }

  /** What the block layer promises: the segments add up to the request, and the request does
      not run over the end of the address space. */
  predicate WellFormed(rq: Request) {
    |Flat(rq.segs)| == rq.bytes && rq.sector * 512 + rq.bytes < TWO64
  }

  predicate InBounds(size: nat, rq: Request) {
    rq.fs && 512 * rq.sector + rq.bytes <= size
  }

  /** The disk after one flat copy. */
  function FlatDisk(disk: seq<byte>, rq: Request): seq<byte> {
    if InBounds(|disk|, rq) && rq.write then Blit(disk, 512 * rq.sector, Flat(rq.segs)) else disk
  }

  /** The bytes a request's buffers hold afterwards. */
  function FlatBuffer(disk: seq<byte>, rq: Request): seq<byte> {
    if InBounds(|disk|, rq) && !rq.write then disk[512 * rq.sector..512 * rq.sector + rq.bytes] else Flat(rq.segs)
  }

  lemma BlitTwice(disk: seq<byte>, pos: nat, a: seq<byte>, b: seq<byte>)
    requires pos + |a| + |b| <= |disk|
    ensures Blit(Blit(disk, pos, a), pos + |a|, b) == Blit(disk, pos, a + b)
  {
    hide Blit;
    var d := Blit(disk, pos, a);
    var x, y := Blit(d, pos + |a|, b), Blit(disk, pos, a + b);
    forall k | 0 <= k < |disk| ensures x[k] == y[k] {
      if pos <= k < pos + |a| {
        assert d[pos + (k - pos)] == a[k - pos];
        assert y[pos + (k - pos)] == (a + b)[k - pos];
      } else if pos + |a| <= k < pos + |a| + |b| {
        assert x[pos + |a| + (k - pos - |a|)] == b[k - pos - |a|];
        assert y[pos + (k - pos)] == (a + b)[k - pos];
      }
    }
  }

  lemma ShapeNone()
    ensures SameShape([], [])
  {
  }

  lemma FlatCons(s: seq<byte>, rest: seq<seq<byte>>, segs: seq<seq<byte>>)
    requires segs != [] && |s| == |segs[0]| && SameShape(rest, segs[1..])
    ensures Flat([s] + rest) == s + Flat(rest) && SameShape([s] + rest, segs)
  {
    assert ([s] + rest)[1..] == rest;
    forall i | 0 <= i < |segs| ensures |([s] + rest)[i]| == |segs[i]| {
      if i > 0 { assert segs[1..][i - 1] == segs[i]; }
    }
  }

  lemma FillThen(disk: seq<byte>, pos: nat, a: seq<byte>, b: seq<byte>)
    requires pos + |a| + |b| <= |disk|
    ensures Fill(disk, pos, a) + disk[pos + |a|..pos + |a| + |b|] == disk[pos..pos + |a + b|]
  {
  }

  /** Segment by segment is the same as flat: one write of all the bytes, or buffers that
      together hold the disk's bytes in order. */
  lemma {:induction false} SegmentsFlat(disk: seq<byte>, pos: nat, write: bool, segs: seq<seq<byte>>)
    requires pos + |Flat(segs)| <= |disk|
    ensures var (d, out) := Segments(disk, pos, write, segs);
            && d == (if write then Blit(disk, pos, Flat(segs)) else disk)
            && Flat(out) == (if write then Flat(segs) else disk[pos..pos + |Flat(segs)|])
            && SameShape(out, segs)
    decreases |segs|
  {
    hide Blit, Fill, SameShape;
    if segs == [] {
      assert Blit(disk, pos, []) == disk by { BlitNone(disk, pos); }
      assert disk[pos..pos] == [];
      assert SameShape([], segs) by { ShapeNone(); }
    } else {
      var s, rest := segs[0], segs[1..];
      assert Flat(segs) == s + Flat(rest);
      if write {
        SegmentsFlat(Blit(disk, pos, s), pos + |s|, write, rest);
        BlitTwice(disk, pos, s, Flat(rest));
        FlatCons(s, Segments(Blit(disk, pos, s), pos + |s|, write, rest).1, segs);
      } else {
        SegmentsFlat(disk, pos + |s|, write, rest);
        FlatCons(Fill(disk, pos, s), Segments(disk, pos + |s|, write, rest).1, segs);
        FillThen(disk, pos, s, Flat(rest));
      }
    }
  }

  function Status(size: nat, rq: Request): int {
    if InBounds(size, rq) then 0 else -5
  }

  /** One request: disk and buffers are those of one flat copy; a rejected request changes
      nothing.  Its status is its own exactly when it is rejected, has a segment, or finds no
      error left over from an earlier request. */
  lemma ServeFlat(disk: seq<byte>, rv: int, rq: Request)
    requires WellFormed(rq)
    ensures var (d, rv', done) := Serve(disk, rv, rq);
            && d == FlatDisk(disk, rq)
            && Flat(done.segs) == FlatBuffer(disk, rq) && SameShape(done.segs, rq.segs)
            && rv' == done.status
            && (done.status == Status(|disk|, rq) <==> !InBounds(|disk|, rq) || rq.segs != [] || rv == 0)
  {
    assert Pos(rq) == 512 * rq.sector;
    assert Rejected(|disk|, rq) <==> !InBounds(|disk|, rq);
    if InBounds(|disk|, rq) {
      SegmentsFlat(disk, Pos(rq), rq.write, rq.segs);
    }
    hide Blit, Flat, Segments;
  }

  /** The disk after a queue of flat copies. */
  function FlatRun(disk: seq<byte>, queue: seq<Request>): seq<byte>
    decreases |queue|
  {
    if queue == [] then disk else FlatRun(FlatDisk(disk, queue[0]), queue[1..])
  }

  lemma FlatDiskSize(disk: seq<byte>, rq: Request)
    ensures |FlatDisk(disk, rq)| == |disk|
  {
  }

  /** Requests a..b are accepted and have no segments: they leave rv alone. */
  predicate Quiet(size: nat, queue: seq<Request>, a: nat, b: nat)
    requires b <= |queue|
  {
    forall k | a <= k < b :: InBounds(size, queue[k]) && queue[k].segs == []
  }

  /** Request i gets an error that is not its own: it is quiet, and the last request before it
      that is not was rejected; rv is what the loop started with. */
  ghost predicate Inherits(size: nat, rv: int, queue: seq<Request>, i: nat)
    requires i < |queue|
  {
    && Quiet(size, queue, i, i + 1)
    && (|| (rv != 0 && Quiet(size, queue, 0, i))
        || exists j :: 0 <= j < i && !InBounds(size, queue[j]) && Quiet(size, queue, j + 1, i))
  }

  /** rv after a request. */
  function Left(size: nat, rv: int, rq: Request): int {
    if !InBounds(size, rq) then -EIO else if rq.segs != [] then 0 else rv
  }

  lemma QuietRest(size: nat, queue: seq<Request>, a: nat, b: nat)
    requires 0 < a <= b <= |queue|
    ensures Quiet(size, queue, a, b) <==> Quiet(size, queue[1..], a - 1, b - 1)
  {
    hide InBounds;
    forall k | a - 1 <= k < b - 1 ensures queue[1..][k] == queue[k + 1] {}
    if Quiet(size, queue[1..], a - 1, b - 1) {
      forall k | a <= k < b ensures InBounds(size, queue[k]) && queue[k].segs == [] {
        assert queue[1..][k - 1] == queue[k];
      }
    }
  }

  lemma QuietFrom(size: nat, queue: seq<Request>, i: nat)
    requires 0 < i <= |queue|
    ensures Quiet(size, queue, 0, i) <==>
            InBounds(size, queue[0]) && queue[0].segs == [] && Quiet(size, queue, 1, i)
  {
    hide InBounds;
  }

  /** Inheriting along the queue is inheriting along the rest, from what its head left. */
  lemma InheritsRest(size: nat, rv: int, queue: seq<Request>, i: nat)
    requires 0 < i < |queue|
    ensures Inherits(size, rv, queue, i) <==> Inherits(size, Left(size, rv, queue[0]), queue[1..], i - 1)
  {
    hide InBounds, Quiet;
    var rest, rv' := queue[1..], Left(size, rv, queue[0]);
    QuietRest(size, queue, i, i + 1);
    QuietRest(size, queue, 1, i);
    QuietFrom(size, queue, i);
    if j :| 0 <= j < i && !InBounds(size, queue[j]) && Quiet(size, queue, j + 1, i) {
      QuietRest(size, queue, j + 1, i);
      if j > 0 { assert !InBounds(size, rest[j - 1]) && Quiet(size, rest, j - 1 + 1, i - 1); }
    }
    if j :| 0 <= j < i - 1 && !InBounds(size, rest[j]) && Quiet(size, rest, j + 1, i - 1) {
      QuietRest(size, queue, j + 2, i);
      assert rest[j] == queue[j + 1] && Quiet(size, queue, j + 1 + 1, i);
    }
  }

  lemma ServeLeft(disk: seq<byte>, rv: int, rq: Request)
    requires WellFormed(rq)
    ensures Serve(disk, rv, rq).1 == Left(|disk|, rv, rq) == Serve(disk, rv, rq).2.status
  {
    assert Pos(rq) == 512 * rq.sector;
    assert Rejected(|disk|, rq) <==> !InBounds(|disk|, rq);
    hide Flat, Segments;
  }

  lemma InheritsFirst(size: nat, rv: int, queue: seq<Request>)
    requires queue != []
    ensures Inherits(size, rv, queue, 0) <==> InBounds(size, queue[0]) && queue[0].segs == [] && rv != 0
  {
    hide InBounds;
    QuietFrom(size, queue, 1);
  }

  /** sampleblk_request on every queue the block layer can hand over: the disk ends as after
      the flat copies in order, and each request gets the bytes the disk had at its turn.  Its
      status is its own exactly when it does not inherit an error; else it is that error. */
  lemma {:induction false} QueueFlat(disk: seq<byte>, rv: int, queue: seq<Request>, i: nat)
    requires (rv == 0 || rv == -EIO) && forall j | 0 <= j < |queue| :: WellFormed(queue[j])
    ensures var (d, done) := ServeAll(disk, rv, queue);
            && d == FlatRun(disk, queue) && |done| == |queue|
            && (i < |queue| ==>
                  && SameShape(done[i].segs, queue[i].segs)
                  && Flat(done[i].segs) == FlatBuffer(FlatRun(disk, queue[..i]), queue[i])
                  && (done[i].status == Status(|disk|, queue[i]) <==> !Inherits(|disk|, rv, queue, i))
                  && (Inherits(|disk|, rv, queue, i) ==> done[i].status == -5))
    decreases |queue|
  {
    hide Serve, FlatDisk, FlatBuffer, Flat, WellFormed, SameShape, InBounds, Inherits;
    if queue != [] {
      ServeFlat(disk, rv, queue[0]);
      FlatDiskSize(disk, queue[0]);
      var (d, rv', done) := Serve(disk, rv, queue[0]);
      assert rv' == Left(|disk|, rv, queue[0]) by { ServeLeft(disk, rv, queue[0]); }
      QueueFlat(d, rv', queue[1..], if i > 0 then i - 1 else 0);
      if 0 < i < |queue| {
        assert queue[1..][..i - 1] == queue[..i][1..];
        InheritsRest(|disk|, rv, queue, i);
      } else if i == 0 {
        InheritsFirst(|disk|, rv, queue);
      }
    }
  }

  /** An error does leak, on every disk: after a rejected request, a request without segments
      is ended with its error. */
  lemma ErrorLeaks(disk: seq<byte>)
    ensures var bad, empty := Request(false, 0, 0, false, []), Request(true, 0, 0, false, []);
            var done := ServeAll(disk, 0, [bad, empty]).1;
            && WellFormed(bad) && WellFormed(empty) && Status(|disk|, empty) == 0
            && |done| == 2 && done[1].status == -5
  {
    var bad, empty := Request(false, 0, 0, false, []), Request(true, 0, 0, false, []);
    var q := [bad, empty];
    assert !InBounds(|disk|, q[0]) && Quiet(|disk|, q, 1, 1) && Inherits(|disk|, 0, q, 1);
    QueueFlat(disk, 0, q, 1);
  }

  /** Beyond what the block layer promises: a request that runs over 2^64 is accepted although it
      is out of bounds exactly when its wrapped end lies inside the disk, and so is no other. */
  lemma WrapAccepted(size: nat, rq: Request)
    requires size < TWO64 && 512 * rq.sector < TWO64 && rq.bytes < TWO64
    ensures !Rejected(size, rq) && !InBounds(size, rq) <==>
            rq.fs && TWO64 <= 512 * rq.sector + rq.bytes <= TWO64 + size
  {
    var pos := 512 * rq.sector;
    QuotientIs(pos, 0x1_0000_0000_0000_0000, 0, pos);
    if pos + rq.bytes < TWO64 {
      QuotientIs(pos + rq.bytes, 0x1_0000_0000_0000_0000, 0, pos + rq.bytes);
    } else {
      QuotientIs(pos + rq.bytes, 0x1_0000_0000_0000_0000, 1, pos + rq.bytes - TWO64);
    }
  }

  // ---------------------------------------------------------------- the driver, in place

  /** A result with what was done before it. */
  ghost function After<T>(before: seq<T>, r: (seq<byte>, seq<T>)): (seq<byte>, seq<T>) {
    (r.0, before + r.1)
  }

  lemma AfterMore<T>(before: seq<T>, d: seq<byte>, x: T, rest: seq<T>)
    ensures After(before, (d, [x] + rest)) == After(before + [x], (d, rest))
    ensures After([], (d, rest)) == (d, rest) && After(before, (d, [])) == (d, before)
  {
    assert before + ([x] + rest) == before + [x] + rest;
    assert [] + rest == rest && before + [] == before;
  }

  lemma AcceptedFits(size: nat, rq: Request)
    requires WellFormed(rq) && !Rejected(size, rq)
    ensures Pos(rq) + |Flat(rq.segs)| <= size
  {
    assert Pos(rq) == 512 * rq.sector;
  }

  class Device {
    const data: array<byte>

    constructor (size: nat)
      ensures fresh(data) && data.Length == size
    {
      data := new byte[size](_ => 0);
    }

    /** The write half of sampleblk_handle_io. */
    method CopyIn(pos: nat, buffer: seq<byte>)
      requires pos + |buffer| <= data.Length
      modifies data
      ensures data[..] == Blit(old(data[..]), pos, buffer)
    {
      for i := 0 to |buffer|
        invariant forall a | 0 <= a < data.Length ::
                    data[a] == if pos <= a < pos + i then buffer[a - pos] else old(data[a])
      {
        data[pos + i] := buffer[i];
      }
      assert data[..] == Blit(old(data[..]), pos, buffer);
    }

    /** The loop over the segments of one accepted request. */
    method Transfer(rq: Request) returns (segs: seq<seq<byte>>)
      requires Pos(rq) + |Flat(rq.segs)| <= data.Length
      modifies data
      ensures (data[..], segs) == Segments(old(data[..]), Pos(rq), rq.write, rq.segs)
    {
      hide Blit, Pos, After;
      segs := [];
      var pos: nat, i: nat := Pos(rq), 0;
      assert rq.segs[0..] == rq.segs;
      ghost var all := Segments(data[..], pos, rq.write, rq.segs);
      assert all == After([], all) by { AfterMore([], all.0, [], all.1); }
      while i < |rq.segs|
        invariant 0 <= i <= |rq.segs| && pos + |Flat(rq.segs[i..])| <= data.Length
        invariant all == After(segs, Segments(data[..], pos, rq.write, rq.segs[i..]))
      {
        var s := rq.segs[i];
        ghost var left := rq.segs[i..];
        assert left[0] == s && left[1..] == rq.segs[i + 1..];
        var out := s;
        if rq.write { CopyIn(pos, s); } else { out := data[pos..pos + |s|]; }
        ghost var r := Segments(data[..], pos + |s|, rq.write, rq.segs[i + 1..]);
        AfterMore(segs, r.0, out, r.1);
        segs := segs + [out];
        pos := pos + |s|;
        i := i + 1;
      }
      assert rq.segs[i..] == [];
      AfterMore(segs, data[..], [], []);
    }

    /** sampleblk_request */
    method HandleQueue(queue: seq<Request>) returns (done: seq<Done>)
      requires forall i | 0 <= i < |queue| :: WellFormed(queue[i])
      modifies data
      ensures (data[..], done) == ServeAll(old(data[..]), 0, queue)
    {
      hide Segments, Pos, WellFormed;
      done := [];
      var rv: int, i: nat := 0, 0;
      assert queue[0..] == queue;
      ghost var all := ServeAll(data[..], 0, queue);
      assert all == After([], all) by { AfterMore([], all.0, Done(0, []), all.1); }
      while i < |queue|
        invariant 0 <= i <= |queue|
        invariant all == After(done, ServeAll(data[..], rv, queue[i..]))
      {
        var rq := queue[i];
        ghost var before, d := rv, data[..];
        assert queue[i..][0] == rq && queue[i..][1..] == queue[i + 1..];
        var segs := rq.segs;
        if Rejected(data.Length, rq) {
          rv := -EIO;
        } else {
          AcceptedFits(data.Length, rq);
          segs := Transfer(rq);
          if rq.segs != [] { rv := 0; }
        }
        assert Serve(d, before, rq) == (data[..], rv, Done(rv, segs));
        ghost var r := ServeAll(data[..], rv, queue[i + 1..]);
        AfterMore(done, r.0, Done(rv, segs), r.1);
        done := done + [Done(rv, segs)];
        i := i + 1;
      }
      assert queue[i..] == [];
      AfterMore(done, data[..], Done(0, []), []);
    }
  }
}
