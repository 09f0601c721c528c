/**
  The hypervisor's side of hypercalls (hypervisor/hypercall.c): an OUT exit does the work
  and leaves its result in a static variable of the handler, an IN exit fetches it; guest
  file descriptors are mapped to host ones.
 */
module Hypercall {
  import opened Machine

  const MEM_SIZE: nat := 0x40_0000
  const MAX_FD: nat := 255

  // UNUSED_VAR, 0xdeadffff as an int
  const UNUSED: int := -559022081

  /** The static variables: read and write share one. */
  datatype Channel = Opens | ReadsWrites | Closes | Seeks

  datatype FdHandle = FdHandle(realFd: int, opening: bool)

  datatype Hv = Hv(inited: bool, fds: seq<FdHandle>, ret: map<Channel, int>)

  /** An OUT exit: what the guest asks for, and what the host's system call answers if it is
      made. */
  datatype Call =
    | Open(offset: nat, nameLen: nat, hostFd: int, errno: nat)
    | Rw(offset: nat, fd: int, paddr: nat, nbytes: nat, work: int, errno: nat)
    | Close(fd: int, work: int, errno: nat)
    | Lseek(offset: nat, fd: int, work: int, errno: nat)

  function ChannelOf(c: Call): Channel {
    match c
    case Open(_, _, _, _) => Opens
    case Rw(_, _, _, _, _, _) => ReadsWrites
    case Close(_, _, _) => Closes
    case Lseek(_, _, _, _) => Seeks
  }

  // ---------------------------------------------------------------- handlers

  function Initial(): Hv {
    Hv(false, seq(256, _ => FdHandle(0, false)),
       map[Opens := UNUSED, ReadsWrites := UNUSED, Closes := UNUSED, Seeks := UNUSED])
  }

  function StandardFd(i: int): FdHandle {
    if 0 <= i < 3 then FdHandle(i, true) else FdHandle(0, false)
  }

  /** MAY_INIT_FD_MAP */
  function MayInit(h: Hv): Hv {
    if h.inited then h else h.(inited := true, fds := seq(256, i => StandardFd(i)))
  }

  function MinFree(fds: seq<FdHandle>, i: nat): nat
    requires i <= |fds|
    decreases |fds| - i
  {
    if i == |fds| || !fds[i].opening then i else MinFree(fds, i + 1)
  }

  predicate BadFd(fds: seq<FdHandle>, fd: int) {
    fd < 0 || fd > MAX_FD || fd >= |fds| || !fds[fd].opening
  }

  /** `ret = work; if(ret < 0) ret = -errno` */
  function WorkResult(work: int, errno: nat): int {
    if ToInt32(work) < 0 then -(errno as int) else ToInt32(work)
  }

  /** The state after the handler's work and its result; None when an assertion fails. */
  function Work(h: Hv, c: Call): Option<(Hv, int)> {
    match c
    case Open(offset, nameLen, hostFd, errno) =>
      if offset >= MEM_SIZE || (offset + nameLen) % 0x1_0000_0000 >= MEM_SIZE then None
      else
        var h1 := MayInit(h);
        var k := MinFree(h1.fds, 0);
        if k > MAX_FD || k >= |h1.fds| then Some((h1, -ENFILE))
        else if hostFd < 0 then Some((h1, -(errno as int)))
        else Some((h1.(fds := h1.fds[k := FdHandle(hostFd, true)]), k))
    case Rw(offset, fd, paddr, nbytes, work, errno) =>
      if offset >= MEM_SIZE then None
      else
        var end := (paddr + nbytes) % 0x1_0000_0000_0000_0000;
        if !(paddr <= end <= MEM_SIZE) then Some((h, -EACCES))
        else
          var h1 := MayInit(h);
          if BadFd(h1.fds, fd) then Some((h1, -EBADF))
          else if paddr >= MEM_SIZE then None
          else Some((h1, WorkResult(work, errno)))
    case Close(fd, work, errno) =>
      var h1 := MayInit(h);
      if BadFd(h1.fds, fd) then Some((h1, -EBADF))
      else Some((h1.(fds := h1.fds[fd := h1.fds[fd].(opening := false)]), WorkResult(work, errno)))
    case Lseek(offset, fd, work, errno) =>
      if offset >= MEM_SIZE then None
      else
        var h1 := MayInit(h);
        if BadFd(h1.fds, fd) then Some((h1, -EBADF)) else Some((h1, WorkResult(work, errno)))
  }

  function HandleOut(h: Hv, c: Call): Option<Hv> {
    match Work(h, c)
    case None => None
    case Some((h', r)) => Some(h'.(ret := h'.ret[ChannelOf(c) := r]))
  }

  /** The static variable of a channel. */
  function Ret(h: Hv, ch: Channel): int {
    if ch in h.ret then h.ret[ch] else UNUSED
  }

  /** THEN_RETURN: the value for the guest, or None for -1. */
  function HandleIn(h: Hv, ch: Channel): Option<(Hv, int)> {
    if Ret(h, ch) == UNUSED then None
    else Some((h.(ret := h.ret[ch := UNUSED]), Ret(h, ch)))
  }

  // ---------------------------------------------------------------- the protocol

  datatype Event = Out(call: Call) | In(ch: Channel)

  function ChannelAt(e: Event): Channel {
    match e
    case Out(c) => ChannelOf(c)
    case In(ch) => ch
  }

  /** errno values are small numbers; a stale 0 is possible where a call has not failed. */
  predicate RealErrno(c: Call) {
    c.errno < 4096
  }

  function Exit(h: Hv, e: Event): Option<Hv> {
    match e
    case Out(c) => HandleOut(h, c)
    case In(ch) =>
      match HandleIn(h, ch)
      case None => None
      case Some((h', _)) => Some(h')
  }

  /** The state after a run of exits; None when one of them stops the machine. */
  function Run(h: Hv, events: seq<Event>): Option<Hv>
    decreases |events|
  {
    if events == [] then Some(h)
    else
      var n := |events| - 1;
      match Run(h, events[..n])
      case None => None
      case Some(h1) => Exit(h1, events[n])
  }

  lemma WorkKeepsRet(h: Hv, c: Call)
    requires |h.fds| == 256
    ensures Work(h, c).Some? ==> Work(h, c).value.0.ret == h.ret && |Work(h, c).value.0.fds| == 256
  {
  }

  /** No result a handler computes is the sentinel. */
  lemma ResultsAreReal(h: Hv, c: Call)
    requires RealErrno(c) && |h.fds| == 256
    ensures Work(h, c).Some? ==> Work(h, c).value.1 != -559022081
  {
  }

  lemma {:induction false} MinFreeLeast(fds: seq<FdHandle>, i: nat)
    requires i <= |fds|
    ensures var k := MinFree(fds, i);
            && i <= k <= |fds|
            && (forall j | i <= j < k :: fds[j].opening)
            && (k < |fds| ==> !fds[k].opening)
    decreases |fds| - i
  {
    if i < |fds| && fds[i].opening { MinFreeLeast(fds, i + 1); }
  }

  /** close makes the descriptor, and no other, unusable, and frees it for the next open. */
  lemma CloseFrees(h: Hv, c: Call, fd: int)
    requires c.Close? && |h.fds| == 256 && !BadFd(MayInit(h).fds, c.fd)
    ensures Work(h, c).Some?
    ensures var h' := Work(h, c).value.0;
            && (BadFd(h'.fds, fd) <==> fd == c.fd || BadFd(MayInit(h).fds, fd))
            && MinFree(h'.fds, 0) == if c.fd < MinFree(MayInit(h).fds, 0) then c.fd else MinFree(MayInit(h).fds, 0)
  {
    var fds := MayInit(h).fds;
    var h' := Work(h, c).value.0;
    MinFreeLeast(fds, 0);
    MinFreeLeast(h'.fds, 0);
    hide MinFree, MayInit, WorkResult;
    assert h'.fds == fds[c.fd := fds[c.fd].(opening := false)];
    var k, k' := MinFree(fds, 0), MinFree(h'.fds, 0);
    assert !h'.fds[c.fd].opening && k' <= c.fd;
    assert k' != c.fd ==> h'.fds[k'] == fds[k'];
    assert k < |fds| && k != c.fd ==> h'.fds[k] == fds[k];
  }

  // ---------------------------------------------------------------- what each exit does

  /** The descriptors in force: before the first use, the three standard ones. */
  ghost function Fds(h: Hv): seq<FdHandle> {
    if h.inited then h.fds
    else [FdHandle(0, true), FdHandle(1, true), FdHandle(2, true)] + seq(253, _ => FdHandle(0, false))
  }

  predicate IsOpen(fds: seq<FdHandle>, fd: int) {
    0 <= fd < 256 && fd < |fds| && fds[fd].opening
  }

  /** What the guest reads of a system call that answered work: its low 32 bits as an int, or
      minus errno when those are negative. */
  function Told(work: int, errno: nat): int {
    if ToInt32(work) < 0 then 0 - errno else ToInt32(work)
  }

  /** fds are the descriptors afterwards, and r waits in the variable of channel ch; the other
      variables keep what they hold. */
  ghost predicate Answers(h: Hv, c: Call, fds: seq<FdHandle>, ch: Channel, r: int) {
    HandleOut(h, c) == Some(Hv(true, fds, h.ret[ch := r]))
  }

  lemma MayInitIs(h: Hv)
    ensures MayInit(h) == h.(inited := true, fds := Fds(h))
    ensures |h.fds| == 256 ==> |Fds(h)| == 256
  {
    if !h.inited {
      assert MayInit(h).fds == Fds(h);
    }
  }

  lemma BadFdIs(fds: seq<FdHandle>, fd: int)
    requires |fds| == 256
    ensures BadFd(fds, fd) <==> !IsOpen(fds, fd)
  {
  }

  ghost predicate Lowest(fds: seq<FdHandle>, k: int) {
    0 <= k < |fds| && !fds[k].opening && forall j | 0 <= j < k :: fds[j].opening
  }

  /** open, with offset and length as 32-bit numbers: an assertion fails exactly when the name
      does not start, or by 32-bit arithmetic end, inside guest memory.  Else, when no descriptor
      is free, the answer is -ENFILE; when the host cannot open the file, minus its errno; when
      it can, the lowest free descriptor is mapped to the host's, and is the answer. */
  lemma OpenResult(h: Hv, c: Call)
    requires c.Open? && |h.fds| == 256
    ensures HandleOut(h, c).None? <==>
            c.offset >= 0x40_0000 || (c.offset + c.nameLen) % 0x1_0000_0000 >= 0x40_0000
    ensures HandleOut(h, c).Some? && (forall j | 0 <= j < 256 :: Fds(h)[j].opening) ==>
              Answers(h, c, Fds(h), Opens, -23)
    ensures forall k: nat | HandleOut(h, c).Some? && Lowest(Fds(h), k) ::
              if c.hostFd < 0 then Answers(h, c, Fds(h), Opens, 0 - c.errno)
              else Answers(h, c, Fds(h)[k := FdHandle(c.hostFd, true)], Opens, k)
  {
    hide MinFree, Fds;
    MayInitIs(h);
    MinFreeLeast(Fds(h), 0);
    hide MayInit;
  }

  /** read and write: a buffer that is not inside guest memory, wrapped ranges included, is
      refused first with -EACCES, then a descriptor that is not open with -EBADF; else the host's
      answer counts; no descriptor changes.  An assertion fails exactly when the parameters are
      outside guest memory, or on an empty buffer at its end with an open descriptor. */
  lemma RwResult(h: Hv, c: Call)
    requires c.Rw? && c.paddr < TWO64 && c.nbytes < TWO64 && |h.fds| == 256
    ensures HandleOut(h, c).None? <==>
            || c.offset >= 0x40_0000
            || (c.paddr == 0x40_0000 && c.nbytes == 0 && IsOpen(Fds(h), c.fd))
    ensures HandleOut(h, c).Some? ==>
              if c.paddr + c.nbytes > 0x40_0000 then HandleOut(h, c) == Some(h.(ret := h.ret[ReadsWrites := -13]))
              else if !IsOpen(Fds(h), c.fd) then Answers(h, c, Fds(h), ReadsWrites, -9)
              else Answers(h, c, Fds(h), ReadsWrites, Told(c.work, c.errno))
  {
    hide Fds, ToInt32;
    MayInitIs(h);
    BadFdIs(Fds(h), c.fd);
    hide MayInit, BadFd, IsOpen;
    var sum := c.paddr + c.nbytes;
    if sum < TWO64 {
      QuotientIs(sum, 0x1_0000_0000_0000_0000, 0, sum);
    } else {
      QuotientIs(sum, 0x1_0000_0000_0000_0000, 1, sum - TWO64);
    }
  }

  /** close answers -EBADF for a descriptor that is not open, and else closes it, whatever the
      host answers. */
  lemma CloseResult(h: Hv, c: Call)
    requires c.Close? && |h.fds| == 256
    ensures if !IsOpen(Fds(h), c.fd) then Answers(h, c, Fds(h), Closes, -9)
            else Answers(h, c, Fds(h)[c.fd := FdHandle(Fds(h)[c.fd].realFd, false)], Closes, Told(c.work, c.errno))
  {
    hide Fds, ToInt32;
    MayInitIs(h);
    BadFdIs(Fds(h), c.fd);
    hide MayInit;
  }

  /** lseek: the same, without a change of descriptors; an assertion fails exactly when the
      parameters are outside guest memory. */
  lemma LseekResult(h: Hv, c: Call)
    requires c.Lseek? && |h.fds| == 256
    ensures HandleOut(h, c).None? <==> c.offset >= 0x40_0000
    ensures HandleOut(h, c).Some? ==>
              Answers(h, c, Fds(h), Seeks, if !IsOpen(Fds(h), c.fd) then -9 else Told(c.work, c.errno))
  {
    hide Fds, ToInt32;
    MayInitIs(h);
    BadFdIs(Fds(h), c.fd);
    hide MayInit;
  }

  /** The assertion of read and write at work: writing nothing from the end of guest memory to the
      standard output. */
  lemma EmptyAtEnd(work: int, errno: nat)
    ensures HandleOut(Initial(), Rw(0, 1, 0x40_0000, 0, work, errno)) == None
  {
    RwResult(Initial(), Rw(0, 1, 0x40_0000, 0, work, errno));
  }

  /** Some exit on the channel happened, and the last one was an OUT. */
  predicate Unanswered(events: seq<Event>, ch: Channel) {
    events != [] &&
    var n := |events| - 1;
    if ChannelAt(events[n]) == ch then events[n].Out? else Unanswered(events[..n], ch)
  }

  /** Index of the last exit on the channel. */
  function LastOn(events: seq<Event>, ch: Channel): (i: nat)
    requires Unanswered(events, ch)
    ensures i < |events| && events[i].Out? && ChannelAt(events[i]) == ch
    ensures forall j | i < j < |events| :: ChannelAt(events[j]) != ch
  {
    var n := |events| - 1;
    if ChannelAt(events[n]) == ch then n else LastOn(events[..n], ch)
  }

  /** What an IN would deliver, if anything. */
  function Answer(h: Hv, ch: Channel): Option<int> {
    if HandleIn(h, ch).Some? then Some(HandleIn(h, ch).value.1) else None
  }

  /** An OUT sets the answer of its own channel, to its result, and of no other. */
  lemma AnswerAfterOut(h: Hv, c: Call, ch: Channel)
    requires RealErrno(c) && |h.fds| == 256 && HandleOut(h, c).Some?
    ensures Work(h, c).Some? && |HandleOut(h, c).value.fds| == 256
    ensures Answer(HandleOut(h, c).value, ch) == if ch == ChannelOf(c) then Some(Work(h, c).value.1) else Answer(h, ch)
  {
    hide Work;
    WorkKeepsRet(h, c);
    ResultsAreReal(h, c);
  }

  /** An IN takes the answer of its own channel, and of no other. */
  lemma AnswerAfterIn(h: Hv, ch': Channel, ch: Channel)
    requires Exit(h, In(ch')).Some?
    ensures Answer(Exit(h, In(ch')).value, ch) == if ch == ch' then None else Answer(h, ch)
    ensures Exit(h, In(ch')).value.fds == h.fds
  {
  }

  lemma NoAnswer(ch: Channel)
    ensures HandleIn(Initial(), ch).None?
  {
  }

  /** In every run that has got this far, an IN succeeds exactly when its channel has an
      unanswered OUT, and it then delivers the result of the latest OUT on that channel. */
  lemma {:induction false} ProtocolCorrect(events: seq<Event>, ch: Channel)
    requires forall i | 0 <= i < |events| && events[i].Out? :: RealErrno(events[i].call)
    requires Run(Initial(), events).Some?
    ensures var h := Run(Initial(), events).value;
            && |h.fds| == 256
            && (HandleIn(h, ch).Some? <==> Unanswered(events, ch))
            && (Unanswered(events, ch) ==>
                  var i := LastOn(events, ch);
                  var before := Run(Initial(), events[..i]);
                  && before.Some? && Work(before.value, events[i].call).Some?
                  && HandleIn(h, ch).value.1 == Work(before.value, events[i].call).value.1)
    decreases |events|
  {
    hide Work, HandleIn, HandleOut;
    if events == [] {
      assert HandleIn(Initial(), ch).None? by { NoAnswer(ch); }
    } else {
      var n := |events| - 1;
      ProtocolCorrect(events[..n], ch);
      var h1 := Run(Initial(), events[..n]).value;
      match events[n] {
        case Out(c) => AnswerAfterOut(h1, c, ch);
        case In(ch') => AnswerAfterIn(h1, ch', ch);
      }
      if Unanswered(events, ch) && ChannelAt(events[n]) != ch {
        assert events[..n][..LastOn(events, ch)] == events[..LastOn(events, ch)];
      }
    }
  }

  /** An answer is delivered once: after a successful IN the channel has none left. */
  lemma DeliveredOnce(events: seq<Event>, ch: Channel)
    requires forall i | 0 <= i < |events| && events[i].Out? :: RealErrno(events[i].call)
    requires Run(Initial(), events + [In(ch)]).Some?
    ensures Unanswered(events, ch)
    ensures Run(Initial(), events + [In(ch), In(ch)]) == None
  {
    hide Work;
    assert (events + [In(ch)])[..|events|] == events;
    assert (events + [In(ch), In(ch)])[..|events| + 1] == events + [In(ch)];
    ProtocolCorrect(events, ch);
  }

  // ---------------------------------------------------------------- file descriptors

  /** Open guest fds map to different host fds, all of them open on the host. */
  ghost predicate FdsOk(fds: seq<FdHandle>, host: set<int>) {
    && |fds| == 256
    && (forall i | 0 <= i < |fds| && fds[i].opening :: fds[i].realFd in host)
    && (forall i, j | 0 <= i < j < |fds| && fds[i].opening && fds[j].opening :: fds[i].realFd != fds[j].realFd)
  }

  ghost predicate FdInv(h: Hv, host: set<int>) {
    FdsOk(h.fds, host) && (!h.inited ==> {0, 1, 2} <= host)
  }

  /** The host never hands out a descriptor that is open. */
  predicate HonestHost(host: set<int>, c: Call) {
    c.Open? && c.hostFd >= 0 ==> c.hostFd !in host
  }

  /** The host's open descriptors after the call. */
  function HostAfter(h: Hv, host: set<int>, c: Call): set<int> {
    var fds := MayInit(h).fds;
    match c
    case Open(_, _, hostFd, _) => if hostFd >= 0 && MinFree(fds, 0) < |fds| then host + {hostFd} else host
    case Close(fd, _, _) => if BadFd(fds, fd) then host else host - {fds[fd].realFd}
    case _ => host
  }

  lemma InitFds(h: Hv, host: set<int>)
    requires FdInv(h, host)
    ensures FdsOk(MayInit(h).fds, host) && MayInit(h).inited
  {
    if !h.inited {
      var fds := MayInit(h).fds;
      assert forall i | 0 <= i < 256 :: fds[i] == StandardFd(i);
    }
  }

  lemma OpenKeeps(fds: seq<FdHandle>, host: set<int>, k: nat, hostFd: int)
    requires FdsOk(fds, host) && k < 256 && !fds[k].opening && hostFd !in host
    ensures FdsOk(fds[k := FdHandle(hostFd, true)], host + {hostFd})
  {
  }

  lemma CloseKeeps(fds: seq<FdHandle>, host: set<int>, k: nat)
    requires FdsOk(fds, host) && k < 256 && fds[k].opening
    ensures FdsOk(fds[k := fds[k].(opening := false)], host - {fds[k].realFd})
  {
  }

  lemma SizeOk(fds: seq<FdHandle>, host: set<int>)
    requires FdsOk(fds, host)
    ensures |fds| == 256
  {
  }

  lemma CallKeepsFds(h: Hv, host: set<int>, c: Call)
    requires FdInv(h, host) && HonestHost(host, c) && HandleOut(h, c).Some?
    ensures FdInv(HandleOut(h, c).value, HostAfter(h, host, c))
  {
    InitFds(h, host);
    var fds := MayInit(h).fds;
    MinFreeLeast(fds, 0);
    hide MinFree, MayInit, FdsOk;
    match c {
      case Open(_, _, hostFd, _) =>
        if MinFree(fds, 0) < |fds| && hostFd >= 0 {
          OpenKeeps(fds, host, MinFree(fds, 0), hostFd) by { SizeOk(fds, host); }
        }
        SizeOk(fds, host);
      case Close(fd, _, _) =>
        if !BadFd(fds, fd) { CloseKeeps(fds, host, fd) by { SizeOk(fds, host); } }
      case _ =>
    }
  }

  /** The host's descriptors along a run that starts with the three standard ones. */
  function HostRun(events: seq<Event>): set<int>
    decreases |events|
  {
    if events == [] then {0, 1, 2}
    else
      var n := |events| - 1;
      var host := HostRun(events[..n]);
      match Run(Initial(), events[..n])
      case Some(h) => if events[n].Out? then HostAfter(h, host, events[n].call) else host
      case None => host
  }

  /** Over every run with an honest host, open guest fds map to distinct open host fds. */
  lemma {:induction false} FdsStayDistinct(events: seq<Event>)
    requires forall i | 0 <= i < |events| && events[i].Out? :: HonestHost(HostRun(events[..i]), events[i].call)
    requires Run(Initial(), events).Some?
    ensures FdInv(Run(Initial(), events).value, HostRun(events))
    decreases |events|
  {
    hide HostAfter, HandleOut, HonestHost;
    if events != [] {
      var n := |events| - 1;
      forall i | 0 <= i < n && events[..n][i].Out?
        ensures HonestHost(HostRun(events[..n][..i]), events[..n][i].call)
      {
        assert events[..n][..i] == events[..i];
      }
      FdsStayDistinct(events[..n]);
      if events[n].Out? {
        CallKeepsFds(Run(Initial(), events[..n]).value, HostRun(events[..n]), events[n].call);
      }
    }
  }

  // ---------------------------------------------------------------- the handlers, in place

  class Hypervisor {
    const fds: array<FdHandle>
    var inited: bool
    var ret: map<Channel, int>

    ghost function Abs(): Hv
      reads this, fds
    {
      Hv(inited, fds[..], ret)
    }

    ghost predicate Valid()
      reads this
    {
      fds.Length == 256
    }

    constructor ()
      ensures Valid() && Abs() == Initial() && fresh(fds)
    {
      fds := new FdHandle[256](_ => FdHandle(0, false));
      inited := false;
      ret := map[Opens := UNUSED, ReadsWrites := UNUSED, Closes := UNUSED, Seeks := UNUSED];
      new;
      assert fds[..] == seq(256, _ => FdHandle(0, false));
    }

    /** MAY_INIT_FD_MAP */
    method InitMap()
      requires Valid()
      modifies this`inited, fds
      ensures Abs() == MayInit(old(Abs()))
    {
      if !inited {
        inited := true;
        fds[0], fds[1], fds[2] := FdHandle(0, true), FdHandle(1, true), FdHandle(2, true);
        for i := 3 to 256
          invariant forall j | 0 <= j < i :: fds[j] == StandardFd(j)
          modifies fds
        {
          fds[i] := FdHandle(0, false);
        }
        assert fds[..] == seq(256, i => StandardFd(i));
      }
    }

    /** The search for the lowest free descriptor. */
    method LowestFree() returns (k: nat)
      requires Valid()
      ensures k == MinFree(fds[..], 0) <= 256
    {
      k := 0;
      while k < 256 && fds[k].opening
        invariant k <= 256 && MinFree(fds[..], 0) == MinFree(fds[..], k)
      {
        k := k + 1;
      }
    }

    /** An OUT exit on a handler's port: whether the handler survives its assertions. */
    method OnOut(c: Call) returns (ok: bool)
      requires Valid()
      modifies this, fds
      ensures ok <==> HandleOut(old(Abs()), c).Some?
      ensures ok ==> HandleOut(old(Abs()), c) == Some(Abs())
    {
      hide MinFree, MayInit, WorkResult;
      ghost var h := Abs();
      match c {
        case Open(offset, nameLen, hostFd, errno) =>
          if offset >= MEM_SIZE || (offset + nameLen) % 0x1_0000_0000 >= MEM_SIZE { return false; }
          InitMap();
          var k := LowestFree();
          if k > MAX_FD { ret := ret[Opens := -ENFILE]; }
          else if hostFd < 0 { ret := ret[Opens := -(errno as int)]; }
          else {
            fds[k] := FdHandle(hostFd, true);
            ret := ret[Opens := k];
          }
        case Rw(offset, fd, paddr, nbytes, work, errno) =>
          if offset >= MEM_SIZE { return false; }
          var end := (paddr + nbytes) % 0x1_0000_0000_0000_0000;
          if !(paddr <= end <= MEM_SIZE) { ret := ret[ReadsWrites := -EACCES]; return true; }
          InitMap();
          if BadFd(fds[..], fd) { ret := ret[ReadsWrites := -EBADF]; return true; }
          if paddr >= MEM_SIZE { return false; }
          ret := ret[ReadsWrites := WorkResult(work, errno)];
        case Close(fd, work, errno) =>
          InitMap();
          if BadFd(fds[..], fd) { ret := ret[Closes := -EBADF]; return true; }
          fds[fd] := fds[fd].(opening := false);
          ret := ret[Closes := WorkResult(work, errno)];
        case Lseek(offset, fd, work, errno) =>
          if offset >= MEM_SIZE { return false; }
          InitMap();
          ret := ret[Seeks := if BadFd(fds[..], fd) then -EBADF else WorkResult(work, errno)];
      }
      return true;
    }

    /** An IN exit: the value for the guest, or None when there is none. */
    method OnIn(ch: Channel) returns (r: Option<int>)
      requires Valid()
      modifies this`ret
      ensures r.Some? <==> HandleIn(old(Abs()), ch).Some?
      ensures r.Some? ==> HandleIn(old(Abs()), ch) == Some((Abs(), r.value))
      ensures r.None? ==> Abs() == old(Abs())
    {
      var v := Ret(Hv(inited, fds[..], ret), ch);
      if v == UNUSED { return None; }
      ret := ret[ch := UNUSED];
      return Some(v);
    }
  }
}
