/**
 The bounded pipe of pipe.c: any number of readers and writers, interleaved at every byte copied and
 every sleep. Counters are 32-bit and wrap. `accepted` and `delivered` record the bytes that have gone
 in and come out. `lock` is the pipe's lock and `pt` is ptable.lock: sleep() takes ptable.lock, gives up
 the pipe's lock, and only then marks the process asleep, and a wakeup needs ptable.lock.
 */
module Pipe {
  import opened Options

  const PIPESIZE := 512
  const UINT := 0x1_0000_0000

  /**
   Where a process is in pipewrite (W) or piperead (R). A Drop is about to call sleep, a Window is
   inside sleep with the pipe's lock released and the process not yet marked asleep.
   */
  datatype Pc =
    | Idle
    | WEnter(src: seq<int>, i: nat) | WLoop(src: seq<int>, i: nat) | WDrop(src: seq<int>, i: nat)
    | WWindow(src: seq<int>, i: nat) | WAsleep(src: seq<int>, i: nat) | WReturned(src: seq<int>, i: nat, r: int)
    | REnter(n: nat) | RTest(n: nat) | RWindow(n: nat) | RAsleep(n: nat)
    | RCopy(n: nat, dst: seq<int>) | RReturned(n: nat, dst: seq<int>, r: int)

  datatype State = State(
    data: seq<int>, nread: int, nwrite: int, readopen: bool, writeopen: bool,
    lock: Option<nat>, pt: Option<nat>, pc: seq<Pc>,
    accepted: seq<int>, delivered: seq<int>)

  /** Bytes in the pipe. */
  function Count(s: State): int {
    (s.nwrite - s.nread) % UINT
  }

  /** The ring cell of a byte position. */
  function Cell(a: int): (r: nat)
    ensures r < PIPESIZE
  {
    a % PIPESIZE
  }

  /** The buffered bytes, oldest first. */
  function Buffered(s: State): (r: seq<int>)
    requires |s.data| == PIPESIZE
    ensures |r| == Count(s) && forall k :: 0 <= k < |r| ==> r[k] == s.data[Cell(s.nread + k)]
  {
    seq(Count(s), k requires 0 <= k < Count(s) => s.data[Cell(s.nread + k)])
  }

  predicate Full(s: State) {
    s.nwrite == (s.nread + PIPESIZE) % UINT
  }

  predicate Empty(s: State) {
    s.nread == s.nwrite
  }

  /** wakeup(&p->nread) and wakeup(&p->nwrite): sleepers go back to acquire the lock. */
  function WakeReader(c: Pc): Pc {
    if c.RAsleep? then REnter(c.n) else c
  }

  function WakeWriter(c: Pc): Pc {
    if c.WAsleep? then WEnter(c.src, c.i) else c
  }

  function WakeReaders(pc: seq<Pc>): (r: seq<Pc>)
    ensures |r| == |pc| && forall p :: 0 <= p < |pc| ==> r[p] == WakeReader(pc[p])
  {
    seq(|pc|, p requires 0 <= p < |pc| => WakeReader(pc[p]))
  }

  function WakeWriters(pc: seq<Pc>): (r: seq<Pc>)
    ensures |r| == |pc| && forall p :: 0 <= p < |pc| ==> r[p] == WakeWriter(pc[p])
  {
    seq(|pc|, p requires 0 <= p < |pc| => WakeWriter(pc[p]))
  }

  /** Calls, and taking the lock on entry or after being woken. */
  predicate EnterStep(s: State, p: nat, s': State)
    requires p < |s.pc|
  {
    match s.pc[p]
    case Idle =>
      && |s'.pc| == |s.pc| && s' == s.(pc := s.pc[p := s'.pc[p]])
      && ((s.writeopen && s'.pc[p].WEnter? && s'.pc[p].i == 0) || (s.readopen && s'.pc[p].REnter?))
    case WEnter(src, i) => s.lock == None && s' == s.(lock := Some(p), pc := s.pc[p := WLoop(src, i)])
    case REnter(n) => s.lock == None && s' == s.(lock := Some(p), pc := s.pc[p := RTest(n)])
    case WReturned(_, _, _) => s' == s.(pc := s.pc[p := Idle])
    case RReturned(_, _, _) => s' == s.(pc := s.pc[p := Idle])
    case _ => false
  }

  /** pipewrite with the lock held; `killed` is myproc()->killed. */
  predicate WriteStep(s: State, p: nat, killed: bool, s': State)
    requires p < |s.pc| && |s.data| == PIPESIZE
  {
    match s.pc[p]
    case WLoop(src, i) =>
      && s.lock == Some(p)
      && if i < |src| then
           if Full(s) then
             if !s.readopen || killed then s' == s.(lock := None, pc := s.pc[p := WReturned(src, i, -1)])
             else s.pt == None && s' == s.(pc := WakeReaders(s.pc)[p := WDrop(src, i)])
           else
             s' == s.(data := s.data[Cell(s.nwrite) := src[i]], nwrite := (s.nwrite + 1) % UINT,
                      pc := s.pc[p := WLoop(src, i + 1)], accepted := s.accepted + [src[i]])
         else s.pt == None && s' == s.(lock := None, pc := WakeReaders(s.pc)[p := WReturned(src, i, i)])
    case WDrop(src, i) => s.pt == None && s' == s.(lock := None, pt := Some(p), pc := s.pc[p := WWindow(src, i)])
    case _ => false
  }

  /** piperead with the lock held. */
  predicate ReadStep(s: State, p: nat, killed: bool, s': State)
    requires p < |s.pc| && |s.data| == PIPESIZE
  {
    match s.pc[p]
    case RTest(n) =>
      && s.lock == Some(p)
      && if Empty(s) && s.writeopen then
           if killed then s' == s.(lock := None, pc := s.pc[p := RReturned(n, [], -1)])
           else s.pt == None && s' == s.(lock := None, pt := Some(p), pc := s.pc[p := RWindow(n)])
         else s' == s.(pc := s.pc[p := RCopy(n, [])])
    case RCopy(n, dst) =>
      && s.lock == Some(p)
      && if |dst| < n && !Empty(s) then
           var b := s.data[Cell(s.nread)];
           s' == s.(nread := (s.nread + 1) % UINT, pc := s.pc[p := RCopy(n, dst + [b])], delivered := s.delivered + [b])
         else s.pt == None && s' == s.(lock := None, pc := WakeWriters(s.pc)[p := RReturned(n, dst, |dst|)])
    case _ => false
  }

  /** The end of the window in sleep(): the process is marked asleep and ptable.lock is given up. */
  predicate SleepStep(s: State, p: nat, s': State)
    requires p < |s.pc|
  {
    match s.pc[p]
    case WWindow(src, i) => s.pt == Some(p) && s' == s.(pt := None, pc := s.pc[p := WAsleep(src, i)])
    case RWindow(n) => s.pt == Some(p) && s' == s.(pt := None, pc := s.pc[p := RAsleep(n)])
    case _ => false
  }

  predicate Reading(c: Pc) {
    c.REnter? || c.RTest? || c.RCopy? || ReaderSleeps(c)
  }

  predicate Writing(c: Pc) {
    c.WEnter? || c.WLoop? || c.WDrop? || WriterSleeps(c)
  }

  /** Asleep, or past giving up the pipe's lock. */
  predicate ReaderSleeps(c: Pc) {
    c.RWindow? || c.RAsleep?
  }

  predicate WriterSleeps(c: Pc) {
    c.WWindow? || c.WAsleep?
  }

  /** pipeclose of an end that no call is using (the file's reference count sees to that); kill() of a sleeper. */
  predicate OtherStep(s: State, p: nat, s': State)
    requires p < |s.pc|
  {
    && s.pt == None
    && (|| (&& s.lock == None && (forall q :: 0 <= q < |s.pc| ==> !Writing(s.pc[q]))
            && s' == s.(writeopen := false, pc := WakeReaders(s.pc)))
        || (&& s.lock == None && (forall q :: 0 <= q < |s.pc| ==> !Reading(s.pc[q]))
            && s' == s.(readopen := false, pc := WakeWriters(s.pc)))
        || s' == s.(pc := s.pc[p := WakeReader(WakeWriter(s.pc[p]))]))
  }

  predicate StepOf(s: State, p: nat, killed: bool, s': State)
    requires p < |s.pc| && |s.data| == PIPESIZE
  {
    || EnterStep(s, p, s') || WriteStep(s, p, killed, s') || ReadStep(s, p, killed, s')
    || SleepStep(s, p, s') || OtherStep(s, p, s')
  }

  ghost predicate Next(s: State, s': State) {
    |s.data| == PIPESIZE && exists p: nat, killed: bool :: p < |s.pc| && StepOf(s, p, killed, s')
  }

  predicate Init(s: State) {
    && |s.data| == PIPESIZE && s.nread == 0 && s.nwrite == 0 && s.readopen && s.writeopen
    && s.lock == None && s.pt == None && (forall p :: 0 <= p < |s.pc| ==> s.pc[p] == Idle)
    && s.accepted == [] && s.delivered == []
  }

  // ---------- bytes ----------

  /** Positions in the ring survive the wrap of a 32-bit counter, because 512 divides 2^32. */
  lemma CellWrap(a: int)
    requires 0 <= a
    ensures Cell(a % UINT) == Cell(a)
  {
    assert UINT == 8388608 * PIPESIZE;
    assert a == (a / UINT * 8388608) * PIPESIZE + a % UINT;
  }

  lemma CellNext(a: int, k: nat)
    requires 0 <= a
    ensures Cell((a + 1) % UINT + k) == Cell(a + (k + 1))
  {
    CellWrap(a + 1);
  }

  lemma CellApart(a: int, k: nat, n: nat)
    requires 0 <= a && k < n < PIPESIZE
    ensures Cell(a + k) != Cell(a + n)
  {
  }

  ghost predicate BytesOk(s: State) {
    && |s.data| == PIPESIZE && 0 <= s.nread < UINT && 0 <= s.nwrite < UINT
    && Count(s) <= PIPESIZE
    && s.accepted == s.delivered + Buffered(s)
  }

  /** The C tests for full and empty, on wrapping counters. */
  lemma FullEmpty(s: State)
    requires BytesOk(s)
    ensures Full(s) <==> Count(s) == PIPESIZE
    ensures Empty(s) <==> Count(s) == 0
    ensures s.nwrite == (s.nread + Count(s)) % UINT
  {
  }

  lemma CountIs(r: int, w: int)
    requires 0 <= r < UINT && 0 <= w < UINT
    ensures (w - r) % UINT == if w >= r then w - r else w - r + UINT
  {
    if w < r { assert (w - r + UINT) % UINT == w - r + UINT; }
  }

  lemma CountMoves(s: State, s': State)
    requires BytesOk(s)
    ensures !Full(s) && s'.nread == s.nread && s'.nwrite == (s.nwrite + 1) % UINT ==> Count(s') == Count(s) + 1
    ensures !Empty(s) && s'.nread == (s.nread + 1) % UINT && s'.nwrite == s.nwrite ==> Count(s') == Count(s) - 1
  {
    hide Buffered;
    CountIs(s.nread, s.nwrite);
    CountIs(s.nread, (s.nwrite + 1) % UINT);
    CountIs((s.nread + 1) % UINT, s.nwrite);
    assert (s.nwrite + 1) % UINT == if s.nwrite + 1 == UINT then 0 else s.nwrite + 1;
    assert (s.nread + 1) % UINT == if s.nread + 1 == UINT then 0 else s.nread + 1;
  }

  lemma PutByte(s: State, b: int, s': State)
    requires BytesOk(s) && !Full(s)
    requires s'.data == s.data[Cell(s.nwrite) := b] && s'.nwrite == (s.nwrite + 1) % UINT && s'.nread == s.nread
    requires s'.accepted == s.accepted + [b] && s'.delivered == s.delivered
    ensures BytesOk(s') && Buffered(s') == Buffered(s) + [b]
  {
    hide Cell, Count, Full;
    FullEmpty(s);
    CountMoves(s, s');
    var n := Count(s);
    CellWrap(s.nread + n);
    var want := Buffered(s) + [b];
    forall k | 0 <= k <= n ensures s'.data[Cell(s'.nread + k)] == want[k] {
      if k < n { CellApart(s.nread, k, n); }
    }
    assert Buffered(s') == want;
    assert s.delivered + Buffered(s) + [b] == s.delivered + want;
  }

  lemma TakeByte(s: State, s': State)
    requires BytesOk(s) && !Empty(s)
    requires s'.data == s.data && s'.nread == (s.nread + 1) % UINT && s'.nwrite == s.nwrite
    requires s'.accepted == s.accepted && s'.delivered == s.delivered + [s.data[Cell(s.nread)]]
    ensures BytesOk(s') && Buffered(s) == [s.data[Cell(s.nread)]] + Buffered(s')
  {
    hide Cell, Count, Full, Empty;
    CountMoves(s, s');
    var n := Count(s);
    assert s.nread + 0 == s.nread;
    var want := [s.data[Cell(s.nread)]] + Buffered(s');
    forall k | 0 <= k < n ensures s.data[Cell(s.nread + k)] == want[k] {
      if k > 0 { CellNext(s.nread, k - 1); }
    }
    assert Buffered(s) == want;
    assert s.delivered + [s.data[Cell(s.nread)]] + Buffered(s') == s.delivered + want;
  }

  // ---------- processes ----------

  predicate InLock(c: Pc) {
    c.WLoop? || c.WDrop? || c.RTest? || c.RCopy?
  }

  /** The lock is held by a reader that has bytes or the end of file, or by a writer still in its loop. */
  predicate Holder(s: State, reader: bool) {
    && s.lock.Some? && s.lock.value < |s.pc|
    && if reader then s.pc[s.lock.value].RCopy? else s.pc[s.lock.value].WLoop?
  }

  predicate ProcOk(s: State, p: nat)
    requires p < |s.pc|
  {
    var c := s.pc[p];
    && (InLock(c) <==> s.lock == Some(p))
    && (c.WWindow? || c.RWindow? <==> s.pt == Some(p))
    && (Writing(c) ==> c.i <= |c.src| && s.writeopen)
    && (Reading(c) ==> s.readopen)
    && (c.RCopy? ==> |c.dst| <= c.n && (c.dst == [] ==> !Empty(s) || !s.writeopen))
    && (c.WReturned? ==> c.i <= |c.src| && (c.r == -1 || c.r == |c.src| == c.i))
    && (c.RReturned? ==> c.r == -1 || c.r == |c.dst| <= c.n)
    && (c.WDrop? ==> Full(s) && s.readopen)
    // asleep only if there is reason to, or the reader that holds the lock is going to wake it
    && (WriterSleeps(c) ==> (Full(s) && s.readopen) || Holder(s, true))
  }

  ghost predicate Inv(s: State) {
    BytesOk(s) && forall p :: 0 <= p < |s.pc| ==> ProcOk(s, p)
  }

  lemma EnterOk(s: State, p: nat, s': State, q: nat)
    requires p < |s.pc| && q < |s.pc| && ProcOk(s, p) && ProcOk(s, q) && EnterStep(s, p, s')
    ensures |s'.pc| == |s.pc| && ProcOk(s', q)
  {
  }

  lemma WriteOk(s: State, p: nat, killed: bool, s': State, q: nat)
    requires BytesOk(s) && p < |s.pc| && q < |s.pc| && ProcOk(s, p) && ProcOk(s, q) && WriteStep(s, p, killed, s')
    ensures |s'.pc| == |s.pc| && ProcOk(s', q)
  {
    hide BytesOk;
  }

  lemma ReadOk(s: State, p: nat, killed: bool, s': State, q: nat)
    requires BytesOk(s) && p < |s.pc| && q < |s.pc| && ProcOk(s, p) && ProcOk(s, q) && ReadStep(s, p, killed, s')
    ensures |s'.pc| == |s.pc| && ProcOk(s', q)
  {
    hide BytesOk;
  }

  lemma SleepOk(s: State, p: nat, s': State, q: nat)
    requires p < |s.pc| && q < |s.pc| && ProcOk(s, p) && ProcOk(s, q) && SleepStep(s, p, s')
    ensures |s'.pc| == |s.pc| && ProcOk(s', q)
  {
  }

  lemma OtherOk(s: State, p: nat, s': State, q: nat)
    requires p < |s.pc| && q < |s.pc| && ProcOk(s, p) && ProcOk(s, q) && OtherStep(s, p, s')
    ensures |s'.pc| == |s.pc| && ProcOk(s', q)
  {
  }

  lemma BytesKept(s: State, p: nat, killed: bool, s': State)
    requires Inv(s) && p < |s.pc| && StepOf(s, p, killed, s')
    ensures BytesOk(s')
  {
    hide Cell, Count, Full, Empty, ProcOk, Buffered, WakeReader, WakeWriter;
    if WriteStep(s, p, killed, s') && s'.accepted != s.accepted {
      PutByte(s, s.pc[p].src[s.pc[p].i], s');
    } else if ReadStep(s, p, killed, s') && s'.delivered != s.delivered {
      TakeByte(s, s');
    } else {
      SameBytes(s, s');
    }
  }

  lemma SameBytes(s: State, s': State)
    requires BytesOk(s) && s'.data == s.data && s'.nread == s.nread && s'.nwrite == s.nwrite
    requires s'.accepted == s.accepted && s'.delivered == s.delivered
    ensures BytesOk(s')
  {
    assert Buffered(s') == Buffered(s);
  }

  lemma StepInv(s: State, p: nat, killed: bool, s': State)
    requires Inv(s) && p < |s.pc| && StepOf(s, p, killed, s')
    ensures Inv(s')
  {
    hide ProcOk, BytesOk, EnterStep, WriteStep, ReadStep, SleepStep, OtherStep;
    BytesShape(s);
    BytesKept(s, p, killed, s');
    SamePcs(s, p, killed, s');
    forall q | 0 <= q < |s.pc| ensures ProcOk(s', q) {
      assert ProcOk(s, p) && ProcOk(s, q);
      if EnterStep(s, p, s') { EnterOk(s, p, s', q); }
      else if WriteStep(s, p, killed, s') { WriteOk(s, p, killed, s', q); }
      else if ReadStep(s, p, killed, s') { ReadOk(s, p, killed, s', q); }
      else if SleepStep(s, p, s') { SleepOk(s, p, s', q); }
      else { OtherOk(s, p, s', q); }
    }
  }

  lemma SamePcs(s: State, p: nat, killed: bool, s': State)
    requires |s.data| == PIPESIZE && p < |s.pc| && StepOf(s, p, killed, s')
    ensures |s'.pc| == |s.pc|
  {
  }

  lemma BytesShape(s: State)
    requires BytesOk(s)
    ensures |s.data| == PIPESIZE
  {
  }

  ghost predicate IsRun(ss: seq<State>) {
    |ss| > 0 && Init(ss[0]) && forall i :: 0 < i < |ss| ==> Next(ss[i - 1], ss[i])
  }

  lemma {:induction false} RunInv(ss: seq<State>, n: nat)
    requires IsRun(ss) && n < |ss|
    ensures Inv(ss[n])
  {
    hide Inv, StepOf;
    if n == 0 {
      InitInv(ss[0]);
    } else {
      RunInv(ss, n - 1);
      assert Next(ss[n - 1], ss[n]);
      var p: nat, killed: bool :| p < |ss[n - 1].pc| && StepOf(ss[n - 1], p, killed, ss[n]);
      StepInv(ss[n - 1], p, killed, ss[n]);
    }
  }

  lemma InitInv(s: State)
    requires Init(s)
    ensures Inv(s)
  {
  }

  // ---------- readers that sleep on ----------

  predicate ReaderAsleep(s: State) {
    exists r :: 0 <= r < |s.pc| && ReaderSleeps(s.pc[r])
  }

  /** A reader sleeps although there are bytes or the end of file, and no writer in its loop is there to wake it. */
  predicate Wronged(s: State) {
    ReaderAsleep(s) && (!Empty(s) || !s.writeopen) && !Holder(s, false)
  }

  /** The guard at the top of pipewrite's inner loop, taken by a killed writer while a reader sleeps. */
  predicate Strands(s: State, p: nat, killed: bool) {
    && p < |s.pc| && s.pc[p].WLoop? && s.pc[p].i < |s.pc[p].src| && s.lock == Some(p)
    && Full(s) && killed && ReaderAsleep(s)
  }

  /** A process that sleeps after a step slept before it, or has just found the pipe empty and open. */
  lemma FallsAsleep(s: State, p: nat, killed: bool, s': State, r: nat)
    requires Inv(s) && p < |s.pc| && StepOf(s, p, killed, s') && r < |s'.pc| && ReaderSleeps(s'.pc[r])
    ensures |s'.pc| == |s.pc| && (ReaderSleeps(s.pc[r]) || (Empty(s') && s'.writeopen))
  {
    hide BytesOk, EnterStep, WriteStep, ReadStep, SleepStep, OtherStep;
    BytesShape(s);
    if ReadStep(s, p, killed, s') {
      FallsReading(s, p, killed, s', r);
    } else {
      assert ProcOk(s, p);
      NoneFalls(s, p, killed, s', r);
    }
  }

  lemma FallsReading(s: State, p: nat, killed: bool, s': State, r: nat)
    requires |s.data| == PIPESIZE && p < |s.pc| && ReadStep(s, p, killed, s') && r < |s'.pc| && ReaderSleeps(s'.pc[r])
    ensures |s'.pc| == |s.pc| && (ReaderSleeps(s.pc[r]) || (Empty(s') && s'.writeopen))
  {
    hide Buffered;
  }

  lemma NoneFalls(s: State, p: nat, killed: bool, s': State, r: nat)
    requires |s.data| == PIPESIZE && p < |s.pc| && ProcOk(s, p) && r < |s'.pc| && ReaderSleeps(s'.pc[r])
    requires EnterStep(s, p, s') || WriteStep(s, p, killed, s') || SleepStep(s, p, s') || OtherStep(s, p, s')
    ensures |s'.pc| == |s.pc| && ReaderSleeps(s.pc[r])
  {
    hide Buffered;
  }

  /** While a reader sleeps, only a writer in its loop can spoil an empty open pipe. */
  lemma SpoilsEmpty(s: State, p: nat, killed: bool, s': State)
    requires Inv(s) && p < |s.pc| && StepOf(s, p, killed, s') && !Wronged(s) && Wronged(s')
    ensures WriteStep(s, p, killed, s') && s.pc[p].WLoop? && s'.pc[p].WReturned?
  {
    hide BytesOk;
    BytesShape(s);
    assert ProcOk(s, p);
    var r :| 0 <= r < |s'.pc| && ReaderSleeps(s'.pc[r]);
    FallsAsleep(s, p, killed, s', r);
    FullNotEmpty(s);
    assert ProcOk(s, r);
    assert ReaderSleeps(s.pc[r]) ==> ReaderAsleep(s);
  }

  /** A step leaves a reader wronged that was not so before exactly when it is the return of a killed writer. */
  lemma StrandedExactly(s: State, p: nat, killed: bool, s': State)
    requires Inv(s) && p < |s.pc| && StepOf(s, p, killed, s')
    ensures !Wronged(s) && Wronged(s') <==> WriteStep(s, p, killed, s') && Strands(s, p, killed)
  {
    hide BytesOk;
    BytesShape(s);
    FullNotEmpty(s);
    assert ProcOk(s, p);
    if !Wronged(s) && Wronged(s') {
      SpoilsEmpty(s, p, killed, s');
      var r :| 0 <= r < |s'.pc| && ReaderSleeps(s'.pc[r]);
      assert ProcOk(s, r);
      assert ReaderSleeps(s.pc[r]);
      assert Strands(s, p, killed);
    }
    if WriteStep(s, p, killed, s') && Strands(s, p, killed) {
      var r :| 0 <= r < |s.pc| && ReaderSleeps(s.pc[r]);
      assert s'.pc[r] == s.pc[r] && ReaderSleeps(s'.pc[r]);
      assert ReaderAsleep(s') && !Empty(s');
      assert Holder(s, false) && !Holder(s', false);
    }
  }

  /**
   A writer that finishes or goes to sleep leaves no reader asleep, nor one in the window where a
   wakeup would miss it.
   */
  lemma WakeupFindsReaders(s: State, p: nat, killed: bool, s': State)
    requires Inv(s) && p < |s.pc| && WriteStep(s, p, killed, s') && s.pc[p].WLoop?
    requires |s'.pc| == |s.pc| && (s'.pc[p].WDrop? || (s'.pc[p].WReturned? && s'.pc[p].r >= 0))
    ensures !ReaderAsleep(s')
  {
    hide BytesOk;
    forall r | 0 <= r < |s'.pc| ensures !ReaderSleeps(s'.pc[r]) {
      assert ProcOk(s, r);
    }
  }

  lemma FullNotEmpty(s: State)
    requires BytesOk(s)
    ensures Full(s) ==> !Empty(s)
  {
  }

  ghost predicate StrandsAt(ss: seq<State>, m: nat) {
    && m + 1 < |ss| && |ss[m].data| == PIPESIZE
    && exists p: nat :: Strands(ss[m], p, true) && WriteStep(ss[m], p, true, ss[m + 1])
  }

  /** A reader is wronged exactly if a killed writer's return wronged one and one has been wronged ever since. */
  lemma {:induction false} WrongedSince(ss: seq<State>, n: nat)
    requires IsRun(ss) && n < |ss|
    ensures Wronged(ss[n]) <==> exists m: nat :: m < n && StrandsAt(ss, m) && forall k :: m < k <= n ==> Wronged(ss[k])
  {
    hide Wronged, StepOf, Inv;
    if n == 0 {
      assert !Wronged(ss[0]) by { NobodyWronged(ss[0]); }
    } else if Wronged(ss[n]) {
      RunInv(ss, n - 1);
      WrongedSince(ss, n - 1);
      if Wronged(ss[n - 1]) {
        var m: nat :| m < n - 1 && StrandsAt(ss, m) && forall k :: m < k <= n - 1 ==> Wronged(ss[k]);
        assert forall k :: m < k <= n ==> Wronged(ss[k]);
      } else {
        assert Next(ss[n - 1], ss[n]);
        var p: nat, killed: bool :| p < |ss[n - 1].pc| && StepOf(ss[n - 1], p, killed, ss[n]);
        StrandedExactly(ss[n - 1], p, killed, ss[n]);
        assert StrandsAt(ss, n - 1);
      }
    }
  }

  lemma NobodyWronged(s: State)
    requires Init(s)
    ensures !Wronged(s)
  {
  }

  /**
   In every reachable state, across counter wrap: at most 512 bytes are buffered, and the bytes accepted
   are those delivered followed by those buffered. A sleeping writer whose wakeup is not coming faces a
   full pipe with its read end open. In a run where no writer is killed on a full pipe under a sleeping
   reader, a sleeping reader whose wakeup is not coming faces an empty pipe with its write end open.
   */
  lemma PipeFifo(ss: seq<State>, n: nat, p: nat)
    requires IsRun(ss) && n < |ss| && p < |ss[n].pc|
    ensures var s := ss[n];
      && |s.data| == PIPESIZE && 0 <= Count(s) <= PIPESIZE && s.accepted == s.delivered + Buffered(s)
      && (WriterSleeps(s.pc[p]) && s.lock == None ==> Count(s) == PIPESIZE && s.readopen)
      && (ReaderSleeps(s.pc[p]) && s.lock == None && (forall m: nat :: m < n ==> !StrandsAt(ss, m)) ==>
           Count(s) == 0 && s.writeopen)
      && (s.pc[p].WReturned? ==> s.pc[p].r == -1 || s.pc[p].r == |s.pc[p].src|)
      && (s.pc[p].RReturned? ==> s.pc[p].r == -1 || s.pc[p].r == |s.pc[p].dst| <= s.pc[p].n)
  {
    hide Next;
    RunInv(ss, n);
    WrongedSince(ss, n);
    assert ProcOk(ss[n], p);
    assert ReaderSleeps(ss[n].pc[p]) ==> ReaderAsleep(ss[n]);
    FullEmpty(ss[n]);
  }

  /** piperead for at least one byte returns 0 only at end of file. */
  lemma ZeroOnlyAtEof(ss: seq<State>, n: nat, p: nat, killed: bool)
    requires IsRun(ss) && n + 1 < |ss| && p < |ss[n].pc| && |ss[n].data| == PIPESIZE
    requires StepOf(ss[n], p, killed, ss[n + 1])
    requires !ss[n].pc[p].RReturned? && |ss[n + 1].pc| == |ss[n].pc| && ss[n + 1].pc[p].RReturned?
    requires ss[n + 1].pc[p].r == 0 && ss[n + 1].pc[p].n > 0
    ensures Count(ss[n]) == 0 && !ss[n].writeopen
  {
    RunInv(ss, n);
    assert ProcOk(ss[n], p);
    FullEmpty(ss[n]);
  }

  // ---------- the stranded reader ----------

  ghost predicate Reach(s: State) {
    exists ss :: IsRun(ss) && ss[|ss| - 1] == s
  }

  lemma ReachStep(s: State, p: nat, killed: bool, s': State)
    requires Reach(s) && |s.data| == PIPESIZE && p < |s.pc| && StepOf(s, p, killed, s')
    ensures Reach(s')
  {
    hide StepOf, Init;
    var ss :| IsRun(ss) && ss[|ss| - 1] == s;
    var ss' := ss + [s'];
    assert Next(s, s');
    assert IsRun(ss');
  }

  /** Process 0 sleeps in piperead; process 1, writing 513 bytes, has put `i` of them. */
  ghost predicate Filling(s: State, src: seq<int>, i: nat) {
    && Reach(s) && |s.data| == PIPESIZE && |src| == 513 && i <= PIPESIZE
    && s.pc == [RAsleep(1), WLoop(src, i)] && s.lock == Some(1) && s.pt == None
    && s.nread == 0 && s.nwrite == i && s.readopen && s.writeopen
  }

  lemma {:induction false} Fill(src: seq<int>, i: nat) returns (s: State)
    requires |src| == 513 && i <= PIPESIZE
    ensures Filling(s, src, i)
  {
    hide Reach;
    if i == 0 {
      s := FillStart(src);
    } else {
      var s0 := Fill(src, i - 1);
      s := s0.(data := s0.data[Cell(s0.nwrite) := src[i - 1]], nwrite := (s0.nwrite + 1) % UINT,
               pc := s0.pc[1 := WLoop(src, i)], accepted := s0.accepted + [src[i - 1]]);
      assert WriteStep(s0, 1, false, s);
      ReachStep(s0, 1, false, s);
    }
  }

  lemma FillStart(src: seq<int>) returns (s: State)
    requires |src| == 513
    ensures Filling(s, src, 0)
  {
    var s0 := State(seq(PIPESIZE, _ => 0), 0, 0, true, true, None, None, [Idle, Idle], [], []);
    assert IsRun([s0]) && [s0][|[s0]| - 1] == s0;
    hide Reach;
    var s1 := s0.(pc := [REnter(1), Idle]);
    assert EnterStep(s0, 0, s1);
    ReachStep(s0, 0, false, s1);
    var s2 := s1.(pc := [RTest(1), Idle], lock := Some(0));
    assert EnterStep(s1, 0, s2);
    ReachStep(s1, 0, false, s2);
    var s3 := s2.(pc := [RWindow(1), Idle], lock := None, pt := Some(0));
    assert ReadStep(s2, 0, false, s3);
    ReachStep(s2, 0, false, s3);
    s := WriterComes(s3, src);
  }

  lemma WriterComes(s3: State, src: seq<int>) returns (s: State)
    requires |src| == 513 && Reach(s3) && |s3.data| == PIPESIZE && s3.pc == [RWindow(1), Idle]
    requires s3.lock == None && s3.pt == Some(0) && s3.nread == 0 && s3.nwrite == 0 && s3.readopen && s3.writeopen
    ensures Filling(s, src, 0)
  {
    hide Reach;
    var s4 := s3.(pc := [RAsleep(1), Idle], pt := None);
    assert SleepStep(s3, 0, s4);
    ReachStep(s3, 0, false, s4);
    var s5 := s4.(pc := [RAsleep(1), WEnter(src, 0)]);
    assert EnterStep(s4, 1, s5);
    ReachStep(s4, 1, false, s5);
    s := s5.(pc := [RAsleep(1), WLoop(src, 0)], lock := Some(1));
    assert EnterStep(s5, 1, s);
    ReachStep(s5, 1, false, s);
  }

  /** A writer killed on a full pipe returns without waking readers: one sleeps on although 512 bytes are waiting. */
  lemma StrandedReader(src: seq<int>) returns (s: State)
    requires |src| == 513
    ensures Reach(s) && s.pc == [RAsleep(1), WReturned(src, 512, -1)] && s.lock == None && Full(s) && Wronged(s)
  {
    var s0 := Fill(src, PIPESIZE);
    hide Reach;
    s := s0.(lock := None, pc := s0.pc[1 := WReturned(src, 512, -1)]);
    assert WriteStep(s0, 1, true, s);
    ReachStep(s0, 1, true, s);
    assert ReaderSleeps(s.pc[0]);
  }

  // ---------- the copying loops ----------

  /** From `s` to `s'` by `k` steps of the one process, which holds the lock. */
  ghost predicate Works(s: State, s': State, k: nat)
    decreases k
  {
    if k == 0 then s' == s
    else exists m :: Works(s, m, k - 1) && |m.data| == PIPESIZE && |m.pc| == 1 &&
                     (WriteStep(m, 0, false, s') || ReadStep(m, 0, false, s'))
  }

  /** The ring of `s` while one process at `c` holds the lock. */
  function Under(s: State, c: Pc): State {
    s.(lock := Some(0), pc := [c])
  }

  lemma WorksNone(s: State)
    ensures Works(s, s, 0)
  {
  }

  lemma WorksNext(s: State, m: State, k: nat, s': State)
    requires Works(s, m, k) && |m.data| == PIPESIZE && |m.pc| == 1
    requires WriteStep(m, 0, false, s') || ReadStep(m, 0, false, s')
    ensures Works(s, s', k + 1)
  {
    hide WriteStep, ReadStep;
  }

  lemma WorksPut(start: State, k: nat, s: State, src: seq<int>, i: nat, s': State)
    requires Works(start, Under(s, WLoop(src, i)), k) && |s.data| == PIPESIZE && i < |src| && !Full(s)
    requires s' == s.(data := s.data[Cell(s.nwrite) := src[i]], nwrite := (s.nwrite + 1) % UINT,
                      accepted := s.accepted + [src[i]])
    ensures Works(start, Under(s', WLoop(src, i + 1)), k + 1)
  {
    hide Cell, Buffered, Works;
    WorksNext(start, Under(s, WLoop(src, i)), k, Under(s', WLoop(src, i + 1)));
  }

  lemma WorksTake(start: State, k: nat, s: State, n: nat, dst: seq<int>, s': State)
    requires Works(start, Under(s, RCopy(n, dst)), k) && |s.data| == PIPESIZE && |dst| < n && !Empty(s)
    requires s' == s.(nread := (s.nread + 1) % UINT, delivered := s.delivered + [s.data[Cell(s.nread)]])
    ensures Works(start, Under(s', RCopy(n, dst + [s.data[Cell(s.nread)]])), k + 1)
  {
    hide Cell, Buffered, Works;
    WorksNext(start, Under(s, RCopy(n, dst)), k, Under(s', RCopy(n, dst + [s.data[Cell(s.nread)]])));
  }

  /** The ring buffer itself, as pipewrite and piperead update it while they hold the lock. */
  class Ring {
    const data: array<int>
    var nread: int
    var nwrite: int
    ghost var accepted: seq<int>
    ghost var delivered: seq<int>

    ghost function View(): State
      reads this, data
    {
      State(data[..], nread, nwrite, true, true, None, None, [], accepted, delivered)
    }

    ghost predicate Valid()
      reads this, data
    {
      data.Length == PIPESIZE && BytesOk(View())
    }

    constructor ()
      ensures Valid() && fresh(data) && Buffered(View()) == []
    {
      data := new int[PIPESIZE];
      nread, nwrite, accepted, delivered := 0, 0, [], [];
    }

    /** pipewrite's loop until it is done or the pipe is full. */
    method Fill(src: seq<int>, from: nat) returns (i: nat)
      requires Valid() && from <= |src|
      modifies this`nwrite, this`accepted, data
      ensures Valid() && from <= i <= |src| && (i == |src| || Count(View()) == PIPESIZE)
      ensures Buffered(View()) == old(Buffered(View())) + src[from..i]
      ensures Works(Under(old(View()), WLoop(src, from)), Under(View(), WLoop(src, i)), i - from)
    {
      hide Count, Cell, Full, BytesOk, Works;
      WorksNone(Under(View(), WLoop(src, from)));
      i := from;
      while i < |src|
        invariant Valid() && from <= i <= |src| && Buffered(View()) == old(Buffered(View())) + src[from..i]
        invariant Works(Under(old(View()), WLoop(src, from)), Under(View(), WLoop(src, i)), i - from)
      {
        FullEmpty(View());
        CountersOk(View());
        if nwrite == (nread + PIPESIZE) % UINT {
          break;
        }
        ghost var s := View();
        data[Cell(nwrite)] := src[i];
        nwrite := (nwrite + 1) % UINT;
        accepted := accepted + [src[i]];
        PutByte(s, src[i], View());
        WorksPut(Under(old(View()), WLoop(src, from)), i - from, s, src, i, View());
        i := i + 1;
      }
      FullEmpty(View());
    }

    /** piperead's copying loop: the oldest bytes, at most `n`. */
    method Drain(n: nat) returns (dst: seq<int>)
      requires Valid()
      modifies this`nread, this`delivered
      ensures Valid() && |dst| <= n && (|dst| == n || Count(View()) == 0)
      ensures old(Buffered(View())) == dst + Buffered(View())
      ensures Works(Under(old(View()), RCopy(n, [])), Under(View(), RCopy(n, dst)), |dst|)
    {
      hide Count, Cell, Full, Empty, BytesOk, Buffered, Works;
      WorksNone(Under(View(), RCopy(n, [])));
      dst := [];
      assert [] + Buffered(View()) == Buffered(View());
      while |dst| < n
        invariant Valid() && |dst| <= n && old(Buffered(View())) == dst + Buffered(View())
        invariant Works(Under(old(View()), RCopy(n, [])), Under(View(), RCopy(n, dst)), |dst|)
        decreases n - |dst|
      {
        FullEmpty(View());
        CountersOk(View());
        if nread == nwrite {
          break;
        }
        ghost var s := View();
        var b := data[Cell(nread)];
        nread := (nread + 1) % UINT;
        delivered := delivered + [b];
        TakeByte(s, View());
        assert dst + ([b] + Buffered(View())) == dst + [b] + Buffered(View());
        WorksTake(Under(old(View()), RCopy(n, [])), |dst|, s, n, dst, View());
        dst := dst + [b];
      }
      FullEmpty(View());
    }
  }

  lemma CountersOk(s: State)
    requires BytesOk(s)
    ensures 0 <= s.nread < UINT && 0 <= s.nwrite < UINT && (Full(s) <==> s.nwrite == (s.nread + PIPESIZE) % UINT)
    ensures (Empty(s) <==> s.nread == s.nwrite)
  {
  }
}
