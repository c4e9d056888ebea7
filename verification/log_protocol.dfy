/**
 The group-commit protocol of log.c over a write-back cache, as interleaved atomic steps.
 A step writes at most one disk block, and `Crash` may fall between any two steps, recovery included.
 */
module LogProtocol {
  import opened Options
  import opened LogDisk
  import opened AtomicDisk

  /** A valid cached buffer; `dirty` is B_DIRTY, the pin that keeps it from being recycled. */
  datatype Buf = Buf(data: Block, dirty: bool)

  /**
   `spent` counts the log entries the operation added; `checked` is the block for which it passed
   log_write's size test.
   */
  datatype Proc = Idle | InOp(spent: nat, checked: Option<int>)

  datatype Phase =
    | Running
    | WritingLog(tail: nat) | WritingHead | Installing(tail: nat) | Erasing | Returning
    | Down | Recovering(tail: nat) | RecoverErasing

  /**
   Only `disk` survives a crash. `lh` is log.lh.block[0..n), `held` maps a locked buffer to its
   holder, and `touched` are the locked buffers changed since the last log_write on them.
   */
  datatype State = State(
    disk: seq<Block>, cache: map<int, Buf>,
    lh: seq<int>, outstanding: int, committing: bool,
    procs: seq<Proc>, held: map<int, nat>, touched: set<int>, phase: Phase)

  /** What bread(b) returns. */
  function ReadBlock(c: Config, s: State, b: int): Block
    requires |s.disk| == c.nblocks && 0 <= b < c.nblocks
  {
    if b in s.cache then s.cache[b].data else s.disk[b]
  }

  /** bread(b), overwrite its data with `v`, bwrite, brelse. */
  function BWrite(c: Config, s: State, b: int, v: Block): State
    requires |s.disk| == c.nblocks && 0 <= b < c.nblocks
  {
    s.(disk := s.disk[b := v], cache := s.cache[b := Buf(v, false)])
  }

  predicate ProcInOp(s: State, p: nat) {
    p < |s.procs| && s.procs[p].InOp?
  }

  predicate Holds(s: State, p: nat, b: int) {
    b in s.held && s.held[b] == p && b in s.cache
  }

  /** The test at the top of log_write that ends in "too big a transaction". */
  predicate TooBig(c: Config, s: State) {
    |s.lh| >= LOGSIZE || |s.lh| >= c.size - 1
  }

  /** begin_op lets the caller in instead of putting it to sleep. */
  predicate Admits(s: State) {
    !s.committing && |s.lh| + (s.outstanding + 1) * MAXOPBLOCKS <= LOGSIZE
  }

  predicate Guard(c: Config, s: State, e: Step)
    requires |s.disk| == c.nblocks && c.Valid()
  {
    match e
    case BeginOp(p) => s.phase == Running && p < |s.procs| && s.procs[p].Idle? && Admits(s)
    case Load(b) => s.phase != Down && 0 <= b < c.nblocks && b !in s.cache
    case Evict(b) => b in s.cache && !s.cache[b].dirty && b !in s.held
    case Hold(p, b) => ProcInOp(s, p) && c.IsHome(b) && b in s.cache && b !in s.held
    case Modify(p, b, v) => ProcInOp(s, p) && Holds(s, p, b)
    case LogCheck(p, b) =>
      ProcInOp(s, p) && Holds(s, p, b) && s.procs[p].checked == None && !TooBig(c, s) && s.outstanding >= 1
    case LogAppend(p) =>
      // the promise begin_op relies on: at most MAXOPBLOCKS new blocks for each operation
      && ProcInOp(s, p) && s.procs[p].checked.Some? && Holds(s, p, s.procs[p].checked.value)
      && (s.procs[p].checked.value in s.lh || s.procs[p].spent < MAXOPBLOCKS)
    case Unhold(p, b) =>
      ProcInOp(s, p) && Holds(s, p, b) && b !in s.touched && s.procs[p].checked != Some(b)
    case EndOp(p) =>
      ProcInOp(s, p) && s.procs[p].checked == None && !s.committing && forall b :: b in s.held ==> s.held[b] != p
    case Read(b, v) =>
      (s.phase == Running || s.committing) && c.IsHome(b) && v == ReadBlock(c, s, b)
    case CopyToLog =>
      && s.phase.WritingLog? && s.phase.tail < |s.lh|
      && 0 <= s.lh[s.phase.tail] < c.nblocks && c.Slot(s.phase.tail) < c.nblocks
    case CommitHead => s.phase.WritingHead? && |s.lh| <= LOGSIZE
    case InstallOne =>
      && s.phase.Installing? && s.phase.tail < |s.lh|
      && 0 <= s.lh[s.phase.tail] < c.nblocks && c.Slot(s.phase.tail) < c.nblocks
    case EraseHead => s.phase.Erasing?
    case CommitReturn => s.phase.Returning?
    case Crash => true
    case ReadHead => s.phase.Down? && CountOk(s.disk[c.start])
    case RecoverOne =>
      && s.phase.Recovering? && s.phase.tail < |s.lh|
      && 0 <= s.lh[s.phase.tail] < c.nblocks && c.Slot(s.phase.tail) < c.nblocks
    case RecoverErase => s.phase.RecoverErasing?
  }

  function Idles(n: nat): (r: seq<Proc>)
    ensures |r| == n && forall p :: 0 <= p < n ==> r[p] == Idle
  {
    seq(n, _ => Idle)
  }

  /** The effect of a step. */
  function Do(c: Config, s: State, e: Step): State
    requires |s.disk| == c.nblocks && c.Valid()
    requires Guard(c, s, e)
  {
    match e
    case BeginOp(p) => s.(outstanding := s.outstanding + 1, procs := s.procs[p := InOp(0, None)])
    case Load(b) => s.(cache := s.cache[b := Buf(s.disk[b], false)])
    case Evict(b) => s.(cache := s.cache - {b})
    case Hold(p, b) => s.(held := s.held[b := p])
    case Modify(p, b, v) => s.(cache := s.cache[b := Buf(v, s.cache[b].dirty)], touched := s.touched + {b})
    case LogCheck(p, b) => s.(procs := s.procs[p := InOp(s.procs[p].spent, Some(b))])
    case LogAppend(p) =>
      var b := s.procs[p].checked.value;
      var absorbed := b in s.lh;
      s.(lh := if absorbed then s.lh else s.lh + [b],
         cache := s.cache[b := Buf(s.cache[b].data, true)],
         touched := s.touched - {b},
         procs := s.procs[p := InOp(if absorbed then s.procs[p].spent else s.procs[p].spent + 1, None)])
    case Unhold(p, b) => s.(held := s.held - {b})
    case EndOp(p) =>
      var s' := s.(outstanding := s.outstanding - 1, procs := s.procs[p := Idle]);
      if s'.outstanding != 0 then s'
      else s'.(committing := true, phase := if |s.lh| > 0 then WritingLog(0) else Returning)
    case Read(b, v) => s
    case CopyToLog =>
      var t := s.phase.tail;
      BWrite(c, s, c.Slot(t), ReadBlock(c, s, s.lh[t]))
        .(phase := if t + 1 == |s.lh| then WritingHead else WritingLog(t + 1))
    case CommitHead =>
      BWrite(c, s, c.start, HeaderWith(ReadBlock(c, s, c.start), s.lh)).(phase := Installing(0))
    case InstallOne =>
      var t := s.phase.tail;
      BWrite(c, s, s.lh[t], ReadBlock(c, s, c.Slot(t)))
        .(phase := if t + 1 == |s.lh| then Erasing else Installing(t + 1))
    case EraseHead => BWrite(c, s, c.start, HeaderWith(ReadBlock(c, s, c.start), [])).(lh := [], phase := Returning)
    case CommitReturn => s.(committing := false, phase := Running)
    case Crash => State(s.disk, map[], [], 0, false, Idles(|s.procs|), map[], {}, Down)
    case ReadHead =>
      var es := Entries(s.disk[c.start]);
      s.(lh := es, phase := if |es| == 0 then RecoverErasing else Recovering(0))
    case RecoverOne =>
      var t := s.phase.tail;
      BWrite(c, s, s.lh[t], ReadBlock(c, s, c.Slot(t)))
        .(phase := if t + 1 == |s.lh| then RecoverErasing else Recovering(t + 1))
    case RecoverErase => BWrite(c, s, c.start, HeaderWith(ReadBlock(c, s, c.start), [])).(lh := [], phase := Running)
  }

  predicate Next(c: Config, s: State, e: Step, s': State) {
    && c.Valid() && |s.disk| == c.nblocks && Guard(c, s, e)
    && s' == Do(c, s, e)
  }

  /** Power-on with any disk whose log header is well formed. */
  predicate Init(c: Config, s: State) {
    && DiskOk(c, s.disk)
    && s == State(s.disk, map[], [], 0, false, Idles(c.nproc), map[], {}, Down)
  }

  predicate Run(c: Config, ss: seq<State>, es: seq<Step>) {
    && |ss| == |es| + 1
    && Init(c, ss[0])
    && forall i :: 0 <= i < |es| ==> Next(c, ss[i], es[i], ss[i + 1])
  }

  /** Every entry has a block of its own in the log area. */
  predicate Fits(c: Config, s: State) {
    |s.lh| < c.size
  }
}
