/** What every step of the log protocol keeps. */
module LogInvariant {
  import opened Options
  import opened LogDisk
  import opened AtomicDisk
  import opened LogProtocol

  // ---------- log space reservations ----------

  function Unspent(p: Proc): int {
    if p.InOp? then MAXOPBLOCKS - p.spent else 0
  }

  /** Entries the open operations may still add. */
  function Reserved(ps: seq<Proc>): int {
    if |ps| == 0 then 0 else Unspent(ps[0]) + Reserved(ps[1..])
  }

  function Open(ps: seq<Proc>): nat {
    if |ps| == 0 then 0 else (if ps[0].InOp? then 1 else 0) + Open(ps[1..])
  }

  lemma {:induction false} SetProc(ps: seq<Proc>, p: nat, x: Proc)
    requires p < |ps|
    ensures Reserved(ps[p := x]) == Reserved(ps) - Unspent(ps[p]) + Unspent(x)
    ensures Open(ps[p := x]) == Open(ps) - (if ps[p].InOp? then 1 else 0) + (if x.InOp? then 1 else 0)
  {
    if p == 0 {
      assert ps[p := x][1..] == ps[1..];
    } else {
      SetProc(ps[1..], p - 1, x);
      assert ps[p := x][1..] == ps[1..][p - 1 := x];
    }
  }

  lemma {:induction false} OpenZero(ps: seq<Proc>)
    requires forall p :: 0 <= p < |ps| && ps[p].InOp? ==> ps[p].spent <= MAXOPBLOCKS
    ensures Open(ps) == 0 <==> forall p :: 0 <= p < |ps| ==> ps[p].Idle?
    ensures 0 <= Reserved(ps) <= Open(ps) * MAXOPBLOCKS
    ensures forall p :: 0 <= p < |ps| ==> Unspent(ps[p]) <= Reserved(ps)
  {
    if |ps| > 0 {
      OpenZero(ps[1..]);
      assert forall p :: 0 < p < |ps| ==> ps[p] == ps[1..][p - 1];
    }
  }

  // ---------- the invariant ----------

  /** Entries from this index on have pinned buffers. */
  function FirstPinned(s: State): nat {
    match s.phase
    case Running => 0
    case WritingLog(_) => 0
    case WritingHead => 0
    case Installing(t) => t
    case _ => |s.lh|
  }

  predicate Pinned(s: State, b: int) {
    exists i :: FirstPinned(s) <= i < |s.lh| && s.lh[i] == b
  }

  ghost predicate CacheInv(c: Config, s: State)
    requires |s.disk| == c.nblocks
  {
    && (forall b :: b in s.cache ==> 0 <= b < c.nblocks)
    && (forall b :: b in s.cache && s.cache[b].dirty ==> Pinned(s, b))
    && (forall i :: FirstPinned(s) <= i < |s.lh| ==> s.lh[i] in s.cache && s.cache[s.lh[i]].dirty)
    && (forall b :: b in s.cache && !s.cache[b].dirty && b !in s.touched ==> s.cache[b].data == s.disk[b])
  }

  ghost predicate HoldInv(c: Config, s: State) {
    && (forall b :: b in s.touched ==> b in s.held)
    && (forall b :: b in s.held ==> b in s.cache && c.IsHome(b) && ProcInOp(s, s.held[b]))
    && (forall p :: 0 <= p < |s.procs| && s.procs[p].InOp? && s.procs[p].checked.Some? ==>
          Holds(s, p, s.procs[p].checked.value))
  }

  /** Log admission: the entries made and the entries still promised fit the header. */
  ghost predicate Admission(s: State) {
    && (forall p :: 0 <= p < |s.procs| && s.procs[p].InOp? ==> s.procs[p].spent <= MAXOPBLOCKS)
    && s.outstanding == Open(s.procs)
    && |s.lh| + Reserved(s.procs) <= LOGSIZE
    && (s.committing <==>
          s.phase.WritingLog? || s.phase.WritingHead? || s.phase.Installing? || s.phase.Erasing? || s.phase.Returning?)
    && (!s.phase.Running? ==> s.outstanding == 0)
  }

  ghost predicate Copied(c: Config, s: State, t: nat)
    requires |s.disk| == c.nblocks
  {
    && c.start + t < c.nblocks
    && t <= |s.lh|
    && forall i :: 0 <= i < t ==> 0 <= s.lh[i] < c.nblocks && s.disk[c.Slot(i)] == ReadBlock(c, s, s.lh[i])
  }

  ghost predicate Installed(c: Config, d: seq<Block>, es: seq<int>, t: nat)
    requires |d| == c.nblocks
  {
    && c.start + t < c.nblocks
    && t <= |es|
    && forall i :: 0 <= i < t ==> 0 <= es[i] < c.nblocks && d[es[i]] == d[c.Slot(i)]
  }

  ghost predicate PhaseInv(c: Config, s: State)
    requires DiskOk(c, s.disk)
  {
    var h := s.disk[c.start];
    match s.phase
    case Running => h[0] == 0
    case WritingLog(t) => h[0] == 0 && t < |s.lh| && Copied(c, s, t)
    case WritingHead => h[0] == 0 && |s.lh| > 0 && Copied(c, s, |s.lh|)
    case Installing(t) => s.lh == Entries(h) && t < |s.lh| && Installed(c, s.disk, s.lh, t) && Copied(c, s, |s.lh|)
    case Erasing => s.lh == Entries(h) && Installed(c, s.disk, s.lh, |s.lh|)
    case Returning => s.lh == [] && h[0] == 0
    case Down => s.lh == [] && s.cache == map[]
    case Recovering(t) => s.lh == Entries(h) && t < |s.lh| && Installed(c, s.disk, s.lh, t)
    case RecoverErasing => s.lh == Entries(h) && Installed(c, s.disk, s.lh, |s.lh|)
  }

  ghost predicate Inv(c: Config, s: State) {
    && DiskOk(c, s.disk)
    && |s.procs| == c.nproc
    && Distinct(s.lh)
    && AllHome(c, s.lh)
    && CacheInv(c, s)
    && HoldInv(c, s)
    && Admission(s)
    && PhaseInv(c, s)
  }

  /** Outside an operation nothing is locked or half-modified. */
  lemma Quiescent(c: Config, s: State)
    requires Inv(c, s) && s.outstanding == 0
    ensures forall b :: b !in s.held && b !in s.touched
    ensures forall p :: 0 <= p < |s.procs| ==> s.procs[p].Idle?
  {
    assert forall b :: b in s.held ==> ProcInOp(s, s.held[b]);
    OpenZero(s.procs);
  }

  lemma InitInv(c: Config, s: State)
    requires Init(c, s)
    ensures Inv(c, s)
  {
    OpenZero(s.procs);
  }

  /** Operations are open only while no commit or recovery is under way. */
  lemma OpRunning(c: Config, s: State, p: nat)
    requires Inv(c, s) && ProcInOp(s, p)
    ensures s.phase.Running? && s.outstanding >= 1 && !s.committing
  {
    OpenZero(s.procs);
    assert Open(s.procs) != 0;
  }

  lemma BeginOpInv(c: Config, s: State, p: nat, s': State)
    requires Inv(c, s) && Next(c, s, BeginOp(p), s')
    ensures Inv(c, s')
  {
    SetProc(s.procs, p, InOp(0, None));
    OpenZero(s.procs);
    assert forall b :: b in s.held ==> s.held[b] != p && ProcInOp(s', s.held[b]);
  }

  lemma LogCheckInv(c: Config, s: State, p: nat, b: int, s': State)
    requires Inv(c, s) && Next(c, s, LogCheck(p, b), s')
    ensures Inv(c, s')
  {
    OpRunning(c, s, p);
    SetProc(s.procs, p, s'.procs[p]);
  }

  lemma LogAppendCache(c: Config, s: State, b: int, s': State)
    requires |s.disk| == c.nblocks && CacheInv(c, s) && s.phase.Running? && s'.phase.Running?
    requires Distinct(s.lh) && AllHome(c, s.lh) && c.IsHome(b) && b in s.cache
    requires s'.disk == s.disk && s'.cache == s.cache[b := Buf(s.cache[b].data, true)] && s'.touched == s.touched - {b}
    requires s'.lh == if b in s.lh then s.lh else s.lh + [b]
    ensures CacheInv(c, s') && Distinct(s'.lh) && AllHome(c, s'.lh)
  {
    if b !in s.lh {
      assert s'.lh[|s.lh|] == b;
    }
    forall x | x in s'.cache && s'.cache[x].dirty
      ensures Pinned(s', x)
    {
      if x != b {
        var i :| 0 <= i < |s.lh| && s.lh[i] == x;
        assert s'.lh[i] == x;
      }
    }
  }

  lemma LogAppendInv(c: Config, s: State, p: nat, s': State)
    requires Inv(c, s) && Next(c, s, LogAppend(p), s')
    ensures Inv(c, s')
  {
    hide CacheInv, Distinct, AllHome, DiskOk;
    OpRunning(c, s, p);
    SetProc(s.procs, p, s'.procs[p]);
    LogAppendCache(c, s, s.procs[p].checked.value, s');
  }

  lemma EndOpInv(c: Config, s: State, p: nat, s': State)
    requires Inv(c, s) && Next(c, s, EndOp(p), s')
    ensures Inv(c, s')
  {
    OpRunning(c, s, p);
    SetProc(s.procs, p, Idle);
  }

  lemma HoldStepInv(c: Config, s: State, p: nat, b: int, s': State)
    requires Inv(c, s) && Next(c, s, Hold(p, b), s')
    ensures Inv(c, s')
  {
    OpRunning(c, s, p);
  }

  lemma UnholdInv(c: Config, s: State, p: nat, b: int, s': State)
    requires Inv(c, s) && Next(c, s, Unhold(p, b), s')
    ensures Inv(c, s')
  {
    OpRunning(c, s, p);
  }

  lemma ModifyInv(c: Config, s: State, p: nat, b: int, v: Block, s': State)
    requires Inv(c, s) && Next(c, s, Modify(p, b, v), s')
    ensures Inv(c, s')
  {
    OpRunning(c, s, p);
  }

  /** Blocks of the log area are never pinned or locked, so cache and disk agree on them. */
  lemma LogReads(c: Config, s: State)
    requires Inv(c, s)
    ensures forall b :: c.InLog(b) ==> ReadBlock(c, s, b) == s.disk[b]
  {
  }

  ghost predicate SameReads(c: Config, s: State, s': State)
    requires |s.disk| == |s'.disk| == c.nblocks
  {
    forall b :: 0 <= b < c.nblocks ==> ReadBlock(c, s', b) == ReadBlock(c, s, b)
  }

  lemma CachingReads(c: Config, s: State, e: Step, s': State)
    requires Inv(c, s) && Next(c, s, e, s')
    requires e.Load? || e.Evict?
    ensures SameReads(c, s, s')
    ensures CacheInv(c, s') && HoldInv(c, s')
  {
    hide PhaseInv, Admission, DiskOk, Distinct, AllHome;
  }

  /** Caching a block or recycling an unpinned, unlocked buffer changes no block as readers see it. */
  lemma CachingInv(c: Config, s: State, e: Step, s': State)
    requires Inv(c, s) && Next(c, s, e, s')
    requires e.Load? || e.Evict?
    ensures SameReads(c, s, s')
    ensures Inv(c, s')
  {
    CachingReads(c, s, e, s');
    assert e.Evict? && s.phase.Down? ==> s'.cache == map[];
    assert PhaseInv(c, s');
  }

  lemma CommitReturnInv(c: Config, s: State, s': State)
    requires Inv(c, s) && Next(c, s, CommitReturn, s')
    ensures Inv(c, s')
  {
  }

  lemma CrashInv(c: Config, s: State, s': State)
    requires Inv(c, s) && Next(c, s, Crash, s')
    ensures Inv(c, s')
  {
    OpenZero(s'.procs);
  }

  // ---------- steps that write the disk ----------

  /** A bwrite of a log block outside any operation keeps cache and disk in step. */
  lemma LogBWrite(c: Config, s: State, b: int, v: Block, s': State)
    requires Inv(c, s) && s.outstanding == 0 && c.InLog(b)
    requires s' == BWrite(c, s, b, v).(lh := s'.lh, phase := s'.phase)
    requires if FirstPinned(s) == |s.lh| then FirstPinned(s') == |s'.lh|
             else s'.lh == s.lh && FirstPinned(s') == FirstPinned(s)
    ensures CacheInv(c, s') && HoldInv(c, s')
    ensures forall x :: 0 <= x < c.nblocks ==> ReadBlock(c, s', x) == if x == b then v else ReadBlock(c, s, x)
  {
    Quiescent(c, s);
  }

  /** One iteration of write_log; no home block is touched. */
  lemma CopyToLogInv(c: Config, s: State, s': State)
    requires Inv(c, s) && Fits(c, s) && Next(c, s, CopyToLog, s')
    ensures Inv(c, s')
    ensures forall b :: c.IsHome(b) ==> s'.disk[b] == s.disk[b] && ReadBlock(c, s', b) == ReadBlock(c, s, b)
  {
    var t := s.phase.tail;
    LogBWrite(c, s, c.Slot(t), ReadBlock(c, s, s.lh[t]), s');
    assert Copied(c, s', t + 1);
  }

  lemma CommitHeadInv(c: Config, s: State, s': State)
    requires Inv(c, s) && Fits(c, s) && Next(c, s, CommitHead, s')
    ensures Inv(c, s')
    ensures Entries(s'.disk[c.start]) == s.lh
    ensures forall b :: 0 <= b < c.nblocks && b != c.start ==>
      s'.disk[b] == s.disk[b] && ReadBlock(c, s', b) == ReadBlock(c, s, b)
  {
    var h := HeaderWith(ReadBlock(c, s, c.start), s.lh);
    LogBWrite(c, s, c.start, h, s');
    assert s'.disk[c.start] == h;
  }

  /** One iteration of install_trans, in commit or in recovery: the entry's home block gets its log block. */
  lemma InstallDisk(c: Config, d: seq<Block>, es: seq<int>, t: nat, d': seq<Block>)
    requires DiskOk(c, d) && es == Entries(d[c.start]) && t < |es| && Installed(c, d, es, t)
    requires c.IsHome(es[t])
    requires d' == d[es[t] := d[c.Slot(t)]]
    ensures Installed(c, d', es, t + 1)
    ensures forall b :: c.InLog(b) ==> d'[b] == d[b]
    ensures DiskOk(c, d')
  {
    assert forall i :: 0 <= i <= t ==> c.InLog(c.Slot(i));
  }

  lemma InstallCache(c: Config, s: State, t: nat, s': State)
    requires |s.disk| == c.nblocks && CacheInv(c, s) && Distinct(s.lh)
    requires s.phase == Installing(t) && t < |s.lh| && 0 <= s.lh[t] < c.nblocks
    requires forall b :: b !in s.touched
    requires var next := if t + 1 == |s.lh| then Erasing else Installing(t + 1);
      s' == BWrite(c, s, s.lh[t], ReadBlock(c, s, s.lh[t])).(phase := next)
    ensures CacheInv(c, s') && SameReads(c, s, s')
  {
    forall b | b in s'.cache && s'.cache[b].dirty
      ensures Pinned(s', b)
    {
      var i :| t <= i < |s.lh| && s.lh[i] == b;
      assert s'.lh[i] == b;
    }
  }

  /** Installing during commit writes home what readers already see. */
  lemma InstallOneInv(c: Config, s: State, s': State)
    requires Inv(c, s) && Next(c, s, InstallOne, s')
    ensures Inv(c, s')
    ensures SameReads(c, s, s')
  {
    hide PhaseInv, CacheInv, SameReads, DiskOk;
    var t := s.phase.tail;
    Quiescent(c, s);
    LogReads(c, s);
    InstallFacts(c, s);
    InstallCache(c, s, t, s');
    InstallDisk(c, s.disk, s.lh, t, s'.disk);
    InstallPhase(c, s, t, s');
  }

  lemma InstallFacts(c: Config, s: State)
    requires Inv(c, s) && s.phase.Installing?
    ensures var t := s.phase.tail;
      && t < |s.lh| < c.size && c.Valid() && s.lh == Entries(s.disk[c.start]) && c.InLog(c.Slot(t))
      && Installed(c, s.disk, s.lh, t) && 0 <= s.lh[t] < c.nblocks && s.disk[c.Slot(t)] == ReadBlock(c, s, s.lh[t])
  {
    hide CacheInv, HoldInv, Admission;
  }

  lemma InstallPhase(c: Config, s: State, t: nat, s': State)
    requires c.Valid() && DiskOk(c, s.disk) && DiskOk(c, s'.disk) && s.phase == Installing(t) && PhaseInv(c, s)
    requires t < |s.lh| < c.size
    requires s'.lh == s.lh && s'.phase == (if t + 1 == |s.lh| then Erasing else Installing(t + 1))
    requires SameReads(c, s, s')
    requires Installed(c, s'.disk, s.lh, t + 1) && forall b :: c.InLog(b) ==> s'.disk[b] == s.disk[b]
    ensures PhaseInv(c, s')
  {
    hide DiskOk, Entries, Installed;
    assert forall i :: 0 <= i < |s.lh| ==> c.InLog(c.Slot(i));
  }

  /** A bwrite while no buffer is pinned or modified. */
  lemma CleanBWrite(c: Config, s: State, b: int, v: Block, s': State)
    requires |s.disk| == c.nblocks && CacheInv(c, s)
    requires FirstPinned(s) == |s.lh| && FirstPinned(s') == |s'.lh|
    requires 0 <= b < c.nblocks && forall x :: x !in s.touched
    requires s' == BWrite(c, s, b, v).(lh := s'.lh, phase := s'.phase)
    ensures CacheInv(c, s')
  {
  }

  lemma RecoverOneInv(c: Config, s: State, s': State)
    requires Inv(c, s) && Next(c, s, RecoverOne, s')
    ensures Inv(c, s')
  {
    hide CacheInv, DiskOk, Installed;
    var t := s.phase.tail;
    Quiescent(c, s);
    LogReads(c, s);
    RecoverFacts(c, s);
    CleanBWrite(c, s, s.lh[t], s.disk[c.Slot(t)], s');
    InstallDisk(c, s.disk, s.lh, t, s'.disk);
    assert s'.disk[c.start] == s.disk[c.start];
  }

  lemma RecoverFacts(c: Config, s: State)
    requires Inv(c, s) && s.phase.Recovering?
    ensures var t := s.phase.tail;
      && t < |s.lh| < c.size && c.Valid() && s.lh == Entries(s.disk[c.start]) && c.InLog(c.Slot(t)) && c.InLog(c.start)
      && Installed(c, s.disk, s.lh, t) && 0 <= s.lh[t] < c.nblocks
  {
    hide CacheInv, HoldInv, Admission;
  }

  lemma ReadHeadInv(c: Config, s: State, s': State)
    requires Inv(c, s) && Next(c, s, ReadHead, s')
    ensures Inv(c, s')
  {
    Quiescent(c, s);
    OpenZero(s.procs);
    assert CacheInv(c, s');
    assert HoldInv(c, s');
  }

  lemma EraseInv(c: Config, s: State, e: Step, s': State)
    requires Inv(c, s) && Next(c, s, e, s')
    requires e.EraseHead? || e.RecoverErase?
    ensures Inv(c, s') && s'.disk[c.start][0] == 0
    ensures forall b :: c.IsHome(b) ==> s'.disk[b] == s.disk[b] && ReadBlock(c, s', b) == ReadBlock(c, s, b)
  {
    var h := HeaderWith(ReadBlock(c, s, c.start), []);
    LogBWrite(c, s, c.start, h, s');
    assert s'.disk[c.start] == h;
  }
}
