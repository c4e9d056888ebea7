/**
 How much log the protocol needs. log_write tests the free space before it takes log.lock, so two
 operations can both pass the test for the last free slot. The reservation made by begin_op covers
 for this exactly when the log area is larger than LOGSIZE; for a smaller area (other than one too
 small to log anything) a run is exhibited in which recovery changes a block nobody wrote.
 */
module LogAdmission {
  import opened Options
  import opened LogDisk
  import opened AtomicDisk
  import opened LogProtocol
  import opened LogInvariant
  import opened LogRefinement

  /**
   An operation within its MAXOPBLOCKS never meets "too big a transaction", and end_op never meets
   "log.committing".
   */
  lemma NeverPanics(c: Config, s: State, p: nat)
    requires Inv(c, s) && ProcInOp(s, p)
    ensures !s.committing && s.outstanding >= 1
    ensures s.procs[p].spent < MAXOPBLOCKS ==> |s.lh| < LOGSIZE
    ensures s.procs[p].spent < MAXOPBLOCKS && c.size > LOGSIZE ==> !TooBig(c, s)
  {
    OpRunning(c, s, p);
    OpenZero(s.procs);
  }

  /** With no operation open, the log has nothing in it unless it is being committed or recovered. */
  predicate IdleEmpty(s: State) {
    s.phase.Running? && s.outstanding == 0 ==> s.lh == []
  }

  lemma IdleStep(c: Config, s: State, e: Step, s': State)
    requires Inv(c, s) && IdleEmpty(s) && Next(c, s, e, s')
    ensures IdleEmpty(s')
  {
    hide CacheInv, HoldInv, PhaseInv;
    if e.LogAppend? {
      OpRunning(c, s, e.p);
    } else if e.CommitReturn? {
      ReturnEmpty(c, s);
    }
  }

  lemma ReturnEmpty(c: Config, s: State)
    requires Inv(c, s) && s.phase.Returning?
    ensures s.lh == []
  {
  }

  lemma {:induction false} RunIdle(c: Config, ss: seq<State>, es: seq<Step>, n: nat)
    requires Run(c, ss, es) && AllFit(c, ss) && n < |ss|
    ensures IdleEmpty(ss[n])
  {
    hide Inv, Next, Fits, Init;
    if n == 0 {
      InitDown(c, ss[0]);
    } else {
      RunIdle(c, ss, es, n - 1);
      RunInv(c, ss, es, n - 1);
      assert Next(c, ss[n - 1], es[n - 1], ss[n - 1 + 1]);
      IdleStep(c, ss[n - 1], es[n - 1], ss[n]);
    }
  }

  lemma InitDown(c: Config, s: State)
    requires Init(c, s)
    ensures s.phase.Down?
  {
  }

  /**
   begin_op never sleeps without somebody to wake it: in every reachable state it either admits the caller, or a
   commit is under way, or an operation is open; and a log with nothing in it takes three operations at once.
   */
  lemma SleepsForReason(c: Config, ss: seq<State>, es: seq<Step>, n: nat)
    requires Run(c, ss, es) && AllFit(c, ss) && n < |ss| && ss[n].phase.Running?
    ensures Admits(ss[n]) || ss[n].outstanding > 0
    ensures ss[n].lh == [] ==> (Admits(ss[n]) <==> ss[n].outstanding < 3)
  {
    hide CacheInv, HoldInv, PhaseInv;
    RunIdle(c, ss, es, n);
    RunInv(c, ss, es, n);
    OpenZero(ss[n].procs);
  }

  lemma InvFits(c: Config, s: State)
    requires Inv(c, s) && c.size > LOGSIZE
    ensures Fits(c, s)
  {
    OpenZero(s.procs);
  }

  /** A log area of one block admits no entry at all. */
  lemma OneBlockLogIdle(c: Config, s: State, e: Step, s': State)
    requires Inv(c, s) && c.size == 1 && Next(c, s, e, s')
    requires s.lh == [] && forall p :: 0 <= p < |s.procs| && s.procs[p].InOp? ==> s.procs[p].checked == None
    ensures s'.lh == [] && forall p :: 0 <= p < |s'.procs| && s'.procs[p].InOp? ==> s'.procs[p].checked == None
  {
    hide CacheInv, HoldInv, Admission, PhaseInv;
  }

  /** Every reachable state fits its log area and satisfies the invariant, if the area is big enough or trivial. */
  lemma {:induction false} RunFits(c: Config, ss: seq<State>, es: seq<Step>, n: nat)
    requires Run(c, ss, es) && n < |ss|
    requires c.size == 1 || c.size > LOGSIZE
    ensures Inv(c, ss[n]) && Fits(c, ss[n])
    ensures c.size == 1 ==>
      ss[n].lh == [] && forall p :: 0 <= p < |ss[n].procs| && ss[n].procs[p].InOp? ==> ss[n].procs[p].checked == None
  {
    if n == 0 {
      InitInv(c, ss[0]);
    } else {
      RunFits(c, ss, es, n - 1);
      hide Inv, Next;
      assert ss[n - 1 + 1] == ss[n];
      StepInv(c, ss[n - 1], es[n - 1], ss[n]);
      if c.size == 1 {
        OneBlockLogIdle(c, ss[n - 1], es[n - 1], ss[n]);
      } else {
        InvFits(c, ss[n]);
      }
    }
  }

  // ---------- a run that overflows a smaller log area ----------

  ghost predicate Reach(c: Config, d: seq<Block>, s: State) {
    exists ss: seq<State>, es: seq<Step> :: Run(c, ss, es) && ss[0].disk == d && ss[|es|] == s && NoModify(es)
  }

  predicate NoModify(es: seq<Step>) {
    forall i :: 0 <= i < |es| ==> !es[i].Modify?
  }

  lemma ReachStep(c: Config, d: seq<Block>, s: State, e: Step, s': State)
    requires Reach(c, d, s) && Next(c, s, e, s') && !e.Modify?
    ensures Reach(c, d, s')
  {
    hide Next, Init;
    var ss: seq<State>, es: seq<Step> :| Run(c, ss, es) && ss[0].disk == d && ss[|es|] == s && NoModify(es);
    var ss', es' := ss + [s'], es + [e];
    assert Run(c, ss', es');
    assert NoModify(es');
  }

  lemma Go(c: Config, d: seq<Block>, s: State, e: Step) returns (s': State)
    requires Reach(c, d, s) && |s.disk| == c.nblocks && c.Valid() && Guard(c, s, e) && !e.Modify?
    ensures s' == Do(c, s, e) && Reach(c, d, s')
  {
    s' := Do(c, s, e);
    hide Guard, Do, Reach;
    ReachStep(c, d, s, e, s');
  }

  function Blk(c: Config, i: int): int {
    c.start + c.size + i
  }

  /** The starting image: an empty log. */
  ghost predicate Image(c: Config, d: seq<Block>) {
    && DiskOk(c, d) && c.nproc >= 3 && c.nblocks >= c.start + 2 * c.size
    && d[c.start][0] == 0
    && 2 <= c.size <= LOGSIZE
  }

  /** Three operations are open, and entries for Blk(0), ..., Blk(k - 1) were made without changing anything. */
  ghost predicate Logged(c: Config, d: seq<Block>, s: State, k: nat) {
    && Reach(c, d, s)
    && s.disk == d
    && s.phase == Running && !s.committing && s.outstanding == 3
    && |s.procs| == c.nproc >= 3
    && (forall p :: 0 <= p < 3 ==> s.procs[p].InOp? && s.procs[p].checked == None)
    && |s.lh| == k && (forall i :: 0 <= i < k ==> s.lh[i] == Blk(c, i))
    && s.held == map[]
    && (forall b :: b in s.cache ==> 0 <= b < |d| && s.cache[b].data == d[b])
    && (forall i :: i >= k ==> Blk(c, i) !in s.cache)
  }

  /** The first ten entries are operation 0's, the next nine operation 1's, the rest operation 2's. */
  ghost predicate Filled(c: Config, d: seq<Block>, s: State, k: nat) {
    && Logged(c, d, s, k)
    && s.procs[0].spent == (if k < 10 then k else 10)
    && s.procs[1].spent == (if k < 10 then 0 else if k < 19 then k - 10 else 9)
    && s.procs[2].spent == (if k < 19 then 0 else k - 19)
  }

  lemma Booted(c: Config, d: seq<Block>) returns (s: State)
    requires Image(c, d)
    ensures Reach(c, d, s)
    ensures s == State(d, map[c.start := Buf(d[c.start], false)], [], 0, false, Idles(c.nproc), map[], {}, Running)
  {
    var s0 := State(d, map[], [], 0, false, Idles(c.nproc), map[], {}, Down);
    var ss: seq<State>, es: seq<Step> := [s0], [];
    assert Run(c, ss, es) && ss[0].disk == d && ss[|es|] == s0 && NoModify(es);
    s := Go(c, d, s0, ReadHead);
    s := Go(c, d, s, RecoverErase);
    assert HeaderWith(d[c.start], []) == d[c.start];
    assert s.disk == d;
  }

  lemma Opened(c: Config, d: seq<Block>) returns (s: State)
    requires Image(c, d)
    ensures Filled(c, d, s, 0)
  {
    s := Booted(c, d);
    s := Go(c, d, s, BeginOp(0));
    s := Go(c, d, s, BeginOp(1));
    s := Go(c, d, s, BeginOp(2));
  }

  /** bread by an operation. */
  lemma Grab(c: Config, d: seq<Block>, s: State, p: nat, b: int) returns (s': State)
    requires Image(c, d) && Reach(c, d, s) && |s.disk| == |d| && c.IsHome(b)
    requires s.phase == Running && ProcInOp(s, p) && b !in s.cache && b !in s.held
    ensures Reach(c, d, s')
    ensures s' == s.(cache := s.cache[b := Buf(s.disk[b], false)], held := s.held[b := p])
  {
    s' := Go(c, d, s, Load(b));
    s' := Go(c, d, s', Hold(p, b));
  }

  lemma Check(c: Config, d: seq<Block>, s: State, p: nat, b: int) returns (s': State)
    requires Image(c, d) && Reach(c, d, s) && |s.disk| == |d|
    requires ProcInOp(s, p) && Holds(s, p, b) && s.procs[p].checked == None && |s.lh| < c.size - 1 && s.outstanding >= 1
    ensures Reach(c, d, s')
    ensures s' == s.(procs := s.procs[p := InOp(s.procs[p].spent, Some(b))])
  {
    s' := Go(c, d, s, LogCheck(p, b));
  }

  /** The locked half of log_write, then brelse. */
  lemma Append(c: Config, d: seq<Block>, s: State, p: nat, b: int) returns (s': State)
    requires Image(c, d) && Reach(c, d, s) && |s.disk| == |d|
    requires ProcInOp(s, p) && Holds(s, p, b) && s.procs[p].checked == Some(b) && s.procs[p].spent < MAXOPBLOCKS
    requires b !in s.lh
    ensures Reach(c, d, s')
    ensures s' == s.(lh := s.lh + [b], cache := s.cache[b := Buf(s.cache[b].data, true)], touched := s.touched - {b},
                     procs := s.procs[p := InOp(s.procs[p].spent + 1, None)], held := s.held - {b})
  {
    s' := Go(c, d, s, LogAppend(p));
    s' := Go(c, d, s', Unhold(p, b));
  }

  lemma ImageSize(c: Config, d: seq<Block>, k: nat)
    requires Image(c, d) && k < c.size
    ensures c.Valid() && |d| == c.nblocks && c.IsHome(Blk(c, k)) && 0 <= Blk(c, k) < |d|
  {
  }

  lemma FillBy(c: Config, d: seq<Block>, s: State, k: nat, p: nat) returns (s': State)
    requires Image(c, d) && Logged(c, d, s, k) && k < c.size - 1 && p < 3 && s.procs[p].spent < MAXOPBLOCKS
    ensures Logged(c, d, s', k + 1) && s'.procs == s.procs[p := InOp(s.procs[p].spent + 1, None)]
  {
    hide Reach, DiskOk;
    ImageSize(c, d, k);
    var b := Blk(c, k);
    s' := Grab(c, d, s, p, b);
    s' := Check(c, d, s', p, b);
    s' := Append(c, d, s', p, b);
    assert s'.held == map[];
    assert s'.procs == s.procs[p := InOp(s.procs[p].spent + 1, None)];
    LoggedMore(c, d, s, k, p, s');
  }

  lemma LoggedMore(c: Config, d: seq<Block>, s: State, k: nat, p: nat, s': State)
    requires Image(c, d) && Logged(c, d, s, k) && p < 3 && Reach(c, d, s') && 0 <= Blk(c, k) < |d|
    requires s' == s.(lh := s.lh + [Blk(c, k)], cache := s.cache[Blk(c, k) := Buf(d[Blk(c, k)], true)],
                      touched := s'.touched, procs := s.procs[p := InOp(s.procs[p].spent + 1, None)])
    ensures Logged(c, d, s', k + 1)
  {
    hide Reach, DiskOk;
    assert forall i :: 0 <= i < k + 1 ==> s'.lh[i] == Blk(c, i);
  }

  lemma {:induction false} FillTo(c: Config, d: seq<Block>, k: nat) returns (s: State)
    requires Image(c, d) && k < c.size - 1
    ensures Filled(c, d, s, k)
  {
    if k == 0 {
      s := Opened(c, d);
    } else {
      s := FillTo(c, d, k - 1);
      s := FillBy(c, d, s, k - 1, if k - 1 < 10 then 0 else if k - 1 < 19 then 1 else 2);
    }
  }

  /** Operations 1 and 2 pass the size test for the last slot; then both append. */
  lemma Overflow(c: Config, d: seq<Block>) returns (s: State)
    requires Image(c, d)
    ensures Logged(c, d, s, c.size)
  {
    hide Reach, DiskOk;
    var k := c.size - 2;
    var a, b := Blk(c, k), Blk(c, k + 1);
    ImageSize(c, d, k);
    ImageSize(c, d, k + 1);
    var s0 := FillTo(c, d, k);
    s := Grab(c, d, s0, 1, a);
    s := Grab(c, d, s, 2, b);
    s := Check(c, d, s, 1, a);
    s := Check(c, d, s, 2, b);
    s := Append(c, d, s, 1, a);
    s := Append(c, d, s, 2, b);
    assert s.held == map[];
    assert forall i :: 0 <= i < c.size ==> s.lh[i] == Blk(c, i);
  }

  /** write_log has copied the first t entries of an overfull log; home blocks are still as in d. */
  ghost predicate Copying(c: Config, d: seq<Block>, s: State, t: nat) {
    && Reach(c, d, s)
    && s.phase == WritingLog(t) && t < c.size
    && |s.disk| == |d|
    && s.disk[c.start] == d[c.start]
    && (forall b :: c.IsHome(b) ==> s.disk[b] == d[b])
    && (forall b :: b in s.cache && c.IsHome(b) ==> s.cache[b].data == d[b])
    && |s.lh| == c.size && (forall i :: 0 <= i < c.size ==> s.lh[i] == Blk(c, i))
  }

  lemma AllEnd(c: Config, d: seq<Block>) returns (s: State)
    requires Image(c, d)
    ensures Copying(c, d, s, 0)
  {
    s := Overflow(c, d);
    s := Go(c, d, s, EndOp(0));
    s := Go(c, d, s, EndOp(1));
    s := Go(c, d, s, EndOp(2));
  }

  lemma {:induction false} CopyTo(c: Config, d: seq<Block>, t: nat) returns (s: State)
    requires Image(c, d) && t < c.size
    ensures Copying(c, d, s, t)
  {
    if t == 0 {
      s := AllEnd(c, d);
    } else {
      s := CopyTo(c, d, t - 1);
      s := Go(c, d, s, CopyToLog);
    }
  }

  /** The copy of the last entry lands on the first block past the log area, a home block. */
  lemma Clobbered(c: Config, d: seq<Block>) returns (s: State)
    requires Image(c, d)
    ensures Reach(c, d, s) && DiskOk(c, s.disk) && s.disk[c.start][0] == 0
    ensures s.disk[Blk(c, 0)] == d[Blk(c, c.size - 1)]
  {
    s := CopyTo(c, d, c.size - 1);
    s := Go(c, d, s, CopyToLog);
  }

  // ---------- the exact condition ----------

  /** The run is one of the atomic disk, and recovery is right at every point of it. */
  ghost predicate Atomic(c: Config, ss: seq<State>, es: seq<Step>)
    requires Run(c, ss, es)
  {
    exists specs :: AtomicBy(c, ss, es, specs)
  }

  ghost predicate AtomicBy(c: Config, ss: seq<State>, es: seq<Step>, specs: seq<Spec>)
    requires Run(c, ss, es)
  {
    && SpecRun(specs, es)
    && specs[0] == Spec(HomeOf(c, Recover(c, ss[0].disk)), None, HomeOf(c, Recover(c, ss[0].disk)), {})
    && forall i :: 0 <= i < |ss| ==> CrashSafe(c, ss[i].disk, specs[i])
  }

  /** An atomic disk that nobody writes holds what it held at first. */
  lemma {:induction false} Unwritten(specs: seq<Spec>, es: seq<Step>, n: nat)
    requires SpecRun(specs, es) && NoModify(es) && n < |specs|
    requires specs[0].inflight == None && specs[0].current == specs[0].stable
    ensures specs[n].stable == specs[n].current == specs[0].stable
    ensures specs[n].inflight.Some? ==> specs[n].inflight.value == specs[0].stable
  {
    if n > 0 {
      Unwritten(specs, es, n - 1);
      assert SpecNext(specs[n - 1], es[n - 1], specs[n - 1 + 1]);
    }
  }

  lemma BigLogAtomic(c: Config, ss: seq<State>, es: seq<Step>)
    requires Run(c, ss, es) && (c.size == 1 || c.size > LOGSIZE)
    ensures Atomic(c, ss, es)
  {
    forall i | 0 <= i < |ss| ensures Fits(c, ss[i]) {
      RunFits(c, ss, es, i);
    }
    var specs := CrashAtomicity(c, ss, es);
    assert AtomicBy(c, ss, es, specs);
  }

  lemma ClobberedNotAtomic(c: Config, d: seq<Block>, s: State, ss: seq<State>, es: seq<Step>, specs: seq<Spec>)
    requires Image(c, d) && d[Blk(c, 0)] != d[Blk(c, c.size - 1)]
    requires Run(c, ss, es) && ss[0].disk == d && ss[|es|] == s && NoModify(es)
    requires DiskOk(c, s.disk) && s.disk[c.start][0] == 0 && s.disk[Blk(c, 0)] == d[Blk(c, c.size - 1)]
    ensures !AtomicBy(c, ss, es, specs)
  {
    RecoverIsEffective(c, d);
    RecoverIsEffective(c, s.disk);
    EmptyEff(c, d);
    EmptyEff(c, s.disk);
    assert HomeOf(c, d)[Blk(c, 0)] != HomeOf(c, s.disk)[Blk(c, 0)];
    if AtomicBy(c, ss, es, specs) {
      Unwritten(specs, es, |es|);
    }
  }

  /** An image whose block Blk(size - 1) differs from Blk(0). */
  function Witness(c: Config): (d: seq<Block>)
    requires 2 <= c.size && c.nblocks >= c.start + 2 * c.size
    ensures |d| == c.nblocks && d[c.start][0] == 0 && d[Blk(c, 0)][0] == 0 && d[Blk(c, c.size - 1)][0] == 1
  {
    var zero: Block, one: Block := seq(128, _ => 0), seq(128, _ => 1);
    seq(c.nblocks, _ => zero)[Blk(c, c.size - 1) := one]
  }

  lemma SmallLogNotAtomic(c: Config) returns (ss: seq<State>, es: seq<Step>)
    requires c.Valid() && c.nproc >= 3 && c.nblocks >= c.start + 2 * c.size
    requires 2 <= c.size <= LOGSIZE
    ensures Run(c, ss, es) && NoModify(es) && !Atomic(c, ss, es)
  {
    var d := Witness(c);
    assert Image(c, d);
    var s := Clobbered(c, d);
    ss, es :| Run(c, ss, es) && ss[0].disk == d && ss[|es|] == s && NoModify(es);
    forall specs ensures !AtomicBy(c, ss, es, specs) {
      ClobberedNotAtomic(c, d, s, ss, es, specs);
    }
  }

  /**
   Crash atomicity holds of every run exactly when the log area has more than LOGSIZE blocks (or
   only one, which cannot log anything). mkfs lays out exactly LOGSIZE.
   */
  lemma CrashAtomicityExactly(c: Config)
    requires c.Valid() && c.nproc >= 3 && c.nblocks >= c.start + 2 * c.size
    ensures (forall ss, es :: Run(c, ss, es) ==> Atomic(c, ss, es)) <==> (c.size == 1 || c.size > LOGSIZE)
  {
    if c.size == 1 || c.size > LOGSIZE {
      forall ss, es | Run(c, ss, es) ensures Atomic(c, ss, es) {
        BigLogAtomic(c, ss, es);
      }
    } else {
      var ss, es := SmallLogNotAtomic(c);
    }
  }
}
