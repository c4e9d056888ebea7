/** Crash atomicity: every run of the log protocol is a run of the atomic disk. */
module LogRefinement {
  import opened Options
  import opened LogDisk
  import opened AtomicDisk
  import opened LogProtocol
  import opened LogInvariant

  lemma ReadInv(c: Config, s: State, e: Step, s': State)
    requires Inv(c, s) && Next(c, s, e, s') && e.Read?
    ensures Inv(c, s')
  {
    hide Inv;
  }

  lemma InvFacts(c: Config, s: State)
    requires Inv(c, s)
    ensures DiskOk(c, s.disk) && (s.outstanding != 0 ==> s.phase.Running?) && s.outstanding == Open(s.procs)
    ensures s.committing <==>
      s.phase.WritingLog? || s.phase.WritingHead? || s.phase.Installing? || s.phase.Erasing? || s.phase.Returning?
    ensures forall b :: b in s.held ==> c.IsHome(b)
    ensures forall p :: 0 <= p < |s.procs| && s.procs[p].InOp? ==> s.procs[p].spent <= MAXOPBLOCKS
    ensures s.phase.WritingLog? || s.phase.WritingHead? || s.phase.Running? || s.phase.Returning? ==>
      s.disk[c.start][0] == 0
  {
  }

  lemma StepInv(c: Config, s: State, e: Step, s': State)
    requires Inv(c, s) && Fits(c, s) && Next(c, s, e, s')
    ensures Inv(c, s')
  {
    hide *;
    match e
    case BeginOp(p) => BeginOpInv(c, s, p, s');
    case Load(_) => CachingInv(c, s, e, s');
    case Evict(_) => CachingInv(c, s, e, s');
    case Hold(p, b) => HoldStepInv(c, s, p, b, s');
    case Modify(p, b, v) => ModifyInv(c, s, p, b, v, s');
    case LogCheck(p, b) => LogCheckInv(c, s, p, b, s');
    case LogAppend(p) => LogAppendInv(c, s, p, s');
    case Unhold(p, b) => UnholdInv(c, s, p, b, s');
    case EndOp(p) => EndOpInv(c, s, p, s');
    case Read(_, _) => ReadInv(c, s, e, s');
    case CopyToLog => CopyToLogInv(c, s, s');
    case CommitHead => CommitHeadInv(c, s, s');
    case InstallOne => InstallOneInv(c, s, s');
    case EraseHead => EraseInv(c, s, e, s');
    case CommitReturn => CommitReturnInv(c, s, s');
    case Crash => CrashInv(c, s, s');
    case ReadHead => ReadHeadInv(c, s, s');
    case RecoverOne => RecoverOneInv(c, s, s');
    case RecoverErase => EraseInv(c, s, e, s');
  }

  /** The home blocks as readers see them. */
  function Logical(c: Config, s: State): Home
    requires |s.disk| == c.nblocks
  {
    map b | 0 <= b < c.nblocks && !c.InLog(b) :: ReadBlock(c, s, b)
  }

  function Busy(s: State): set<nat> {
    set p: nat | p < |s.procs| && s.procs[p].InOp?
  }

  /** A commit whose header write is still to come. */
  predicate BeforeCommitPoint(s: State) {
    s.phase.WritingLog? || s.phase.WritingHead?
  }

  predicate Booting(s: State) {
    s.phase.Down? || s.phase.Recovering? || s.phase.RecoverErasing?
  }

  /** The log state `s` represents the atomic disk `a`. */
  ghost predicate Sim(c: Config, s: State, a: Spec) {
    && Inv(c, s)
    && a.busy == Busy(s)
    && (a.inflight.Some? <==> s.committing)
    && (a.inflight.Some? ==> a.inflight.value == a.current)
    && (if s.committing && !BeforeCommitPoint(s) then Effective(c, s.disk) == a.current
        else Effective(c, s.disk) == a.stable)
    && (if Booting(s) then a.current == a.stable else a.current == Logical(c, s))
  }

  lemma SimInv(c: Config, s: State, a: Spec)
    requires Sim(c, s, a)
    ensures Inv(c, s)
  {
    hide Inv;
  }

  lemma InitSim(c: Config, s: State)
    requires Init(c, s)
    ensures Sim(c, s, Spec(Effective(c, s.disk), None, Effective(c, s.disk), {}))
  {
    InitInv(c, s);
  }

  // ---------- how the disk-writing steps move the effective contents ----------

  lemma SameHeaderEff(c: Config, d: seq<Block>, d': seq<Block>)
    requires DiskOk(c, d) && DiskOk(c, d')
    requires forall b :: c.InLog(b) ==> d'[b] == d[b]
    requires forall b :: c.IsHome(b) ==>
      d'[b] == d[b] || exists i :: 0 <= i < d[c.start][0] && Entries(d[c.start])[i] == b
    ensures Effective(c, d') == Effective(c, d)
  {
    assert c.InLog(c.start);
    var es := Entries(d[c.start]);
    forall b | c.IsHome(b)
      ensures Eff(c, d', es, |es|, b) == Eff(c, d, es, |es|, b)
    {
      EffFrame(c, d, d', es, |es|, b);
    }
  }

  /** With an empty log the effective contents are the home blocks themselves. */
  lemma EmptyEff(c: Config, d: seq<Block>)
    requires DiskOk(c, d) && d[c.start][0] == 0
    ensures Effective(c, d) == HomeOf(c, d)
  {
  }

  lemma InstalledEff(c: Config, d: seq<Block>)
    requires DiskOk(c, d) && Installed(c, d, Entries(d[c.start]), d[c.start][0])
    ensures Effective(c, d) == HomeOf(c, d)
  {
    var es := Entries(d[c.start]);
    forall b | c.IsHome(b)
      ensures Eff(c, d, es, |es|, b) == d[b]
    {
      EffInstalled(c, d, es, |es|, b);
    }
  }

  /** Unpinned blocks are the same for readers as on disk, when no operation is open. */
  lemma UnpinnedReads(c: Config, s: State, b: int)
    requires Inv(c, s) && s.outstanding == 0 && 0 <= b < c.nblocks && !Pinned(s, b)
    ensures ReadBlock(c, s, b) == s.disk[b]
  {
    Quiescent(c, s);
  }

  lemma WritingHeadCopied(c: Config, s: State)
    requires Inv(c, s) && s.phase.WritingHead?
    ensures Copied(c, s, |s.lh|) && s.outstanding == 0 && |s.lh| <= LOGSIZE
    ensures forall b :: Pinned(s, b) <==> exists i :: 0 <= i < |s.lh| && s.lh[i] == b
  {
    hide CacheInv, HoldInv;
    OpenZero(s.procs);
  }

  lemma CommitHeadShape(c: Config, s: State, s': State)
    requires Next(c, s, CommitHead, s')
    ensures s.phase.WritingHead?
  {
  }

  lemma EffectiveIs(c: Config, s: State, s': State)
    requires DiskOk(c, s'.disk) && |s.disk| == c.nblocks && Entries(s'.disk[c.start]) == s.lh
    requires forall b :: c.IsHome(b) ==> Eff(c, s'.disk, s.lh, |s.lh|, b) == ReadBlock(c, s, b) == ReadBlock(c, s', b)
    ensures Effective(c, s'.disk) == Logical(c, s) == Logical(c, s')
  {
  }

  /** The commit point: one header write makes every block of the group effective at once. */
  lemma CommitPoint(c: Config, s: State, s': State)
    requires Inv(c, s) && Fits(c, s) && Next(c, s, CommitHead, s')
    ensures Inv(c, s') && Effective(c, s'.disk) == Logical(c, s) == Logical(c, s')
  {
    hide Inv, Next, Pinned, HeaderOk, Effective;
    CommitHeadShape(c, s, s');
    CommitHeadInv(c, s, s');
    InvFacts(c, s);
    InvFacts(c, s');
    WritingHeadCopied(c, s);
    forall b | c.IsHome(b)
      ensures Eff(c, s'.disk, s.lh, |s.lh|, b) == ReadBlock(c, s, b)
    {
      if !Pinned(s, b) {
        UnpinnedReads(c, s, b);
      }
      EffFromBody(c, s'.disk, s.lh, |s.lh|, b, ReadBlock(c, s, b));
    }
    EffectiveIs(c, s, s');
  }

  /** Nothing pinned and nothing half-modified: readers see the disk. */
  lemma CleanReads(c: Config, s: State)
    requires Inv(c, s) && s.outstanding == 0 && FirstPinned(s) == |s.lh|
    ensures Logical(c, s) == HomeOf(c, s.disk)
  {
    forall b | c.IsHome(b)
      ensures ReadBlock(c, s, b) == s.disk[b]
    {
      UnpinnedReads(c, s, b);
    }
  }

  lemma InstallKeepsEff(c: Config, s: State, e: Step, s': State)
    requires Inv(c, s) && Next(c, s, e, s')
    requires e.InstallOne? || e.RecoverOne?
    ensures Inv(c, s') && Effective(c, s'.disk) == Effective(c, s.disk)
  {
    hide CacheInv, HoldInv, Admission, HeaderWith, Effective;
    InvFacts(c, s);
    var t := s.phase.tail;
    if e.InstallOne? { InstallOneInv(c, s, s'); } else { RecoverOneInv(c, s, s'); }
    var es := Entries(s.disk[c.start]);
    assert es[t] == s.lh[t];
    SameHeaderEff(c, s.disk, s'.disk);
  }

  lemma ErasingInstalled(c: Config, s: State)
    requires Inv(c, s) && (s.phase.Erasing? || s.phase.RecoverErasing?)
    ensures Installed(c, s.disk, Entries(s.disk[c.start]), s.disk[c.start][0])
    ensures s.outstanding == 0 && FirstPinned(s) == |s.lh|
  {
    hide CacheInv, HoldInv;
  }

  lemma EraseShape(c: Config, s: State, e: Step, s': State)
    requires Next(c, s, e, s') && (e.EraseHead? || e.RecoverErase?)
    ensures s.phase.Erasing? || s.phase.RecoverErasing?
  {
  }

  lemma EraseKeepsEff(c: Config, s: State, e: Step, s': State)
    requires Inv(c, s) && Next(c, s, e, s')
    requires e.EraseHead? || e.RecoverErase?
    ensures Inv(c, s') && Effective(c, s'.disk) == Effective(c, s.disk) == HomeOf(c, s'.disk)
    ensures Logical(c, s') == HomeOf(c, s'.disk)
  {
    hide Inv, Next, Effective, PhaseInv;
    EraseShape(c, s, e, s');
    InvFacts(c, s);
    ErasingInstalled(c, s);
    EraseInv(c, s, e, s');
    InvFacts(c, s');
    InstalledEff(c, s.disk);
    EmptyEff(c, s'.disk);
    CleanReads(c, s);
  }

  // ---------- simulation ----------

  lemma BeginSim(c: Config, s: State, e: Step, s': State, a: Spec) returns (a': Spec)
    requires Sim(c, s, a) && Next(c, s, e, s') && Inv(c, s')
    requires e.BeginOp?
    ensures SpecNext(a, e, a') && Sim(c, s', a')
  {
    hide Inv;
    InvFacts(c, s);
    a' := a.(busy := a.busy + {e.p});
    SameHome(c, s, s');
    assert Busy(s') == a'.busy;
  }

  lemma OpSim(c: Config, s: State, e: Step, s': State, a: Spec)
    requires Sim(c, s, a) && Next(c, s, e, s') && Inv(c, s')
    requires e.LogCheck? || e.LogAppend? || e.Hold? || e.Unhold?
    ensures Sim(c, s', a)
  {
    hide Inv;
    InvFacts(c, s);
    OpRunning(c, s, e.p);
    assert s'.phase == s.phase && s'.committing == s.committing;
    SameHome(c, s, s');
    assert Busy(s') == Busy(s);
  }

  lemma ModifySim(c: Config, s: State, e: Step, s': State, a: Spec) returns (a': Spec)
    requires Sim(c, s, a) && Next(c, s, e, s') && Inv(c, s')
    requires e.Modify?
    ensures SpecNext(a, e, a') && Sim(c, s', a')
  {
    hide Inv;
    InvFacts(c, s);
    InvFacts(c, s');
    OpRunning(c, s, e.p);
    a' := a.(current := a.current[e.b := e.v]);
    assert Logical(c, s') == a'.current;
  }

  lemma EndOpSim(c: Config, s: State, e: Step, s': State, a: Spec) returns (a': Spec)
    requires Sim(c, s, a) && Next(c, s, e, s') && Inv(c, s')
    requires e.EndOp?
    ensures SpecNext(a, e, a') && Sim(c, s', a')
  {
    hide Inv, Logical, Effective;
    InvFacts(c, s);
    InvFacts(c, s');
    OpRunning(c, s, e.p);
    assert Busy(s') == a.busy - {e.p};
    SameHome(c, s, s');
    OpenZero(s'.procs);
    if s'.outstanding == 0 {
      assert Busy(s') == {};
      assert a.busy == {e.p};
      a' := a.(busy := {}, inflight := Some(a.current));
      if |s.lh| == 0 {
        EmptyEff(c, s.disk);
        CleanReads(c, s');
      }
    } else {
      if a.busy == {e.p} {
        forall p | 0 <= p < |s'.procs| ensures s'.procs[p].Idle? {
          assert p !in Busy(s');
        }
      }
      a' := a.(busy := a.busy - {e.p});
    }
  }

  lemma ReadSim(c: Config, s: State, e: Step, s': State, a: Spec) returns (a': Spec)
    requires Sim(c, s, a) && Next(c, s, e, s') && Inv(c, s')
    requires e.Load? || e.Evict? || e.Read?
    ensures SpecNext(a, e, a') && Sim(c, s', a')
  {
    hide Inv;
    InvFacts(c, s);
    InvFacts(c, s');
    if !e.Read? { CachingInv(c, s, e, s'); }
    assert Busy(s') == Busy(s) && Logical(c, s') == Logical(c, s);
    a' := a;
  }

  lemma SameHome(c: Config, s: State, s': State)
    requires |s.disk| == |s'.disk| == c.nblocks
    requires forall b :: c.IsHome(b) ==> ReadBlock(c, s', b) == ReadBlock(c, s, b)
    ensures Logical(c, s') == Logical(c, s)
  {
  }

  /** Disk-writing steps move only the phase. */
  lemma PhaseShape(c: Config, s: State, e: Step, s': State)
    requires Inv(c, s) && Next(c, s, e, s')
    requires e.CopyToLog? || e.CommitHead? || e.InstallOne? || e.EraseHead? || e.RecoverOne? || e.RecoverErase?
    ensures Busy(s') == Busy(s) && s'.committing == s.committing
    ensures s.committing == !(e.RecoverOne? || e.RecoverErase?)
    ensures BeforeCommitPoint(s) == (e.CopyToLog? || e.CommitHead?) && BeforeCommitPoint(s') == e.CopyToLog?
    ensures Booting(s) == !s.committing && Booting(s') == e.RecoverOne?
  {
    hide CacheInv, HoldInv, PhaseInv, Distinct, AllHome, HeaderOk;
    assert s'.procs == s.procs;
  }

  lemma CopySim(c: Config, s: State, s': State, a: Spec)
    requires Sim(c, s, a) && Fits(c, s) && Next(c, s, CopyToLog, s') && Inv(c, s')
    ensures Sim(c, s', a)
  {
    hide Inv, Next, Booting, Busy, Effective, Logical;
    PhaseShape(c, s, CopyToLog, s');
    InvFacts(c, s);
    InvFacts(c, s');
    CopyToLogInv(c, s, s');
    EmptyEff(c, s.disk);
    EmptyEff(c, s'.disk);
    SameHome(c, s, s');
  }

  lemma CommitHeadSim(c: Config, s: State, s': State, a: Spec)
    requires Sim(c, s, a) && Fits(c, s) && Next(c, s, CommitHead, s') && Inv(c, s')
    ensures Sim(c, s', a)
  {
    hide Inv, Next, Booting, BeforeCommitPoint, Busy, Effective, Logical;
    PhaseShape(c, s, CommitHead, s');
    InvFacts(c, s);
    InvFacts(c, s');
    CommitPoint(c, s, s');
  }

  lemma InstallOneSim(c: Config, s: State, s': State, a: Spec)
    requires Sim(c, s, a) && Next(c, s, InstallOne, s') && Inv(c, s')
    ensures Sim(c, s', a)
  {
    hide Inv, Next, Booting, BeforeCommitPoint, Busy, Effective, Logical;
    PhaseShape(c, s, InstallOne, s');
    InvFacts(c, s);
    InvFacts(c, s');
    InstallKeepsEff(c, s, InstallOne, s');
    InstallOneInv(c, s, s');
    SameHome(c, s, s');
  }

  lemma RecoverOneSim(c: Config, s: State, s': State, a: Spec)
    requires Sim(c, s, a) && Next(c, s, RecoverOne, s') && Inv(c, s')
    ensures Sim(c, s', a)
  {
    hide Inv, Next, Booting, BeforeCommitPoint, Busy, Effective, Logical;
    PhaseShape(c, s, RecoverOne, s');
    InvFacts(c, s);
    InvFacts(c, s');
    InstallKeepsEff(c, s, RecoverOne, s');
  }

  lemma EraseSim(c: Config, s: State, e: Step, s': State, a: Spec)
    requires Sim(c, s, a) && Next(c, s, e, s') && Inv(c, s')
    requires e.EraseHead? || e.RecoverErase?
    ensures Sim(c, s', a)
  {
    hide Inv, Next, Booting, BeforeCommitPoint, Busy, Effective, Logical;
    PhaseShape(c, s, e, s');
    InvFacts(c, s);
    InvFacts(c, s');
    EraseKeepsEff(c, s, e, s');
  }

  lemma CommitReturnSim(c: Config, s: State, s': State, a: Spec) returns (a': Spec)
    requires Sim(c, s, a) && Next(c, s, CommitReturn, s') && Inv(c, s')
    ensures SpecNext(a, CommitReturn, a') && Sim(c, s', a')
  {
    hide Inv;
    InvFacts(c, s);
    InvFacts(c, s');
    a' := a.(stable := a.inflight.value, inflight := None);
    assert Busy(s') == Busy(s);
    assert Logical(c, s') == Logical(c, s);
  }

  lemma BootSim(c: Config, s: State, e: Step, s': State, a: Spec) returns (a': Spec)
    requires Sim(c, s, a) && Next(c, s, e, s') && Inv(c, s')
    requires e.Crash? || e.ReadHead?
    ensures SpecNext(a, e, a') && Sim(c, s', a')
  {
    hide Inv;
    InvFacts(c, s);
    InvFacts(c, s');
    var now := Effective(c, s.disk);
    a' := if e.Crash? then Spec(now, None, now, {}) else a;
    assert Busy(s') == a'.busy;
  }

  /** One step of the log is one step, under the same label, of the atomic disk. */
  lemma Simulate(c: Config, s: State, e: Step, s': State, a: Spec) returns (a': Spec)
    requires Sim(c, s, a) && Fits(c, s) && Next(c, s, e, s')
    ensures SpecNext(a, e, a') && Sim(c, s', a')
  {
    hide Inv, Next, Sim;
    SimInv(c, s, a);
    StepInv(c, s, e, s');
    if e.BeginOp? {
      a' := BeginSim(c, s, e, s', a);
    } else if e.LogCheck? || e.LogAppend? || e.Hold? || e.Unhold? {
      OpSim(c, s, e, s', a);
      a' := a;
    } else if e.Modify? {
      a' := ModifySim(c, s, e, s', a);
    } else if e.EndOp? {
      a' := EndOpSim(c, s, e, s', a);
    } else if e.Load? || e.Evict? || e.Read? {
      a' := ReadSim(c, s, e, s', a);
    } else if e.CopyToLog? {
      CopySim(c, s, s', a);
      a' := a;
    } else if e.CommitHead? {
      CommitHeadSim(c, s, s', a);
      a' := a;
    } else if e.InstallOne? {
      InstallOneSim(c, s, s', a);
      a' := a;
    } else if e.RecoverOne? {
      RecoverOneSim(c, s, s', a);
      a' := a;
    } else if e.EraseHead? || e.RecoverErase? {
      EraseSim(c, s, e, s', a);
      a' := a;
    } else if e.CommitReturn? {
      a' := CommitReturnSim(c, s, s', a);
    } else {
      a' := BootSim(c, s, e, s', a);
    }
  }

  /** Recovering from disk `d` yields the last group known committed, or the group being committed. */
  ghost predicate CrashSafe(c: Config, d: seq<Block>, a: Spec) {
    && DiskOk(c, d)
    && var home := HomeOf(c, Recover(c, d));
       home == a.stable || (a.inflight.Some? && home == a.inflight.value)
  }

  lemma SimIsCrashSafe(c: Config, s: State, a: Spec)
    requires Sim(c, s, a)
    ensures CrashSafe(c, s.disk, a)
  {
    RecoverIsEffective(c, s.disk);
  }

  lemma AtBoot(c: Config, s: State) returns (a: Spec)
    requires Init(c, s)
    ensures a == Spec(HomeOf(c, Recover(c, s.disk)), None, HomeOf(c, Recover(c, s.disk)), {})
    ensures Sim(c, s, a) && CrashSafe(c, s.disk, a)
  {
    InitSim(c, s);
    RecoverIsEffective(c, s.disk);
    a := Spec(Effective(c, s.disk), None, Effective(c, s.disk), {});
    SimIsCrashSafe(c, s, a);
  }

  /**
   Crash atomicity over whole runs. Every run whose transactions fit the log area, crashes during
   commit and during recovery included, is a run of the atomic disk under the same labels: reads
   return the latest writes, a crash loses whole groups, and never one whose commit returned.
   At every point, recovery from the disk as it stands gives such a state.
   */
  lemma {:induction false} CrashAtomicity(c: Config, ss: seq<State>, es: seq<Step>) returns (specs: seq<Spec>)
    requires Run(c, ss, es) && AllFit(c, ss)
    ensures |specs| == |ss| && SpecRun(specs, es)
    ensures specs[0] == Spec(HomeOf(c, Recover(c, ss[0].disk)), None, HomeOf(c, Recover(c, ss[0].disk)), {})
    ensures forall i :: 0 <= i < |ss| ==> Sim(c, ss[i], specs[i]) && CrashSafe(c, ss[i].disk, specs[i])
    decreases |es|
  {
    hide *;
    RunShape(c, ss, es);
    if |es| == 0 {
      var a := AtBoot(c, ss[0]);
      SpecRunSingle(a, es);
      specs := [a];
    } else {
      var n := |es| - 1;
      RunPrefix(c, ss, es, n);
      specs := CrashAtomicity(c, ss[..n + 1], es[..n]);
      assert ss[..n + 1][n] == ss[n];
      var a := Simulate(c, ss[n], es[n], ss[n + 1], specs[n]);
      SimIsCrashSafe(c, ss[n + 1], a);
      SpecRunExtend(specs, es, a);
      specs := specs + [a];
    }
  }

  lemma RunShape(c: Config, ss: seq<State>, es: seq<Step>)
    requires Run(c, ss, es)
    ensures |ss| == |es| + 1 && Init(c, ss[0])
  {
    hide Next, Init;
  }

  ghost predicate AllFit(c: Config, ss: seq<State>) {
    forall i :: 0 <= i < |ss| ==> Fits(c, ss[i])
  }

  /** Every state of a run whose transactions fit the log area satisfies the invariant. */
  lemma {:induction false} RunInv(c: Config, ss: seq<State>, es: seq<Step>, n: nat)
    requires Run(c, ss, es) && AllFit(c, ss) && n < |ss|
    ensures Inv(c, ss[n]) && Fits(c, ss[n])
  {
    if n == 0 {
      InitInv(c, ss[0]);
    } else {
      hide Inv, Next;
      RunInv(c, ss, es, n - 1);
      assert ss[n - 1 + 1] == ss[n];
      StepInv(c, ss[n - 1], es[n - 1], ss[n]);
    }
  }

  lemma SpecRunSingle(a: Spec, es: seq<Step>)
    requires es == []
    ensures SpecRun([a], es)
  {
  }

  lemma RunPrefix(c: Config, ss: seq<State>, es: seq<Step>, n: nat)
    requires Run(c, ss, es) && AllFit(c, ss) && n == |es| - 1
    ensures Run(c, ss[..n + 1], es[..n]) && AllFit(c, ss[..n + 1]) && Next(c, ss[n], es[n], ss[n + 1]) && Fits(c, ss[n])
    ensures ss[..n + 1][0] == ss[0] && Init(c, ss[0])
  {
    hide Next, Init;
  }

  lemma SpecRunExtend(specs: seq<Spec>, es: seq<Step>, a: Spec)
    requires |specs| == |es| > 0
    requires SpecRun(specs, es[..|es| - 1]) && SpecNext(specs[|es| - 1], es[|es| - 1], a)
    ensures SpecRun(specs + [a], es)
  {
    hide SpecNext;
  }

  /**
   Write-ahead discipline: a step changes a home block on disk only if the on-disk header already
   names the block, and then to the contents the log holds for it.
   */
  lemma WriteAhead(c: Config, s: State, e: Step, s': State, b: int)
    requires Inv(c, s) && Fits(c, s) && Next(c, s, e, s') && c.IsHome(b) && s'.disk[b] != s.disk[b]
    ensures exists i ::
      0 <= i < s.disk[c.start][0] && Entries(s.disk[c.start])[i] == b && s'.disk[b] == s.disk[c.Slot(i)]
  {
    hide HoldInv, Admission;
    LogReads(c, s);
    assert c.InLog(c.Slot(s.phase.tail));
    assert Entries(s.disk[c.start])[s.phase.tail] == s.lh[s.phase.tail];
  }

  lemma PinKept(c: Config, s: State, e: Step, s': State, b: int)
    requires Next(c, s, e, s') && CacheInv(c, s) && Pinned(s, b) && !e.Crash? && !e.InstallOne?
    ensures b in s'.cache && Pinned(s', b)
  {
    hide HeaderWith, Entries, Idles, Admits, TooBig, CountOk;
    var i :| FirstPinned(s) <= i < |s.lh| && s.lh[i] == b;
    assert FirstPinned(s') <= i && i < |s'.lh| && s'.lh[i] == b;
  }

  lemma PinInstall(c: Config, s: State, s': State, b: int)
    requires Inv(c, s) && Next(c, s, InstallOne, s') && c.IsHome(b) && Pinned(s, b)
    ensures b in s'.cache && (Pinned(s', b) || s'.disk[b] == ReadBlock(c, s, b) == ReadBlock(c, s', b))
  {
    hide HoldInv, Admission, CacheInv, PhaseInv, HeaderWith, Entries, DiskOk, HeaderOk;
    InstallOneInv(c, s, s');
    PinnedHome(c, s, b);
    var i :| FirstPinned(s) <= i < |s.lh| && s.lh[i] == b;
    if b != s.lh[s.phase.tail] {
      assert FirstPinned(s') <= i && s'.lh[i] == b;
    }
  }

  lemma PinnedHome(c: Config, s: State, b: int)
    requires Inv(c, s) && Pinned(s, b)
    ensures b in s.cache
  {
    hide HoldInv, Admission, PhaseInv, DiskOk;
  }

  /** A pinned buffer stays cached and pinned until its contents are on disk in their home block. */
  lemma PinHolds(c: Config, s: State, e: Step, s': State, b: int)
    requires Inv(c, s) && Next(c, s, e, s') && c.IsHome(b) && Pinned(s, b) && !e.Crash?
    ensures b in s'.cache && (Pinned(s', b) || s'.disk[b] == ReadBlock(c, s, b) == ReadBlock(c, s', b))
  {
    hide Next, Pinned, HoldInv, Admission, CacheInv, PhaseInv;
    if e.InstallOne? {
      PinInstall(c, s, s', b);
    } else {
      PinKept(c, s, e, s', b);
    }
  }
}
