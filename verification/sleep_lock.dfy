/**
 Sleep locks over sleep/wakeup, one step for each access to shared state, in any interleaving.
 The spinlock `lk` of the sleep lock and ptable.lock are explicit, and so is the window in sleep()
 after `lk` is released and before the process is marked SLEEPING.
 */
module SleepLock {
  import opened Options

  /** Where a process is in acquiresleep (A), sleep (S), releasesleep (R), wakeup (W) or holdingsleep (H). */
  datatype Pc =
    | Outside | Owner                        // not in this code; holding the sleep lock
    | AWait | ATest | ATaken                 // acquire(lk); while(locked); locked = 1 done
    | SWantPt | SBoth | SWindow | SOff       // acquire(ptable); release(lk); about to sleep; off the CPU
    | SResumed | SWantLk                     // back, holding ptable.lock; acquire(lk) again
    | RWait | RClear | WWantPt | WScan | WDone | RDone
    | HWait | HTest | HDone(result: bool)

  /** Process state as the scheduler sees it; only a process off the CPU is Sleeping or Runnable. */
  datatype Run = Running | Runnable | Sleeping

  /** ptable.lock is held by a process or by a scheduler. */
  datatype Holder = Nobody | Proc(p: nat) | Scheduler

  datatype State = State(pc: seq<Pc>, run: seq<Run>, lk: Option<nat>, pt: Holder, locked: bool, pid: Option<nat>)

  predicate Init(s: State) {
    && |s.run| == |s.pc| && s.lk == None && s.pt == Nobody && !s.locked && s.pid == None
    && forall p :: 0 <= p < |s.pc| ==> s.pc[p] == Outside && s.run[p] == Running
  }

  function At(s: State, p: nat, c: Pc): State
    requires p < |s.pc|
  {
    s.(pc := s.pc[p := c])
  }

  /** wakeup1(lk): every process asleep on the lock becomes runnable. */
  function WakeAll(s: State): State
    requires |s.run| == |s.pc|
  {
    s.(run := seq(|s.run|, i requires 0 <= i < |s.run| => if s.run[i] == Sleeping then Runnable else s.run[i]))
  }

  /** A step of acquiresleep and of the sleep() inside it. */
  predicate AcquireStep(s: State, p: nat, s': State)
    requires |s.run| == |s.pc| && p < |s.pc|
  {
    match s.pc[p]
    case Outside => s' == At(s, p, AWait)
    case AWait => s.lk == None && s' == At(s, p, ATest).(lk := Some(p))
    case ATest =>
      if s.locked then s' == At(s, p, SWantPt)
      else s' == At(s, p, ATaken).(locked := true, pid := Some(p))
    case ATaken => s' == At(s, p, Owner).(lk := None)
    case SWantPt => s.pt == Nobody && s' == At(s, p, SBoth).(pt := Proc(p))
    case SBoth => s' == At(s, p, SWindow).(lk := None)
    case SWindow => s' == At(s, p, SOff).(run := s.run[p := Sleeping], pt := Scheduler)
    case SOff => s.pt == Scheduler && s.run[p] == Runnable &&
      s' == At(s, p, SResumed).(run := s.run[p := Running], pt := Proc(p))
    case SResumed => s' == At(s, p, SWantLk).(pt := Nobody)
    case SWantLk => s.lk == None && s' == At(s, p, ATest).(lk := Some(p))
    case _ => false
  }

  /** A step of releasesleep, of the wakeup() inside it, or of holdingsleep. */
  predicate ReleaseStep(s: State, p: nat, s': State)
    requires |s.run| == |s.pc| && p < |s.pc|
  {
    match s.pc[p]
    case Owner => s' == At(s, p, RWait) || s' == At(s, p, HWait)
    case RWait => s.lk == None && s' == At(s, p, RClear).(lk := Some(p))
    case RClear => s' == At(s, p, WWantPt).(locked := false, pid := None)
    case WWantPt => s.pt == Nobody && s' == At(s, p, WScan).(pt := Proc(p))
    case WScan => s' == At(WakeAll(s), p, WDone)
    case WDone => s' == At(s, p, RDone).(pt := Nobody)
    case RDone => s' == At(s, p, Outside).(lk := None)
    case Outside => s' == At(s, p, HWait)
    case HWait => s.lk == None && s' == At(s, p, HTest).(lk := Some(p))
    case HTest => s' == At(s, p, HDone(s.locked && s.pid == Some(p))).(lk := None)
    case HDone(r) => s' == At(s, p, if r then Owner else Outside)
    case _ => false
  }

  /** One step of process `p`. */
  predicate Step(s: State, p: nat, s': State)
    requires |s.run| == |s.pc| && p < |s.pc|
  {
    AcquireStep(s, p, s') || ReleaseStep(s, p, s')
  }

  /** A step of a scheduler, or of kill() waking process `p`. */
  predicate OtherStep(s: State, p: nat, s': State)
    requires |s.run| == |s.pc| && p < |s.pc|
  {
    || (s.pt == Nobody && s' == s.(pt := Scheduler))
    || (s.pt == Scheduler && s' == s.(pt := Nobody))
    || (s.pt == Nobody && s.run[p] == Sleeping && s' == s.(run := s.run[p := Runnable]))
  }

  predicate Next(s: State, s': State) {
    |s.run| == |s.pc| && exists p: nat :: p < |s.pc| && (Step(s, p, s') || OtherStep(s, p, s'))
  }

  // ---------- invariant ----------

  predicate HoldsLk(c: Pc) {
    c.ATest? || c.ATaken? || c.SWantPt? || c.SBoth? || c.RClear? || c.WWantPt? || c.WScan? || c.WDone? || c.RDone? ||
      c.HTest?
  }

  predicate HoldsPt(c: Pc) {
    c.SBoth? || c.SWindow? || c.SResumed? || c.WScan? || c.WDone?
  }

  /** The lock was released and its wakeup is still to come. */
  predicate WakePending(c: Pc) {
    c.WWantPt? || c.WScan?
  }

  ghost predicate Inv(s: State) {
    && |s.run| == |s.pc|
    && (forall p :: 0 <= p < |s.pc| ==> Locks(s, p))
    && (s.locked <==> s.pid.Some?)
    && (s.pid.Some? ==> s.pid.value < |s.pc|)
    && (forall p :: 0 <= p < |s.pc| ==> Owns(s, p))
    && (forall p :: 0 <= p < |s.pc| ==> NoLostWakeup(s, p))
  }

  /** The program counters agree with the spinlocks and with the scheduler's view. */
  predicate Locks(s: State, p: nat)
    requires p < |s.pc| == |s.run|
  {
    && (HoldsLk(s.pc[p]) <==> s.lk == Some(p))
    && (HoldsPt(s.pc[p]) <==> s.pt == Proc(p))
    && (s.run[p] != Running <==> s.pc[p].SOff?)
  }

  /** Being past acquiresleep and before the release agrees with `locked` and `pid`. */
  predicate Owns(s: State, p: nat)
    requires p < |s.pc|
  {
    var c := s.pc[p];
    && (c.Owner? || c.ATaken? || c.RWait? || c.RClear? ==> s.pid == Some(p))
    && (s.pid == Some(p) ==> c.Owner? || c.ATaken? || c.RWait? || c.RClear? || c.HWait? || c.HTest? || c == HDone(true))
    && (c.HDone? ==> (c.result <==> s.pid == Some(p)))
  }

  /** A process that is asleep or committed to sleep will be woken: the lock is taken, or its wakeup is pending. */
  predicate NoLostWakeup(s: State, p: nat)
    requires p < |s.pc| == |s.run|
  {
    && (s.pc[p].SWantPt? || s.pc[p].SBoth? ==> s.locked)
    && (s.pc[p].SWindow? || s.run[p] == Sleeping ==>
         s.locked || (s.lk.Some? && s.lk.value < |s.pc| && WakePending(s.pc[s.lk.value])))
  }

  lemma InitInv(s: State)
    requires Init(s)
    ensures Inv(s)
  {
  }

  lemma AcquireSelf(s: State, p: nat, s': State)
    requires |s.run| == |s.pc| && p < |s.pc| && Locks(s, p) && AcquireStep(s, p, s')
    ensures |s'.run| == |s'.pc| == |s.pc| && Locks(s', p)
  {
  }

  lemma ReleaseSelf(s: State, p: nat, s': State)
    requires |s.run| == |s.pc| && p < |s.pc| && Locks(s, p) && ReleaseStep(s, p, s')
    ensures |s'.run| == |s'.pc| == |s.pc| && Locks(s', p)
  {
  }

  /** A step takes or gives up a spinlock only for the process that takes it, and moves no other program counter. */
  lemma StepFrame(s: State, p: nat, s': State, q: nat)
    requires |s.run| == |s.pc| && p < |s.pc| && q < |s.pc| && q != p && Step(s, p, s') && Locks(s, p)
    ensures |s'.run| == |s'.pc| == |s.pc| && s'.pc[q] == s.pc[q] && (s'.run[q] == Running <==> s.run[q] == Running)
    ensures (s'.lk == Some(q) <==> s.lk == Some(q)) && (s'.pt == Proc(q) <==> s.pt == Proc(q))
  {
  }

  lemma StepLocks(s: State, p: nat, s': State, q: nat)
    requires |s.run| == |s.pc| && p < |s.pc| && q < |s.pc| && Locks(s, p) && Locks(s, q) && Step(s, p, s')
    ensures |s'.run| == |s'.pc| == |s.pc| && Locks(s', q)
  {
    hide AcquireStep, ReleaseStep;
    if q != p {
      StepFrame(s, p, s', q);
    } else if AcquireStep(s, p, s') {
      AcquireSelf(s, p, s');
    } else {
      ReleaseSelf(s, p, s');
    }
  }

  lemma AcquireOwns(s: State, p: nat, s': State, q: nat)
    requires |s.run| == |s.pc| && p < |s.pc| && q < |s.pc| && Owns(s, p) && Owns(s, q) && AcquireStep(s, p, s')
    requires (s.locked <==> s.pid.Some?) && (s.pid.Some? ==> s.pid.value < |s.pc|)
    ensures |s'.pc| == |s.pc| && Owns(s', q)
    ensures (s'.locked <==> s'.pid.Some?) && (s'.pid.Some? ==> s'.pid.value < |s'.pc|)
  {
  }

  lemma ReleaseOwns(s: State, p: nat, s': State, q: nat)
    requires |s.run| == |s.pc| && p < |s.pc| && q < |s.pc| && Owns(s, p) && Owns(s, q) && ReleaseStep(s, p, s')
    requires (s.locked <==> s.pid.Some?) && (s.pid.Some? ==> s.pid.value < |s.pc|)
    ensures |s'.pc| == |s.pc| && Owns(s', q)
    ensures (s'.locked <==> s'.pid.Some?) && (s'.pid.Some? ==> s'.pid.value < |s'.pc|)
  {
  }

  lemma StepWakes(s: State, p: nat, s': State, q: nat)
    requires |s.run| == |s.pc| && p < |s.pc| && q < |s.pc| && NoLostWakeup(s, p) && NoLostWakeup(s, q) && Step(s, p, s')
    requires Locks(s, p) && Locks(s, q) && Owns(s, p) && (s.locked <==> s.pid.Some?)
    ensures |s'.run| == |s'.pc| == |s.pc| && NoLostWakeup(s', q)
  {
  }

  lemma StepInv(s: State, p: nat, s': State)
    requires Inv(s) && p < |s.pc| && Step(s, p, s')
    ensures Inv(s')
  {
    hide AcquireStep, ReleaseStep, Owns, NoLostWakeup, Locks;
    StepLocks(s, p, s', p);
    if AcquireStep(s, p, s') { AcquireOwns(s, p, s', p); } else { ReleaseOwns(s, p, s', p); }
    forall q | 0 <= q < |s'.pc| ensures Locks(s', q) && Owns(s', q) && NoLostWakeup(s', q) {
      StepLocks(s, p, s', q);
      if AcquireStep(s, p, s') { AcquireOwns(s, p, s', q); } else { ReleaseOwns(s, p, s', q); }
      StepWakes(s, p, s', q);
    }
  }

  lemma OtherStepInv(s: State, p: nat, s': State)
    requires Inv(s) && p < |s.pc| && OtherStep(s, p, s')
    ensures Inv(s')
  {
    forall q | 0 <= q < |s'.pc| ensures Locks(s', q) && Owns(s', q) && NoLostWakeup(s', q) {
      assert Locks(s, q) && Owns(s, q) && NoLostWakeup(s, q);
    }
  }

  // ---------- over whole runs ----------

  predicate IsRun(ss: seq<State>) {
    |ss| > 0 && Init(ss[0]) && forall i :: 0 < i < |ss| ==> Next(ss[i - 1], ss[i])
  }

  lemma {:induction false} RunInv(ss: seq<State>, n: nat)
    requires IsRun(ss) && n < |ss|
    ensures Inv(ss[n])
  {
    hide Inv, Step, OtherStep;
    if n == 0 {
      InitInv(ss[0]);
    } else {
      RunInv(ss, n - 1);
      assert Next(ss[n - 1], ss[n]);
      var p: nat :| p < |ss[n - 1].pc| && (Step(ss[n - 1], p, ss[n]) || OtherStep(ss[n - 1], p, ss[n]));
      if Step(ss[n - 1], p, ss[n]) { StepInv(ss[n - 1], p, ss[n]); } else { OtherStepInv(ss[n - 1], p, ss[n]); }
    }
  }

  /** Process `p` has returned from acquiresleep and not yet released. */
  predicate InCritical(c: Pc) {
    c.Owner? || c.RWait? || c.RClear?
  }

  /**
   In every reachable state: at most one process holds the sleep lock; holdingsleep answers true exactly
   to the holder; and if the lock is free and its spinlock is free, no process sleeps on it and none is
   in the window about to sleep, so no wakeup can have been lost.
   */
  lemma SleepLockSafe(ss: seq<State>, n: nat, p: nat, q: nat)
    requires IsRun(ss) && n < |ss| && p < |ss[n].pc| && q < |ss[n].pc|
    ensures InCritical(ss[n].pc[p]) && InCritical(ss[n].pc[q]) ==> p == q
    ensures InCritical(ss[n].pc[p]) ==> ss[n].locked && ss[n].pid == Some(p)
    ensures ss[n].pc[p].HDone? ==> (ss[n].pc[p].result <==> ss[n].pid == Some(p))
    ensures |ss[n].run| == |ss[n].pc|
    ensures !ss[n].locked && ss[n].lk == None ==> ss[n].run[p] != Sleeping && !ss[n].pc[p].SWindow?
  {
    RunInv(ss, n);
    assert Owns(ss[n], p) && Owns(ss[n], q) && NoLostWakeup(ss[n], p);
  }

  /**
   When a wakeup runs, no process is between releasing `lk` in sleep() and being marked SLEEPING;
   afterwards none is asleep.
   */
  lemma WakeupFindsSleepers(ss: seq<State>, n: nat, p: nat, q: nat)
    requires IsRun(ss) && n + 1 < |ss| && p < |ss[n].pc| && q < |ss[n].pc|
    requires ss[n].pc[p].WScan? && |ss[n].run| == |ss[n].pc| && Step(ss[n], p, ss[n + 1])
    ensures !ss[n].pc[q].SWindow? && |ss[n + 1].run| == |ss[n].pc| && ss[n + 1].run[q] != Sleeping
  {
    RunInv(ss, n);
    assert Locks(ss[n], p) && Locks(ss[n], q);
  }
}
