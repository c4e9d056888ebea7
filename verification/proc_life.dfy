/**
 The life of a process, slot by slot: which critical section of proc.c moves a slot from one state to
 another, and what that means for sleeping and killed processes over whole runs.
 */
module ProcLife {
  import opened ProcTable
  import opened KillMarks

  /** exit() on CPU `e.c` wakes the sleeper `p`: its parent in wait(), or init that is handed a zombie. */
  predicate ExitWakes(t: Table, e: Step, p: int)
    requires IsProc(t, p)
  {
    && e.Exit? && RunsOn(t, e.c)
    && (t.procs[p].chan == OnProc(t.procs[t.cpus[e.c]].parent) ||
        (t.procs[p].chan == OnProc(t.initproc) && HandsZombie(t.procs, t.cpus[e.c], |t.procs|)))
  }

  predicate Wakes(t: Table, e: Step, p: int)
    requires IsProc(t, p)
  {
    e == Wakeup(t.procs[p].chan) || Picks(t, e, p) || ExitWakes(t, e, p)
  }

  lemma SleeperExit(t: Table, e: Step, t': Table, p: int)
    requires Inv(t) && Next(t, e, t') && e.Exit? && IsProc(t, p) && t.procs[p].state.SLEEPING?
    ensures IsProc(t', p) && t'.procs[p].chan == t.procs[p].chan
    ensures t'.procs[p].state == if ExitWakes(t, e, p) then RUNNABLE else SLEEPING
  {
    hide CpusOk, PidsOk, ZombiesOk, SlotsOk, Next;
    ExitShape(t, e.c, t');
    OnCpuRuns(t, e.c);
  }

  /** A sleeper stays asleep on its channel until a wakeup on it, a kill() that picks it or an exit() that wakes it. */
  lemma SleeperMoves(t: Table, e: Step, t': Table, p: int)
    requires Inv(t) && Next(t, e, t') && IsProc(t, p) && t.procs[p].state.SLEEPING?
    ensures IsProc(t', p) && t'.procs[p].chan == t.procs[p].chan
    ensures t'.procs[p].state == if Wakes(t, e, p) then RUNNABLE else SLEEPING
  {
    hide CpusOk, PidsOk, ZombiesOk, SlotsOk;
    if e.Exit? {
      SleeperExit(t, e, t', p);
    } else if e.Abandon? || e.SetParent? || e.Launch? {
      SlotOf(t, e.cur);
    } else if RunsOnStep(e) {
      OnCpuRuns(t, e.c);
    }
  }

  ghost predicate HasChild(t: Table, p: int) {
    exists i :: IsProc(t, i) && t.procs[i].parent == p
  }

  ghost predicate HasZombie(t: Table, p: int) {
    exists i :: IsProc(t, i) && t.procs[i].parent == p && t.procs[i].state.ZOMBIE?
  }

  /**
   A running process loses its CPU by giving it up, by exiting, by sleeping on a channel, or in wait()
   when it has children, none of them a zombie, and has not been killed; wait() then sleeps on itself.
   */
  lemma RunnerMoves(t: Table, e: Step, t': Table, c: int)
    requires Inv(t) && Next(t, e, t') && RunsOn(t, c)
    ensures var p := t.cpus[c]; var waits := e == Wait(c) && HasChild(t, p) && !HasZombie(t, p) && !t.procs[p].killed;
      && t.procs[p].state.RUNNING? && IsProc(t', p) && |t'.cpus| == |t.cpus|
      && t'.procs[p].state == (if e == Yield(c) then RUNNABLE else if e == Exit(c) then ZOMBIE
                               else if (e.Sleep? && e.c == c) || waits then SLEEPING else RUNNING)
      && (e.Sleep? && e.c == c ==> t'.procs[p].chan == e.chan) && (waits ==> t'.procs[p].chan == OnProc(p))
      && (t'.cpus[c] == p <==> t'.procs[p].state.RUNNING?) && (t'.cpus[c] == p || t'.cpus[c] == NONE)
  {
    hide CpusOk, PidsOk, ZombiesOk, SlotsOk, AfterExit;
    OnCpuRuns(t, c);
    if e.Exit? {
      ExitShape(t, e.c, t');
      AfterExitIs(t, t.cpus[e.c], t.cpus[c]);
    } else if e.Abandon? || e.SetParent? || e.Launch? {
      SlotOf(t, e.cur);
    } else if e.Wait? && e.c == c {
      var z := ZombieChild(t, t.cpus[c]);
      assert z < |t.procs| ==> HasZombie(t, t.cpus[c]);
    }
  }

  /**
   The other states: a free slot is taken only by allocproc, which takes the first one; fork() launches
   its EMBRYO or gives it back; the scheduler alone runs a process, and only wait() frees a zombie.
   */
  lemma OtherMoves(t: Table, e: Step, t': Table, p: int)
    requires Inv(t) && Next(t, e, t') && IsProc(t, p) && !t.procs[p].state.SLEEPING? && !t.procs[p].state.RUNNING?
    ensures IsProc(t', p) && t'.procs[p].state == Rest(t, e, p)
    ensures e.Schedule? ==> t'.cpus == t.cpus[e.c := e.p] && t'.procs[e.p].chan == NoChan
  {
    hide Next, Rest, CpusOk, PidsOk, ZombiesOk, SlotsOk;
    if e.Exit? {
      OtherExit(t, e, t', p);
    } else if e.Abandon? || e.SetParent? || e.Launch? {
      OtherFork(t, e, t', p);
    } else if RunsOnStep(e) {
      OtherCpu(t, e, t', p);
    } else {
      OtherPlain(t, e, t', p);
    }
  }

  lemma OtherCpu(t: Table, e: Step, t': Table, p: int)
    requires Inv(t) && Next(t, e, t') && RunsOnStep(e) && IsProc(t, p)
    requires !t.procs[p].state.SLEEPING? && !t.procs[p].state.RUNNING?
    ensures IsProc(t', p) && t'.procs[p].state == Rest(t, e, p)
  {
    hide CpusOk, PidsOk, ZombiesOk, SlotsOk;
    OnCpuRuns(t, e.c);
  }

  lemma OtherPlain(t: Table, e: Step, t': Table, p: int)
    requires Next(t, e, t') && |t.creator| == |t.procs| && IsProc(t, p)
    requires e.Alloc? || e.Schedule? || e.Wakeup? || e.Kill? || e.Fault?
    requires !t.procs[p].state.SLEEPING? && !t.procs[p].state.RUNNING?
    ensures IsProc(t', p) && t'.procs[p].state == Rest(t, e, p)
    ensures e.Schedule? ==> t'.cpus == t.cpus[e.c := e.p] && t'.procs[e.p].chan == NoChan
  {
    TakesFirst(t, p);
  }

  lemma OtherExit(t: Table, e: Step, t': Table, p: int)
    requires Inv(t) && Next(t, e, t') && e.Exit? && IsProc(t, p)
    requires !t.procs[p].state.SLEEPING? && !t.procs[p].state.RUNNING?
    ensures IsProc(t', p) && t'.procs[p].state == Rest(t, e, p)
  {
    hide Next, CpusOk, PidsOk, ZombiesOk, SlotsOk, SlotOk, AfterExit;
    ExitShape(t, e.c, t');
    AfterExitIs(t, t.cpus[e.c], p);
    OnCpuRuns(t, e.c);
  }

  lemma OtherFork(t: Table, e: Step, t': Table, p: int)
    requires Inv(t) && Next(t, e, t') && (e.Abandon? || e.SetParent? || e.Launch?) && IsProc(t, p)
    requires !t.procs[p].state.SLEEPING? && !t.procs[p].state.RUNNING?
    ensures IsProc(t', p) && t'.procs[p].state == Rest(t, e, p)
  {
    hide CpusOk, PidsOk, ZombiesOk, SlotsOk, AfterExit;
    SlotOf(t, p);
    SlotOf(t, e.cur);
  }

  /** The state of a slot that is neither asleep nor running after step `e`. */
  ghost function Rest(t: Table, e: Step, p: int): PState
    requires IsProc(t, p) && |t.creator| == |t.procs|
  {
    match t.procs[p].state
    case UNUSED => if e.Alloc? && (forall i :: 0 <= i < p ==> InUse(t.procs[i])) then EMBRYO else UNUSED
    case EMBRYO =>
      if e == Launch(t.creator[p]) then RUNNABLE else if e == Abandon(t.creator[p]) then UNUSED else EMBRYO
    case RUNNABLE => if e.Schedule? && e.p == p then RUNNING else RUNNABLE
    case ZOMBIE => if ReapsSlot(t, e, p) then UNUSED else ZOMBIE
    case _ => t.procs[p].state
  }

  lemma TakesFirst(t: Table, p: int)
    requires IsProc(t, p)
    ensures t.procs[p].state.UNUSED? && (forall i :: 0 <= i < p ==> InUse(t.procs[i])) <==>
      First(t.procs, (x: Proc) => x.state.UNUSED?) == p
  {
    if t.procs[p].state.UNUSED? && forall i :: 0 <= i < p ==> InUse(t.procs[i]) {
      FirstIs(t.procs, (x: Proc) => x.state.UNUSED?, p);
    }
  }

  /**
   A pid comes from allocproc, one higher each time, and goes with the reaped zombie; a parent is set by
   fork(), passed to init by the parent's exit(), and cleared by wait().
   */
  lemma IdentityMoves(t: Table, e: Step, t': Table, p: int)
    requires Inv(t) && Next(t, e, t') && IsProc(t, p)
    ensures IsProc(t', p)
    ensures t'.procs[p].pid == if t.procs[p].state.UNUSED? && t'.procs[p].state.EMBRYO? then t.nextpid
                               else if ReapsSlot(t, e, p) then 0 else t.procs[p].pid
    ensures t'.nextpid == if e.Alloc? && (exists i :: IsProc(t, i) && t.procs[i].state.UNUSED?) then t.nextpid + 1
                          else t.nextpid
    ensures t'.procs[p].parent == if e.SetParent? && t.forking[e.cur] == p then e.cur
                                  else if e.Exit? && t.procs[p].parent == t.cpus[e.c] then t.initproc
                                  else if ReapsSlot(t, e, p) then NONE else t.procs[p].parent
  {
    hide CpusOk, PidsOk, ZombiesOk, SlotsOk, AfterExit;
    if e.Exit? {
      ExitShape(t, e.c, t');
      AfterExitIs(t, t.cpus[e.c], p);
    } else if e.Alloc? {
      assert (exists i :: IsProc(t, i) && t.procs[i].state.UNUSED?) ==>
        First(t.procs, (x: Proc) => x.state.UNUSED?) < |t.procs|;
    }
  }

  // ---------- over whole runs ----------

  /** A process asleep in wait() has not been killed, and only a process that slept keeps a channel. */
  predicate Attends(x: Proc) {
    && (x.state.SLEEPING? && x.chan.OnProc? ==> !x.killed)
    && (!x.state.SLEEPING? && !x.state.RUNNABLE? ==> x.chan == NoChan)
  }

  ghost predicate AllAttend(t: Table) {
    forall p :: IsProc(t, p) ==> Attends(t.procs[p])
  }

  lemma AttendsStep(t: Table, e: Step, t': Table, p: int)
    requires Inv(t) && AllAttend(t) && Next(t, e, t') && IsProc(t, p)
    ensures IsProc(t', p) && Attends(t'.procs[p])
  {
    hide CpusOk, PidsOk, ZombiesOk, SlotsOk, AfterExit;
    assert Attends(t.procs[p]);
    if e.Exit? {
      ExitShape(t, e.c, t');
      AfterExitIs(t, t.cpus[e.c], p);
      OnCpuRuns(t, e.c);
      assert Attends(t.procs[t.cpus[e.c]]);
    } else if e.Abandon? || e.SetParent? || e.Launch? {
      SlotOf(t, e.cur);
    } else if RunsOnStep(e) || e.Fault? {
      OnCpuRuns(t, e.c);
    }
  }

  lemma {:induction false} RunAttends(ts: seq<Table>, es: seq<Step>, n: nat)
    requires IsRun(ts, es) && n < |ts|
    ensures AllAttend(ts[n])
  {
    if n > 0 {
      hide Inv, Next, Init, Attends;
      RunAttends(ts, es, n - 1);
      RunInv(ts, es, n - 1);
      assert Next(ts[n - 1], es[n - 1], ts[n - 1 + 1]);
      SameSize(ts[n - 1], es[n - 1], ts[n]);
      forall p | IsProc(ts[n], p) ensures Attends(ts[n].procs[p]) {
        AttendsStep(ts[n - 1], es[n - 1], ts[n], p);
      }
    }
  }

  /**
   A kill() takes effect at once: the process it picks is marked and awake. In every reachable state a
   process asleep in wait() has not been killed.
   */
  lemma KilledAwake(ts: seq<Table>, es: seq<Step>, n: nat, p: int)
    requires IsRun(ts, es) && n < |ts| && IsProc(ts[n], p)
    ensures ts[n].procs[p].state.SLEEPING? && ts[n].procs[p].chan == OnProc(p) ==> !ts[n].procs[p].killed
    ensures n > 0 && Picks(ts[n - 1], es[n - 1], p) ==> ts[n].procs[p].killed && !ts[n].procs[p].state.SLEEPING?
  {
    RunAttends(ts, es, n);
    assert Attends(ts[n].procs[p]);
    if n > 0 {
      assert Next(ts[n - 1], es[n - 1], ts[n - 1 + 1]);
    }
  }

  /** Between two points of a run slot `p` is asleep throughout and nothing wakes it. */
  ghost predicate Undisturbed(ts: seq<Table>, es: seq<Step>, m: nat, n: nat, p: int) {
    && m <= n < |ts| == |es| + 1
    && forall k :: m <= k < n ==> IsProc(ts[k], p) && !Wakes(ts[k], es[k], p)
  }

  /** No spurious wakeup, and none lost: a sleeper is still asleep exactly if nothing that wakes it has happened. */
  lemma {:induction false} SleepsUntilWoken(ts: seq<Table>, es: seq<Step>, m: nat, n: nat, p: int)
    requires IsRun(ts, es) && m <= n < |ts| && IsProc(ts[m], p) && ts[m].procs[p].state.SLEEPING?
    ensures IsProc(ts[n], p)
    ensures (forall k :: m <= k <= n ==> IsProc(ts[k], p) && ts[k].procs[p].state.SLEEPING?) <==>
      Undisturbed(ts, es, m, n, p)
    ensures Undisturbed(ts, es, m, n, p) ==> ts[n].procs[p].chan == ts[m].procs[p].chan
    decreases n - m
  {
    hide Inv, Next, Init, Wakes;
    TableKept(ts, es, m, n, p);
    if m < n {
      SleepsUntilWoken(ts, es, m, n - 1, p);
      if Undisturbed(ts, es, m, n - 1, p) {
        RunInv(ts, es, n - 1);
        assert Next(ts[n - 1], es[n - 1], ts[n - 1 + 1]);
        SleeperMoves(ts[n - 1], es[n - 1], ts[n], p);
      }
    }
  }
}
