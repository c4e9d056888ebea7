/**
 Which processes are born killed. A fault in user space marks the process that runs, and kill() whatever
 slot has the pid. kill() does not look at the slot's state and allocproc() never clears the mark, so a
 mark set on a free slot stays for the next process; this is exactly when it does.
 */
module KillMarks {
  import opened ProcTable

  /** kill() picks slot `q`: the first one with the pid, whatever its state. */
  predicate Picks(t: Table, e: Step, q: int) {
    e.Kill? && IsProc(t, q) && First(t.procs, (x: Proc) => x.pid == e.pid) == q
  }

  /** The process in slot `q` traps in user space. */
  predicate Faults(t: Table, e: Step, q: int) {
    e.Fault? && RunsOn(t, e.c) && t.cpus[e.c] == q
  }

  /** wait() reaps the child in slot `q`. */
  predicate ReapsSlot(t: Table, e: Step, q: int) {
    e.Wait? && RunsOn(t, e.c) && IsProc(t, q) && ZombieChild(t, t.cpus[e.c]) == q
  }

  /** fork() gives back the slot `q` it had allocated. */
  predicate AbandonsSlot(t: Table, e: Step, q: int) {
    e.Abandon? && Forks(t, e.cur) && t.forking[e.cur] == q
  }

  /** A kill() that picks the slot or a fault sets the mark, wait() clears it with the slot, and otherwise it stays. */
  lemma MarkMoves(t: Table, e: Step, t': Table, q: int)
    requires Inv(t) && Next(t, e, t') && IsProc(t, q)
    ensures IsProc(t', q)
    ensures t'.procs[q].killed <==> Picks(t, e, q) || Faults(t, e, q) || (t.procs[q].killed && !ReapsSlot(t, e, q))
  {
    hide CpusOk, PidsOk, ZombiesOk, SlotsOk, AfterExit;
    if e.Exit? {
      ExitShape(t, e.c, t');
      AfterExitIs(t, t.cpus[e.c], q);
    }
  }

  /** Slot `q` was picked by a kill() at step `m`, or faulted there, and has not been reaped in the steps up to `n`. */
  ghost predicate MarkedAt(ts: seq<Table>, es: seq<Step>, m: nat, n: nat, q: int) {
    && m < n <= |es| <= |ts| && (Picks(ts[m], es[m], q) || Faults(ts[m], es[m], q))
    && forall k :: m < k < n ==> !ReapsSlot(ts[k], es[k], q)
  }

  /** A slot is killed exactly if a kill() picked it or it faulted since it was last reaped, or since the start. */
  lemma {:induction false} KilledSince(ts: seq<Table>, es: seq<Step>, n: nat, q: int)
    requires IsRun(ts, es) && n < |ts| && IsProc(ts[0], q)
    ensures IsProc(ts[n], q) && (ts[n].procs[q].killed <==> exists m: nat :: MarkedAt(ts, es, m, n, q))
  {
    hide Inv, Next, Picks, Faults, ReapsSlot;
    if n > 0 {
      hide Init;
      KilledSince(ts, es, n - 1, q);
      RunInv(ts, es, n - 1);
      assert Next(ts[n - 1], es[n - 1], ts[n - 1 + 1]);
      MarkMoves(ts[n - 1], es[n - 1], ts[n], q);
      MarkedStep(ts, es, n - 1, n, q);
    }
  }

  lemma MarkedStep(ts: seq<Table>, es: seq<Step>, l: nat, n: nat, q: int)
    requires n == l + 1 && n <= |es| <= |ts|
    ensures (exists m: nat :: MarkedAt(ts, es, m, n, q)) <==>
      Picks(ts[l], es[l], q) || Faults(ts[l], es[l], q) ||
      (!ReapsSlot(ts[l], es[l], q) && exists m: nat :: MarkedAt(ts, es, m, l, q))
  {
    hide Picks, Faults, ReapsSlot;
    if m: nat :| MarkedAt(ts, es, m, n, q) {
      if m < l {
        assert MarkedAt(ts, es, m, l, q);
      }
    }
    if Picks(ts[l], es[l], q) || Faults(ts[l], es[l], q) {
      assert MarkedAt(ts, es, l, n, q);
    } else if !ReapsSlot(ts[l], es[l], q) {
      if m: nat :| MarkedAt(ts, es, m, l, q) {
        assert MarkedAt(ts, es, m, n, q);
      }
    }
  }

  /** A started process leaves the table only by being reaped, and an EMBRYO also by being abandoned. */
  lemma LeavesTable(t: Table, e: Step, t': Table, q: int)
    requires Inv(t) && Next(t, e, t') && IsProc(t, q) && InUse(t.procs[q]) && !ReapsSlot(t, e, q)
    ensures IsProc(t', q)
    ensures !t.procs[q].state.EMBRYO? ==> InUse(t'.procs[q]) && !t'.procs[q].state.EMBRYO?
    ensures t'.procs[q].state.UNUSED? ==> AbandonsSlot(t, e, q)
  {
    hide CpusOk, PidsOk, ZombiesOk, SlotsOk, AfterExit;
    if e.Exit? {
      ExitShape(t, e.c, t');
      AfterExitIs(t, t.cpus[e.c], q);
    } else if e.Abandon? || e.SetParent? || e.Launch? {
      SlotOf(t, e.cur);
    } else if RunsOnStep(e) {
      OnCpuRuns(t, e.c);
    }
  }

  /** From a slot in use at `m` to a free one at `n` without a reap: it was an EMBRYO and was abandoned between. */
  lemma {:induction false} FreedUnreaped(ts: seq<Table>, es: seq<Step>, m: nat, n: nat, q: int)
    requires IsRun(ts, es) && m <= n < |ts| && IsProc(ts[m], q) && InUse(ts[m].procs[q])
    requires forall k :: m <= k < n ==> !ReapsSlot(ts[k], es[k], q)
    ensures IsProc(ts[n], q)
    ensures !ts[m].procs[q].state.EMBRYO? ==> InUse(ts[n].procs[q]) && !ts[n].procs[q].state.EMBRYO?
    ensures ts[n].procs[q].state.UNUSED? ==> exists k :: m <= k < n && AbandonsSlot(ts[k], es[k], q)
    decreases n - m
  {
    hide Inv, Next, Init, ReapsSlot, AbandonsSlot;
    if m < n {
      RunInv(ts, es, m);
      assert Next(ts[m], es[m], ts[m + 1]);
      LeavesTable(ts[m], es[m], ts[m + 1], q);
      if InUse(ts[m + 1].procs[q]) {
        FreedUnreaped(ts, es, m + 1, n, q);
      } else {
        assert AbandonsSlot(ts[m], es[m], q);
        TableKept(ts, es, m + 1, n, q);
      }
    }
  }

  lemma SameSize(t: Table, e: Step, t': Table)
    requires Next(t, e, t')
    ensures |t'.procs| == |t.procs|
  {
  }

  lemma {:induction false} TableKept(ts: seq<Table>, es: seq<Step>, m: nat, n: nat, q: int)
    requires IsRun(ts, es) && m <= n < |ts| && IsProc(ts[m], q)
    ensures IsProc(ts[n], q)
    decreases n - m
  {
    hide Inv, Init, Next;
    if m < n {
      assert Next(ts[m], es[m], ts[m + 1]);
      SameSize(ts[m], es[m], ts[m + 1]);
      TableKept(ts, es, m + 1, n, q);
    }
  }

  /** kill() at step `m` hit slot `q` while it was free, or while it was an EMBRYO that fork() then gave back. */
  ghost predicate HitWhileFree(ts: seq<Table>, es: seq<Step>, m: nat, n: nat, q: int) {
    && MarkedAt(ts, es, m, n, q) && Picks(ts[m], es[m], q) && IsProc(ts[m], q)
    && (ts[m].procs[q].state.UNUSED? ||
        (ts[m].procs[q].state.EMBRYO? && exists k :: m < k < n && AbandonsSlot(ts[k], es[k], q)))
  }

  /**
   A free slot is marked killed exactly if, since it was last reaped, a kill() hit it while free or
   being abandoned.
   */
  lemma FreeSlotKilled(ts: seq<Table>, es: seq<Step>, n: nat, q: int)
    requires IsRun(ts, es) && n < |ts| && IsProc(ts[0], q)
    ensures IsProc(ts[n], q)
    ensures ts[n].procs[q].state.UNUSED? ==> (ts[n].procs[q].killed <==> exists m: nat :: HitWhileFree(ts, es, m, n, q))
  {
    hide Inv, Next, Init, Picks, Faults, ReapsSlot, AbandonsSlot;
    KilledSince(ts, es, n, q);
    if ts[n].procs[q].state.UNUSED? && ts[n].procs[q].killed {
      var m: nat :| MarkedAt(ts, es, m, n, q);
      KillFrees(ts, es, m, n, q);
      assert HitWhileFree(ts, es, m, n, q);
    }
    if m: nat :| HitWhileFree(ts, es, m, n, q) {
      assert MarkedAt(ts, es, m, n, q);
    }
  }

  lemma KillFrees(ts: seq<Table>, es: seq<Step>, m: nat, n: nat, q: int)
    requires IsRun(ts, es) && n < |ts| && MarkedAt(ts, es, m, n, q) && IsProc(ts[n], q) && ts[n].procs[q].state.UNUSED?
    ensures HitWhileFree(ts, es, m, n, q)
  {
    hide Inv, Init, ReapsSlot, AbandonsSlot, Picks, Faults, Next;
    RunInv(ts, es, m);
    MarkIs(ts[m], es[m], q);
    if InUse(ts[m].procs[q]) {
      FreedUnreaped(ts, es, m, n, q);
      var k :| m <= k < n && AbandonsSlot(ts[k], es[k], q);
    }
  }

  /** A step that marks a slot neither reaps it nor gives it back, and a fault is of a started process. */
  lemma MarkIs(t: Table, e: Step, q: int)
    requires Inv(t) && (Picks(t, e, q) || Faults(t, e, q))
    ensures !ReapsSlot(t, e, q) && !AbandonsSlot(t, e, q) && IsProc(t, q)
    ensures Faults(t, e, q) ==> InUse(t.procs[q]) && !t.procs[q].state.EMBRYO?
  {
    hide PidsOk, ZombiesOk, SlotsOk;
    if Faults(t, e, q) {
      OnCpuRuns(t, e.c);
    }
  }

  /** allocproc() hands out a killed process exactly when the slot was hit so while it was free. */
  lemma BornKilledExactly(ts: seq<Table>, es: seq<Step>, n: nat, cur: int)
    requires IsRun(ts, es) && n < |es| && es[n] == Alloc(cur) && ts[n + 1] != ts[n]
    ensures IsProc(ts[n + 1], cur) && |ts[n + 1].forking| == |ts[n + 1].procs|
    ensures var np := ts[n + 1].forking[cur];
      && IsProc(ts[n + 1], np) && ts[n + 1].procs[np].state.EMBRYO?
      && (ts[n + 1].procs[np].killed <==> exists m: nat :: HitWhileFree(ts, es, m, n, np))
  {
    hide Inv, Init, Picks, ReapsSlot, AbandonsSlot, HitWhileFree;
    assert Next(ts[n], es[n], ts[n + 1]);
    var np := First(ts[n].procs, (x: Proc) => x.state.UNUSED?);
    TableSize(ts, es, n);
    FreeSlotKilled(ts, es, n, np);
  }

  lemma {:induction false} TableSize(ts: seq<Table>, es: seq<Step>, n: nat)
    requires IsRun(ts, es) && n < |ts|
    ensures |ts[n].procs| == |ts[0].procs|
  {
    hide Inv, Init, Next;
    if n > 0 {
      TableSize(ts, es, n - 1);
      assert Next(ts[n - 1], es[n - 1], ts[n - 1 + 1]);
      SameSize(ts[n - 1], es[n - 1], ts[n]);
    }
  }

  // ---------- three runs in which a process is born killed ----------

  /** Init in slot 0 of a table with one CPU and a free slot. */
  function Booted(): Table {
    Table([Proc(RUNNABLE, 1, NONE, NoChan, false), Proc(UNUSED, 0, NONE, NoChan, false)],
          [NONE], 0, 2, [NONE, NONE], [NONE, NONE], [NONE, NONE])
  }

  /** init runs and slot 1 of its table is `x`; `forking` is what init has allocated. */
  function Running(x: Proc, nextpid: int, forking: int): Table {
    Table([Proc(RUNNING, 1, NONE, NoChan, false), x], [0], 0, nextpid,
          [forking, NONE], [NONE, if nextpid == 2 then NONE else 0], [0, NONE])
  }

  lemma AllocOne(x: Proc, nextpid: int)
    requires x.state.UNUSED? && nextpid >= 2
    ensures Next(Running(x, nextpid, NONE), Alloc(0), Running(x.(state := EMBRYO, pid := nextpid), nextpid + 1, 1))
  {
    FirstIs(Running(x, nextpid, NONE).procs, (y: Proc) => y.state.UNUSED?, 1);
  }

  lemma KillOne(x: Proc, nextpid: int, forking: int)
    requires x.pid != 1 && !x.state.SLEEPING?
    ensures Next(Running(x, nextpid, forking), Kill(x.pid), Running(x.(killed := true), nextpid, forking))
  {
    FirstIs(Running(x, nextpid, forking).procs, (y: Proc) => y.pid == x.pid, 1);
  }

  lemma AbandonOne(x: Proc, nextpid: int)
    requires x.parent == NONE
    ensures Next(Running(x, nextpid, 1), Abandon(0), Running(x.(state := UNUSED), nextpid, NONE))
  {
  }

  /** kill(0) hits a slot that was never used. */
  lemma BornKilledByZero() returns (ts: seq<Table>, es: seq<Step>)
    ensures IsRun(ts, es) && es == [Schedule(0, 0), Kill(0), Alloc(0)]
    ensures |ts[3].procs| == 2 && ts[3].procs[1].state.EMBRYO? && ts[3].procs[1].killed
  {
    var x := Proc(UNUSED, 0, NONE, NoChan, false);
    es := [Schedule(0, 0), Kill(0), Alloc(0)];
    ts := [Booted(), Running(x, 2, NONE), Running(x.(killed := true), 2, NONE),
           Running(Proc(EMBRYO, 2, NONE, NoChan, true), 3, 1)];
    KillOne(x, 2, NONE);
    AllocOne(x.(killed := true), 2);
  }

  /** kill() hits the EMBRYO of a fork() that then fails. */
  lemma BornKilledByFork() returns (ts: seq<Table>, es: seq<Step>)
    ensures IsRun(ts, es) && es == [Schedule(0, 0), Alloc(0), Kill(2), Abandon(0), Alloc(0)]
    ensures |ts[5].procs| == 2 && ts[5].procs[1].state.EMBRYO? && ts[5].procs[1].killed
  {
    var x := Proc(UNUSED, 0, NONE, NoChan, false);
    var y := Proc(EMBRYO, 2, NONE, NoChan, false);
    es := [Schedule(0, 0), Alloc(0), Kill(2), Abandon(0), Alloc(0)];
    ts := [Booted(), Running(x, 2, NONE), Running(y, 3, 1), Running(y.(killed := true), 3, 1),
           Running(Proc(UNUSED, 2, NONE, NoChan, true), 3, NONE), Running(Proc(EMBRYO, 3, NONE, NoChan, true), 4, 1)];
    AllocOne(x, 2);
    KillOne(y, 3, 1);
    AbandonOne(y.(killed := true), 3);
    AllocOne(Proc(UNUSED, 2, NONE, NoChan, true), 3);
  }

  /** kill() hits the pid a failed fork() left in its slot. */
  lemma BornKilledByStalePid() returns (ts: seq<Table>, es: seq<Step>)
    ensures IsRun(ts, es) && es == [Schedule(0, 0), Alloc(0), Abandon(0), Kill(2), Alloc(0)]
    ensures |ts[5].procs| == 2 && ts[5].procs[1].state.EMBRYO? && ts[5].procs[1].killed
  {
    var x := Proc(UNUSED, 0, NONE, NoChan, false);
    var y := Proc(EMBRYO, 2, NONE, NoChan, false);
    var z := Proc(UNUSED, 2, NONE, NoChan, false);
    es := [Schedule(0, 0), Alloc(0), Abandon(0), Kill(2), Alloc(0)];
    ts := [Booted(), Running(x, 2, NONE), Running(y, 3, 1), Running(z, 3, NONE),
           Running(z.(killed := true), 3, NONE), Running(Proc(EMBRYO, 3, NONE, NoChan, true), 4, 1)];
    AllocOne(x, 2);
    AbandonOne(y, 3);
    KillOne(z, 3, NONE);
    AllocOne(z.(killed := true), 3);
  }
}
