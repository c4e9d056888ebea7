/**
 The process table of proc.c: one step for each stretch of code under ptable.lock (and for the few
 unlocked stores of fork), in any order. `forking` is the slot a process inside fork() has allocated;
 `creator` and `on` record who allocated an EMBRYO slot and which CPU a process runs on.
 */
module ProcTable {
  datatype PState = UNUSED | EMBRYO | SLEEPING | RUNNABLE | RUNNING | ZOMBIE

  /** sleep() channels: the address of a process, or any other address. */
  datatype Chan = NoChan | OnProc(p: int) | OnOther(c: int)

  datatype Proc = Proc(state: PState, pid: int, parent: int, chan: Chan, killed: bool)

  const NONE := -1

  datatype Table = Table(
    procs: seq<Proc>, cpus: seq<int>, initproc: int, nextpid: int,
    forking: seq<int>, creator: seq<int>, on: seq<int>)

  predicate IsProc(t: Table, p: int) {
    0 <= p < |t.procs|
  }

  predicate Live(x: Proc) {
    x.state.SLEEPING? || x.state.RUNNABLE? || x.state.RUNNING?
  }

  predicate InUse(x: Proc) {
    !x.state.UNUSED?
  }

  // ---------- the steps ----------

  function Woken(x: Proc, chan: Chan): Proc {
    if x.state.SLEEPING? && x.chan == chan then x.(state := RUNNABLE) else x
  }

  /** wakeup1 */
  function WakeAll(procs: seq<Proc>, chan: Chan): (r: seq<Proc>)
    ensures |r| == |procs| && forall i :: 0 <= i < |r| ==> r[i] == Woken(procs[i], chan)
  {
    seq(|procs|, i requires 0 <= i < |procs| => Woken(procs[i], chan))
  }

  predicate HandsZombie(procs: seq<Proc>, cur: int, k: nat)
    requires k <= |procs|
  {
    exists z :: 0 <= z < k && procs[z].parent == cur && procs[z].state.ZOMBIE?
  }

  /** exit()'s loop after `k` slots: children go to init, and init is woken once a zombie is handed over. */
  function ReparentedTo(procs: seq<Proc>, cur: int, init: int, k: nat): (r: seq<Proc>)
    requires k <= |procs|
    ensures |r| == |procs|
  {
    var moved := seq(|procs|, i requires 0 <= i < |procs| =>
      if i < k && procs[i].parent == cur then procs[i].(parent := init) else procs[i]);
    if HandsZombie(procs, cur, k) then WakeAll(moved, OnProc(init)) else moved
  }

  function Reparented(procs: seq<Proc>, cur: int, init: int): (r: seq<Proc>)
    ensures |r| == |procs|
  {
    ReparentedTo(procs, cur, init, |procs|)
  }

  datatype Step =
    | Alloc(cur: int)                     // allocproc, called from fork
    | Abandon(cur: int)                   // no kernel stack, or copyuvm failed
    | SetParent(cur: int)
    | Launch(cur: int)                    // np->state = RUNNABLE
    | Exit(c: int)
    | Wait(c: int)                        // one pass of wait()'s loop
    | Schedule(c: int, p: int)
    | Yield(c: int)
    | Sleep(c: int, chan: Chan)
    | Wakeup(chan: Chan)
    | Kill(pid: int)
    | Fault(c: int)                       // a trap from user space that is nobody's: killed = 1

  predicate RunsOn(t: Table, c: int) {
    0 <= c < |t.cpus| && IsProc(t, t.cpus[c]) && |t.forking| == |t.procs| == |t.creator| == |t.on|
  }

  predicate Forks(t: Table, cur: int) {
    && |t.forking| == |t.procs| == |t.creator| == |t.on| && IsProc(t, cur)
    && IsProc(t, t.forking[cur])
  }

  /** First slot with a property, or |procs|. */
  function First(procs: seq<Proc>, ok: Proc -> bool): (r: nat)
    ensures r <= |procs| && (r < |procs| ==> ok(procs[r]))
    ensures forall i :: 0 <= i < r ==> !ok(procs[i])
  {
    if |procs| == 0 || ok(procs[0]) then 0 else 1 + First(procs[1..], ok)
  }

  lemma {:induction false} FirstIs(procs: seq<Proc>, ok: Proc -> bool, k: nat)
    requires k < |procs| && ok(procs[k]) && forall i :: 0 <= i < k ==> !ok(procs[i])
    ensures First(procs, ok) == k
  {
    if k > 0 {
      FirstIs(procs[1..], ok, k - 1);
    }
  }

  function OffCpu(t: Table, c: int, x: Proc): Table
    requires RunsOn(t, c)
  {
    t.(procs := t.procs[t.cpus[c] := x], cpus := t.cpus[c := NONE])
  }

  /** The child that wait() would reap: the first zombie child in the table. */
  function ZombieChild(t: Table, cur: int): nat {
    First(t.procs, (x: Proc) => x.parent == cur && x.state.ZOMBIE?)
  }

  predicate Guard(t: Table, e: Step) {
    match e
    case Alloc(cur) =>
      |t.forking| == |t.procs| == |t.creator| == |t.on| && IsProc(t, cur) && t.procs[cur].state.RUNNING? &&
        t.forking[cur] == NONE
    case Abandon(cur) => Forks(t, cur) && t.procs[t.forking[cur]].parent == NONE
    case SetParent(cur) => Forks(t, cur)
    case Launch(cur) => Forks(t, cur) && t.procs[t.forking[cur]].parent == cur
    case Exit(c) => RunsOn(t, c) && t.cpus[c] != t.initproc && IsProc(t, t.initproc) && t.forking[t.cpus[c]] == NONE
    case Wait(c) => RunsOn(t, c) && t.forking[t.cpus[c]] == NONE
    case Schedule(c, p) =>
      0 <= c < |t.cpus| && t.cpus[c] == NONE && IsProc(t, p) && t.procs[p].state.RUNNABLE? && |t.on| == |t.procs|
    case Yield(c) => RunsOn(t, c)
    case Sleep(c, chan) => RunsOn(t, c) && chan.OnOther?
    case Wakeup(chan) => chan.OnOther?
    case Kill(pid) => true
    case Fault(c) => RunsOn(t, c)
  }

  function Do(t: Table, e: Step): Table
    requires Guard(t, e)
  {
    match e
    case Alloc(cur) =>
      var np := First(t.procs, (x: Proc) => x.state.UNUSED?);
      if np == |t.procs| then t
      else t.(procs := t.procs[np := t.procs[np].(state := EMBRYO, pid := t.nextpid)], nextpid := t.nextpid + 1,
              forking := t.forking[cur := np], creator := t.creator[np := cur])
    case Abandon(cur) =>
      var np := t.forking[cur];
      t.(procs := t.procs[np := t.procs[np].(state := UNUSED)], forking := t.forking[cur := NONE])
    case SetParent(cur) =>
      var np := t.forking[cur];
      t.(procs := t.procs[np := t.procs[np].(parent := cur)])
    case Launch(cur) =>
      var np := t.forking[cur];
      t.(procs := t.procs[np := t.procs[np].(state := RUNNABLE)], forking := t.forking[cur := NONE])
    case Exit(c) =>
      var cur := t.cpus[c];
      var woken := WakeAll(t.procs, OnProc(t.procs[cur].parent));
      var t' := t.(procs := Reparented(woken, cur, t.initproc));
      OffCpu(t', c, t'.procs[cur].(state := ZOMBIE))
    case Wait(c) =>
      var cur := t.cpus[c];
      var z := ZombieChild(t, cur);
      if z < |t.procs| then t.(procs := t.procs[z := Proc(UNUSED, 0, NONE, t.procs[z].chan, false)])
      else if (forall i :: 0 <= i < |t.procs| ==> t.procs[i].parent != cur) || t.procs[cur].killed then t
      else OffCpu(t, c, t.procs[cur].(state := SLEEPING, chan := OnProc(cur)))
    case Schedule(c, p) =>
      t.(procs := t.procs[p := t.procs[p].(state := RUNNING, chan := NoChan)], cpus := t.cpus[c := p],
        on := t.on[p := c])
    case Yield(c) => OffCpu(t, c, t.procs[t.cpus[c]].(state := RUNNABLE))
    case Sleep(c, chan) => OffCpu(t, c, t.procs[t.cpus[c]].(state := SLEEPING, chan := chan))
    case Wakeup(chan) => t.(procs := WakeAll(t.procs, chan))
    case Kill(pid) =>
      var p := First(t.procs, (x: Proc) => x.pid == pid);
      if p == |t.procs| then t
      else
        var state := if t.procs[p].state.SLEEPING? then RUNNABLE else t.procs[p].state;
        t.(procs := t.procs[p := t.procs[p].(killed := true, state := state)])
    case Fault(c) => t.(procs := t.procs[t.cpus[c] := t.procs[t.cpus[c]].(killed := true)])
  }

  predicate Next(t: Table, e: Step, t': Table) {
    Guard(t, e) && t' == Do(t, e)
  }

  // ---------- the invariant ----------

  /** Running on a CPU, both ways round. */
  predicate CpuOk(t: Table, c: int)
    requires 0 <= c < |t.cpus| && |t.on| == |t.procs|
  {
    t.cpus[c] == NONE || (IsProc(t, t.cpus[c]) && t.procs[t.cpus[c]].state.RUNNING? && t.on[t.cpus[c]] == c)
  }

  /** What the table says of one slot. */
  predicate SlotOk(t: Table, p: int)
    requires IsProc(t, p) && |t.forking| == |t.procs| == |t.creator| == |t.on|
  {
    var x := t.procs[p];
    && (x.state.RUNNING? ==> 0 <= t.on[p] < |t.cpus| && t.cpus[t.on[p]] == p)
    && (InUse(x) ==> 0 < x.pid < t.nextpid)
    && (x.state.UNUSED? ==> x.parent == NONE)
    && (x.state.EMBRYO? ==>
          IsProc(t, t.creator[p]) && t.forking[t.creator[p]] == p && (x.parent == NONE || x.parent == t.creator[p]))
    && (Live(x) || x.state.ZOMBIE? ==> p == t.initproc || ParentOk(t, p))
    && (t.forking[p] != NONE ==>
          && Live(x) && IsProc(t, t.forking[p]) && t.forking[p] != t.initproc
          && t.procs[t.forking[p]].state.EMBRYO? && t.creator[t.forking[p]] == p && x.pid < t.procs[t.forking[p]].pid)
    && (x.state.SLEEPING? ==> x.chan.OnOther? || x.chan == OnProc(p))
  }

  /** A live parent that is older. */
  predicate ParentOk(t: Table, p: int)
    requires IsProc(t, p)
  {
    var q := t.procs[p].parent;
    IsProc(t, q) && Live(t.procs[q]) && t.procs[q].pid < t.procs[p].pid
  }

  predicate SamePid(t: Table, p: int, q: int)
    requires IsProc(t, p) && IsProc(t, q)
  {
    InUse(t.procs[p]) && InUse(t.procs[q]) && t.procs[p].pid == t.procs[q].pid
  }

  /** Asleep in wait() with a zombie child: a wakeup would have been missed. */
  predicate MissedZombie(t: Table, p: int, z: int)
    requires IsProc(t, p) && IsProc(t, z)
  {
    t.procs[p].state.SLEEPING? && t.procs[p].chan.OnProc? && t.procs[z].parent == p && t.procs[z].state.ZOMBIE?
  }

  predicate Sized(t: Table) {
    |t.forking| == |t.procs| == |t.creator| == |t.on|
  }

  ghost predicate CpusOk(t: Table)
    requires Sized(t)
  {
    forall c :: 0 <= c < |t.cpus| ==> CpuOk(t, c)
  }

  ghost predicate SlotsOk(t: Table)
    requires Sized(t)
  {
    forall p :: IsProc(t, p) ==> SlotOk(t, p)
  }

  ghost predicate PidsOk(t: Table) {
    forall p, q :: IsProc(t, p) && IsProc(t, q) && SamePid(t, p, q) ==> p == q
  }

  ghost predicate ZombiesOk(t: Table) {
    forall p, z :: IsProc(t, p) && IsProc(t, z) ==> !MissedZombie(t, p, z)
  }

  ghost predicate Inv(t: Table) {
    && Sized(t)
    && IsProc(t, t.initproc) && Live(t.procs[t.initproc]) && t.procs[t.initproc].pid == 1
    && CpusOk(t) && SlotsOk(t) && PidsOk(t) && ZombiesOk(t)
  }

  /** After userinit: one runnable process. */
  ghost predicate Init(t: Table) {
    && |t.forking| == |t.procs| == |t.creator| == |t.on| && IsProc(t, t.initproc) && t.nextpid == 2
    && (forall c :: 0 <= c < |t.cpus| ==> t.cpus[c] == NONE)
    && (forall p :: IsProc(t, p) ==>
          t.forking[p] == NONE
          && t.procs[p] == if p == t.initproc then Proc(RUNNABLE, 1, NONE, NoChan, false)
                           else Proc(UNUSED, 0, NONE, NoChan, false))
  }

  lemma InitInv(t: Table)
    requires Init(t)
    ensures Inv(t)
  {
  }

  // ---------- every step keeps it ----------

  predicate KeepsPid(x: Proc, y: Proc) {
    InUse(y) ==> InUse(x) && y.pid == x.pid
  }

  lemma PidsKept(t: Table, t': Table)
    requires PidsOk(t) && |t'.procs| == |t.procs| && forall i :: IsProc(t, i) ==> KeepsPid(t.procs[i], t'.procs[i])
    ensures PidsOk(t')
  {
    forall p, q | IsProc(t', p) && IsProc(t', q) && SamePid(t', p, q) ensures p == q {
      assert KeepsPid(t.procs[p], t'.procs[p]) && KeepsPid(t.procs[q], t'.procs[q]);
      assert SamePid(t, p, q);
    }
  }

  /** Nobody new is a zombie, or asleep in wait. */
  predicate KeepsWait(x: Proc, y: Proc) {
    && (y.state.ZOMBIE? ==> x.state.ZOMBIE? && y.parent == x.parent)
    && (y.state.SLEEPING? && y.chan.OnProc? ==> x.state.SLEEPING? && x.chan.OnProc?)
  }

  lemma ZombiesKept(t: Table, t': Table)
    requires ZombiesOk(t) && |t'.procs| == |t.procs| && forall i :: IsProc(t, i) ==> KeepsWait(t.procs[i], t'.procs[i])
    ensures ZombiesOk(t')
  {
    forall p, z | IsProc(t', p) && IsProc(t', z) ensures !MissedZombie(t', p, z) {
      assert KeepsWait(t.procs[p], t'.procs[p]) && KeepsWait(t.procs[z], t'.procs[z]);
      assert !MissedZombie(t, p, z);
    }
  }

  /** Slot `np` becomes EMBRYO for `cur`. */
  lemma AllocSlot(t: Table, cur: int, np: int, t': Table, q: int)
    requires Inv(t) && IsProc(t, cur) && t.procs[cur].state.RUNNING? && t.forking[cur] == NONE && IsProc(t, np)
    requires t.procs[np].state.UNUSED?
    requires t' == t.(procs := t.procs[np := t.procs[np].(state := EMBRYO, pid := t.nextpid)], nextpid := t.nextpid + 1,
                      forking := t.forking[cur := np], creator := t.creator[np := cur])
    requires IsProc(t, q)
    ensures SlotOk(t', q)
  {
    hide PidsOk, ZombiesOk, CpusOk;
    assert SlotOk(t, q) && SlotOk(t, np) && SlotOk(t, cur);
  }

  lemma AllocInv(t: Table, cur: int, t': Table)
    requires Inv(t) && Next(t, Alloc(cur), t')
    ensures Inv(t')
  {
    hide PidsOk, ZombiesOk, SlotOk;
    var np := First(t.procs, (x: Proc) => x.state.UNUSED?);
    if np < |t.procs| {
      forall c | 0 <= c < |t'.cpus| ensures CpuOk(t', c) {
        assert CpuOk(t, c);
      }
      forall q | IsProc(t', q) ensures SlotOk(t', q) {
        AllocSlot(t, cur, np, t', q);
      }
      AllocPids(t, np, t');
      ZombiesKept(t, t');
    }
  }

  lemma AllocPids(t: Table, np: int, t': Table)
    requires Inv(t) && IsProc(t, np) && t'.procs == t.procs[np := t.procs[np].(state := EMBRYO, pid := t.nextpid)]
    ensures PidsOk(t')
  {
    forall p, q | IsProc(t', p) && IsProc(t', q) && SamePid(t', p, q) ensures p == q {
      assert SlotOk(t, p) && SlotOk(t, q);
      assert p != np && q != np ==> SamePid(t, p, q);
    }
  }

  lemma ForkSlot(t: Table, e: Step, t': Table, q: int)
    requires Inv(t) && Next(t, e, t') && (e.Abandon? || e.SetParent? || e.Launch?) && IsProc(t, q)
    ensures Sized(t') && IsProc(t', q) && SlotOk(t', q)
  {
    hide PidsOk, ZombiesOk, CpusOk, SlotsOk;
    SlotOf(t, e.cur);
    SlotOf(t, t.forking[e.cur]);
    SlotOf(t, q);
  }

  /** fork() gives up its slot, sets its parent, or launches it. */
  lemma ForkInv(t: Table, e: Step, t': Table)
    requires Inv(t) && Next(t, e, t') && (e.Abandon? || e.SetParent? || e.Launch?)
    ensures Inv(t')
  {
    hide PidsOk, ZombiesOk;
    assert SlotOk(t, e.cur);
    forall c | 0 <= c < |t'.cpus| ensures CpuOk(t', c) {
      assert CpuOk(t, c);
    }
    forall q | IsProc(t', q) ensures SlotOk(t', q) {
      ForkSlot(t, e, t', q);
    }
    PidsKept(t, t');
    ZombiesKept(t, t');
  }

  lemma ScheduleInv(t: Table, c: int, p: int, t': Table)
    requires Inv(t) && Next(t, Schedule(c, p), t')
    ensures Inv(t')
  {
    hide PidsOk, ZombiesOk;
    forall d | 0 <= d < |t'.cpus| ensures CpuOk(t', d) {
      assert CpuOk(t, d);
    }
    forall q | IsProc(t', q) ensures SlotOk(t', q) {
      assert SlotOk(t, q) && SlotOk(t, p);
    }
    PidsKept(t, t');
    ZombiesKept(t, t');
  }

  /** A live process leaves its CPU and stays alive. */
  lemma OffCpuSlots(t: Table, c: int, x: Proc, t': Table)
    requires Inv(t) && RunsOn(t, c) && t' == OffCpu(t, c, x)
    requires var y := t.procs[t.cpus[c]];
      (x == y.(state := RUNNABLE) || (x == y.(state := SLEEPING, chan := x.chan) &&
        (x.chan.OnOther? || x.chan == OnProc(t.cpus[c]))))
    ensures Sized(t') && CpusOk(t') && SlotsOk(t') && PidsOk(t')
    ensures IsProc(t', t'.initproc) && Live(t'.procs[t'.initproc]) && t'.procs[t'.initproc].pid == 1
  {
    hide PidsOk, ZombiesOk;
    assert CpuOk(t, c) && SlotOk(t, t.cpus[c]);
    forall d | 0 <= d < |t'.cpus| ensures CpuOk(t', d) {
      assert CpuOk(t, d);
    }
    forall q | IsProc(t', q) ensures SlotOk(t', q) {
      assert SlotOk(t, q);
    }
    PidsKept(t, t');
  }

  lemma YieldInv(t: Table, c: int, t': Table)
    requires Inv(t) && Next(t, Yield(c), t')
    ensures Inv(t')
  {
    hide CpusOk, SlotsOk, PidsOk, ZombiesOk;
    OffCpuSlots(t, c, t.procs[t.cpus[c]].(state := RUNNABLE), t');
    ZombiesKept(t, t');
  }

  lemma SleepInv(t: Table, c: int, chan: Chan, t': Table)
    requires Inv(t) && Next(t, Sleep(c, chan), t')
    ensures Inv(t')
  {
    hide CpusOk, SlotsOk, PidsOk, ZombiesOk;
    OffCpuSlots(t, c, t.procs[t.cpus[c]].(state := SLEEPING, chan := chan), t');
    ZombiesKept(t, t');
  }

  /** Marking a slot killed, or waking it, breaks nothing. */
  predicate Rouses(x: Proc, y: Proc) {
    y == x.(killed := y.killed, state := if x.state.SLEEPING? then y.state else x.state) &&
      (x.state.SLEEPING? ==> y.state.SLEEPING? || y.state.RUNNABLE?)
  }

  lemma RouseInv(t: Table, t': Table)
    requires Inv(t) && t' == t.(procs := t'.procs) && |t'.procs| == |t.procs|
    requires forall i :: IsProc(t, i) ==> Rouses(t.procs[i], t'.procs[i])
    ensures Inv(t')
  {
    hide PidsOk, ZombiesOk;
    forall c | 0 <= c < |t'.cpus| ensures CpuOk(t', c) {
      assert CpuOk(t, c);
      assert t.cpus[c] != NONE ==> Rouses(t.procs[t.cpus[c]], t'.procs[t.cpus[c]]);
    }
    assert Rouses(t.procs[t.initproc], t'.procs[t.initproc]);
    forall q | IsProc(t', q) ensures SlotOk(t', q) {
      assert SlotOk(t, q) && Rouses(t.procs[q], t'.procs[q]);
      assert IsProc(t, t.procs[q].parent) ==> Rouses(t.procs[t.procs[q].parent], t'.procs[t.procs[q].parent]);
      assert IsProc(t, t.forking[q]) ==> Rouses(t.procs[t.forking[q]], t'.procs[t.forking[q]]);
    }
    forall i | IsProc(t, i) ensures KeepsPid(t.procs[i], t'.procs[i]) && KeepsWait(t.procs[i], t'.procs[i]) {
      assert Rouses(t.procs[i], t'.procs[i]);
    }
    PidsKept(t, t');
    ZombiesKept(t, t');
  }

  /** wait() reaps child `z`. */
  lemma ReapInv(t: Table, z: int, t': Table)
    requires Inv(t) && IsProc(t, z) && t.procs[z].state.ZOMBIE? && z != t.initproc
    requires t' == t.(procs := t.procs[z := Proc(UNUSED, 0, NONE, t.procs[z].chan, false)])
    ensures Inv(t')
  {
    hide PidsOk, ZombiesOk;
    forall c | 0 <= c < |t'.cpus| ensures CpuOk(t', c) {
      assert CpuOk(t, c);
    }
    forall q | IsProc(t', q) ensures SlotOk(t', q) {
      assert SlotOk(t, q) && SlotOk(t, z);
    }
    PidsKept(t, t');
    ZombiesKept(t, t');
  }

  lemma WaitInv(t: Table, c: int, t': Table)
    requires Inv(t) && Next(t, Wait(c), t')
    ensures Inv(t')
  {
    hide CpusOk, SlotsOk, PidsOk;
    var cur := t.cpus[c];
    var z := ZombieChild(t, cur);
    if z < |t.procs| {
      ReapInv(t, z, t');
    } else if t' != t {
      OffCpuSlots(t, c, t.procs[cur].(state := SLEEPING, chan := OnProc(cur)), t');
      forall p, y | IsProc(t', p) && IsProc(t', y) ensures !MissedZombie(t', p, y) {
        assert !MissedZombie(t, p, y);
      }
    }
  }

  /** What exit() of `cur` leaves in a slot other than its own. */
  function AfterExit(t: Table, cur: int, q: int): Proc
    requires IsProc(t, cur) && IsProc(t, q)
  {
    var x := Woken(t.procs[q], OnProc(t.procs[cur].parent));
    var y := if x.parent == cur then x.(parent := t.initproc) else x;
    if HandsZombie(t.procs, cur, |t.procs|) then Woken(y, OnProc(t.initproc)) else y
  }

  lemma ExitShape(t: Table, c: int, t': Table)
    requires Next(t, Exit(c), t')
    ensures RunsOn(t, c) && t.cpus[c] != t.initproc && t.forking[t.cpus[c]] == NONE
    ensures t' == t.(procs := t'.procs, cpus := t.cpus[c := NONE]) && |t'.procs| == |t.procs|
    ensures forall q :: IsProc(t, q) && q != t.cpus[c] ==> t'.procs[q] == AfterExit(t, t.cpus[c], q)
    ensures t'.procs[t.cpus[c]] == AfterExit(t, t.cpus[c], t.cpus[c]).(state := ZOMBIE)
  {
    var cur := t.cpus[c];
    var woken := WakeAll(t.procs, OnProc(t.procs[cur].parent));
    assert forall z :: 0 <= z < |woken| ==>
      woken[z].parent == t.procs[z].parent && (woken[z].state.ZOMBIE? <==> t.procs[z].state.ZOMBIE?);
    assert HandsZombie(woken, cur, |woken|) <==> HandsZombie(t.procs, cur, |t.procs|);
  }

  /** exit() changes a slot's state only by waking it, and its parent only from the exiting process to init. */
  lemma AfterExitIs(t: Table, cur: int, q: int)
    requires IsProc(t, cur) && IsProc(t, q)
    ensures var x, y := t.procs[q], AfterExit(t, cur, q);
      && y == x.(state := y.state, parent := if x.parent == cur then t.initproc else x.parent)
      && (y.state == x.state || (x.state.SLEEPING? && y.state.RUNNABLE?))
  {
  }

  lemma InitOldest(t: Table, q: int)
    requires Inv(t) && IsProc(t, q) && q != t.initproc && InUse(t.procs[q])
    ensures t.procs[q].pid > 1
  {
    assert SlotOk(t, q) && !SamePid(t, q, t.initproc);
  }

  lemma ExitSlot(t: Table, c: int, t': Table, q: int)
    requires Inv(t) && Next(t, Exit(c), t') && IsProc(t, q) && |t'.procs| == |t.procs| && Sized(t')
    ensures SlotOk(t', q)
  {
    hide Next, AfterExit, CpusOk, ZombiesOk, PidsOk, SlotsOk;
    ExitShape(t, c, t');
    var cur := t.cpus[c];
    OnCpuRuns(t, c);
    SlotOf(t, q);
    SlotOf(t, cur);
    if q != t.initproc && InUse(t.procs[q]) { InitOldest(t, q); }
    AfterExitIs(t, cur, q);
    AfterExitIs(t, cur, t.initproc);
    if IsProc(t, t.procs[q].parent) { AfterExitIs(t, cur, t.procs[q].parent); }
    if IsProc(t, t.forking[q]) { AfterExitIs(t, cur, t.forking[q]); }
  }

  lemma SlotOf(t: Table, q: int)
    requires Inv(t) && IsProc(t, q)
    ensures SlotOk(t, q)
  {
  }

  lemma OnCpuRuns(t: Table, c: int)
    requires Inv(t) && RunsOn(t, c)
    ensures t.procs[t.cpus[c]].state.RUNNING? && t.on[t.cpus[c]] == c
    ensures forall d :: 0 <= d < |t.cpus| && d != c ==> t.cpus[d] != t.cpus[c]
  {
    assert CpuOk(t, c);
    forall d | 0 <= d < |t.cpus| && d != c ensures t.cpus[d] != t.cpus[c] {
      assert CpuOk(t, d);
    }
  }

  /**
   exit() leaves no sleeping waiter with a zombie child: it wakes its own parent, and init if it
   hands zombies over.
   */
  lemma ExitZombies(t: Table, c: int, t': Table)
    requires Inv(t) && Next(t, Exit(c), t')
    ensures ZombiesOk(t')
  {
    hide Next, CpusOk, PidsOk;
    ExitShape(t, c, t');
    var cur := t.cpus[c];
    OnCpuRuns(t, c);
    assert SlotOk(t, cur);
    forall p, z | IsProc(t', p) && IsProc(t', z) ensures !MissedZombie(t', p, z) {
      assert !MissedZombie(t, p, z) && SlotOk(t, p);
    }
  }

  lemma ExitInv(t: Table, c: int, t': Table)
    requires Inv(t) && Next(t, Exit(c), t')
    ensures Inv(t')
  {
    hide Next, SlotOk, ZombiesOk, AfterExit;
    ExitShape(t, c, t');
    OnCpuRuns(t, c);
    var cur := t.cpus[c];
    AfterExitIs(t, cur, t.initproc);
    forall d | 0 <= d < |t'.cpus| ensures CpuOk(t', d) {
      assert CpuOk(t, d);
      if IsProc(t, t.cpus[d]) { AfterExitIs(t, cur, t.cpus[d]); }
    }
    forall q | IsProc(t', q) ensures SlotOk(t', q) {
      ExitSlot(t, c, t', q);
    }
    forall i | IsProc(t, i) ensures KeepsPid(t.procs[i], t'.procs[i]) {
      AfterExitIs(t, cur, i);
    }
    PidsKept(t, t');
    ExitZombies(t, c, t');
  }

  lemma StepInv(t: Table, e: Step, t': Table)
    requires Inv(t) && Next(t, e, t')
    ensures Inv(t')
  {
    match e
    case Alloc(cur) => AllocInv(t, cur, t');
    case Abandon(_) => ForkInv(t, e, t');
    case SetParent(_) => ForkInv(t, e, t');
    case Launch(_) => ForkInv(t, e, t');
    case Exit(c) => ExitInv(t, c, t');
    case Wait(c) => WaitInv(t, c, t');
    case Schedule(c, p) => ScheduleInv(t, c, p, t');
    case Yield(c) => YieldInv(t, c, t');
    case Sleep(c, chan) => SleepInv(t, c, chan, t');
    case Wakeup(_) => hide Inv; RouseInv(t, t');
    case Kill(_) => RouseInv(t, t');
    case Fault(_) => RouseInv(t, t');
  }

  // ---------- over whole runs ----------

  ghost predicate IsRun(ts: seq<Table>, es: seq<Step>) {
    && |ts| == |es| + 1 && Init(ts[0])
    && forall i :: 0 <= i < |es| ==> Next(ts[i], es[i], ts[i + 1])
  }

  lemma {:induction false} RunInv(ts: seq<Table>, es: seq<Step>, n: nat)
    requires IsRun(ts, es) && n < |ts|
    ensures Inv(ts[n])
  {
    hide Inv, Next, Init;
    if n == 0 {
      InitInv(ts[0]);
    } else {
      RunInv(ts, es, n - 1);
      assert Next(ts[n - 1], es[n - 1], ts[n - 1 + 1]);
      StepInv(ts[n - 1], es[n - 1], ts[n]);
    }
  }

  /**
   In every reachable state: a running process is on exactly one CPU, pids in use are distinct, every
   started process but init has a live older parent, and nobody waits asleep while a child is a zombie.
   */
  lemma ProcessTree(ts: seq<Table>, es: seq<Step>, n: nat, p: int, q: int)
    requires IsRun(ts, es) && n < |ts| && IsProc(ts[n], p) && IsProc(ts[n], q)
    ensures var t := ts[n];
      && (t.procs[p].state.RUNNING? ==>
           exists c :: 0 <= c < |t.cpus| && t.cpus[c] == p
             && forall d :: 0 <= d < |t.cpus| && t.cpus[d] == p ==> d == c)
      && (InUse(t.procs[p]) && InUse(t.procs[q]) && t.procs[p].pid == t.procs[q].pid ==> p == q)
      && (p != t.initproc && (Live(t.procs[p]) || t.procs[p].state.ZOMBIE?) ==> ParentOk(t, p))
      && (t.procs[p].state.SLEEPING? && t.procs[p].chan == OnProc(p) && t.procs[q].parent == p ==>
           !t.procs[q].state.ZOMBIE?)
  {
    RunInv(ts, es, n);
    var t := ts[n];
    assert SlotOk(t, p) && !MissedZombie(t, p, q);
    assert SamePid(t, p, q) ==> p == q;
    if t.procs[p].state.RUNNING? {
      forall d | 0 <= d < |t.cpus| && t.cpus[d] == p ensures d == t.on[p] {
        assert CpuOk(t, d);
      }
      assert t.cpus[t.on[p]] == p;
    }
  }

  function Up(t: Table, p: int, n: nat): int
    decreases n
  {
    if n == 0 || !IsProc(t, p) then p else Up(t, t.procs[p].parent, n - 1)
  }

  /** Parent links lead from every started process to init: they form a tree. */
  lemma {:induction false} ReachesInit(t: Table, p: int) returns (n: nat)
    requires Inv(t) && IsProc(t, p) && (Live(t.procs[p]) || t.procs[p].state.ZOMBIE?)
    ensures Up(t, p, n) == t.initproc
    decreases t.procs[p].pid
  {
    SlotOf(t, p);
    if p == t.initproc {
      n := 0;
    } else {
      SlotOf(t, t.procs[p].parent);
      var m := ReachesInit(t, t.procs[p].parent);
      n := m + 1;
    }
  }

  /** A zombie stays one, with its pid, until its parent's wait() reaps it. */
  lemma ZombieStays(t: Table, e: Step, t': Table, z: int)
    requires Inv(t) && Next(t, e, t') && IsProc(t, z) && t.procs[z].state.ZOMBIE?
    ensures IsProc(t', z)
    ensures (t'.procs[z].state.ZOMBIE? && t'.procs[z].pid == t.procs[z].pid) ||
      (e.Wait? && t.cpus[e.c] == t.procs[z].parent && ZombieChild(t, t.cpus[e.c]) == z)
  {
    hide CpusOk, PidsOk, ZombiesOk, SlotsOk, AfterExit;
    if e.Exit? {
      ExitShape(t, e.c, t');
      AfterExitIs(t, t.cpus[e.c], z);
      OnCpuRuns(t, e.c);
    } else if RunsOnStep(e) {
      OnCpuRuns(t, e.c);
    } else if e.Abandon? || e.SetParent? || e.Launch? {
      SlotOf(t, e.cur);
    }
  }

  predicate RunsOnStep(e: Step) {
    e.Yield? || e.Sleep? || e.Wait?
  }

  /** The pid that a step reaps. */
  function Reaps(t: Table, e: Step): int {
    if e.Wait? && RunsOn(t, e.c) && ZombieChild(t, t.cpus[e.c]) < |t.procs|
      then t.procs[ZombieChild(t, t.cpus[e.c])].pid else 0
  }

  predicate PidGone(t: Table, x: int) {
    x < t.nextpid && forall i :: 0 <= i < |t.procs| ==> InUse(t.procs[i]) ==> t.procs[i].pid != x
  }

  lemma PidStaysGone(t: Table, e: Step, t': Table, x: int)
    requires Inv(t) && Next(t, e, t') && PidGone(t, x)
    ensures PidGone(t', x)
  {
    hide CpusOk, PidsOk, ZombiesOk, SlotsOk;
    if e.Exit? {
      ExitShape(t, e.c, t');
      forall i | 0 <= i < |t.procs| ensures KeepsPid(t.procs[i], t'.procs[i]) {
        AfterExitIs(t, t.cpus[e.c], i);
        OnCpuRuns(t, e.c);
      }
    } else {
      if e.Launch? || e.SetParent? { SlotOf(t, e.cur); }
      if RunsOnStep(e) { OnCpuRuns(t, e.c); }
      forall i | 0 <= i < |t'.procs| && InUse(t'.procs[i]) ensures t'.procs[i].pid != x {
        assert InUse(t.procs[i]) ==> t.procs[i].pid != x;
      }
    }
  }

  /** Between two points of a run a pid that is gone stays gone. */
  lemma {:induction false} GoneThrough(ts: seq<Table>, es: seq<Step>, i: nat, j: nat, x: int)
    requires IsRun(ts, es) && i <= j < |ts| && PidGone(ts[i], x)
    ensures PidGone(ts[j], x)
    decreases j - i
  {
    hide Inv, Next, Init, PidGone;
    if i < j {
      GoneThrough(ts, es, i, j - 1, x);
      RunInv(ts, es, j - 1);
      assert Next(ts[j - 1], es[j - 1], ts[j - 1 + 1]);
      PidStaysGone(ts[j - 1], es[j - 1], ts[j], x);
    }
  }

  lemma ReapedIsGone(t: Table, e: Step, t': Table)
    requires Inv(t) && Next(t, e, t') && Reaps(t, e) != 0
    ensures PidGone(t', Reaps(t, e))
  {
    hide CpusOk, ZombiesOk;
    var z := ZombieChild(t, t.cpus[e.c]);
    assert SlotOk(t, z);
    forall i | 0 <= i < |t'.procs| && InUse(t'.procs[i]) ensures t'.procs[i].pid != t.procs[z].pid {
      assert i != z && SamePid(t, i, z) ==> i == z;
    }
  }

  /** Each zombie is reaped once: no pid is returned by wait() twice in a run. */
  lemma ReapedOnce(ts: seq<Table>, es: seq<Step>, i: nat, j: nat)
    requires IsRun(ts, es) && i < j < |es| && Reaps(ts[i], es[i]) != 0
    ensures Reaps(ts[j], es[j]) != Reaps(ts[i], es[i])
  {
    hide Inv, Next, Init;
    RunInv(ts, es, i);
    assert Next(ts[i], es[i], ts[i + 1]);
    ReapedIsGone(ts[i], es[i], ts[i + 1]);
    GoneThrough(ts, es, i + 1, j, Reaps(ts[i], es[i]));
  }
}
