/**
 The table-scanning code of proc.c, in place on the process array; each method is proved to be its
 step of ProcTable.
 */
module ProcCode {
  import opened ProcTable

  predicate FirstUnused(procs: seq<Proc>, np: int) {
    0 <= np < |procs| && procs[np].state.UNUSED? && forall i :: 0 <= i < np ==> InUse(procs[i])
  }

  predicate Childless(procs: seq<Proc>, cur: int) {
    forall i :: 0 <= i < |procs| ==> procs[i].parent != cur
  }

  /** kill() hit slot `p`, the first with the pid: marked, awake if it slept, and nothing else changed. */
  predicate Struck(before: seq<Proc>, after: seq<Proc>, pid: int, p: int) {
    && 0 <= p < |before| == |after| && before[p].pid == pid && (forall i :: 0 <= i < p ==> before[i].pid != pid)
    && after[p].killed && after[p].state == (if before[p].state.SLEEPING? then RUNNABLE else before[p].state)
    && after[p].pid == pid && after[p].parent == before[p].parent && after[p].chan == before[p].chan
    && forall i :: 0 <= i < |before| && i != p ==> after[i] == before[i]
  }

  class Ptable {
    const procs: array<Proc>
    var cpus: seq<int>
    var initproc: int
    var nextpid: int
    ghost var forking: seq<int>
    ghost var creator: seq<int>
    ghost var on: seq<int>

    ghost function View(): Table
      reads this, procs
    {
      Table(procs[..], cpus, initproc, nextpid, forking, creator, on)
    }

    constructor (n: nat, ncpu: nat)
      requires n > 0
      ensures fresh(procs) && Init(View()) && procs.Length == n && |cpus| == ncpu && initproc == 0
    {
      procs := new Proc[n](_ => Proc(UNUSED, 0, NONE, NoChan, false));
      cpus, initproc, nextpid := seq(ncpu, _ => NONE), 0, 2;
      forking, creator, on := seq(n, _ => NONE), seq(n, _ => NONE), seq(n, _ => 0);
      new;
      procs[0] := Proc(RUNNABLE, 1, NONE, NoChan, false);
    }

    method Wakeup1(chan: Chan)
      modifies procs
      ensures procs[..] == WakeAll(old(procs[..]), chan)
    {
      var i := 0;
      while i < procs.Length
        invariant 0 <= i <= procs.Length
        invariant forall j :: 0 <= j < i ==> procs[j] == Woken(old(procs[j]), chan)
        invariant forall j :: i <= j < procs.Length ==> procs[j] == old(procs[j])
      {
        if procs[i].state.SLEEPING? && procs[i].chan == chan {
          procs[i] := procs[i].(state := RUNNABLE);
        }
        i := i + 1;
      }
    }

    /** allocproc's critical section, called from fork() by `cur`. */
    method AllocProc(cur: int) returns (np: int)
      requires Guard(View(), Alloc(cur))
      modifies this`nextpid, this`forking, this`creator, procs
      ensures View() == Do(old(View()), Alloc(cur))
      ensures np == NONE <==> forall i :: 0 <= i < procs.Length ==> InUse(old(procs[i]))
      ensures np != NONE ==> np == forking[cur] && FirstUnused(old(procs[..]), np)
      ensures np != NONE ==> procs[np] == old(procs[np]).(state := EMBRYO, pid := old(nextpid))
      ensures np != NONE ==> nextpid == old(nextpid) + 1
      ensures forall i :: 0 <= i < procs.Length && i != np ==> procs[i] == old(procs[i])
    {
      var i := 0;
      while i < procs.Length && !procs[i].state.UNUSED?
        invariant 0 <= i <= procs.Length
        invariant forall j :: 0 <= j < i ==> !procs[j].state.UNUSED?
      {
        i := i + 1;
      }
      ghost var unused := (x: Proc) => x.state.UNUSED?;
      if i == procs.Length {
        assert First(procs[..], unused) == i;
        return NONE;
      }
      FirstIs(procs[..], unused, i);
      procs[i] := procs[i].(state := EMBRYO, pid := nextpid);
      nextpid := nextpid + 1;
      forking, creator := forking[cur := i], creator[i := cur];
      np := i;
    }

    /** exit()'s loop over the table. */
    method Reparent(cur: int)
      modifies procs
      ensures procs[..] == Reparented(old(procs[..]), cur, initproc)
    {
      ghost var before := procs[..];
      var i := 0;
      while i < procs.Length
        invariant 0 <= i <= procs.Length == |before|
        invariant procs[..] == ReparentedTo(before, cur, initproc, i)
      {
        ReparentStep(before, cur, initproc, i);
        if procs[i].parent == cur {
          procs[i] := procs[i].(parent := initproc);
          if procs[i].state.ZOMBIE? {
            Wakeup1(OnProc(initproc));
          }
        }
        i := i + 1;
      }
    }

    /** exit() on CPU `c`, up to the point where the scheduler takes the CPU back. */
    method Exit(c: int)
      requires Guard(View(), Step.Exit(c)) && procs.Length > 0
      modifies this`cpus, procs
      ensures View() == Do(old(View()), Step.Exit(c))
    {
      var cur := cpus[c];
      Wakeup1(OnProc(procs[cur].parent));
      Reparent(cur);
      procs[cur] := procs[cur].(state := ZOMBIE);
      cpus := cpus[c := NONE];
    }

    /** One pass of wait() on CPU `c`: the pid reaped, -1 if there is nothing to wait for, or 0 if it went to sleep. */
    method Wait(c: int) returns (pid: int)
      requires Inv(View()) && Guard(View(), Step.Wait(c))
      modifies this`cpus, procs
      ensures View() == Do(old(View()), Step.Wait(c))
      ensures pid > 0 <==>
        exists z :: 0 <= z < procs.Length && old(procs[z]).parent == old(cpus[c]) && old(procs[z]).state.ZOMBIE?
      ensures pid > 0 ==> pid == Reaps(old(View()), Step.Wait(c))
      ensures pid == -1 <==> pid <= 0 && (Childless(old(procs[..]), old(cpus[c])) || old(procs[cpus[c]]).killed)
      ensures pid >= -1 && (pid == -1 ==> procs[..] == old(procs[..]) && cpus == old(cpus))
      ensures var cur := old(cpus[c]); var slept := old(procs[cpus[c]]).(state := SLEEPING, chan := OnProc(cur));
        pid == 0 ==> cpus[c] == NONE && procs[..] == old(procs[..])[cur := slept]
    {
      var cur, havekids, i := cpus[c], false, 0;
      ghost var zombie := (x: Proc) => x.parent == cur && x.state.ZOMBIE?;
      while i < procs.Length
        invariant 0 <= i <= procs.Length && procs[..] == old(procs[..]) && cpus == old(cpus)
        invariant forall j :: 0 <= j < i ==> !zombie(procs[j])
        invariant havekids <==> exists j :: 0 <= j < i && procs[j].parent == cur
      {
        if procs[i].parent == cur {
          havekids := true;
          if procs[i].state.ZOMBIE? {
            FirstIs(procs[..], zombie, i);
            SlotOf(View(), i);
            pid := procs[i].pid;
            procs[i] := Proc(UNUSED, 0, NONE, procs[i].chan, false);
            return;
          }
        }
        i := i + 1;
      }
      assert First(procs[..], zombie) == procs.Length;
      if !havekids || procs[cur].killed {
        return -1;
      }
      procs[cur] := procs[cur].(state := SLEEPING, chan := OnProc(cur));
      cpus := cpus[c := NONE];
      pid := 0;
    }

    method Kill(pid: int) returns (r: int)
      modifies procs
      ensures View() == Do(old(View()), Step.Kill(pid))
      ensures r == 0 <==> exists i :: 0 <= i < procs.Length && old(procs[i]).pid == pid
      ensures r == 0 || r == -1
      ensures r == -1 ==> procs[..] == old(procs[..])
      ensures r == 0 ==> exists p :: Struck(old(procs[..]), procs[..], pid, p)
    {
      ghost var same := (x: Proc) => x.pid == pid;
      var i := 0;
      while i < procs.Length
        invariant 0 <= i <= procs.Length && procs[..] == old(procs[..])
        invariant forall j :: 0 <= j < i ==> procs[j].pid != pid
      {
        if procs[i].pid == pid {
          FirstIs(procs[..], same, i);
          procs[i] := procs[i].(killed := true);
          if procs[i].state.SLEEPING? {
            procs[i] := procs[i].(state := RUNNABLE);
          }
          assert Struck(old(procs[..]), procs[..], pid, i);
          return 0;
        }
        i := i + 1;
      }
      assert First(procs[..], same) == procs.Length;
      r := -1;
    }
  }

  lemma ReparentStep(procs: seq<Proc>, cur: int, init: int, k: nat)
    requires k < |procs|
    ensures var now := ReparentedTo(procs, cur, init, k);
      && now[k].parent == procs[k].parent && (now[k].state.ZOMBIE? <==> procs[k].state.ZOMBIE?)
      && ReparentedTo(procs, cur, init, k + 1) ==
           if procs[k].parent != cur then now
           else if procs[k].state.ZOMBIE? then WakeAll(now[k := now[k].(parent := init)], OnProc(init))
           else now[k := now[k].(parent := init)]
  {
  }
}
