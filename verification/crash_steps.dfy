/**
 The log and the file system's steps together: operations of any number of processes interleave at every
 block write, and the power may fail at any point, recovery included. Block ownership comes through.
 */
module CrashSteps {
  import opened LogDisk
  import opened AtomicDisk
  import opened LogProtocol
  import opened LogInvariant
  import opened LogRefinement
  import opened CrashOwnership
  import L = FsLayout
  import O = FsOwnership
  import F = FsFiles
  import I = FsInodes
  import S = FsSteps

  /** The log with its disk, and the file system's inodes in memory. */
  datatype Joint = Joint(s: State, m: S.Mach)

  /** A step of the log that changes no block; a block changed for the file system; an inode changed in memory. */
  datatype Move = Log(e: Step) | Write(p: nat, b: int, v: Block, op: S.Op) | Mem(p: nat, op: S.Op)

  function OnDisk(m: S.Mach): O.Fs { O.Fs(m.blocks, m.disk) }

  /** The home blocks hold the bitmap, data and inodes that the file system has written. */
  ghost predicate Matches(g: L.Geometry, home: Home, m: S.Mach) {
    g.Valid() && O.Shape(g, OnDisk(m)) && Agrees(g, OnDisk(m), ImageOf(g, home))
  }

  /** Nothing half done. */
  predicate Quiet(m: S.Mach) { m.spare == map[] && m.dirty == map[] }

  /** Process `p` has put away every block it marked and written every inode it changed. */
  predicate Through(m: S.Mach, p: nat) {
    (forall b :: b in m.spare ==> m.spare[b] != p) && (forall i :: i in m.dirty ==> m.dirty[i] != p)
  }

  ghost predicate JointNext(c: Config, g: L.Geometry, j: Joint, mv: Move, j': Joint) {
    match mv
    case Log(e) =>
      && Next(c, j.s, e, j'.s) && !e.Modify? && (e.EndOp? ==> Through(j.m, e.p))
      && if e.RecoverErase? then |j'.s.disk| == c.nblocks && Booted(g, Logical(c, j'.s), j'.m) else j'.m == j.m
    case Write(p, b, v, op) =>
      && Next(c, j.s, Modify(p, b, v), j'.s) && !S.InMemory(op) && S.Next(g, j.m, p, op, j'.m)
      && |j'.s.disk| == c.nblocks && Matches(g, Logical(c, j'.s), j'.m)
    case Mem(p, op) =>
      j'.s == j.s && ProcInOp(j.s, p) && S.InMemory(op) && S.Next(g, j.m, p, op, j'.m)
  }

  /** After boot the inodes are read from the disk as it is. */
  ghost predicate Booted(g: L.Geometry, home: Home, m: S.Mach) {
    S.Inv(g, m) && Quiet(m) && Matches(g, home, m)
  }

  ghost predicate JointRun(c: Config, g: L.Geometry, js: seq<Joint>, mvs: seq<Move>) {
    && |js| == |mvs| + 1 && Init(c, js[0].s)
    && forall i :: 0 <= i < |mvs| ==> JointNext(c, g, js[i], mvs[i], js[i + 1])
  }

  // ---------- a quiet file system is a sound image ----------

  lemma QuietSound(g: L.Geometry, home: Home, m: S.Mach)
    requires S.Inv(g, m) && Quiet(m) && Matches(g, home, m)
    ensures Sound(g, home)
  {
    hide ImageOf, O.Own, F.NoHoles, O.Shape, Agrees;
    F.OwnShape(g, S.V(m), m.owner, m.spare.Keys);
    SyncedDisk(g, m);
    assert m.spare.Keys == {};
    AgreesSound(g, OnDisk(m), ImageOf(g, home), m.owner);
  }

  lemma SyncedDisk(g: L.Geometry, m: S.Mach)
    requires O.Shape(g, S.V(m)) && S.Synced(g, m) && Quiet(m)
    ensures OnDisk(m) == S.V(m) && I.FreeClean(m.mem) && forall j :: 0 <= j < g.ninodes ==> F.NoHoles(g, S.V(m), j)
  {
    hide F.NoHoles;
    forall i | 0 <= i < g.ninodes
      ensures m.disk[i] == m.mem[i] && F.NoHoles(g, S.V(m), i) && (m.mem[i].kind == 0 ==> I.Clean(m.mem[i]))
    {
      assert S.Finished(g, S.V(m), i);
    }
    assert m.disk == m.mem;
  }

  /** A sound disk can be booted from. */
  lemma BootFrom(g: L.Geometry, home: Home) returns (m: S.Mach)
    requires Sound(g, home)
    ensures Booted(g, home, m)
  {
    hide ImageOf, O.Own, F.NoHoles, O.Shape;
    var fs := ImageOf(g, home);
    var owner :| SoundBy(g, fs, owner);
    m := S.Mach(fs.blocks, fs.inodes, fs.inodes, owner, map[], map[]);
    assert m.spare.Keys == {};
    assert S.V(m) == fs == OnDisk(m);
    ShapeSize(g, fs);
    forall i | 0 <= i < g.ninodes ensures S.Finished(g, fs, i) {
      assert F.NoHoles(g, fs, i);
    }
  }

  lemma ShapeSize(g: L.Geometry, fs: O.Fs)
    requires O.Shape(g, fs)
    ensures |fs.inodes| == g.ninodes
  {
  }

  // ---------- what every step keeps ----------

  /** Whatever is half done is an open operation's. */
  ghost predicate Held(m: S.Mach, busy: set<nat>) {
    (forall b :: b in m.spare ==> m.spare[b] in busy) && (forall i :: i in m.dirty ==> m.dirty[i] in busy)
  }

  ghost predicate Up(g: L.Geometry, m: S.Mach, a: Spec) {
    S.Inv(g, m) && Matches(g, a.current, m) && Held(m, a.busy)
  }

  ghost predicate JointInv(c: Config, g: L.Geometry, j: Joint, a: Spec) {
    Sim(c, j.s, a) && Settled(a) && Safe(g, a) && (!Booting(j.s) ==> Up(g, j.m, a))
  }

  /** When the last operation is through, the file system is quiet. */
  lemma LastThrough(m: S.Mach, busy: set<nat>, p: nat)
    requires Held(m, busy) && Through(m, p)
    ensures Held(m, busy - {p})
    ensures busy == {p} ==> Quiet(m)
  {
    if busy == {p} {
      assert forall b :: b !in m.spare;
      assert forall i :: i !in m.dirty;
    }
  }

  lemma HeldNext(g: L.Geometry, m: S.Mach, p: nat, op: S.Op, m': S.Mach, busy: set<nat>)
    requires S.Next(g, m, p, op, m') && Held(m, busy) && p in busy
    ensures Held(m', busy)
  {
    hide O.Shape, S.Subtree, O.Store, L.Flip;
  }

  /** Only the end of recovery leaves boot. */
  lemma BootPhases(c: Config, s: State, e: Step, s': State)
    requires Inv(c, s) && Next(c, s, e, s')
    ensures Booting(s) && !e.RecoverErase? ==> Booting(s')
    ensures e.Crash? ==> Booting(s')
    ensures e.RecoverErase? ==> !Booting(s')
    ensures e.Modify? ==> Booting(s') == Booting(s)
    ensures e.Modify? || e.EndOp? ==> !Booting(s)
  {
    hide Inv;
    if e.Modify? || e.EndOp? {
      OpRunning(c, s, e.p);
    }
  }

  /** What the step does to the promised disk, as far as the file system is concerned. */
  lemma SafeNext(g: L.Geometry, a: Spec, e: Step, a': Spec)
    requires SpecNext(a, e, a') && Safe(g, a) && Settled(a)
    requires e.EndOp? && a.busy == {e.p} ==> Sound(g, a.current)
    ensures Safe(g, a') && Settled(a')
    ensures !e.Modify? && !e.Crash? ==> a'.current == a.current
    ensures !e.BeginOp? && !e.EndOp? && !e.Crash? ==> a'.busy == a.busy
    ensures e.BeginOp? ==> a'.busy == a.busy + {e.p}
    ensures e.EndOp? ==> a'.busy == a.busy - {e.p}
    ensures e.Modify? ==> e.p in a.busy
  {
    hide Sound;
    SettledNext(a, e, a');
    if e.EndOp? && a.busy == {e.p} {
      assert a.busy - {e.p} == {};
    }
  }

  lemma LogMove(c: Config, g: L.Geometry, j: Joint, e: Step, j': Joint, a: Spec) returns (a': Spec)
    requires JointInv(c, g, j, a) && Fits(c, j.s) && JointNext(c, g, j, Log(e), j')
    ensures SpecNext(a, e, a') && JointInv(c, g, j', a')
  {
    hide Sim, Next, Inv, Sound, Logical, Matches, S.Inv, Booting;
    a' := Simulate(c, j.s, e, j'.s, a);
    SimInv(c, j.s, a);
    BootPhases(c, j.s, e, j'.s);
    if e.EndOp? {
      LastThrough(j.m, a.busy, e.p);
      if a.busy == {e.p} {
        QuietSound(g, a.current, j.m);
      }
    }
    SafeNext(g, a, e, a');
    if !Booting(j'.s) && e.RecoverErase? {
      LogicalIs(c, j'.s, a');
    }
  }

  lemma LogicalIs(c: Config, s: State, a: Spec)
    requires Sim(c, s, a) && !Booting(s)
    ensures |s.disk| == c.nblocks && a.current == Logical(c, s)
  {
    hide Inv, Effective, Logical;
    InvFacts(c, s);
  }

  lemma WriteMove(c: Config, g: L.Geometry, j: Joint, p: nat, b: int, v: Block, op: S.Op, j': Joint, a: Spec)
    returns (a': Spec)
    requires JointInv(c, g, j, a) && Fits(c, j.s) && JointNext(c, g, j, Write(p, b, v, op), j')
    ensures SpecNext(a, Modify(p, b, v), a') && JointInv(c, g, j', a')
  {
    hide Sim, Inv, Sound, Logical, Matches, S.Inv, Booting, S.Next, Held, Next;
    var e := Modify(p, b, v);
    SimInv(c, j.s, a);
    a' := Simulate(c, j.s, e, j'.s, a);
    BootPhases(c, j.s, e, j'.s);
    SafeNext(g, a, e, a');
    LogicalIs(c, j'.s, a');
    MachInv(g, j.m, p, op, j'.m);
    HeldNext(g, j.m, p, op, j'.m, a.busy);
  }

  lemma MachInv(g: L.Geometry, m: S.Mach, p: nat, op: S.Op, m': S.Mach)
    requires S.Inv(g, m) && S.Next(g, m, p, op, m')
    ensures S.Inv(g, m')
    ensures S.InMemory(op) ==> OnDisk(m') == OnDisk(m)
  {
    hide S.Inv, O.Shape, O.Store, S.Subtree;
    S.StepInv(g, m, p, op);
  }

  lemma MemMove(c: Config, g: L.Geometry, j: Joint, p: nat, op: S.Op, j': Joint, a: Spec)
    requires JointInv(c, g, j, a) && JointNext(c, g, j, Mem(p, op), j')
    ensures JointInv(c, g, j', a)
  {
    hide Sim, Inv, Sound, Logical, S.Inv, S.Next, Held, Agrees, ImageOf, O.Shape;
    BusyIn(c, j.s, p, a);
    MachInv(g, j.m, p, op, j'.m);
    HeldNext(g, j.m, p, op, j'.m, a.busy);
  }

  lemma BusyIn(c: Config, s: State, p: nat, a: Spec)
    requires Sim(c, s, a) && ProcInOp(s, p)
    ensures p in a.busy && !Booting(s)
  {
    hide Inv, Effective, Logical;
    OpRunning(c, s, p);
  }

  lemma StartInv(c: Config, g: L.Geometry, j: Joint) returns (a: Spec)
    requires Init(c, j.s) && RecoversSound(c, g, j.s.disk)
    ensures JointInv(c, g, j, a)
  {
    hide Sim, Sound, Recover;
    a := AtBoot(c, j.s);
  }

  /** Every state of every joint run. */
  lemma {:induction false} JointRunInv(c: Config, g: L.Geometry, js: seq<Joint>, mvs: seq<Move>, n: nat)
    returns (a: Spec)
    requires JointRun(c, g, js, mvs) && n < |js| && RecoversSound(c, g, js[0].s.disk)
    requires forall i :: 0 <= i < |js| ==> Fits(c, js[i].s)
    ensures JointInv(c, g, js[n], a)
  {
    hide JointInv, JointNext, RecoversSound, Init, Fits;
    if n == 0 {
      a := StartInv(c, g, js[0]);
    } else {
      var l := n - 1;
      var a0 := JointRunInv(c, g, js, mvs, l);
      assert JointNext(c, g, js[l], mvs[l], js[l + 1]);
      match mvs[l]
      case Log(e) => a := LogMove(c, g, js[l], e, js[n], a0);
      case Write(p, b, v, op) => a := WriteMove(c, g, js[l], p, b, v, op, js[n], a0);
      case Mem(p, op) =>
        MemMove(c, g, js[l], p, op, js[n], a0);
        a := a0;
    }
  }

  /**
   Block ownership survives crashes, whatever interleaves: in every run of operations over the log whose
   entries fit it, from a disk that recovers to a sound file system, recovery from the disk at any point
   gives a sound one.
   */
  lemma InterleavedSurvives(c: Config, g: L.Geometry, js: seq<Joint>, mvs: seq<Move>, n: nat)
    requires JointRun(c, g, js, mvs) && n < |js| && RecoversSound(c, g, js[0].s.disk)
    requires forall i :: 0 <= i < |js| ==> Fits(c, js[i].s)
    ensures RecoversSound(c, g, js[n].s.disk)
  {
    hide Sim, Sound, Recover, HomeOf, JointRun;
    var a := JointRunInv(c, g, js, mvs, n);
    SimIsCrashSafe(c, js[n].s, a);
  }
}
