/**
 Crash recovery and block ownership together. The file system is read out of the home blocks of the
 log; if every group of operations leaves it with the bitmap marking exactly the metadata and the
 blocks of allocated inodes, then so does recovery from any point at which the power can fail.
 */
module CrashOwnership {
  import opened LogDisk
  import opened AtomicDisk
  import opened LogProtocol
  import opened LogInvariant
  import opened LogRefinement
  import L = FsLayout
  import O = FsOwnership
  import F = FsFiles
  import I = FsInodes
  import FS = FileSystem

  // ---------- the file system in the home blocks ----------

  const WORD := 0x1_0000_0000

  function Byte(w: int, k: nat): (r: int)
    requires k < 4
    ensures 0 <= r < 256
  {
    (if k == 0 then w else if k == 1 then w / 256 else if k == 2 then w / 65536 else w / 16777216) % 256
  }

  /** The 512 bytes of a block, each int with its low byte first. */
  function Bytes(b: Block): (r: L.Block)
    ensures L.BlockOk(r)
  {
    seq(L.BSIZE, n requires 0 <= n < L.BSIZE => Byte(b[n / 4], n % 4))
  }

  /** `struct dinode` number `j` of an inode block: sixteen words, the type and link count half a word each. */
  function DecodeInode(b: Block, j: nat): (r: L.Inode)
    requires j < L.IPB
    ensures |r.addrs| == L.NDIRECT + 1
  {
    L.Inode(b[16 * j] % 65536, b[16 * j + 1] / 65536 % 65536, b[16 * j + 2] % WORD,
            seq(L.NDIRECT + 1, m requires 0 <= m < L.NDIRECT + 1 => b[16 * j + 3 + m] % WORD))
  }

  /** What the home blocks say; blocks of the log area count as zero. */
  function ImageOf(g: L.Geometry, home: Home): (r: O.Fs)
    requires g.Valid()
    ensures O.Shape(g, r)
  {
    O.Fs(
      seq(g.size, x requires 0 <= x < g.size => if x in home then Bytes(home[x]) else L.ZeroBlock()),
      seq(g.ninodes, i requires 0 <= i < g.ninodes =>
        if g.InodeBlock(i) in home then DecodeInode(home[g.InodeBlock(i)], i % L.IPB)
        else L.Inode(0, 0, 0, I.NoAddrs())))
  }

  /** The invariant of FileSys, of an image. */
  ghost predicate SoundBy(g: L.Geometry, fs: O.Fs, owner: map<int, O.Slot>) {
    && O.Own(g, fs, owner, {}) && I.FreeClean(fs.inodes)
    && forall j :: 0 <= j < g.ninodes ==> F.NoHoles(g, fs, j)
  }

  ghost predicate Sound(g: L.Geometry, home: Home) {
    g.Valid() && exists owner :: SoundBy(g, ImageOf(g, home), owner)
  }

  /** Every bit of a sound image is set exactly for metadata and for a block of one allocated inode, in one place. */
  lemma SoundExact(g: L.Geometry, home: Home, x: int)
    requires Sound(g, home) && 0 <= x < g.size
    ensures var fs := ImageOf(g, home);
      && (L.Used(g, fs.blocks, x) <==> x < g.nmeta || (x != 0 && exists i, k :: I.HeldIn(g, fs, i, k, x)))
      && forall i, k, j, m :: x != 0 && I.HeldIn(g, fs, i, k, x) && I.HeldIn(g, fs, j, m, x) ==>
           i == j && k == m && x >= g.nmeta
  {
    hide ImageOf, O.Own, L.Used, F.NoHoles, I.HeldIn, I.FreeClean, O.Shape;
    var fs := ImageOf(g, home);
    var owner :| SoundBy(g, fs, owner);
    I.BitmapExact(g, fs, owner, x);
    forall i, k, j, m | x != 0 && I.HeldIn(g, fs, i, k, x) && I.HeldIn(g, fs, j, m, x)
      ensures i == j && k == m && x >= g.nmeta
    {
      I.HeldOnce(g, fs, owner, x, i, k, j, m);
    }
  }

  /** The same inodes, bitmap and data blocks. The rest is the boot, super, log and inode blocks. */
  ghost predicate Agrees(g: L.Geometry, fs: O.Fs, fs': O.Fs)
    requires O.Shape(g, fs) && O.Shape(g, fs')
  {
    && fs'.inodes == fs.inodes
    && forall x :: 0 <= x < g.size && (g.IsBitmap(x) || g.nmeta <= x) ==> fs'.blocks[x] == fs.blocks[x]
  }

  lemma AgreesUsed(g: L.Geometry, fs: O.Fs, fs': O.Fs, x: nat)
    requires O.Shape(g, fs) && O.Shape(g, fs') && Agrees(g, fs, fs') && x < g.size
    ensures L.Used(g, fs'.blocks, x) == L.Used(g, fs.blocks, x)
  {
    assert g.IsBitmap(g.BmapBlock(x));
  }

  lemma AgreesAddr(g: L.Geometry, fs: O.Fs, fs': O.Fs, owner: map<int, O.Slot>)
    requires O.Own(g, fs, owner, {}) && O.Shape(g, fs') && Agrees(g, fs, fs')
    ensures O.SameAddrs(g, fs, fs')
  {
    forall i | 0 <= i < g.ninodes && 0 < fs.inodes[i].addrs[L.NDIRECT] < g.size
      ensures fs'.blocks[fs.inodes[i].addrs[L.NDIRECT]] == fs.blocks[fs.inodes[i].addrs[L.NDIRECT]]
    {
      assert O.IsSlot(g, i, L.NDIRECT) && O.IsData(g, O.Addr(g, fs, i, L.NDIRECT));
    }
    O.AddrFrame(g, fs, fs');
  }

  /** Ownership does not look at the other metadata. */
  lemma AgreesSound(g: L.Geometry, fs: O.Fs, fs': O.Fs, owner: map<int, O.Slot>)
    requires SoundBy(g, fs, owner) && O.Shape(g, fs) && O.Shape(g, fs') && Agrees(g, fs, fs')
    ensures SoundBy(g, fs', owner)
  {
    AgreesAddr(g, fs, fs', owner);
    hide O.Addr, L.Used, L.BlocksOk;
    forall x | 0 <= x < g.size ensures L.Used(g, fs'.blocks, x) == L.Used(g, fs.blocks, x) {
      AgreesUsed(g, fs, fs', x);
    }
    forall j | 0 <= j < g.ninodes ensures F.NoHoles(g, fs', j) {
      AgreesHoles(g, fs, fs', j);
    }
  }

  lemma AgreesHoles(g: L.Geometry, fs: O.Fs, fs': O.Fs, j: int)
    requires O.Shape(g, fs) && O.Shape(g, fs') && O.SameAddrs(g, fs, fs') && fs'.inodes == fs.inodes
    requires 0 <= j < g.ninodes && F.NoHoles(g, fs, j)
    ensures F.NoHoles(g, fs', j)
  {
    hide O.Addr, L.BlocksOk;
    forall bn | 0 <= bn < L.MAXFILE && bn * L.BSIZE < fs'.inodes[j].size
      ensures 0 < F.FileBlock(g, fs', j, bn) < g.size
    {
      assert 0 < F.FileBlock(g, fs, j, bn) < g.size;
    }
  }

  /** Home blocks as the routines of FileSys leave them are sound. */
  lemma FileSysSound(fs: FS.FileSys, home: Home)
    requires fs.Valid() && fs.g.Valid() && O.Shape(fs.g, fs.View())
    requires Agrees(fs.g, fs.View(), ImageOf(fs.g, home))
    ensures Sound(fs.g, home)
  {
    hide ImageOf, O.Own, F.NoHoles, I.FreeClean, O.Shape, Agrees;
    AgreesSound(fs.g, fs.View(), ImageOf(fs.g, home), fs.owner);
  }

  // ---------- groups of operations on the atomic disk ----------

  /** A group: from the state in which its first operation begins to the one in which its last has ended. */
  ghost predicate Group(ss: seq<State>, es: seq<Step>, a: nat, b: nat)
    requires |ss| == |es| + 1
  {
    && a < b < |ss| && ss[a].phase.Running? && ss[a].outstanding == 0 && ss[b].outstanding == 0 && es[b - 1].EndOp?
    && forall i :: a < i < b ==> ss[i].outstanding != 0
  }

  /** Readers see a sound file system. */
  ghost predicate SoundAt(c: Config, g: L.Geometry, s: State) {
    |s.disk| == c.nblocks && Sound(g, Logical(c, s))
  }

  /** Every group leaves a sound file system sound. */
  ghost predicate GroupsKeep(c: Config, g: L.Geometry, ss: seq<State>, es: seq<Step>)
    requires |ss| == |es| + 1
  {
    forall a: nat, b: nat :: Group(ss, es, a, b) && SoundAt(c, g, ss[a]) ==> SoundAt(c, g, ss[b])
  }

  lemma BusyIs(c: Config, s: State)
    requires Inv(c, s)
    ensures Busy(s) == {} <==> s.outstanding == 0
  {
    hide CacheInv, HoldInv, PhaseInv;
    OpenZero(s.procs);
    if Busy(s) == {} {
      forall p | 0 <= p < |s.procs| ensures s.procs[p].Idle? {
        assert p !in Busy(s);
      }
    }
  }

  /** Between groups what readers see cannot be lost, unless it is being committed. */
  ghost predicate Settled(a: Spec) {
    && (a.inflight.Some? ==> a.busy == {} && a.inflight.value == a.current)
    && (a.busy == {} && a.inflight.None? ==> a.current == a.stable)
  }

  lemma SettledNext(a: Spec, e: Step, a': Spec)
    requires Settled(a) && SpecNext(a, e, a')
    ensures Settled(a')
  {
    if e.BeginOp? {
      assert e.p in a'.busy;
    }
  }

  lemma {:induction false} SettledRun(specs: seq<Spec>, es: seq<Step>, n: nat)
    requires SpecRun(specs, es) && Settled(specs[0]) && n < |specs|
    ensures Settled(specs[n])
  {
    if n > 0 {
      SettledRun(specs, es, n - 1);
      assert SpecNext(specs[n - 1], es[n - 1], specs[n - 1 + 1]);
      SettledNext(specs[n - 1], es[n - 1], specs[n]);
    }
  }

  /** An open group began when nothing was open or being committed. */
  lemma {:induction false} GroupStart(specs: seq<Spec>, es: seq<Step>, n: nat) returns (a: nat)
    requires SpecRun(specs, es) && n < |specs| && specs[0].busy == {} && specs[n].busy != {}
    ensures a < n && specs[a].busy == {} && specs[a].inflight.None? && es[a].BeginOp?
    ensures forall i :: a < i <= n ==> specs[i].busy != {}
  {
    a := n - 1;
    assert SpecNext(specs[a], es[a], specs[a + 1]);
    if specs[a].busy != {} {
      a := GroupStart(specs, es, n - 1);
    }
  }

  /** What the run of the log and the run of the atomic disk have in common. */
  ghost predicate Pairs(c: Config, ss: seq<State>, es: seq<Step>, specs: seq<Spec>) {
    && |specs| == |ss| == |es| + 1 && SpecRun(specs, es) && Settled(specs[0]) && specs[0].busy == {}
    && (forall i :: 0 <= i < |ss| ==> |ss[i].disk| == c.nblocks && (specs[i].busy == {} <==> ss[i].outstanding == 0))
    && (forall i :: 0 <= i < |ss| && !Booting(ss[i]) ==> specs[i].current == Logical(c, ss[i]))
    && (forall i :: 0 <= i < |es| && es[i].BeginOp? ==> ss[i].phase.Running?)
    && (forall i :: 0 <= i < |es| && es[i].EndOp? ==> !Booting(ss[i + 1]))
  }

  /** A crash can lose only what a sound group replaced by a sound group. */
  ghost predicate Safe(g: L.Geometry, a: Spec) {
    Sound(g, a.stable) && (a.inflight.Some? ==> Sound(g, a.inflight.value))
  }

  lemma {:induction false} SafeRun(c: Config, g: L.Geometry, ss: seq<State>, es: seq<Step>, specs: seq<Spec>, n: nat)
    requires Pairs(c, ss, es, specs) && GroupsKeep(c, g, ss, es) && n < |ss|
    requires specs[0].inflight.None? && Sound(g, specs[0].stable)
    ensures Safe(g, specs[n])
  {
    hide Sound, Logical;
    if n > 0 {
      var l := n - 1;
      SafeRun(c, g, ss, es, specs, l);
      assert SpecNext(specs[l], es[l], specs[l + 1]);
      if es[l].EndOp? && specs[n].busy == {} {
        var a := GroupStart(specs, es, l);
        SettledRun(specs, es, a);
        SafeRun(c, g, ss, es, specs, a);
        assert Group(ss, es, a, n);
        assert specs[n].current == Logical(c, ss[n]);
      }
    }
  }

  lemma PairsAt(c: Config, s: State, a: Spec)
    requires Sim(c, s, a)
    ensures |s.disk| == c.nblocks && (a.busy == {} <==> s.outstanding == 0)
    ensures !Booting(s) ==> a.current == Logical(c, s)
  {
    BusyIs(c, s);
  }

  lemma StepPhase(c: Config, s: State, e: Step, s': State)
    requires Inv(c, s) && Next(c, s, e, s')
    ensures e.BeginOp? ==> s.phase.Running?
    ensures e.EndOp? ==> !Booting(s')
  {
    if e.EndOp? {
      OpRunning(c, s, e.p);
    }
  }

  lemma RunPairs(c: Config, ss: seq<State>, es: seq<Step>) returns (specs: seq<Spec>)
    requires Run(c, ss, es) && AllFit(c, ss)
    ensures |specs| == |ss| && Pairs(c, ss, es, specs) && specs[0].inflight.None?
    ensures DiskOk(c, ss[0].disk) && specs[0].stable == HomeOf(c, Recover(c, ss[0].disk))
    ensures forall i :: 0 <= i < |ss| ==> CrashSafe(c, ss[i].disk, specs[i])
  {
    hide Sim, CrashSafe, Logical, Next, Inv, Booting, Recover, Init;
    specs := CrashAtomicity(c, ss, es);
    forall i | 0 <= i < |ss|
      ensures |ss[i].disk| == c.nblocks && (specs[i].busy == {} <==> ss[i].outstanding == 0)
      ensures !Booting(ss[i]) ==> specs[i].current == Logical(c, ss[i])
    {
      PairsAt(c, ss[i], specs[i]);
    }
    forall i | 0 <= i < |es|
      ensures es[i].BeginOp? ==> ss[i].phase.Running?
      ensures es[i].EndOp? ==> !Booting(ss[i + 1])
    {
      SimInv(c, ss[i], specs[i]);
      StepPhase(c, ss[i], es[i], ss[i + 1]);
    }
    BootDisk(c, ss[0]);
  }

  lemma BootDisk(c: Config, s: State)
    requires Init(c, s)
    ensures DiskOk(c, s.disk)
  {
  }

  ghost predicate RecoversSound(c: Config, g: L.Geometry, d: seq<Block>) {
    DiskOk(c, d) && Sound(g, HomeOf(c, Recover(c, d)))
  }

  /**
   Block ownership survives crashes. Over every run of the log whose transactions fit it, crashes
   anywhere included: if the disk found at boot recovers to a sound file system and every group of
   operations keeps it sound, recovery from the disk as it stands at any point is sound.
   */
  lemma OwnershipSurvives(c: Config, g: L.Geometry, ss: seq<State>, es: seq<Step>, n: nat)
    requires Run(c, ss, es) && AllFit(c, ss) && n < |ss|
    requires RecoversSound(c, g, ss[0].disk) && GroupsKeep(c, g, ss, es)
    ensures RecoversSound(c, g, ss[n].disk)
  {
    hide Sound, Recover, HomeOf, Pairs, GroupsKeep;
    var specs := RunPairs(c, ss, es);
    SafeRun(c, g, ss, es, specs, n);
    assert CrashSafe(c, ss[n].disk, specs[n]);
  }
}
