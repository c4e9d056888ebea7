/**
 What one operation of the file system does alone, as a run of its steps: allocating a block, writing one,
 freeing everything an inode holds. The code in FileSystem is proved to be such runs.
 */
module FsTraces {
  import opened FsLayout
  import opened FsOwnership
  import opened FsFiles
  import opened FsTruncate
  import opened FsSteps

  /** The process that runs; which one makes no difference. */
  const SELF: nat := 0

  /** Process `p` takes the steps `ops`, and nobody else any. */
  ghost predicate Runs(g: Geometry, m: Mach, p: nat, ops: seq<Op>, m': Mach)
    decreases |ops|
  {
    if ops == [] then m' == m
    else exists mid :: Next(g, m, p, ops[0], mid) && Runs(g, mid, p, ops[1..], m')
  }

  ghost predicate Reaches(g: Geometry, m: Mach, p: nat, m': Mach) {
    exists ops :: Runs(g, m, p, ops, m')
  }

  lemma {:induction false} RunsOn(g: Geometry, m: Mach, p: nat, ops: seq<Op>, mid: Mach, ops': seq<Op>, m': Mach)
    requires Runs(g, m, p, ops, mid) && Runs(g, mid, p, ops', m')
    ensures Runs(g, m, p, ops + ops', m')
    decreases |ops|
  {
    hide Next;
    if ops == [] {
      assert ops + ops' == ops';
    } else {
      var x :| Next(g, m, p, ops[0], x) && Runs(g, x, p, ops[1..], mid);
      RunsOn(g, x, p, ops[1..], mid, ops', m');
      assert (ops + ops')[0] == ops[0] && (ops + ops')[1..] == ops[1..] + ops';
    }
  }

  lemma ReachRefl(g: Geometry, m: Mach, p: nat)
    ensures Reaches(g, m, p, m)
  {
    assert Runs(g, m, p, [], m);
  }

  lemma ReachTrans(g: Geometry, m: Mach, p: nat, mid: Mach, m': Mach)
    requires Reaches(g, m, p, mid) && Reaches(g, mid, p, m')
    ensures Reaches(g, m, p, m')
  {
    hide Runs;
    var ops :| Runs(g, m, p, ops, mid);
    var ops' :| Runs(g, mid, p, ops', m');
    RunsOn(g, m, p, ops, mid, ops', m');
  }

  lemma ReachStep(g: Geometry, m: Mach, p: nat, op: Op, m': Mach)
    requires Next(g, m, p, op, m')
    ensures Reaches(g, m, p, m')
  {
    hide Next;
    assert [op][1..] == [] && Runs(g, m', p, [op][1..], m');
    assert Runs(g, m, p, [op], m');
  }

  /** Whatever an operation does alone keeps ownership. */
  lemma ReachInv(g: Geometry, m: Mach, p: nat, m': Mach)
    requires Reaches(g, m, p, m') && FsSteps.Inv(g, m)
    ensures FsSteps.Inv(g, m')
  {
    hide FsSteps.Inv, Runs;
    var ops :| Runs(g, m, p, ops, m');
    RunsInv(g, m, p, ops, m');
  }

  lemma {:induction false} RunsInv(g: Geometry, m: Mach, p: nat, ops: seq<Op>, m': Mach)
    requires Runs(g, m, p, ops, m') && FsSteps.Inv(g, m)
    ensures FsSteps.Inv(g, m')
    decreases |ops|
  {
    hide FsSteps.Inv, Guard, Do;
    if ops != [] {
      var mid :| FsSteps.Next(g, m, p, ops[0], mid) && Runs(g, mid, p, ops[1..], m');
      FsSteps.StepInv(g, m, p, ops[0]);
      RunsInv(g, mid, p, ops[1..], m');
    }
  }

  /** bmap's allocation of a slot: mark, zero, store. */
  lemma SlotReach(g: Geometry, fs: Fs, disk: seq<Inode>, owner: map<int, Slot>, p: nat, b: int, i: int, k: int)
    requires Own(g, fs, owner, {}) && 0 <= b < g.size && !Used(g, fs.blocks, b)
    requires IsSlot(g, i, k) && Addr(g, fs, i, k) == 0 && (k > NDIRECT ==> fs.inodes[i].addrs[NDIRECT] != 0)
    ensures var mid := Fs(Flip(g, fs.blocks, b)[b := ZeroBlock()], fs.inodes);
      && Shape(g, mid) && IsData(g, b) && (k > NDIRECT ==> IsData(g, fs.inodes[i].addrs[NDIRECT]))
      && var r := Store(g, mid, i, k, b);
         Reaches(g, Mach(fs.blocks, fs.inodes, disk, owner, map[], map[i := p]), p,
                    Mach(r.blocks, r.inodes, disk, owner[b := Slot(i, k)], map[], map[i := p]))
  {
    hide Used, Flip, BlockOk, Addr, Word, Reaches;
    var m := Mach(fs.blocks, fs.inodes, disk, owner, map[], map[i := p]);
    AllocOwn(g, fs, owner, {}, b, Fs(Flip(g, fs.blocks, b)[b := ZeroBlock()], fs.inodes));
    if k > NDIRECT { IndirectOwned(g, fs, owner, {}, i); }
    var m1 := m.(blocks := Flip(g, fs.blocks, b), spare := map[b := p]);
    var m2 := m1.(blocks := m1.blocks[b := ZeroBlock()]);
    var mid := Fs(m2.blocks, fs.inodes);
    assert Addr(g, mid, i, k) == 0;
    var r := Store(g, mid, i, k, b);
    var m3 := Mach(r.blocks, r.inodes, disk, owner[b := Slot(i, k)], map[], map[i := p]);
    ReachStep(g, m, p, Mark(b), m1);
    ReachStep(g, m1, p, Patch(b, ZeroBlock()), m2);
    assert m2.spare - {b} == map[];
    ReachStep(g, m2, p, if k <= NDIRECT then Attach(i, k, b) else Enter(i, k, b), m3);
    ReachTrans(g, m, p, m1, m2);
    ReachTrans(g, m, p, m2, m3);
  }

  /** Everything of inode `i` from rank `n` on. */
  ghost function Left(owner: map<int, Slot>, i: int, n: int): map<int, nat> {
    map x | x in owner && owner[x].inum == i && Rank(owner[x].k) >= n :: SELF
  }

  /** The owners without the first `n` ranks of inode `i`. */
  ghost function Past(owner: map<int, Slot>, i: int, n: int): map<int, Slot> {
    map x | x in owner && !Gone(owner, i, n, x) :: owner[x]
  }

  lemma PastAll(g: Geometry, fs: Fs, owner: map<int, Slot>, i: int)
    requires Own(g, fs, owner, {})
    ensures Past(owner, i, 0) == owner && Past(owner, i, NSLOTS) == Disowned(owner, i)
    ensures Left(owner, i, NSLOTS) == map[]
  {
    hide Addr, Used;
  }

  /** The block in a slot is the only one that has the slot for its owner. */
  lemma SlotHas(g: Geometry, fs: Fs, owner: map<int, Slot>, i: int, k: int)
    requires Own(g, fs, owner, {}) && IsSlot(g, i, k)
    ensures var b := Addr(g, fs, i, k);
      && (b != 0 ==> IsData(g, b) && b in owner && owner[b] == Slot(i, k))
      && (forall x :: x in owner && owner[x].inum == i && Rank(owner[x].k) == Rank(k) ==> x == b && b != 0)
  {
    hide Used;
    forall x | x in owner && owner[x].inum == i && Rank(owner[x].k) == Rank(k) ensures owner[x] == Slot(i, k) {
      assert IsSlot(g, i, owner[x].k);
    }
  }

  /** One rank further, exactly the block of slot `k` is gone. */
  lemma RankNext(owner: map<int, Slot>, i: int, k: int, b: int)
    requires b != 0 ==> b in owner && owner[b] == Slot(i, k)
    requires forall x :: x in owner && owner[x].inum == i && Rank(owner[x].k) == Rank(k) ==> x == b && b != 0
    ensures Left(owner, i, Rank(k) + 1) == if b == 0 then Left(owner, i, Rank(k)) else Left(owner, i, Rank(k)) - {b}
    ensures Past(owner, i, Rank(k) + 1) == if b == 0 then Past(owner, i, Rank(k)) else Past(owner, i, Rank(k)) - {b}
  {
    hide Rank;
    forall x | x in owner
      ensures Gone(owner, i, Rank(k) + 1, x) <==> Gone(owner, i, Rank(k), x) || (x == b && b != 0)
      ensures owner[x].inum == i ==>
        (Rank(owner[x].k) >= Rank(k) + 1 <==> Rank(owner[x].k) >= Rank(k) && !(x == b && b != 0))
    {
    }
    var a, c := Left(owner, i, Rank(k) + 1), Left(owner, i, Rank(k));
    forall x ensures x in a <==> x in c && !(x == b && b != 0) {
      if x in owner && owner[x].inum == i {
        assert Rank(owner[x].k) >= Rank(k) + 1 <==> Rank(owner[x].k) >= Rank(k) && !(x == b && b != 0);
      }
    }
    if b == 0 {
      assert a == c;
    } else {
      assert a == c - {b};
    }
  }

  lemma OneSpare(b: int)
    ensures var one := {b}; map[] + (map x | x in one :: SELF) == map[b := SELF]
  {
  }

  /** itrunc on a direct block: the address goes, and the bit. */
  lemma FreeDirect(g: Geometry, fs0: Fs, owner: map<int, Slot>, fs: Fs, disk: seq<Inode>, i: int, k: int)
    requires Own(g, fs0, owner, {}) && IsSlot(g, i, k) && k < NDIRECT && Shape(g, fs)
    requires fs.inodes[i].addrs[k] == fs0.inodes[i].addrs[k]
    ensures var b := fs.inodes[i].addrs[k];
      var m := Mach(fs.blocks, fs.inodes, disk, Past(owner, i, k), map[], map[i := SELF]);
      if b == 0 then Past(owner, i, k + 1) == Past(owner, i, k)
      else
        && 0 <= b < g.size
        && var mem := fs.inodes[i := fs.inodes[i].(addrs := fs.inodes[i].addrs[k := 0])];
           Reaches(g, m, SELF, Mach(Flip(g, fs.blocks, b), mem, disk, Past(owner, i, k + 1), map[], map[i := SELF]))
  {
    hide Own, Used, Flip, BlockOk, Word, Reaches;
    OwnShape(g, fs0, owner, {});
    SlotHas(g, fs0, owner, i, k);
    var b := fs.inodes[i].addrs[k];
    assert b == Addr(g, fs0, i, k) == Addr(g, fs, i, k);
    RankNext(owner, i, k, b);
    if b != 0 {
      var own := Past(owner, i, k);
      var m := Mach(fs.blocks, fs.inodes, disk, own, map[], map[i := SELF]);
      assert Subtree(own, i, k) == {b};
      var mem := fs.inodes[i := fs.inodes[i].(addrs := fs.inodes[i].addrs[k := 0])];
      var m1 := Mach(fs.blocks, mem, disk, own - {b}, map[b := SELF], map[i := SELF]);
      var m2 := Mach(Flip(g, fs.blocks, b), mem, disk, Past(owner, i, k + 1), map[], map[i := SELF]);
      OneSpare(b);
      assert m1.spare - {b} == map[];
      ReachStep(g, m, SELF, Detach(i, k), m1);
      ReachStep(g, m1, SELF, Clear(b), m2);
      ReachTrans(g, m, SELF, m1, m2);
    }
  }

  lemma IndirectGone(g: Geometry, fs: Fs, owner: map<int, Slot>, i: int)
    requires Own(g, fs, owner, {})
    ensures var own := Past(owner, i, NDIRECT);
      var gone := Subtree(own, i, NDIRECT);
      own - gone == Past(owner, i, NSLOTS) && map[] + (map x | x in gone :: SELF) == Left(owner, i, NDIRECT)
  {
    hide Addr, Used, BlockOk;
    assert forall x :: x in owner ==> IsSlot(g, owner[x].inum, owner[x].k);
  }

  /** itrunc gives up the indirect block, and with it all its entries. */
  lemma DropIndirect(g: Geometry, fs0: Fs, owner: map<int, Slot>, fs: Fs, disk: seq<Inode>, i: int)
    requires Own(g, fs0, owner, {}) && IsSlot(g, i, NDIRECT) && Shape(g, fs)
    requires fs.inodes[i].addrs[NDIRECT] == fs0.inodes[i].addrs[NDIRECT] != 0
    ensures Reaches(g, Mach(fs.blocks, fs.inodes, disk, Past(owner, i, NDIRECT), map[], map[i := SELF]), SELF,
                       Mach(fs.blocks, fs.inodes[i := fs.inodes[i].(addrs := fs.inodes[i].addrs[NDIRECT := 0])], disk,
                            Past(owner, i, NSLOTS), Left(owner, i, NDIRECT), map[i := SELF]))
  {
    hide Used, BlockOk, Word, Reaches;
    var own := Past(owner, i, NDIRECT);
    var m := Mach(fs.blocks, fs.inodes, disk, own, map[], map[i := SELF]);
    assert Addr(g, fs, i, NDIRECT) != 0;
    hide Addr;
    IndirectGone(g, fs0, owner, i);
    var m1 := Mach(fs.blocks, fs.inodes[i := fs.inodes[i].(addrs := fs.inodes[i].addrs[NDIRECT := 0])], disk,
                   Past(owner, i, NSLOTS), Left(owner, i, NDIRECT), map[i := SELF]);
    ReachStep(g, m, SELF, Detach(i, NDIRECT), m1);
  }

  /** One bfree of what the indirect block held, or of the block itself. */
  lemma FreeNext(g: Geometry, fs0: Fs, owner: map<int, Slot>, fs: Fs, disk: seq<Inode>, own: map<int, Slot>,
                 i: int, k: int)
    requires Own(g, fs0, owner, {}) && IsSlot(g, i, k) && Shape(g, fs)
    ensures var b := Addr(g, fs0, i, k);
      if b == 0 then Left(owner, i, Rank(k) + 1) == Left(owner, i, Rank(k))
      else
        && 0 <= b < g.size
        && Reaches(g, Mach(fs.blocks, fs.inodes, disk, own, Left(owner, i, Rank(k)), map[i := SELF]), SELF,
                      Mach(Flip(g, fs.blocks, b), fs.inodes, disk, own, Left(owner, i, Rank(k) + 1), map[i := SELF]))
  {
    hide Own, Used, Flip, BlockOk, Addr, Reaches;
    OwnShape(g, fs0, owner, {});
    SlotHas(g, fs0, owner, i, k);
    var b := Addr(g, fs0, i, k);
    RankNext(owner, i, k, b);
    if b != 0 {
      var m := Mach(fs.blocks, fs.inodes, disk, own, Left(owner, i, Rank(k)), map[i := SELF]);
      var m1 := Mach(Flip(g, fs.blocks, b), fs.inodes, disk, own, Left(owner, i, Rank(k) + 1), map[i := SELF]);
      ReachStep(g, m, SELF, Clear(b), m1);
    }
  }

  /** Taking hold of an inode, changing its type, links or size, and letting it go in step with the disk. */
  lemma HoldInode(g: Geometry, fs: Fs, disk: seq<Inode>, owner: map<int, Slot>, i: int)
    requires Shape(g, fs) && g.Valid() && 0 <= i < g.ninodes
    ensures Reaches(g, Mach(fs.blocks, fs.inodes, disk, owner, map[], map[]), SELF,
                       Mach(fs.blocks, fs.inodes, disk, owner, map[], map[i := SELF]))
  {
    hide Reaches;
    var m := Mach(fs.blocks, fs.inodes, disk, owner, map[], map[]);
    assert fs.inodes[i := fs.inodes[i]] == fs.inodes;
    ReachStep(g, m, SELF, Set(i, fs.inodes[i]), m.(dirty := map[i := SELF]));
  }

  lemma WriteInode(g: Geometry, fs: Fs, disk: seq<Inode>, owner: map<int, Slot>, i: int, d: Inode)
    requires Shape(g, fs) && g.Valid() && 0 <= i < g.ninodes == |disk| && d.addrs == fs.inodes[i].addrs
    requires Shape(g, Fs(fs.blocks, fs.inodes[i := d])) && FsSteps.Finished(g, Fs(fs.blocks, fs.inodes[i := d]), i)
    ensures Reaches(g, Mach(fs.blocks, fs.inodes, disk, owner, map[], map[i := SELF]), SELF,
                       Mach(fs.blocks, fs.inodes[i := d], disk[i := d], owner, map[], map[]))
  {
    hide Reaches, FsSteps.Finished;
    var m := Mach(fs.blocks, fs.inodes, disk, owner, map[], map[i := SELF]);
    var m1 := m.(mem := fs.inodes[i := d]);
    var m2 := Mach(fs.blocks, fs.inodes[i := d], disk[i := d], owner, map[], map[]);
    assert m.dirty[i := SELF] == m.dirty && m1.dirty - {i} == map[];
    ReachStep(g, m, SELF, Set(i, d), m1);
    ReachStep(g, m1, SELF, Update(i), m2);
    ReachTrans(g, m, SELF, m1, m2);
  }

  lemma LetInode(g: Geometry, fs: Fs, disk: seq<Inode>, owner: map<int, Slot>, i: int)
    requires Shape(g, fs) && g.Valid() && 0 <= i < g.ninodes == |disk| && disk[i] == fs.inodes[i]
    requires FsSteps.Finished(g, fs, i)
    ensures Reaches(g, Mach(fs.blocks, fs.inodes, disk, owner, map[], map[i := SELF]), SELF,
                       Mach(fs.blocks, fs.inodes, disk, owner, map[], map[]))
  {
    hide Reaches, FsSteps.Finished;
    var m := Mach(fs.blocks, fs.inodes, disk, owner, map[], map[i := SELF]);
    assert m.dirty - {i} == map[];
    ReachStep(g, m, SELF, FsSteps.Drop(i), m.(dirty := map[]));
  }

  /** A chunk of writei. */
  lemma PatchReach(g: Geometry, fs: Fs, disk: seq<Inode>, owner: map<int, Slot>, i: int, b: int, v: Block)
    requires Shape(g, fs) && g.Valid() && b in owner && owner[b].k != NDIRECT && 0 <= b < g.size && BlockOk(v)
    ensures Reaches(g, Mach(fs.blocks, fs.inodes, disk, owner, map[], map[i := SELF]), SELF,
                       Mach(fs.blocks[b := v], fs.inodes, disk, owner, map[], map[i := SELF]))
  {
    hide Reaches;
    var m := Mach(fs.blocks, fs.inodes, disk, owner, map[], map[i := SELF]);
    ReachStep(g, m, SELF, FsSteps.Patch(b, v), m.(blocks := fs.blocks[b := v]));
  }
}
