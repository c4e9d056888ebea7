/**
 The file-system code as atomic steps that any number of operations interleave: a change of one block,
 or of an inode in memory. Block ownership is about the inodes in memory. A block that is marked used
 but in no slot is the private spare of the operation that marked or detached it, and an inode in memory
 that differs from its copy on disk is held by the one operation that changed it.
 */
module FsSteps {
  import opened FsLayout
  import opened FsOwnership
  import opened FsFiles
  import opened FsInodes

  /** `mem` are the inodes in memory and `disk` their copies in the inode blocks. */
  datatype Mach = Mach(blocks: seq<Block>, mem: seq<Inode>, disk: seq<Inode>,
                       owner: map<int, Slot>, spare: map<int, nat>, dirty: map<int, nat>)

  datatype Op =
    | Mark(b: int)                    // balloc: the bitmap bit
    | Patch(b: int, v: Block)         // bzero, or a chunk of writei
    | Attach(i: int, k: int, b: int)  // bmap: ip->addrs[k] = b
    | Enter(i: int, k: int, b: int)   // bmap: a word of the indirect block
    | Detach(i: int, k: int)          // itrunc: ip->addrs[k] = 0
    | Clear(b: int)                   // bfree
    | Set(i: int, d: Inode)           // type, links, size
    | Update(i: int)                  // iupdate
    | Drop(i: int)                    // iunlock of an inode that is as on disk

  function V(m: Mach): Fs { Fs(m.blocks, m.mem) }

  /** Nobody else holds inode `i`. */
  predicate Mine(m: Mach, p: nat, i: int) { i in m.dirty ==> m.dirty[i] == p }

  predicate HasSpare(m: Mach, p: nat, b: int) { b in m.spare && m.spare[b] == p }

  /** The blocks that go with slot `k`: for the indirect block, its entries as well. */
  function Subtree(owner: map<int, Slot>, i: int, k: int): (r: set<int>)
    requires k <= NDIRECT
  {
    set b | b in owner && owner[b].inum == i && (owner[b].k == k || (k == NDIRECT && owner[b].k > NDIRECT))
  }

  /** What iupdate must find: every block below the size allocated, and a free inode without any. */
  ghost predicate Finished(g: Geometry, fs: Fs, i: int)
    requires Shape(g, fs) && 0 <= i < g.ninodes
  {
    NoHoles(g, fs, i) && (fs.inodes[i].kind == 0 ==> FsInodes.Clean(fs.inodes[i]))
  }

  ghost predicate Guard(g: Geometry, m: Mach, p: nat, op: Op)
    requires Shape(g, V(m))
  {
    match op
    case Mark(b) => 0 <= b < g.size && !Used(g, m.blocks, b)
    case Patch(b, v) => BlockOk(v) && (HasSpare(m, p, b) || (b in m.owner && m.owner[b].k != NDIRECT))
    case Attach(i, k, b) =>
      && IsSlot(g, i, k) && k <= NDIRECT && HasSpare(m, p, b) && Mine(m, p, i) && IsData(g, b)
      && Addr(g, V(m), i, k) == 0 && (k == NDIRECT ==> m.blocks[b] == ZeroBlock())
    case Enter(i, k, b) =>
      && IsSlot(g, i, k) && k > NDIRECT && HasSpare(m, p, b) && Mine(m, p, i) && IsData(g, b)
      && IsData(g, m.mem[i].addrs[NDIRECT]) && Addr(g, V(m), i, k) == 0
    case Detach(i, k) => IsSlot(g, i, k) && k <= NDIRECT && Mine(m, p, i) && Addr(g, V(m), i, k) != 0
    case Clear(b) => 0 <= b < g.size && HasSpare(m, p, b)
    case Set(i, d) => 0 <= i < g.ninodes && Mine(m, p, i) && d.addrs == m.mem[i].addrs
    case Update(i) => 0 <= i < g.ninodes && i < |m.disk| && i in m.dirty && m.dirty[i] == p && Finished(g, V(m), i)
    case Drop(i) =>
      && 0 <= i < g.ninodes && i < |m.disk| && i in m.dirty && m.dirty[i] == p && Finished(g, V(m), i)
      && m.disk[i] == m.mem[i]
  }

  /** The steps that write no block. */
  predicate InMemory(op: Op) { op.Attach? || op.Detach? || op.Set? || op.Drop? }

  ghost function Do(g: Geometry, m: Mach, p: nat, op: Op): Mach
    requires g.Valid() && Shape(g, V(m)) && Guard(g, m, p, op)
    requires op.Patch? ==> 0 <= op.b < g.size
  {
    match op
    case Mark(b) => m.(blocks := Flip(g, m.blocks, b), spare := m.spare[b := p])
    case Patch(b, v) => m.(blocks := m.blocks[b := v])
    case Attach(i, k, b) =>
      m.(mem := Store(g, V(m), i, k, b).inodes, owner := m.owner[b := Slot(i, k)], spare := m.spare - {b},
         dirty := m.dirty[i := p])
    case Enter(i, k, b) =>
      m.(blocks := Store(g, V(m), i, k, b).blocks, owner := m.owner[b := Slot(i, k)], spare := m.spare - {b})
    case Detach(i, k) =>
      var gone := Subtree(m.owner, i, k);
      m.(mem := m.mem[i := m.mem[i].(addrs := m.mem[i].addrs[k := 0])], owner := m.owner - gone,
         spare := m.spare + (map b | b in gone :: p), dirty := m.dirty[i := p])
    case Clear(b) => m.(blocks := Flip(g, m.blocks, b), spare := m.spare - {b})
    case Set(i, d) => m.(mem := m.mem[i := d], dirty := m.dirty[i := p])
    case Update(i) => m.(disk := m.disk[i := m.mem[i]], dirty := m.dirty - {i})
    case Drop(i) => m.(dirty := m.dirty - {i})
  }

  /** The inodes nobody holds are as on disk, and finished. */
  ghost predicate Synced(g: Geometry, m: Mach)
    requires Shape(g, V(m))
  {
    && |m.disk| == g.ninodes
    && forall i :: 0 <= i < g.ninodes && i !in m.dirty ==> m.disk[i] == m.mem[i] && Finished(g, V(m), i)
  }

  ghost predicate Inv(g: Geometry, m: Mach) {
    Own(g, V(m), m.owner, m.spare.Keys) && Synced(g, m)
  }

  // ---------- ownership ----------

  lemma MarkOwn(g: Geometry, fs: Fs, owner: map<int, Slot>, spare: set<int>, b: int)
    requires Own(g, fs, owner, spare) && 0 <= b < g.size && !Used(g, fs.blocks, b)
    ensures var fs' := Fs(Flip(g, fs.blocks, b), fs.inodes); Own(g, fs', owner, spare + {b}) && SameAddrs(g, fs, fs')
  {
    FlipOwn(g, fs, owner, spare, b);
    hide Used, Flip, BlockOk, Addr;
  }

  /** A bitmap block is nobody's, so flipping a bit moves no address. */
  lemma FlipOwn(g: Geometry, fs: Fs, owner: map<int, Slot>, spare: set<int>, b: int)
    requires Own(g, fs, owner, spare) && 0 <= b < g.size
    ensures var fs' := Fs(Flip(g, fs.blocks, b), fs.inodes);
      && Shape(g, fs') && SameAddrs(g, fs, fs')
      && forall x :: 0 <= x < g.size ==>
           (Used(g, fs'.blocks, x) <==> if x == b then !Used(g, fs.blocks, b) else Used(g, fs.blocks, x))
  {
    hide Used, Flip, BlockOk;
    var fs' := Fs(Flip(g, fs.blocks, b), fs.inodes);
    forall x | 0 <= x < g.size
      ensures Used(g, fs'.blocks, x) <==> if x == b then !Used(g, fs.blocks, b) else Used(g, fs.blocks, x)
    {
      FlipUsed(g, fs.blocks, b, x);
    }
    forall i | 0 <= i < g.ninodes && 0 < fs.inodes[i].addrs[NDIRECT] < g.size
      ensures fs'.blocks[fs.inodes[i].addrs[NDIRECT]] == fs.blocks[fs.inodes[i].addrs[NDIRECT]]
    {
      IndirectOwned(g, fs, owner, spare, i);
    }
    AddrFrame(g, fs, fs');
  }

  lemma ClearOwn(g: Geometry, fs: Fs, owner: map<int, Slot>, spare: set<int>, b: int)
    requires Own(g, fs, owner, spare) && b in spare && 0 <= b < g.size
    ensures var fs' := Fs(Flip(g, fs.blocks, b), fs.inodes); Own(g, fs', owner, spare - {b}) && SameAddrs(g, fs, fs')
  {
    FlipOwn(g, fs, owner, spare, b);
    hide Used, Flip, BlockOk, Addr;
  }

  /** What is written to a spare block nobody looks at. */
  lemma SpareOwn(g: Geometry, fs: Fs, owner: map<int, Slot>, spare: set<int>, b: int, v: Block)
    requires Own(g, fs, owner, spare) && b in spare && BlockOk(v)
    ensures IsData(g, b)
    ensures var fs' := Fs(fs.blocks[b := v], fs.inodes); Own(g, fs', owner, spare) && SameAddrs(g, fs, fs')
  {
    hide BlockOk, Used;
    var fs' := Fs(fs.blocks[b := v], fs.inodes);
    UsedFrame(g, fs.blocks, b, v);
    forall i | 0 <= i < g.ninodes && 0 < fs.inodes[i].addrs[NDIRECT] < g.size
      ensures fs'.blocks[fs.inodes[i].addrs[NDIRECT]] == fs.blocks[fs.inodes[i].addrs[NDIRECT]]
    {
      IndirectOwned(g, fs, owner, spare, i);
    }
    AddrFrame(g, fs, fs');
    assert forall x :: 0 <= x < g.size ==> Used(g, fs'.blocks, x) == Used(g, fs.blocks, x);
  }

  /** Clearing a direct address, or the address of the indirect block, empties the slots below it and no other. */
  lemma DetachAddrs(g: Geometry, fs: Fs, i: int, k: int)
    requires Shape(g, fs) && IsSlot(g, i, k) && k <= NDIRECT
    ensures var fs' := Fs(fs.blocks, fs.inodes[i := fs.inodes[i].(addrs := fs.inodes[i].addrs[k := 0])]);
      && Shape(g, fs')
      && forall j, l :: IsSlot(g, j, l) ==>
           Addr(g, fs', j, l) == if j == i && (l == k || (k == NDIRECT && l > NDIRECT)) then 0 else Addr(g, fs, j, l)
  {
    hide BlockOk;
  }

  lemma DetachOwn(g: Geometry, fs: Fs, owner: map<int, Slot>, spare: set<int>, i: int, k: int)
    requires Own(g, fs, owner, spare) && IsSlot(g, i, k) && k <= NDIRECT
    ensures var fs' := Fs(fs.blocks, fs.inodes[i := fs.inodes[i].(addrs := fs.inodes[i].addrs[k := 0])]);
      var gone := Subtree(owner, i, k);
      Own(g, fs', owner - gone, spare + gone)
  {
    DetachAddrs(g, fs, i, k);
    hide Addr, Used, BlockOk;
    assert forall b :: b in owner ==> IsData(g, Addr(g, fs, owner[b].inum, owner[b].k));
  }

  lemma SetOwn(g: Geometry, fs: Fs, owner: map<int, Slot>, spare: set<int>, i: int, d: Inode)
    requires Own(g, fs, owner, spare) && 0 <= i < g.ninodes && d.addrs == fs.inodes[i].addrs
    ensures var fs' := Fs(fs.blocks, fs.inodes[i := d]);
      Own(g, fs', owner, spare) && Shape(g, fs') && SameAddrs(g, fs, fs')
  {
    var fs' := Fs(fs.blocks, fs.inodes[i := d]);
    AddrFrameInodes(g, fs, fs');
    hide Addr, Used, BlockOk;
  }

  // ---------- inodes nobody holds ----------

  /** Blocks of file `j` stay where they are; more may be added. */
  ghost predicate KeepsAddrs(g: Geometry, fs: Fs, fs': Fs, j: int)
    requires Shape(g, fs) && Shape(g, fs') && 0 <= j < g.ninodes
  {
    forall k :: IsSlot(g, j, k) && Addr(g, fs, j, k) != 0 ==> Addr(g, fs', j, k) == Addr(g, fs, j, k)
  }

  lemma FinishedKept(g: Geometry, fs: Fs, fs': Fs, j: int)
    requires Shape(g, fs) && Shape(g, fs') && 0 <= j < g.ninodes && fs'.inodes[j] == fs.inodes[j]
    requires Finished(g, fs, j) && KeepsAddrs(g, fs, fs', j)
    ensures Finished(g, fs', j)
  {
    hide Addr, Word;
    forall bn | 0 <= bn < MAXFILE && bn * BSIZE < fs'.inodes[j].size ensures 0 < FileBlock(g, fs', j, bn) < g.size {
      assert 0 < FileBlock(g, fs, j, bn) < g.size;
    }
  }

  /** A step that moves no block of an inode nobody holds leaves those inodes finished. */
  lemma SyncedKept(g: Geometry, m: Mach, m': Mach)
    requires Shape(g, V(m)) && Shape(g, V(m')) && Synced(g, m) && |m'.disk| == g.ninodes
    requires forall j :: 0 <= j < g.ninodes && j !in m'.dirty && j !in m.dirty ==>
      m'.disk[j] == m.disk[j] && m'.mem[j] == m.mem[j] && KeepsAddrs(g, V(m), V(m'), j)
    requires forall j :: 0 <= j < g.ninodes && j !in m'.dirty && j in m.dirty ==>
      m'.disk[j] == m'.mem[j] && Finished(g, V(m'), j)
    ensures Synced(g, m')
  {
    hide Finished, KeepsAddrs;
    forall j | 0 <= j < g.ninodes && j !in m'.dirty ensures m'.disk[j] == m'.mem[j] && Finished(g, V(m'), j) {
      if j !in m.dirty {
        FinishedKept(g, V(m), V(m'), j);
      }
    }
  }

  lemma SameKeeps(g: Geometry, fs: Fs, fs': Fs)
    requires Shape(g, fs) && Shape(g, fs') && SameAddrs(g, fs, fs')
    ensures forall j :: 0 <= j < g.ninodes ==> KeepsAddrs(g, fs, fs', j)
  {
    hide Addr;
  }

  // ---------- every step keeps it ----------

  /** The block a step writes is one of the disk's. */
  lemma PatchInside(g: Geometry, m: Mach, p: nat, op: Op)
    requires Inv(g, m) && Guard(g, m, p, op)
    ensures op.Patch? ==> IsData(g, op.b) && 0 <= op.b < g.size
  {
    hide Used, BlockOk, Addr, Synced;
    if op.Patch? && op.b in m.owner {
      assert IsData(g, Addr(g, V(m), m.owner[op.b].inum, m.owner[op.b].k));
    }
  }

  lemma BitStep(g: Geometry, m: Mach, p: nat, op: Op)
    requires Inv(g, m) && Guard(g, m, p, op) && (op.Mark? || op.Clear?)
    ensures Inv(g, Do(g, m, p, op))
  {
    hide Own, Used, Flip, BlockOk, Addr, Synced, KeepsAddrs;
    OwnShape(g, V(m), m.owner, m.spare.Keys);
    var m' := Do(g, m, p, op);
    if op.Mark? {
      MarkOwn(g, V(m), m.owner, m.spare.Keys, op.b);
      assert m'.spare.Keys == m.spare.Keys + {op.b};
    } else {
      ClearOwn(g, V(m), m.owner, m.spare.Keys, op.b);
      assert m'.spare.Keys == m.spare.Keys - {op.b};
    }
    OwnShape(g, V(m'), m'.owner, m'.spare.Keys);
    SameKeeps(g, V(m), V(m'));
    SyncedSame(g, m);
    SyncedKept(g, m, m');
  }

  lemma SyncedSame(g: Geometry, m: Mach)
    requires Shape(g, V(m)) && Synced(g, m)
    ensures |m.disk| == g.ninodes
  {
  }

  lemma PatchStep(g: Geometry, m: Mach, p: nat, op: Op)
    requires Inv(g, m) && Guard(g, m, p, op) && op.Patch? && 0 <= op.b < g.size
    ensures Inv(g, Do(g, m, p, op))
  {
    hide Own, Used, BlockOk, Addr, Synced, KeepsAddrs;
    OwnShape(g, V(m), m.owner, m.spare.Keys);
    var m' := Do(g, m, p, op);
    if HasSpare(m, p, op.b) {
      SpareOwn(g, V(m), m.owner, m.spare.Keys, op.b, op.v);
    } else {
      WriteOwn(g, V(m), m.owner, m.spare.Keys, op.b, op.v);
    }
    OwnShape(g, V(m'), m'.owner, m'.spare.Keys);
    SameKeeps(g, V(m), V(m'));
    SyncedSame(g, m);
    SyncedKept(g, m, m');
  }

  lemma StoreStep(g: Geometry, m: Mach, p: nat, op: Op)
    requires Inv(g, m) && Guard(g, m, p, op) && (op.Attach? || op.Enter?)
    ensures Inv(g, Do(g, m, p, op))
  {
    hide Own, Used, BlockOk, Addr, Synced, KeepsAddrs;
    OwnShape(g, V(m), m.owner, m.spare.Keys);
    var m' := Do(g, m, p, op);
    StoreOwn(g, V(m), m.owner, m.spare.Keys, op.b, op.i, op.k);
    assert m'.spare.Keys == m.spare.Keys - {op.b};
    assert V(m') == Store(g, V(m), op.i, op.k, op.b);
    OwnShape(g, V(m'), m'.owner, m'.spare.Keys);
    StoreKeeps(g, V(m), m.owner, m.spare.Keys, op.i, op.k, op.b);
    SyncedSame(g, m);
    SyncedKept(g, m, m');
  }

  lemma StoreKeeps(g: Geometry, fs: Fs, owner: map<int, Slot>, spare: set<int>, i: int, k: int, b: int)
    requires Own(g, fs, owner, spare) && IsSlot(g, i, k) && IsData(g, b) && Addr(g, fs, i, k) == 0
    requires k > NDIRECT ==> IsData(g, fs.inodes[i].addrs[NDIRECT]) && fs.inodes[i].addrs[NDIRECT] != 0
    requires k == NDIRECT ==> fs.blocks[b] == ZeroBlock()
    ensures forall j :: 0 <= j < g.ninodes ==> KeepsAddrs(g, fs, Store(g, fs, i, k, b), j)
  {
    StoreAddrs(g, fs, owner, spare, i, k, b);
    hide Addr, Used, BlockOk, Own;
  }

  lemma DetachStep(g: Geometry, m: Mach, p: nat, op: Op)
    requires Inv(g, m) && Guard(g, m, p, op) && op.Detach?
    ensures Inv(g, Do(g, m, p, op))
  {
    hide Own, Used, BlockOk, Addr, Synced, KeepsAddrs, Subtree;
    OwnShape(g, V(m), m.owner, m.spare.Keys);
    var m' := Do(g, m, p, op);
    DetachOwn(g, V(m), m.owner, m.spare.Keys, op.i, op.k);
    assert m'.spare.Keys == m.spare.Keys + Subtree(m.owner, op.i, op.k);
    OwnShape(g, V(m'), m'.owner, m'.spare.Keys);
    DetachKeeps(g, V(m), op.i, op.k);
    SyncedSame(g, m);
    SyncedKept(g, m, m');
  }

  lemma DetachKeeps(g: Geometry, fs: Fs, i: int, k: int)
    requires Shape(g, fs) && IsSlot(g, i, k) && k <= NDIRECT
    ensures var fs' := Fs(fs.blocks, fs.inodes[i := fs.inodes[i].(addrs := fs.inodes[i].addrs[k := 0])]);
      Shape(g, fs') && forall j :: 0 <= j < g.ninodes && j != i ==> KeepsAddrs(g, fs, fs', j)
  {
    DetachAddrs(g, fs, i, k);
    hide Addr, BlockOk;
  }

  lemma InodeStep(g: Geometry, m: Mach, p: nat, op: Op)
    requires Inv(g, m) && Guard(g, m, p, op) && (op.Set? || op.Update? || op.Drop?)
    ensures Inv(g, Do(g, m, p, op))
  {
    hide Own, Used, BlockOk, Addr, Synced, KeepsAddrs, Finished;
    OwnShape(g, V(m), m.owner, m.spare.Keys);
    var m' := Do(g, m, p, op);
    if op.Set? {
      SetOwn(g, V(m), m.owner, m.spare.Keys, op.i, op.d);
      SameKeeps(g, V(m), V(m'));
    } else {
      assert SameAddrs(g, V(m), V(m'));
      SameKeeps(g, V(m), V(m'));
    }
    SyncedSame(g, m);
    SyncedKept(g, m, m');
  }

  /** Every step of every operation keeps ownership, whatever the others have half done. */
  lemma StepInv(g: Geometry, m: Mach, p: nat, op: Op)
    requires Inv(g, m) && Guard(g, m, p, op)
    ensures op.Patch? ==> 0 <= op.b < g.size
    ensures Inv(g, Do(g, m, p, op))
  {
    hide Inv, Do;
    PatchInside(g, m, p, op);
    match op
    case Mark(_) => BitStep(g, m, p, op);
    case Clear(_) => BitStep(g, m, p, op);
    case Patch(_, _) => PatchStep(g, m, p, op);
    case Attach(_, _, _) => StoreStep(g, m, p, op);
    case Enter(_, _, _) => StoreStep(g, m, p, op);
    case Detach(_, _) => DetachStep(g, m, p, op);
    case Set(_, _) => InodeStep(g, m, p, op);
    case Update(_) => InodeStep(g, m, p, op);
    case Drop(_) => InodeStep(g, m, p, op);
  }

  ghost predicate Next(g: Geometry, m: Mach, p: nat, op: Op, m': Mach) {
    && g.Valid() && Shape(g, V(m)) && Guard(g, m, p, op) && (op.Patch? ==> 0 <= op.b < g.size)
    && m' == Do(g, m, p, op)
  }
}
