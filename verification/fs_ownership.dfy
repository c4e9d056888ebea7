/**
 Block ownership. Every block address an inode holds sits in a slot: 0-11 the direct blocks, 12 the
 indirect block itself, 13-140 the indirect block's entries. `Own` says that the bitmap marks exactly
 the metadata blocks and the blocks in slots, and that no block is in two slots.
 */
module FsOwnership {
  import opened FsLayout

  datatype Fs = Fs(blocks: seq<Block>, inodes: seq<Inode>)
  datatype Slot = Slot(inum: int, k: int)

  const NSLOTS := NDIRECT + 1 + NINDIRECT

  predicate Shape(g: Geometry, fs: Fs) {
    && BlocksOk(g, fs.blocks)
    && |fs.inodes| == g.ninodes
    && forall i :: 0 <= i < g.ninodes ==> |fs.inodes[i].addrs| == NDIRECT + 1
  }

  predicate IsSlot(g: Geometry, i: int, k: int) {
    0 <= i < g.ninodes && 0 <= k < NSLOTS
  }

  /** The block in a slot, or 0. */
  function Addr(g: Geometry, fs: Fs, i: int, k: int): int
    requires Shape(g, fs) && IsSlot(g, i, k)
  {
    var addrs := fs.inodes[i].addrs;
    if k <= NDIRECT then addrs[k]
    else if 0 < addrs[NDIRECT] < g.size then Word(fs.blocks[addrs[NDIRECT]], k - NDIRECT - 1)
    else 0
  }

  predicate IsData(g: Geometry, b: int) {
    g.nmeta <= b < g.size
  }

  /** `owner` gives the slot of every owned block; `spare` are blocks marked used that no slot holds yet. */
  ghost predicate Own(g: Geometry, fs: Fs, owner: map<int, Slot>, spare: set<int>) {
    && Shape(g, fs)
    && (forall i, k :: IsSlot(g, i, k) && Addr(g, fs, i, k) != 0 ==>
          IsData(g, Addr(g, fs, i, k)) && Addr(g, fs, i, k) in owner && owner[Addr(g, fs, i, k)] == Slot(i, k))
    && (forall b :: b in owner ==>
          IsSlot(g, owner[b].inum, owner[b].k) && Addr(g, fs, owner[b].inum, owner[b].k) == b && b != 0)
    && (forall b :: 0 <= b < g.size ==> (Used(g, fs.blocks, b) <==> b < g.nmeta || b in owner || b in spare))
    && (forall b :: b in spare ==> IsData(g, b) && b !in owner)
  }

  ghost predicate SameAddrs(g: Geometry, fs: Fs, fs': Fs)
    requires Shape(g, fs) && Shape(g, fs')
  {
    forall i, k :: IsSlot(g, i, k) ==> Addr(g, fs', i, k) == Addr(g, fs, i, k)
  }

  /** Changing blocks that are no one's indirect block moves no address. */
  lemma AddrFrame(g: Geometry, fs: Fs, fs': Fs)
    requires Shape(g, fs) && Shape(g, fs') && fs'.inodes == fs.inodes
    requires forall i :: 0 <= i < g.ninodes && 0 < fs.inodes[i].addrs[NDIRECT] < g.size ==>
      fs'.blocks[fs.inodes[i].addrs[NDIRECT]] == fs.blocks[fs.inodes[i].addrs[NDIRECT]]
    ensures SameAddrs(g, fs, fs')
  {
  }

  /** Every indirect block is in slot 12 of its inode. */
  lemma IndirectOwned(g: Geometry, fs: Fs, owner: map<int, Slot>, spare: set<int>, i: int)
    requires Own(g, fs, owner, spare) && 0 <= i < g.ninodes && fs.inodes[i].addrs[NDIRECT] != 0
    ensures var x := fs.inodes[i].addrs[NDIRECT]; IsData(g, x) && x in owner && owner[x] == Slot(i, NDIRECT)
  {
    assert Addr(g, fs, i, NDIRECT) == fs.inodes[i].addrs[NDIRECT];
  }

  /** balloc: a free block is marked and zeroed; it was in no slot, and no address moves. */
  lemma AllocOwn(g: Geometry, fs: Fs, owner: map<int, Slot>, spare: set<int>, b: int, fs': Fs)
    requires Own(g, fs, owner, spare) && 0 <= b < g.size && !Used(g, fs.blocks, b)
    requires fs' == Fs(Flip(g, fs.blocks, b)[b := ZeroBlock()], fs.inodes)
    ensures IsData(g, b) && b !in owner && b !in spare
    ensures Own(g, fs', owner, spare + {b}) && SameAddrs(g, fs, fs')
  {
    hide Used, Flip, BlockOk;
    var mid := Flip(g, fs.blocks, b);
    forall x | 0 <= x < g.size ensures Used(g, mid, x) == (Used(g, fs.blocks, x) || x == b) {
      FlipUsed(g, fs.blocks, b, x);
    }
    UsedFrame(g, mid, b, ZeroBlock());
    forall i | 0 <= i < g.ninodes && 0 < fs.inodes[i].addrs[NDIRECT] < g.size
      ensures fs'.blocks[fs.inodes[i].addrs[NDIRECT]] == fs.blocks[fs.inodes[i].addrs[NDIRECT]]
    {
      IndirectOwned(g, fs, owner, spare, i);
    }
    AddrFrame(g, fs, fs');
    assert forall x :: 0 <= x < g.size ==> Used(g, fs'.blocks, x) == (Used(g, fs.blocks, x) || x == b);
  }

  /** Data blocks hold no bitmap bits. */
  lemma UsedFrame(g: Geometry, blocks: seq<Block>, b: int, v: Block)
    requires BlocksOk(g, blocks) && IsData(g, b) && BlockOk(v)
    ensures BlocksOk(g, blocks[b := v])
    ensures forall x :: 0 <= x < g.size ==> Used(g, blocks[b := v], x) == Used(g, blocks, x)
  {
  }

  /** The file system after block `b` is stored in an empty slot. */
  function Store(g: Geometry, fs: Fs, i: int, k: int, b: int): (r: Fs)
    requires Shape(g, fs) && IsSlot(g, i, k) && IsData(g, b)
    requires k > NDIRECT ==> 0 < fs.inodes[i].addrs[NDIRECT] < g.size
    ensures Shape(g, r)
  {
    var ip := fs.inodes[i];
    if k <= NDIRECT then fs.(inodes := fs.inodes[i := ip.(addrs := ip.addrs[k := b])])
    else
      var x := ip.addrs[NDIRECT];
      fs.(blocks := fs.blocks[x := PutWord(fs.blocks[x], k - NDIRECT - 1, b)])
  }

  /** Storing changes that slot only. */
  lemma StoreAddrs(g: Geometry, fs: Fs, owner: map<int, Slot>, spare: set<int>, i: int, k: int, b: int)
    requires Own(g, fs, owner, spare) && IsSlot(g, i, k) && IsData(g, b) && Addr(g, fs, i, k) == 0
    requires k > NDIRECT ==> fs.inodes[i].addrs[NDIRECT] != 0
    requires k == NDIRECT ==> fs.blocks[b] == ZeroBlock()
    ensures k > NDIRECT ==> IsData(g, fs.inodes[i].addrs[NDIRECT])
    ensures forall j, m :: IsSlot(g, j, m) ==>
      Addr(g, Store(g, fs, i, k, b), j, m) == if j == i && m == k then b else Addr(g, fs, j, m)
  {
    hide BlockOk, Used;
    var x := fs.inodes[i].addrs[NDIRECT];
    if k > NDIRECT { IndirectOwned(g, fs, owner, spare, i); }
    var fs' := Store(g, fs, i, k, b);
    forall j, m | IsSlot(g, j, m)
      ensures Addr(g, fs', j, m) == if j == i && m == k then b else Addr(g, fs, j, m)
    {
      if k > NDIRECT && j != i && fs.inodes[j].addrs[NDIRECT] != 0 {
        IndirectOwned(g, fs, owner, spare, j);
      }
    }
  }

  /** bmap's store of a block just allocated: the block gets its owner. */
  lemma StoreOwn(g: Geometry, fs: Fs, owner: map<int, Slot>, spare: set<int>, b: int, i: int, k: int)
    requires Own(g, fs, owner, spare) && b in spare && IsSlot(g, i, k) && Addr(g, fs, i, k) == 0
    requires k > NDIRECT ==> fs.inodes[i].addrs[NDIRECT] != 0
    requires k == NDIRECT ==> fs.blocks[b] == ZeroBlock()
    ensures IsData(g, b) && b !in owner && (k > NDIRECT ==> IsData(g, fs.inodes[i].addrs[NDIRECT]))
    ensures Own(g, Store(g, fs, i, k, b), owner[b := Slot(i, k)], spare - {b})
  {
    hide Addr, BlockOk, Used;
    StoreAddrs(g, fs, owner, spare, i, k, b);
    var fs' := Store(g, fs, i, k, b);
    if k > NDIRECT {
      UsedFrame(g, fs.blocks, fs.inodes[i].addrs[NDIRECT], fs'.blocks[fs.inodes[i].addrs[NDIRECT]]);
    }
    assert forall x :: 0 <= x < g.size ==> Used(g, fs'.blocks, x) == Used(g, fs.blocks, x);
  }

  /** Overwriting a file's data block changes no ownership. */
  lemma WriteOwn(g: Geometry, fs: Fs, owner: map<int, Slot>, spare: set<int>, b: int, v: Block)
    requires Own(g, fs, owner, spare) && b in owner && owner[b].k != NDIRECT && BlockOk(v)
    ensures IsData(g, b)
    ensures var fs' := Fs(fs.blocks[b := v], fs.inodes); Own(g, fs', owner, spare) && SameAddrs(g, fs, fs')
  {
    hide BlockOk, Used;
    assert IsData(g, Addr(g, fs, owner[b].inum, owner[b].k));
    var fs' := Fs(fs.blocks[b := v], fs.inodes);
    UsedFrame(g, fs.blocks, b, v);
    forall i | 0 <= i < g.ninodes && 0 < fs.inodes[i].addrs[NDIRECT] < g.size
      ensures fs'.blocks[fs.inodes[i].addrs[NDIRECT]] == fs.blocks[fs.inodes[i].addrs[NDIRECT]]
    {
      IndirectOwned(g, fs, owner, spare, i);
    }
    AddrFrame(g, fs, fs');
    assert forall x :: 0 <= x < g.size ==> Used(g, fs'.blocks, x) == Used(g, fs.blocks, x);
  }
}
