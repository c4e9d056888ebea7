/**
 Allocated and free inodes. A free inode holds no block, so the blocks in slots are those of the
 allocated inodes, and ialloc may clear a free inode without losing any.
 */
module FsInodes {
  import opened FsLayout
  import opened FsOwnership
  import opened FsFiles

  function NoAddrs(): (r: seq<int>)
    ensures |r| == NDIRECT + 1 && forall m :: 0 <= m < |r| ==> r[m] == 0
  {
    seq(NDIRECT + 1, _ => 0)
  }

  /** An inode on disk that was never used, or that iput freed, is all zero but for its link count. */
  predicate Clean(d: Inode) {
    d.size == 0 && d.addrs == NoAddrs()
  }

  ghost predicate FreeClean(inodes: seq<Inode>) {
    forall i :: 0 <= i < |inodes| && inodes[i].kind == 0 ==> Clean(inodes[i])
  }

  /** Block `x` is in slot `k` of the allocated inode `i`. */
  predicate HeldIn(g: Geometry, fs: Fs, i: int, k: int, x: int)
    requires Shape(g, fs)
  {
    IsSlot(g, i, k) && fs.inodes[i].kind != 0 && Addr(g, fs, i, k) == x
  }

  lemma CleanHoldsNone(g: Geometry, fs: Fs, i: int, k: int)
    requires Shape(g, fs) && IsSlot(g, i, k) && Clean(fs.inodes[i])
    ensures Addr(g, fs, i, k) == 0
  {
  }

  /** The set bits are exactly the metadata blocks and the blocks of allocated inodes. */
  lemma BitmapExact(g: Geometry, fs: Fs, owner: map<int, Slot>, x: int)
    requires Own(g, fs, owner, {}) && Shape(g, fs) && FreeClean(fs.inodes) && 0 <= x < g.size
    ensures Used(g, fs.blocks, x) <==> x < g.nmeta || (x != 0 && exists i, k :: HeldIn(g, fs, i, k, x))
  {
    hide Used, BlockOk, Addr, Clean;
    if x in owner {
      var i, k := owner[x].inum, owner[x].k;
      if fs.inodes[i].kind == 0 {
        CleanHoldsNone(g, fs, i, k);
      }
      assert HeldIn(g, fs, i, k, x);
    }
    if i, k :| HeldIn(g, fs, i, k, x) {
      assert x != 0 ==> x in owner;
    }
  }

  /** No block is held twice, and none of the metadata is. */
  lemma HeldOnce(g: Geometry, fs: Fs, owner: map<int, Slot>, x: int, i: int, k: int, j: int, m: int)
    requires Own(g, fs, owner, {}) && Shape(g, fs) && x != 0 && HeldIn(g, fs, i, k, x) && HeldIn(g, fs, j, m, x)
    ensures i == j && k == m && g.nmeta <= x < g.size
  {
    hide Used, BlockOk, Addr;
    assert owner[x] == Slot(i, k) && owner[x] == Slot(j, m);
  }

  /** The same blocks, addresses and size: the same file. */
  lemma SameFile(g: Geometry, fs: Fs, fs': Fs, j: int)
    requires Shape(g, fs) && Shape(g, fs') && SameAddrs(g, fs, fs') && fs'.blocks == fs.blocks
    requires 0 <= j < g.ninodes && fs'.inodes[j].size == fs.inodes[j].size && NoHoles(g, fs, j)
    ensures NoHoles(g, fs', j) && Content(g, fs', j) == Content(g, fs, j)
  {
    hide Addr, Word;
    forall bn | 0 <= bn < MAXFILE ensures FileBlock(g, fs', j, bn) == FileBlock(g, fs, j, bn) {
    }
    forall bn | 0 <= bn < MAXFILE && bn * BSIZE < fs'.inodes[j].size ensures 0 < FileBlock(g, fs', j, bn) < g.size {
      assert 0 < FileBlock(g, fs, j, bn) < g.size;
    }
    assert NoHoles(g, fs', j);
    forall pos | 0 <= pos < fs.inodes[j].size ensures ByteAt(g, fs', j, pos) == ByteAt(g, fs, j, pos) {
    }
  }

  /** Changing an inode's type or link count moves no block and changes no file. */
  lemma Retype(g: Geometry, fs: Fs, owner: map<int, Slot>, i: int, d: Inode, fs': Fs)
    requires Own(g, fs, owner, {}) && 0 <= i < g.ninodes && Shape(g, fs)
    requires forall j :: 0 <= j < g.ninodes ==> NoHoles(g, fs, j)
    requires d.addrs == fs.inodes[i].addrs && d.size == fs.inodes[i].size && fs' == Fs(fs.blocks, fs.inodes[i := d])
    ensures Own(g, fs', owner, {}) && Shape(g, fs')
    ensures forall j :: 0 <= j < g.ninodes ==> NoHoles(g, fs', j) && Content(g, fs', j) == Content(g, fs, j)
  {
    hide Used, BlockOk, Word;
    AddrFrameInodes(g, fs, fs');
    hide Addr;
    forall j | 0 <= j < g.ninodes ensures NoHoles(g, fs', j) && Content(g, fs', j) == Content(g, fs, j) {
      SameFile(g, fs, fs', j);
    }
  }

  /** The bitmap of an image with nothing in it: the first `n` blocks are marked. */
  ghost predicate MarkedTo(g: Geometry, blocks: seq<Block>, n: nat) {
    BlocksOk(g, blocks) && forall x :: 0 <= x < g.size ==> (Used(g, blocks, x) <==> x < n)
  }

  lemma NoneMarked(g: Geometry, blocks: seq<Block>)
    requires g.Valid() && |blocks| == g.size && forall x :: 0 <= x < g.size ==> blocks[x] == ZeroBlock()
    ensures MarkedTo(g, blocks, 0)
  {
    forall x | 0 <= x < g.size ensures BlockOk(blocks[x]) && !Bit(0, x % BPB % 8) {
      ZeroBit(x % BPB % 8);
    }
  }

  lemma {:induction false} ZeroBit(k: nat)
    ensures !Bit(0, k)
  {
    if k > 0 {
      ZeroBit(k - 1);
    }
  }

  lemma MarkNext(g: Geometry, blocks: seq<Block>, n: nat)
    requires MarkedTo(g, blocks, n) && n < g.size
    ensures MarkedTo(g, Flip(g, blocks, n), n + 1)
  {
    hide Used, Flip, BlockOk;
    forall x | 0 <= x < g.size ensures Used(g, Flip(g, blocks, n), x) <==> x < n + 1 {
      FlipUsed(g, blocks, n, x);
    }
  }

  /** An empty image satisfies the ownership invariant. */
  lemma EmptyOwn(g: Geometry, fs: Fs)
    requires MarkedTo(g, fs.blocks, g.nmeta) && |fs.inodes| == g.ninodes
    requires forall i :: 0 <= i < g.ninodes ==> fs.inodes[i] == Inode(0, 0, 0, NoAddrs())
    ensures Shape(g, fs) && Own(g, fs, map[], {}) && FreeClean(fs.inodes)
    ensures forall i :: 0 <= i < g.ninodes ==> NoHoles(g, fs, i)
  {
    hide Used, BlockOk, Word;
  }
}
