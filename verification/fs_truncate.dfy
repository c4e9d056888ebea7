/** Freeing everything an inode owns: the bitmap after itrunc has handled some of the slots. */
module FsTruncate {
  import opened FsLayout
  import opened FsOwnership
  import opened FsFiles

  /** The order in which itrunc frees slots: direct blocks, indirect entries, the indirect block. */
  function Rank(k: int): int {
    if k < NDIRECT then k else if k == NDIRECT then NSLOTS - 1 else k - 1
  }

  predicate Gone(owner: map<int, Slot>, i: int, n: int, x: int) {
    x in owner && owner[x].inum == i && Rank(owner[x].k) < n
  }

  /** The first `n` slots of inode `i` have been freed in the bitmap; no data block changed. */
  ghost predicate BitsAfter(g: Geometry, blocks0: seq<Block>, blocks: seq<Block>, owner: map<int, Slot>, i: int, n: int)
    requires BlocksOk(g, blocks0)
  {
    && BlocksOk(g, blocks)
    && (forall x :: 0 <= x < g.size ==> (Used(g, blocks, x) <==> Used(g, blocks0, x) && !Gone(owner, i, n, x)))
    && (forall x :: g.nmeta <= x < g.size ==> blocks[x] == blocks0[x])
  }

  /** The next slot's block, if any, is still marked, and freeing it advances the bitmap. */
  lemma FreeStep(g: Geometry, fs: Fs, blocks: seq<Block>, owner: map<int, Slot>, i: int, k: int)
    requires Own(g, fs, owner, {}) && BitsAfter(g, fs.blocks, blocks, owner, i, Rank(k)) && IsSlot(g, i, k)
    ensures var b := Addr(g, fs, i, k);
      if b == 0 then BitsAfter(g, fs.blocks, blocks, owner, i, Rank(k) + 1)
      else 0 <= b < g.size && Used(g, blocks, b) && BitsAfter(g, fs.blocks, Flip(g, blocks, b), owner, i, Rank(k) + 1)
  {
    hide Used, BlockOk, Flip, Addr;
    var b := Addr(g, fs, i, k);
    var blocks' := if b == 0 then blocks else Flip(g, blocks, b);
    if b != 0 {
      forall x | 0 <= x < g.size
        ensures Used(g, blocks', x) <==> if x == b then !Used(g, blocks, b) else Used(g, blocks, x)
      {
        FlipUsed(g, blocks, b, x);
      }
    }
    forall x | 0 <= x < g.size
      ensures Gone(owner, i, Rank(k) + 1, x) <==> Gone(owner, i, Rank(k), x) || (x == b && b != 0)
    {
      if x in owner && owner[x].inum == i && Rank(owner[x].k) == Rank(k) {
        assert owner[x].k == k;
      }
    }
  }

  function Emptied(fs: Fs, i: int): Fs
    requires 0 <= i < |fs.inodes|
  {
    fs.(inodes := fs.inodes[i := fs.inodes[i].(size := 0, addrs := seq(NDIRECT + 1, _ => 0))])
  }

  function Disowned(owner: map<int, Slot>, i: int): map<int, Slot> {
    map x | x in owner && owner[x].inum != i :: owner[x]
  }

  /**
   With every slot of inode `i` freed and cleared, the rest of the file system is intact and the
   bitmap is exact again.
   */
  lemma TruncOwn(g: Geometry, fs: Fs, blocks: seq<Block>, owner: map<int, Slot>, i: int)
    requires Own(g, fs, owner, {}) && 0 <= i < g.ninodes && BitsAfter(g, fs.blocks, blocks, owner, i, NSLOTS)
    requires forall j :: 0 <= j < g.ninodes ==> NoHoles(g, fs, j)
    ensures var fs' := Emptied(Fs(blocks, fs.inodes), i);
      && Own(g, fs', Disowned(owner, i), {})
      && (forall k :: IsSlot(g, i, k) ==> Addr(g, fs', i, k) == 0)
      && (forall j :: 0 <= j < g.ninodes ==> NoHoles(g, fs', j))
      && (forall j :: 0 <= j < g.ninodes && j != i ==> Content(g, fs', j) == Content(g, fs, j))
  {
    hide Used, BlockOk, NoHoles;
    var fs' := Emptied(Fs(blocks, fs.inodes), i);
    var owner' := Disowned(owner, i);
    TruncAddrs(g, fs, blocks, owner, i);
    assert forall x :: 0 <= x < g.size ==> (Gone(owner, i, NSLOTS, x) <==> x in owner && x !in owner');
    TruncFiles(g, fs, blocks, owner, i);
  }

  lemma TruncAddrs(g: Geometry, fs: Fs, blocks: seq<Block>, owner: map<int, Slot>, i: int)
    requires Own(g, fs, owner, {}) && 0 <= i < g.ninodes && BitsAfter(g, fs.blocks, blocks, owner, i, NSLOTS)
    ensures var fs' := Emptied(Fs(blocks, fs.inodes), i);
      Shape(g, fs') && forall j, k :: IsSlot(g, j, k) ==> Addr(g, fs', j, k) == if j == i then 0 else Addr(g, fs, j, k)
  {
    hide Used, BlockOk;
    var fs' := Emptied(Fs(blocks, fs.inodes), i);
    forall j, k | IsSlot(g, j, k)
      ensures Addr(g, fs', j, k) == if j == i then 0 else Addr(g, fs, j, k)
    {
      if j != i && fs.inodes[j].addrs[NDIRECT] != 0 {
        IndirectOwned(g, fs, owner, {}, j);
      }
    }
  }

  lemma TruncFiles(g: Geometry, fs: Fs, blocks: seq<Block>, owner: map<int, Slot>, i: int)
    requires Own(g, fs, owner, {}) && 0 <= i < g.ninodes && BitsAfter(g, fs.blocks, blocks, owner, i, NSLOTS)
    requires forall j :: 0 <= j < g.ninodes ==> NoHoles(g, fs, j)
    ensures var fs' := Emptied(Fs(blocks, fs.inodes), i);
      && Shape(g, fs')
      && (forall j :: 0 <= j < g.ninodes ==> NoHoles(g, fs', j))
      && (forall j :: 0 <= j < g.ninodes && j != i ==> Content(g, fs', j) == Content(g, fs, j))
  {
    hide Own, Used, BlockOk, Addr;
    OwnShape(g, fs, owner, {});
    var fs' := Emptied(Fs(blocks, fs.inodes), i);
    TruncAddrs(g, fs, blocks, owner, i);
    forall j | 0 <= j < g.ninodes && j != i
      ensures NoHoles(g, fs', j) && Content(g, fs', j) == Content(g, fs, j)
    {
      forall bn | IsFileBlock(g, j, bn) && FileBlock(g, fs, j, bn) != 0
        ensures SameFileBlock(g, fs, fs', j, bn)
      {
        FileBlockOwned(g, fs, owner, {}, j, bn);
      }
      SameContent(g, fs, fs', j);
    }
  }
}
