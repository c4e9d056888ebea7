/** Files as byte sequences: what an inode's blocks mean, and what keeps that meaning. */
module FsFiles {
  import opened FsLayout
  import opened FsOwnership

  const MAXBYTES := MAXFILE * BSIZE

  function SlotOf(bn: int): int {
    if bn < NDIRECT then bn else bn + 1
  }

  predicate IsFileBlock(g: Geometry, i: int, bn: int) {
    0 <= i < g.ninodes && 0 <= bn < MAXFILE
  }

  /** The disk block of file block `bn`, or 0: what bmap looks up. */
  function FileBlock(g: Geometry, fs: Fs, i: int, bn: int): int
    requires Shape(g, fs) && IsFileBlock(g, i, bn)
  {
    Addr(g, fs, i, SlotOf(bn))
  }

  /** Every file block is a data block in its own slot. */
  lemma FileBlockOwned(g: Geometry, fs: Fs, owner: map<int, Slot>, spare: set<int>, i: int, bn: int)
    requires Own(g, fs, owner, spare) && IsFileBlock(g, i, bn) && FileBlock(g, fs, i, bn) != 0
    ensures var b := FileBlock(g, fs, i, bn);
      IsData(g, b) && b in owner && owner[b] == Slot(i, SlotOf(bn)) && b !in spare
  {
  }

  /** Allocated file blocks stay where they are, with the same contents; `fs'` may have more. */
  ghost predicate Extends(g: Geometry, fs: Fs, fs': Fs)
    requires Shape(g, fs) && Shape(g, fs')
  {
    forall i, bn :: IsFileBlock(g, i, bn) && FileBlock(g, fs, i, bn) != 0 ==> SameFileBlock(g, fs, fs', i, bn)
  }

  ghost predicate SameFileBlock(g: Geometry, fs: Fs, fs': Fs, i: int, bn: int)
    requires Shape(g, fs) && Shape(g, fs') && IsFileBlock(g, i, bn)
  {
    var b := FileBlock(g, fs, i, bn);
    FileBlock(g, fs', i, bn) == b && 0 <= b < g.size && fs'.blocks[b] == fs.blocks[b]
  }

  lemma AllocExtends(g: Geometry, fs: Fs, owner: map<int, Slot>, spare: set<int>, b: int, fs': Fs)
    requires Own(g, fs, owner, spare) && 0 <= b < g.size && !Used(g, fs.blocks, b)
    requires fs' == Fs(Flip(g, fs.blocks, b)[b := ZeroBlock()], fs.inodes)
    ensures Shape(g, fs') && Extends(g, fs, fs')
  {
    hide Used, BlockOk, Own, Addr;
    OwnShape(g, fs, owner, spare);
    AllocOwn(g, fs, owner, spare, b, fs');
    OwnShape(g, fs', owner, spare + {b});
    forall i, bn | IsFileBlock(g, i, bn) && FileBlock(g, fs, i, bn) != 0
      ensures SameFileBlock(g, fs, fs', i, bn)
    {
      FileBlockOwned(g, fs, owner, spare, i, bn);
    }
  }

  lemma OwnShape(g: Geometry, fs: Fs, owner: map<int, Slot>, spare: set<int>)
    requires Own(g, fs, owner, spare)
    ensures Shape(g, fs)
  {
  }

  lemma StoreExtends(g: Geometry, fs: Fs, owner: map<int, Slot>, b: int, i: int, k: int)
    requires Own(g, fs, owner, {b}) && IsSlot(g, i, k) && Addr(g, fs, i, k) == 0
    requires k > NDIRECT ==> fs.inodes[i].addrs[NDIRECT] != 0
    requires k == NDIRECT ==> fs.blocks[b] == ZeroBlock()
    ensures IsData(g, b) && (k > NDIRECT ==> IsData(g, fs.inodes[i].addrs[NDIRECT]))
    ensures Extends(g, fs, Store(g, fs, i, k, b))
  {
    hide Used, BlockOk, Own, Addr;
    OwnShape(g, fs, owner, {b});
    StoreOwn(g, fs, owner, {b}, b, i, k);
    StoreAddrs(g, fs, owner, {b}, i, k, b);
    var fs' := Store(g, fs, i, k, b);
    if k > NDIRECT { IndirectOwned(g, fs, owner, {b}, i); }
    forall j, bn | IsFileBlock(g, j, bn) && FileBlock(g, fs, j, bn) != 0
      ensures SameFileBlock(g, fs, fs', j, bn)
    {
      FileBlockOwned(g, fs, owner, {b}, j, bn);
    }
  }

  lemma ExtendsRefl(g: Geometry, fs: Fs, owner: map<int, Slot>, spare: set<int>)
    requires Own(g, fs, owner, spare)
    ensures Extends(g, fs, fs)
  {
  }

  lemma ExtendsTrans(g: Geometry, a: Fs, b: Fs, c: Fs)
    requires Shape(g, a) && Shape(g, b) && Shape(g, c) && Extends(g, a, b) && Extends(g, b, c)
    ensures Extends(g, a, c)
  {
    hide FileBlock, Shape;
    forall i, bn | IsFileBlock(g, i, bn) && FileBlock(g, a, i, bn) != 0
      ensures SameFileBlock(g, a, c, i, bn)
    {
      assert SameFileBlock(g, a, b, i, bn);
      assert SameFileBlock(g, b, c, i, bn);
    }
  }

  // ---------- contents ----------

  /** Every file block below the size is allocated. */
  ghost predicate NoHoles(g: Geometry, fs: Fs, i: int)
    requires Shape(g, fs) && 0 <= i < g.ninodes
  {
    && 0 <= fs.inodes[i].size <= MAXBYTES
    && forall bn :: 0 <= bn < MAXFILE && bn * BSIZE < fs.inodes[i].size ==> 0 < FileBlock(g, fs, i, bn) < g.size
  }

  /** The byte at a position of the file's allocated blocks. */
  function ByteAt(g: Geometry, fs: Fs, i: int, pos: int): int
    requires Shape(g, fs) && 0 <= i < g.ninodes && 0 <= pos < MAXBYTES
  {
    var b := FileBlock(g, fs, i, pos / BSIZE);
    if 0 < b < g.size then fs.blocks[b][pos % BSIZE] else 0
  }

  ghost function Content(g: Geometry, fs: Fs, i: int): (r: seq<int>)
    requires Shape(g, fs) && 0 <= i < g.ninodes && NoHoles(g, fs, i)
    ensures |r| == fs.inodes[i].size
  {
    seq(fs.inodes[i].size, pos requires 0 <= pos < fs.inodes[i].size => ByteAt(g, fs, i, pos))
  }

  /**
   What bmap does: file block `bn` of inode `i` is now `b`, zeroed if it is new; no other file
   block moves or changes.
   */
  ghost predicate Mapped(g: Geometry, fs: Fs, fs': Fs, i: int, bn: int, b: int)
    requires Shape(g, fs) && Shape(g, fs') && IsFileBlock(g, i, bn)
  {
    && IsData(g, b) && b != 0 && FileBlock(g, fs', i, bn) == b
    && Extends(g, fs, fs')
    && (forall j, m :: IsFileBlock(g, j, m) && !(j == i && m == bn) ==>
         FileBlock(g, fs', j, m) == FileBlock(g, fs, j, m))
    && (if FileBlock(g, fs, i, bn) == 0 then fs'.blocks[b] == ZeroBlock() else fs' == fs)
    && fs'.inodes == fs.inodes[i := fs.inodes[i].(addrs := fs'.inodes[i].addrs)]
  }

  predicate Allocated(g: Geometry, fs: Fs, i: int, pos: int)
    requires Shape(g, fs) && 0 <= i < g.ninodes && 0 <= pos < MAXBYTES
  {
    0 < FileBlock(g, fs, i, pos / BSIZE) < g.size
  }

  /** memmove of `data` into a block. */
  function Patch(b: Block, at: nat, data: seq<int>): (r: Block)
    requires at + |data| <= |b|
    ensures |r| == |b|
    ensures forall x :: 0 <= x < |b| ==> r[x] == if at <= x < at + |data| then data[x - at] else b[x]
  {
    b[..at] + data + b[at + |data|..]
  }

  predicate Bytes(s: seq<int>) {
    forall x :: 0 <= x < |s| ==> 0 <= s[x] < 256
  }

  /** Part-way through a write of `src` at `off`: the first `tot` bytes are in place, every other byte as in `fs0`. */
  ghost predicate Written(g: Geometry, fs0: Fs, fs: Fs, i: int, off: int, src: seq<int>, tot: nat)
    requires Shape(g, fs0) && Shape(g, fs) && 0 <= i < g.ninodes && tot <= |src|
  {
    && fs.inodes == fs0.inodes[i := fs0.inodes[i].(addrs := fs.inodes[i].addrs)]
    && (forall pos :: 0 <= pos < MAXBYTES ==> WrittenAt(g, fs0, fs, i, off, src, tot, pos))
    && (forall j, bn :: IsFileBlock(g, j, bn) && j != i && FileBlock(g, fs0, j, bn) != 0 ==>
         SameFileBlock(g, fs0, fs, j, bn))
    && (fs.inodes[i].addrs == fs0.inodes[i].addrs || off + tot > fs0.inodes[i].size)
  }

  ghost predicate WrittenAt(g: Geometry, fs0: Fs, fs: Fs, i: int, off: int, src: seq<int>, tot: nat, pos: int)
    requires Shape(g, fs0) && Shape(g, fs) && 0 <= i < g.ninodes && tot <= |src| && 0 <= pos < MAXBYTES
  {
    if off <= pos < off + tot then Allocated(g, fs, i, pos) && ByteAt(g, fs, i, pos) == src[pos - off]
    else Allocated(g, fs0, i, pos) ==> Allocated(g, fs, i, pos) && ByteAt(g, fs, i, pos) == ByteAt(g, fs0, i, pos)
  }

  /** The file system after one iteration of writei's loop. */
  function AfterChunk(fs: Fs, b: int, at: nat, data: seq<int>): Fs
    requires 0 <= b < |fs.blocks| && at + |data| <= |fs.blocks[b]|
  {
    Fs(fs.blocks[b := Patch(fs.blocks[b], at, data)], fs.inodes)
  }

  /** bmap and then memmove put the next `m` bytes in place. */
  lemma ChunkBytes(g: Geometry, fs0: Fs, fs: Fs, fs1: Fs, owner: map<int, Slot>, i: int, off: int, src: seq<int>,
                   tot: nat, m: nat, b: int, pos: int)
    requires Shape(g, fs0) && Shape(g, fs) && Shape(g, fs1) && Own(g, fs1, owner, {}) && 0 <= i < g.ninodes
    requires 0 <= off && tot + m <= |src| && off + |src| <= MAXBYTES && 0 < m <= BSIZE - (off + tot) % BSIZE
    requires Written(g, fs0, fs, i, off, src, tot) && Mapped(g, fs, fs1, i, (off + tot) / BSIZE, b)
    requires 0 <= pos < MAXBYTES
    requires var fs2 := AfterChunk(fs1, b, (off + tot) % BSIZE, src[tot..tot + m]);
      Shape(g, fs2) && SameAddrs(g, fs1, fs2)
    ensures WrittenAt(g, fs0, AfterChunk(fs1, b, (off + tot) % BSIZE, src[tot..tot + m]), i, off, src, tot + m, pos)
  {
    hide Own, Addr, Used, Word;
    var o, bn := off + tot, pos / BSIZE;
    var fs2 := AfterChunk(fs1, b, o % BSIZE, src[tot..tot + m]);
    assert WrittenAt(g, fs0, fs, i, off, src, tot, pos);
    assert FileBlock(g, fs2, i, bn) == FileBlock(g, fs1, i, bn);
    assert FileBlock(g, fs, i, bn) != 0 ==> SameFileBlock(g, fs, fs1, i, bn);
    if bn != o / BSIZE && FileBlock(g, fs1, i, bn) != 0 {
      FileBlockOwned(g, fs1, owner, {}, i, bn);
      FileBlockOwned(g, fs1, owner, {}, i, o / BSIZE);
      assert FileBlock(g, fs1, i, bn) != b;
    }
  }

  lemma PatchOk(b: Block, at: nat, data: seq<int>)
    requires BlockOk(b) && at + |data| <= BSIZE && Bytes(data)
    ensures BlockOk(Patch(b, at, data))
  {
  }

  lemma ChunkOwn(g: Geometry, fs1: Fs, owner: map<int, Slot>, i: int, bn: int, b: int, at: nat, data: seq<int>)
    requires Shape(g, fs1) && Own(g, fs1, owner, {}) && IsFileBlock(g, i, bn) && FileBlock(g, fs1, i, bn) == b != 0
    requires at + |data| <= BSIZE && Bytes(data)
    ensures IsData(g, b) && |fs1.blocks[b]| == BSIZE
    ensures var fs2 := AfterChunk(fs1, b, at, data); Own(g, fs2, owner, {}) && Shape(g, fs2) && SameAddrs(g, fs1, fs2)
  {
    hide Own, Addr, Used, Patch;
    FileBlockOwned(g, fs1, owner, {}, i, bn);
    PatchOk(fs1.blocks[b], at, data);
    WriteOwn(g, fs1, owner, {}, b, Patch(fs1.blocks[b], at, data));
    OwnShape(g, AfterChunk(fs1, b, at, data), owner, {});
  }

  lemma ChunkOther(g: Geometry, fs0: Fs, fs: Fs, fs1: Fs, fs2: Fs, owner: map<int, Slot>, i: int, bn: int, b: int,
                   j: int, n: int)
    requires Shape(g, fs0) && Shape(g, fs) && Shape(g, fs1) && Shape(g, fs2) && Own(g, fs1, owner, {})
    requires IsFileBlock(g, i, bn) && Mapped(g, fs, fs1, i, bn, b) && SameAddrs(g, fs1, fs2)
    requires (forall x :: 0 <= x < g.size && x != b ==> fs2.blocks[x] == fs1.blocks[x])
    requires IsFileBlock(g, j, n) && j != i && FileBlock(g, fs0, j, n) != 0 && SameFileBlock(g, fs0, fs, j, n)
    ensures SameFileBlock(g, fs0, fs2, j, n)
  {
    hide Own, Addr, Used, BlockOk;
    assert SameFileBlock(g, fs, fs1, j, n);
    FileBlockOwned(g, fs1, owner, {}, j, n);
    FileBlockOwned(g, fs1, owner, {}, i, bn);
  }

  /** One iteration of writei's loop keeps ownership and extends the written part. */
  lemma ChunkStep(g: Geometry, fs0: Fs, fs: Fs, fs1: Fs, owner: map<int, Slot>, i: int, off: int, src: seq<int>,
                  tot: nat, m: nat, b: int)
    requires Shape(g, fs0) && Shape(g, fs) && Shape(g, fs1) && Own(g, fs1, owner, {}) && 0 <= i < g.ninodes
    requires NoHoles(g, fs0, i)
    requires 0 <= off && tot + m <= |src| && off + |src| <= MAXBYTES && 0 < m <= BSIZE - (off + tot) % BSIZE
    requires Bytes(src)
    requires Written(g, fs0, fs, i, off, src, tot) && Mapped(g, fs, fs1, i, (off + tot) / BSIZE, b)
    ensures |fs1.blocks[b]| == BSIZE
    ensures var fs2 := AfterChunk(fs1, b, (off + tot) % BSIZE, src[tot..tot + m]);
      Own(g, fs2, owner, {}) && Shape(g, fs2) && SameAddrs(g, fs1, fs2) && Written(g, fs0, fs2, i, off, src, tot + m)
  {
    hide Own, Addr, Used, Word, BlockOk, Patch;
    var o, bn, next := off + tot, (off + tot) / BSIZE, tot + m;
    ChunkOwn(g, fs1, owner, i, bn, b, o % BSIZE, src[tot..tot + m]);
    var fs2 := AfterChunk(fs1, b, o % BSIZE, src[tot..tot + m]);
    forall pos | 0 <= pos < MAXBYTES ensures WrittenAt(g, fs0, fs2, i, off, src, next, pos) {
      ChunkBytes(g, fs0, fs, fs1, owner, i, off, src, tot, m, b, pos);
    }
    forall j, n | IsFileBlock(g, j, n) && j != i && FileBlock(g, fs0, j, n) != 0
      ensures SameFileBlock(g, fs0, fs2, j, n)
    {
      ChunkOther(g, fs0, fs, fs1, fs2, owner, i, bn, b, j, n);
    }
    if FileBlock(g, fs, i, bn) == 0 {
      assert WrittenAt(g, fs0, fs, i, off, src, tot, bn * BSIZE);
    }
  }

  /** Replace the slice at `off` by `src`, extending the file if need be. */
  function SpliceBytes(s: seq<int>, off: nat, src: seq<int>): seq<int>
    requires off <= |s|
  {
    s[..off] + src + if off + |src| < |s| then s[off + |src|..] else []
  }

  function Resized(fs: Fs, i: int, size: int): Fs
    requires 0 <= i < |fs.inodes|
  {
    fs.(inodes := fs.inodes[i := fs.inodes[i].(size := size)])
  }

  lemma ResizedShape(g: Geometry, fs: Fs, owner: map<int, Slot>, i: int, size: int)
    requires Own(g, fs, owner, {}) && 0 <= i < g.ninodes
    ensures Own(g, Resized(fs, i, size), owner, {}) && SameAddrs(g, fs, Resized(fs, i, size))
  {
    hide Used, Word, BlockOk;
    var fs' := Resized(fs, i, size);
    assert Shape(g, fs');
    AddrFrameInodes(g, fs, fs');
    hide Addr;
  }

  lemma AddrFrameInodes(g: Geometry, fs: Fs, fs': Fs)
    requires Shape(g, fs) && Shape(g, fs') && fs'.blocks == fs.blocks
    requires forall i :: 0 <= i < g.ninodes ==> fs'.inodes[i].addrs == fs.inodes[i].addrs
    ensures SameAddrs(g, fs, fs')
  {
  }

  /** The file that a finished write leaves: the old contents with the slice replaced. */
  lemma FinishContent(g: Geometry, fs0: Fs, fs: Fs, fs': Fs, i: int, off: int, src: seq<int>)
    requires Shape(g, fs0) && Shape(g, fs) && Shape(g, fs') && 0 <= i < g.ninodes && NoHoles(g, fs0, i)
    requires 0 <= off <= fs0.inodes[i].size && off + |src| <= MAXBYTES
    requires Written(g, fs0, fs, i, off, src, |src|)
    requires SameAddrs(g, fs, fs') && fs'.blocks == fs.blocks
    requires fs'.inodes[i].size == if off + |src| > fs0.inodes[i].size then off + |src| else fs0.inodes[i].size
    ensures NoHoles(g, fs', i) && Content(g, fs', i) == SpliceBytes(Content(g, fs0, i), off, src)
  {
    hide Addr, Word, BlockOk;
    forall bn | 0 <= bn < MAXFILE && bn * BSIZE < fs'.inodes[i].size
      ensures 0 < FileBlock(g, fs', i, bn) < g.size
    {
      assert WrittenAt(g, fs0, fs, i, off, src, |src|, bn * BSIZE);
    }
    var want := SpliceBytes(Content(g, fs0, i), off, src);
    forall pos | 0 <= pos < fs'.inodes[i].size
      ensures ByteAt(g, fs', i, pos) == want[pos]
    {
      assert WrittenAt(g, fs0, fs, i, off, src, |src|, pos);
    }
  }

  /** Files whose blocks did not change have the same contents. */
  lemma SameContent(g: Geometry, fs0: Fs, fs: Fs, j: int)
    requires Shape(g, fs0) && Shape(g, fs) && 0 <= j < g.ninodes && NoHoles(g, fs0, j)
    requires fs.inodes[j].size == fs0.inodes[j].size
    requires forall bn :: IsFileBlock(g, j, bn) && FileBlock(g, fs0, j, bn) != 0 ==> SameFileBlock(g, fs0, fs, j, bn)
    ensures NoHoles(g, fs, j) && Content(g, fs, j) == Content(g, fs0, j)
  {
    hide Addr, BlockOk;
    forall bn | 0 <= bn < MAXFILE && bn * BSIZE < fs.inodes[j].size
      ensures 0 < FileBlock(g, fs, j, bn) < g.size
    {
      assert SameFileBlock(g, fs0, fs, j, bn);
    }
    forall pos | 0 <= pos < fs.inodes[j].size
      ensures ByteAt(g, fs, j, pos) == ByteAt(g, fs0, j, pos)
    {
      assert SameFileBlock(g, fs0, fs, j, pos / BSIZE);
    }
  }
}
