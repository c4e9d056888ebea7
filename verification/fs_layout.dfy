/**
 Bytes, little-endian words and bitmap bits of file-system blocks, and the layout of an inode's
 block addresses. Bytes are integers below 256.
 */
module FsLayout {
  const BSIZE := 512
  const BPB := BSIZE * 8
  const NDIRECT := 12
  const NINDIRECT := 128
  const MAXFILE := NDIRECT + NINDIRECT
  const IPB := 8

  type Block = seq<int>

  predicate BlockOk(b: Block) {
    |b| == BSIZE && forall i :: 0 <= i < BSIZE ==> 0 <= b[i] < 256
  }

  function ZeroBlock(): (b: Block)
    ensures BlockOk(b) && forall i :: 0 <= i < BSIZE ==> b[i] == 0
  {
    seq(BSIZE, _ => 0)
  }

  // ---------- words ----------

  function Word(b: Block, j: nat): int
    requires |b| == BSIZE && j < NINDIRECT
  {
    b[4 * j] + 256 * b[4 * j + 1] + 65536 * b[4 * j + 2] + 16777216 * b[4 * j + 3]
  }

  /** The four bytes of a 32-bit word, low byte first. */
  lemma FourBytes(v: int)
    requires 0 <= v < 0x1_0000_0000
    ensures v == v % 256 + 256 * (v / 256 % 256) + 65536 * (v / 65536 % 256) + 16777216 * (v / 16777216)
    ensures 0 <= v / 16777216 < 256
  {
    var a := v / 256;
    var b := a / 256;
    assert v / 65536 == b && v / 16777216 == b / 256;
  }

  function PutWord(b: Block, j: nat, v: int): (r: Block)
    requires BlockOk(b) && j < NINDIRECT && 0 <= v < 0x1_0000_0000
    ensures BlockOk(r) && Word(r, j) == v
    ensures forall m :: 0 <= m < NINDIRECT && m != j ==> Word(r, m) == Word(b, m)
  {
    FourBytes(v);
    b[4 * j := v % 256][4 * j + 1 := v / 256 % 256][4 * j + 2 := v / 65536 % 256][4 * j + 3 := v / 16777216]
  }

  // ---------- bits ----------

  /** 1 << k. */
  function Mask(k: nat): (m: nat)
    ensures m > 0
  {
    if k == 0 then 1 else 2 * Mask(k - 1)
  }

  /** x & (1 << k) */
  predicate Bit(x: nat, k: nat) {
    if k == 0 then x % 2 == 1 else Bit(x / 2, k - 1)
  }

  /** Adding twice `h` moves the upper bits by `h` and leaves the lowest. */
  lemma Halves(x: int, h: int)
    ensures (x + 2 * h) / 2 == x / 2 + h && (x + 2 * h) % 2 == x % 2
    ensures (x - 2 * h) / 2 == x / 2 - h && (x - 2 * h) % 2 == x % 2
  {
  }

  /** `x |= 1 << k` for a bit that is clear: no other bit changes and the byte does not overflow. */
  lemma {:induction false} SetBit(x: nat, k: nat, n: nat)
    requires x < Mask(n) && k < n && !Bit(x, k)
    ensures x + Mask(k) < Mask(n) && forall j :: 0 <= j < n ==> (Bit(x + Mask(k), j) <==> Bit(x, j) || j == k)
  {
    if k == 0 {
      assert (x + 1) / 2 == x / 2 && (x + 1) % 2 == 1;
      forall j | 0 <= j < n ensures Bit(x + 1, j) <==> Bit(x, j) || j == k {
        if j > 0 { assert Bit(x + 1, j) == Bit(x / 2, j - 1); }
      }
    } else {
      var h := Mask(k - 1);
      SetBit(x / 2, k - 1, n - 1);
      Halves(x, h);
      forall j | 0 <= j < n ensures Bit(x + 2 * h, j) <==> Bit(x, j) || j == k {
        if j > 0 { assert Bit(x + 2 * h, j) == Bit(x / 2 + h, j - 1); }
      }
    }
  }

  /** `x &= ~(1 << k)` for a bit that is set. */
  lemma {:induction false} ClearBit(x: nat, k: nat, n: nat)
    requires x < Mask(n) && k < n && Bit(x, k)
    ensures Mask(k) <= x && forall j :: 0 <= j < n ==> (Bit(x - Mask(k), j) <==> Bit(x, j) && j != k)
  {
    if k == 0 {
      assert (x - 1) / 2 == x / 2 && (x - 1) % 2 == 0;
      forall j | 0 <= j < n ensures Bit(x - 1, j) <==> Bit(x, j) && j != k {
        if j > 0 { assert Bit(x - 1, j) == Bit(x / 2, j - 1); }
      }
    } else {
      var h := Mask(k - 1);
      ClearBit(x / 2, k - 1, n - 1);
      Halves(x, h);
      forall j | 0 <= j < n ensures Bit(x - 2 * h, j) <==> Bit(x, j) && j != k {
        if j > 0 { assert Bit(x - 2 * h, j) == Bit(x / 2 - h, j - 1); }
      }
    }
  }

  lemma MaskByte()
    ensures Mask(8) == 256
  {
    assert Mask(4) == 16;
    assert Mask(8) == 16 * Mask(4);
  }

  // ---------- inodes ----------

  /** The fields of an inode that live on disk; `addrs` has the direct blocks and then the indirect block. */
  datatype Inode = Inode(kind: int, nlink: int, size: int, addrs: seq<int>)

  /** Superblock: total blocks, metadata blocks, where bitmap and inodes start. */
  datatype Geometry = Geometry(size: nat, nmeta: nat, bmapstart: nat, inodestart: nat, ninodes: nat) {
    predicate Valid() {
      0 < bmapstart && bmapstart + (size + BPB - 1) / BPB <= nmeta <= size < 0x1_0000_0000
    }

    /** The block of the inode table that holds inode `i`. */
    function InodeBlock(i: int): int {
      i / IPB + inodestart
    }

    predicate IsBitmap(x: int) {
      bmapstart <= x < bmapstart + (size + BPB - 1) / BPB
    }

    /** The bitmap block that holds a block's bit. */
    function BmapBlock(b: nat): (r: nat)
      ensures Valid() && b < size ==> bmapstart <= r < nmeta && IsBitmap(r)
    {
      b / BPB + bmapstart
    }
  }

  predicate BlocksOk(g: Geometry, blocks: seq<Block>) {
    g.Valid() && |blocks| == g.size && forall x :: 0 <= x < g.size ==> BlockOk(blocks[x])
  }

  /** The bitmap bit of block `b` is set. */
  predicate Used(g: Geometry, blocks: seq<Block>, b: nat)
    requires BlocksOk(g, blocks) && b < g.size
  {
    var bp := blocks[g.BmapBlock(b)];
    Bit(bp[b % BPB / 8], b % BPB % 8)
  }

  /** balloc finds nothing. */
  predicate DiskFull(g: Geometry, blocks: seq<Block>) {
    BlocksOk(g, blocks) && forall x :: 0 <= x < g.size ==> Used(g, blocks, x)
  }

  /** The bitmap with block `b`'s bit flipped: `|= m` if it was clear, `&= ~m` if it was set. */
  function Flip(g: Geometry, blocks: seq<Block>, b: nat): (r: seq<Block>)
    requires BlocksOk(g, blocks) && b < g.size
    ensures BlocksOk(g, r)
    ensures forall x :: 0 <= x < g.size && x != g.BmapBlock(b) ==> r[x] == blocks[x]
  {
    var bb, i, k := g.BmapBlock(b), b % BPB / 8, b % BPB % 8;
    var x := blocks[bb][i];
    MaskByte();
    if Bit(x, k) then (ClearBit(x, k, 8); blocks[bb := blocks[bb][i := x - Mask(k)]])
    else (SetBit(x, k, 8); blocks[bb := blocks[bb][i := x + Mask(k)]])
  }

  /** No other block's bit moves. */
  lemma FlipUsed(g: Geometry, blocks: seq<Block>, b: nat, x: nat)
    requires BlocksOk(g, blocks) && b < g.size && x < g.size
    ensures Used(g, Flip(g, blocks, b), x) <==> if x == b then !Used(g, blocks, b) else Used(g, blocks, x)
  {
    hide Bit, Mask;
    var bb, i, k := g.BmapBlock(b), b % BPB / 8, b % BPB % 8;
    FlipByte(blocks[bb], i, k);
    var r := Flip(g, blocks, b);
    var v := if Bit(blocks[bb][i], k) then blocks[bb][i] - Mask(k) else blocks[bb][i] + Mask(k);
    assert r == blocks[bb := blocks[bb][i := v]];
    assert 0 <= x % BPB % 8 < 8;
    if g.BmapBlock(x) == bb && x % BPB / 8 == i {
      assert x % BPB % 8 == k <==> x == b;
    }
  }

  lemma FlipByte(block: Block, i: nat, k: nat)
    requires BlockOk(block) && i < BSIZE && k < 8
    ensures Bit(block[i], k) ==>
      Mask(k) <= block[i] && forall j :: 0 <= j < 8 ==> (Bit(block[i] - Mask(k), j) <==> Bit(block[i], j) && j != k)
    ensures !Bit(block[i], k) ==>
      forall j :: 0 <= j < 8 ==> (Bit(block[i] + Mask(k), j) <==> Bit(block[i], j) || j == k)
  {
    MaskByte();
    if Bit(block[i], k) { ClearBit(block[i], k, 8); } else { SetBit(block[i], k, 8); }
  }
}
