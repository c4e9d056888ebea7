/** The block, inode and file layers of fs.c, and filewrite of file.c, over block contents as bread returns them. */
module FileSystem {
  import opened Options
  import opened FsLayout
  import opened FsOwnership
  import opened FsFiles
  import opened FsTruncate
  import opened FsInodes
  import S = FsSteps
  import T = FsTraces

  lemma BitmapPosition(g: Geometry, b: nat, bi: nat)
    requires b % BPB == 0 && bi < BPB
    ensures g.BmapBlock(b + bi) == g.BmapBlock(b) && (b + bi) % BPB == bi
  {
  }

  lemma ByteRange(b: Block)
    requires BlockOk(b)
    ensures |b| == BSIZE && forall i :: 0 <= i < BSIZE ==> b[i] >= 0
  {
  }

  /** The range lies in one of the direct blocks. */
  predicate OneDirect(off: nat, n: nat) {
    off % BSIZE + n <= BSIZE && off / BSIZE < NDIRECT
  }

  /** The disk as bread returns it. */
  datatype Image = Image(blocks: seq<Block>, dinodes: seq<Inode>)

  /** Every block, and the block of every inode, in which the disk `b` differs from `a` was passed to log_write. */
  ghost predicate AllLogged(g: Geometry, a: Image, b: Image, logged: set<int>) {
    && |b.blocks| == |a.blocks| && |b.dinodes| == |a.dinodes|
    && (forall x :: 0 <= x < |a.blocks| && b.blocks[x] != a.blocks[x] ==> x in logged)
    && (forall j :: 0 <= j < |a.dinodes| && b.dinodes[j] != a.dinodes[j] ==> g.InodeBlock(j) in logged)
  }

  lemma LoggedTrans(g: Geometry, a: Image, b: Image, c: Image, l: set<int>, l': set<int>)
    requires AllLogged(g, a, b, l) && AllLogged(g, b, c, l') && l <= l'
    ensures AllLogged(g, a, c, l')
  {
  }

  lemma NoneChanged(g: Geometry, a: Image, l: set<int>)
    ensures AllLogged(g, a, a, l)
  {
  }

  lemma BlockLogged(g: Geometry, a: Image, x: int, b: Block, l: set<int>)
    requires 0 <= x < |a.blocks| && x in l
    ensures AllLogged(g, a, a.(blocks := a.blocks[x := b]), l)
  {
  }

  lemma InodeLogged(g: Geometry, a: Image, i: int, d: Inode, l: set<int>)
    requires 0 <= i < |a.dinodes| && g.InodeBlock(i) in l
    ensures AllLogged(g, a, a.(dinodes := a.dinodes[i := d]), l)
  {
  }

  /** Transaction `t` takes the disk from `disks[t]` to `disks[t + 1]` and logs `txns[t]`: all that it changes. */
  ghost predicate Transactions(g: Geometry, disks: seq<Image>, txns: seq<set<int>>) {
    && |disks| == |txns| + 1
    && forall t :: 0 <= t < |txns| ==> AllLogged(g, disks[t], disks[t + 1], txns[t])
  }

  lemma FlipLogged(g: Geometry, a: Image, b: int, l: set<int>)
    requires BlocksOk(g, a.blocks) && 0 <= b < g.size && g.BmapBlock(b) in l
    ensures AllLogged(g, a, a.(blocks := Flip(g, a.blocks, b)), l)
  {
    hide BlockOk;
  }

  class FileSys {
    const g: Geometry
    var blocks: seq<Block>
    var inodes: seq<Inode>    // in-memory inodes
    var dinodes: seq<Inode>   // their copies in the inode blocks
    ghost var owner: map<int, Slot>
    ghost var logged: set<int>  // blocks passed to log_write

    ghost function View(): Fs
      reads this
    {
      Fs(blocks, inodes)
    }

    ghost function Disk(): Image
      reads this
    {
      Image(blocks, dinodes)
    }

    /** The state of the step machine with nothing half done, and with inode `i` held. */
    ghost function Rest(): S.Mach
      reads this
    {
      S.Mach(blocks, inodes, dinodes, owner, map[], map[])
    }

    ghost function Held(i: int): S.Mach
      reads this
    {
      S.Mach(blocks, inodes, dinodes, owner, map[], map[i := T.SELF])
    }

    /** balloc's scan of the bitmap, block by block and bit by bit: the lowest free block. */
    method FindFree() returns (r: Option<int>)
      requires BlocksOk(g, blocks)
      ensures r.None? ==> forall x :: 0 <= x < g.size ==> Used(g, blocks, x)
      ensures r.Some? ==>
        0 <= r.value < g.size && !Used(g, blocks, r.value) && forall x :: 0 <= x < r.value ==> Used(g, blocks, x)
    {
      hide Bit, BlockOk;
      var b := 0;
      while b < g.size
        invariant 0 <= b && b % BPB == 0
        invariant forall x :: 0 <= x < b && x < g.size ==> Used(g, blocks, x)
      {
        var bp := blocks[g.BmapBlock(b)];
        assert BlockOk(bp);
        ByteRange(bp);
        var bi := 0;
        while bi < BPB && b + bi < g.size
          invariant 0 <= bi <= BPB
          invariant forall x :: 0 <= x < b + bi && x < g.size ==> Used(g, blocks, x)
        {
          BitmapPosition(g, b, bi);
          if !Bit(bp[bi / 8], bi % 8) {
            return Some(b + bi);
          }
          bi := bi + 1;
        }
        b := b + BPB;
      }
      r := None;
    }

    /** balloc: the lowest free block, marked and zeroed; None is the "out of blocks" panic. */
    method Balloc() returns (r: Option<int>)
      requires BlocksOk(g, blocks)
      modifies this`blocks, this`logged
      ensures old(logged) <= logged && AllLogged(g, old(Disk()), Disk(), logged)
      ensures r.None? ==> blocks == old(blocks) && logged == old(logged) && DiskFull(g, blocks)
      ensures r.Some? ==>
        var b := r.value;
        && 0 <= b < g.size && !Used(g, old(blocks), b) && (forall x :: 0 <= x < b ==> Used(g, old(blocks), x))
        && blocks == Flip(g, old(blocks), b)[b := ZeroBlock()]
        && logged == old(logged) + {g.BmapBlock(b), b}
    {
      hide Bit, Mask, AllLogged;
      NoneChanged(g, Disk(), logged);
      r := FindFree();
      if r.Some? {
        var b := r.value;
        var bb, bi := g.BmapBlock(b), b % BPB;
        var bp := blocks[bb];
        FlipByte(bp, bi / 8, bi % 8);
        blocks := blocks[bb := bp[bi / 8 := bp[bi / 8] + Mask(bi % 8)]];
        logged := logged + {bb};
        // bzero
        blocks := blocks[b := ZeroBlock()];
        logged := logged + {b};
        FlipLogged(g, old(Disk()), b, logged);
        BlockLogged(g, old(Disk()).(blocks := Flip(g, old(blocks), b)), b, ZeroBlock(), logged);
        LoggedTrans(g, old(Disk()), old(Disk()).(blocks := Flip(g, old(blocks), b)), Disk(), logged, logged);
      }
    }

    /** bfree: true is the "freeing free block" panic. */
    method Bfree(b: int) returns (panicked: bool)
      requires BlocksOk(g, blocks) && 0 <= b < g.size
      modifies this`blocks, this`logged
      ensures old(logged) <= logged && AllLogged(g, old(Disk()), Disk(), logged)
      ensures panicked <==> !Used(g, old(blocks), b)
      ensures blocks == if panicked then old(blocks) else Flip(g, old(blocks), b)
      ensures logged == if panicked then old(logged) else old(logged) + {g.BmapBlock(b)}
    {
      hide Bit, Mask, AllLogged;
      NoneChanged(g, Disk(), logged);
      var bb := g.BmapBlock(b);
      var bp := blocks[bb];
      var bi := b % BPB;
      if !Bit(bp[bi / 8], bi % 8) {
        return true;
      }
      FlipByte(bp, bi / 8, bi % 8);
      blocks := blocks[bb := bp[bi / 8 := bp[bi / 8] - Mask(bi % 8)]];
      logged := logged + {bb};
      FlipLogged(g, old(Disk()), b, logged);
      panicked := false;
    }

    /** Allocates a block into an empty slot; only that slot changes. */
    method AllocSlot(i: int, k: int) returns (r: Option<int>)
      requires Own(g, View(), owner, {}) && IsSlot(g, i, k) && Addr(g, View(), i, k) == 0
      requires k > NDIRECT ==> inodes[i].addrs[NDIRECT] != 0
      modifies this`blocks, this`inodes, this`owner, this`logged
      ensures old(logged) <= logged && AllLogged(g, old(Disk()), Disk(), logged)
      ensures r.None? ==> DiskFull(g, blocks) && blocks == old(blocks)
      ensures r.Some? ==>
        var b := r.value;
        && Own(g, View(), owner, {}) && Extends(g, old(View()), View())
        && (forall j, m :: IsSlot(g, j, m) ==>
             Addr(g, View(), j, m) == if j == i && m == k then b else Addr(g, old(View()), j, m))
        && IsData(g, b) && !Used(g, old(blocks), b) && blocks[b] == ZeroBlock()
        && inodes == old(inodes)[i := old(inodes)[i].(addrs := inodes[i].addrs)]
        && logged == old(logged) + {g.BmapBlock(b), b} + if k > NDIRECT then {old(inodes)[i].addrs[NDIRECT]} else {}
      ensures r.Some? ==> T.Reaches(g, old(Held(i)), T.SELF, Held(i))
    {
      hide Own, Used, BlockOk, Addr, Word, Flip, DiskFull, T.Reaches, AllLogged;
      ghost var fs0 := View();
      OwnShape(g, fs0, owner, {});
      r := Balloc();
      if r.Some? {
        var b := r.value;
        ghost var fs1 := View();
        T.SlotReach(g, fs0, dinodes, owner, T.SELF, b, i, k);
        AllocOwn(g, fs0, owner, {}, b, fs1);
        AllocExtends(g, fs0, owner, {}, b, fs1);
        assert {} + {b} == {b};
        OwnShape(g, fs1, owner, {b});
        assert Addr(g, fs1, i, k) == 0;
        StoreOwn(g, fs1, owner, {b}, b, i, k);
        assert {b} - {b} == {};
        StoreExtends(g, fs1, owner, b, i, k);
        StoreAddrs(g, fs1, owner, {b}, i, k, b);
        var ip := inodes[i];
        if k <= NDIRECT {
          inodes := inodes[i := ip.(addrs := ip.addrs[k := b])];
        } else {
          var x := ip.addrs[NDIRECT];
          IndirectOwned(g, fs1, owner, {b}, i);
          ghost var disk, l := Disk(), logged;
          blocks := blocks[x := PutWord(blocks[x], k - NDIRECT - 1, b)];
          logged := logged + {x};
          BlockLogged(g, disk, x, blocks[x], logged);
          LoggedTrans(g, old(Disk()), disk, Disk(), l, logged);
        }
        assert View() == Store(g, fs1, i, k, b);
        owner := owner[b := Slot(i, k)];
        ExtendsTrans(g, fs0, fs1, View());
      }
    }

    /** bmap: None is a panic (out of blocks, or bn out of range). */
    method Bmap(i: int, bn: int) returns (r: Option<int>)
      requires Own(g, View(), owner, {}) && 0 <= i < g.ninodes && 0 <= bn
      modifies this`blocks, this`inodes, this`owner, this`logged
      ensures old(logged) <= logged && AllLogged(g, old(Disk()), Disk(), logged)
      ensures r.None? ==> bn >= MAXFILE || (IsFileBlock(g, i, bn) && FileBlock(g, old(View()), i, bn) == 0)
      ensures r.None? && bn < MAXFILE ==> DiskFull(g, blocks) && (bn < NDIRECT ==> blocks == old(blocks))
      ensures r.Some? ==>
        && bn < MAXFILE && Own(g, View(), owner, {}) && Mapped(g, old(View()), View(), i, bn, r.value)
        && (FileBlock(g, old(View()), i, bn) != 0 ==> owner == old(owner) && logged == old(logged))
        && (old(inodes)[i].addrs[NDIRECT] != 0 ==> inodes[i].addrs[NDIRECT] == old(inodes)[i].addrs[NDIRECT])
        && forall x :: x in logged ==>
             x in old(logged) || g.IsBitmap(x) || x == r.value || x == inodes[i].addrs[NDIRECT] != 0
      ensures r.Some? ==> T.Reaches(g, old(Held(i)), T.SELF, Held(i))
    {
      hide Own, Used, BlockOk, Addr, Word, Flip, DiskFull, T.Reaches, AllLogged;
      T.ReachRefl(g, Held(i), T.SELF);
      NoneChanged(g, Disk(), logged);
      ghost var fs0 := View();
      OwnShape(g, fs0, owner, {});
      if bn >= MAXFILE {
        return None;
      }
      ExtendsRefl(g, fs0, owner, {});
      DirectAddr(g, fs0, i, SlotOf(bn));
      var ind := inodes[i].addrs[NDIRECT];
      if bn >= NDIRECT && ind == 0 {
        var a := AllocSlot(i, NDIRECT);
        if a.None? {
          return None;
        }
        OwnShape(g, View(), owner, {});
        DirectAddr(g, View(), i, NDIRECT);
      }
      ghost var fs1, held, disk, l := View(), Held(i), Disk(), logged;
      var addr := Lookup(i, bn);
      if addr == 0 {
        r := AllocSlot(i, SlotOf(bn));
        LoggedTrans(g, old(Disk()), disk, Disk(), l, logged);
        if r.None? {
          return;
        }
        T.ReachTrans(g, old(Held(i)), T.SELF, held, Held(i));
        OwnShape(g, View(), owner, {});
        DirectAddr(g, View(), i, NDIRECT);
        DirectAddr(g, fs1, i, NDIRECT);
        ExtendsTrans(g, fs0, fs1, View());
      } else {
        r := Some(addr);
        FileBlockOwned(g, View(), owner, {}, i, bn);
      }
    }

    /** The address bmap finds: a direct entry, or an entry of the indirect block. */
    method Lookup(i: int, bn: int) returns (addr: int)
      requires Own(g, View(), owner, {}) && IsFileBlock(g, i, bn) && (bn >= NDIRECT ==> inodes[i].addrs[NDIRECT] != 0)
      ensures addr == FileBlock(g, View(), i, bn)
    {
      if bn < NDIRECT {
        addr := inodes[i].addrs[bn];
      } else {
        IndirectOwned(g, View(), owner, {}, i);
        addr := Word(blocks[inodes[i].addrs[NDIRECT]], bn - NDIRECT);
      }
    }

    ghost predicate Valid()
      reads this
    {
      && Own(g, View(), owner, {})
      && dinodes == inodes
      && FreeClean(inodes)
      && forall j :: 0 <= j < g.ninodes ==> NoHoles(g, View(), j)
    }

    /** A new image: the metadata blocks are marked, and every inode is free. */
    constructor (geometry: Geometry)
      requires geometry.Valid()
      ensures g == geometry && Valid() && owner == map[] && logged == {}
      ensures |inodes| == g.ninodes && forall i :: 0 <= i < g.ninodes ==> inodes[i].kind == 0
      ensures MarkedTo(g, blocks, g.nmeta)
    {
      g := geometry;
      var unused := seq(geometry.ninodes, _ => Inode(0, 0, 0, NoAddrs()));
      blocks, inodes, dinodes := seq(geometry.size, _ => ZeroBlock()), unused, unused;
      owner, logged := map[], {};
      new;
      hide Used, Flip, BlockOk, Own, NoHoles;
      NoneMarked(g, blocks);
      var b := 0;
      while b < g.nmeta
        invariant 0 <= b <= g.nmeta && MarkedTo(g, blocks, b)
        invariant inodes == dinodes == unused && owner == map[] && logged == {}
      {
        MarkNext(g, blocks, b);
        blocks := Flip(g, blocks, b);
        b := b + 1;
      }
      EmptyOwn(g, View());
    }

    /**
     In every state the set bits are exactly the metadata blocks and the blocks of allocated
     inodes, each held once.
     */
    lemma OwnershipExact(x: int)
      requires Valid() && 0 <= x < g.size
      ensures Shape(g, View())
      ensures Used(g, blocks, x) <==> x < g.nmeta || (x != 0 && exists i, k :: HeldIn(g, View(), i, k, x))
      ensures forall i, k, j, m :: x != 0 && HeldIn(g, View(), i, k, x) && HeldIn(g, View(), j, m, x) ==>
        i == j && k == m && x >= g.nmeta
    {
      hide Own, Used, NoHoles, HeldIn, FreeClean;
      OwnShape(g, View(), owner, {});
      BitmapExact(g, View(), owner, x);
      forall i, k, j, m | x != 0 && HeldIn(g, View(), i, k, x) && HeldIn(g, View(), j, m, x)
        ensures i == j && k == m && x >= g.nmeta
      {
        HeldOnce(g, View(), owner, x, i, k, j, m);
      }
    }

    /** ialloc's scan and mark: the lowest free inode from 1 on, cleared; it held no block, so none is lost. */
    method Ialloc(kind: int) returns (r: Option<int>)
      requires Valid() && kind != 0
      modifies this`inodes, this`dinodes, this`logged
      ensures Valid() && |old(inodes)| == g.ninodes
      ensures r.None? <==> forall i :: 1 <= i < g.ninodes ==> old(inodes)[i].kind != 0
      ensures r.None? ==> inodes == old(inodes) && logged == old(logged)
      ensures r.Some? ==> 1 <= r.value < g.ninodes && old(inodes)[r.value].kind == 0
      ensures r.Some? ==> forall i :: 1 <= i < r.value ==> old(inodes)[i].kind != 0
      ensures r.Some? ==> inodes == old(inodes)[r.value := Inode(kind, 0, 0, NoAddrs())]
      ensures r.Some? ==> logged == old(logged) + {g.InodeBlock(r.value)}
      ensures old(logged) <= logged && AllLogged(g, old(Disk()), Disk(), logged)
      ensures Shape(g, View()) && Shape(g, old(View()))
      ensures forall j :: 0 <= j < g.ninodes ==> Content(g, View(), j) == Content(g, old(View()), j)
      ensures T.Reaches(g, old(Rest()), T.SELF, Rest())
    {
      hide Own, Used, BlockOk, Addr, NoHoles, Content, T.Reaches, AllLogged;
      T.ReachRefl(g, Rest(), T.SELF);
      NoneChanged(g, Disk(), logged);
      OwnShape(g, View(), owner, {});
      var inum := 1;
      while inum < g.ninodes
        invariant 1 <= inum && forall i :: 1 <= i < inum && i < g.ninodes ==> inodes[i].kind != 0
      {
        if dinodes[inum].kind == 0 {
          ghost var fs0 := View();
          var d := Inode(kind, 0, 0, NoAddrs());
          dinodes := dinodes[inum := d];
          inodes := inodes[inum := d];
          logged := logged + {g.InodeBlock(inum)};
          InodeLogged(g, old(Disk()), inum, d, logged);
          Retype(g, fs0, owner, inum, d, View());
          ChangeInode(g, fs0, owner, inum, d, View());
          return Some(inum);
        }
        inum := inum + 1;
      }
      r := None;
    }

    /** iupdate: the inode cache is write-through. */
    method Iupdate(i: int)
      requires 0 <= i < |inodes| == |dinodes|
      modifies this`dinodes, this`logged
      ensures dinodes == old(dinodes)[i := inodes[i]] && logged == old(logged) + {g.InodeBlock(i)}
      ensures AllLogged(g, old(Disk()), Disk(), logged)
    {
      dinodes := dinodes[i := inodes[i]];
      logged := logged + {g.InodeBlock(i)};
    }

    /** One iteration of readi's loop; bmap finds the block and allocates nothing. */
    method ReadChunk(i: int, o: nat, m: nat) returns (data: seq<int>)
      requires Own(g, View(), owner, {}) && 0 <= i < g.ninodes && NoHoles(g, View(), i)
      requires o + m <= inodes[i].size && 0 < m <= BSIZE - o % BSIZE
      modifies this`blocks, this`inodes, this`owner, this`logged
      ensures View() == old(View()) && owner == old(owner) && logged == old(logged)
      ensures data == Content(g, View(), i)[o..o + m]
    {
      hide Own, Used, BlockOk, Addr, Content;
      OwnShape(g, View(), owner, {});
      assert 0 < FileBlock(g, View(), i, o / BSIZE) < g.size;
      var b := Bmap(i, o / BSIZE);
      BlockSlice(g, View(), i, o, m);
      data := blocks[b.value][o % BSIZE..o % BSIZE + m];
    }

    /** readi: -1 exactly when the range starts past the end or wraps 32 bits; otherwise the clipped slice. */
    method Readi(i: int, off: nat, n: nat) returns (r: int, dst: seq<int>)
      requires Own(g, View(), owner, {}) && 0 <= i < g.ninodes && NoHoles(g, View(), i)
      requires off < 0x1_0000_0000 && n < 0x1_0000_0000
      modifies this`blocks, this`inodes, this`owner, this`logged
      ensures View() == old(View()) && owner == old(owner) && logged == old(logged)
      ensures r == -1 <==> off > inodes[i].size || off + n >= 0x1_0000_0000
      ensures r == -1 ==> dst == []
      ensures r != -1 ==>
        r == |dst| && dst == Content(g, View(), i)[off..if off + n < inodes[i].size then off + n else inodes[i].size]
    {
      hide Own, Used, BlockOk, Addr, Content, FileBlock, Shape;
      OwnShape(g, View(), owner, {});
      dst := [];
      if off > inodes[i].size || (off + n) % 0x1_0000_0000 < off {
        return -1, [];
      }
      var len := if off + n > inodes[i].size then inodes[i].size - off else n;
      var tot := 0;
      while tot < len
        invariant 0 <= tot <= len
        invariant View() == old(View()) && owner == old(owner) && logged == old(logged)
        invariant dst == Content(g, View(), i)[off..off + tot]
      {
        var o := off + tot;
        var m := if len - tot < BSIZE - o % BSIZE then len - tot else BSIZE - o % BSIZE;
        var data := ReadChunk(i, o, m);
        ghost var c := Content(g, View(), i);
        SliceJoin(c, off, o, o + m);
        dst := dst + data;
        tot := tot + m;
      }
      r := len;
    }

    /** One iteration of writei's loop; false is bmap's panic. */
    method WriteChunk(i: int, off: nat, src: seq<int>, tot: nat, m: nat, ghost fs0: Fs) returns (ok: bool)
      requires Shape(g, fs0) && Own(g, View(), owner, {}) && 0 <= i < g.ninodes && NoHoles(g, fs0, i) && Bytes(src)
      requires tot + m <= |src| && off + |src| <= MAXBYTES && 0 < m <= BSIZE - (off + tot) % BSIZE
      requires Shape(g, View()) && Written(g, fs0, View(), i, off, src, tot)
      modifies this`blocks, this`inodes, this`owner, this`logged
      ensures old(logged) <= logged && AllLogged(g, old(Disk()), Disk(), logged)
      ensures !ok ==> DiskFull(g, blocks) && ((off + tot) / BSIZE < NDIRECT ==> blocks == old(blocks))
      ensures ok ==>
        && Own(g, View(), owner, {}) && Shape(g, View()) && Written(g, fs0, View(), i, off, src, tot + m)
        && FileBlock(g, View(), i, (off + tot) / BSIZE) != 0
        && (forall bn :: IsFileBlock(g, i, bn) && FileBlock(g, old(View()), i, bn) != 0 ==>
             FileBlock(g, View(), i, bn) == FileBlock(g, old(View()), i, bn))
        && (old(inodes)[i].addrs[NDIRECT] != 0 ==> inodes[i].addrs[NDIRECT] == old(inodes)[i].addrs[NDIRECT])
        && forall x :: x in logged ==>
             x in old(logged) || g.IsBitmap(x) || x == FileBlock(g, View(), i, (off + tot) / BSIZE) ||
               x == inodes[i].addrs[NDIRECT] != 0
      ensures ok ==> T.Reaches(g, old(Held(i)), T.SELF, Held(i))
    {
      hide Own, Used, BlockOk, Addr, NoHoles, Written, DiskFull, T.Reaches, AllLogged;
      var o := off + tot;
      var b := Bmap(i, o / BSIZE);
      if b.None? {
        return false;
      }
      ghost var fs1 := View();
      OwnShape(g, fs1, owner, {});
      ChunkStep(g, fs0, old(View()), fs1, owner, i, off, src, tot, m, b.value);
      FileBlockOwned(g, fs1, owner, {}, i, o / BSIZE);
      BlockLength(g, fs1, b.value);
      ghost var held, disk, l := Held(i), Disk(), logged;
      PatchOk(blocks[b.value], o % BSIZE, src[tot..tot + m]);
      T.PatchReach(g, fs1, dinodes, owner, i, b.value, Patch(blocks[b.value], o % BSIZE, src[tot..tot + m]));
      blocks := blocks[b.value := Patch(blocks[b.value], o % BSIZE, src[tot..tot + m])];
      logged := logged + {b.value};
      BlockLogged(g, disk, b.value, blocks[b.value], logged);
      LoggedTrans(g, old(Disk()), disk, Disk(), l, logged);
      T.ReachTrans(g, old(Held(i)), T.SELF, held, Held(i));
      ok := true;
    }

    /** writei's loop: true if all of `src` was copied, false on a panic. */
    method WriteLoop(i: int, src: seq<int>, off: nat) returns (ok: bool)
      requires Own(g, View(), owner, {}) && 0 <= i < g.ninodes && NoHoles(g, View(), i) && Bytes(src)
      requires off <= inodes[i].size && off + |src| <= MAXBYTES
      modifies this`blocks, this`inodes, this`owner, this`logged
      ensures old(logged) <= logged && AllLogged(g, old(Disk()), Disk(), logged)
      ensures !ok ==> DiskFull(g, blocks) && (OneDirect(off, |src|) ==> blocks == old(blocks))
      ensures ok ==>
        && Own(g, View(), owner, {}) && Shape(g, View()) && Written(g, old(View()), View(), i, off, src, |src|)
        && forall x :: x in logged ==> x in old(logged) || Touched(g, View(), i, off, |src|, x)
      ensures ok ==> T.Reaches(g, old(Held(i)), T.SELF, Held(i))
    {
      hide Own, Used, BlockOk, Addr, NoHoles, Written, DiskFull, T.Reaches, AllLogged;
      T.ReachRefl(g, Held(i), T.SELF);
      NoneChanged(g, Disk(), logged);
      ghost var fs0 := View();
      WrittenNothing(g, fs0, owner, i, off, src);
      var tot := 0;
      while tot < |src|
        invariant 0 <= tot <= |src|
        invariant Own(g, View(), owner, {}) && Shape(g, View()) && Written(g, fs0, View(), i, off, src, tot)
        invariant forall x :: x in logged ==> x in old(logged) || Touched(g, View(), i, off, tot, x)
        invariant if tot == 0 then blocks == old(blocks) else OneDirect(off, |src|) ==> tot == |src|
        invariant T.Reaches(g, old(Held(i)), T.SELF, Held(i))
        invariant old(logged) <= logged && AllLogged(g, old(Disk()), Disk(), logged)
      {
        var o := off + tot;
        var m := if |src| - tot < BSIZE - o % BSIZE then |src| - tot else BSIZE - o % BSIZE;
        ghost var fs1, held, disk, l := View(), Held(i), Disk(), logged;
        ok := WriteChunk(i, off, src, tot, m, fs0);
        LoggedTrans(g, old(Disk()), disk, Disk(), l, logged);
        if !ok {
          return;
        }
        T.ReachTrans(g, old(Held(i)), T.SELF, held, Held(i));
        forall x | x in logged
          ensures x in old(logged) || Touched(g, View(), i, off, tot + m, x)
        {
          TouchedGrows(g, fs1, View(), i, off, tot, m, x);
        }
        tot := tot + m;
      }
      ok := true;
    }

    /**
     writei: -1 exactly when the range starts past the end, wraps 32 bits or passes the largest file size, and then
     nothing changed; otherwise the slice is replaced, other files keep their contents,
     and the inode on disk is current.
     */
    method Writei(i: int, src: seq<int>, off: nat) returns (r: int, panicked: bool)
      requires Valid() && 0 <= i < |inodes| && i < g.ninodes && inodes[i].kind != 0 && off < 0x1_0000_0000
      requires |src| < 0x1_0000_0000 && Bytes(src)
      modifies this`blocks, this`inodes, this`dinodes, this`owner, this`logged
      ensures old(logged) <= logged && AllLogged(g, old(Disk()), Disk(), logged)
      ensures panicked ==> DiskFull(g, blocks) && (OneDirect(off, |src|) ==> blocks == old(blocks))
      ensures !panicked ==> Valid()
      ensures !panicked ==>
        (r == -1 <==> off > old(inodes)[i].size || off + |src| >= 0x1_0000_0000 || off + |src| > MAXBYTES)
      ensures !panicked && r == -1 ==> View() == old(View()) && logged == old(logged)
      ensures !panicked && r != -1 ==> r == |src| && Wrote(g, old(View()), View(), i, src, off)
      ensures !panicked && r != -1 ==>
        forall x :: x in logged ==> x in old(logged) || x == g.InodeBlock(i) || Touched(g, View(), i, off, |src|, x)
      ensures !panicked ==> T.Reaches(g, old(Rest()), T.SELF, Rest())
    {
      hide Own, Used, BlockOk, Addr, NoHoles, Written, Touched, Wrote, DiskFull, T.Reaches, AllLogged;
      T.ReachRefl(g, Rest(), T.SELF);
      NoneChanged(g, Disk(), logged);
      ghost var fs0, rest0 := View(), Rest();
      OwnShape(g, fs0, owner, {});
      panicked := false;
      if off > inodes[i].size || (off + |src|) % 0x1_0000_0000 < off {
        return -1, false;
      }
      if (off + |src|) % 0x1_0000_0000 > MAXBYTES {
        return -1, false;
      }
      T.HoldInode(g, fs0, dinodes, owner, i);
      var ok := WriteLoop(i, src, off);
      if !ok {
        return 0, true;
      }
      ghost var fs1, held, dinodes0, disk, l := View(), Held(i), dinodes, Disk(), logged;
      T.ReachTrans(g, rest0, T.SELF, old(Held(i)), held);
      WrittenInodes(g, fs0, fs1, i, off, src);
      FinishWrite(g, fs0, fs1, owner, i, off, src);
      if |src| > 0 && off + |src| > inodes[i].size {
        inodes := inodes[i := inodes[i].(size := off + |src|)];
        Iupdate(i);
        LoggedTrans(g, old(Disk()), disk, Disk(), l, logged);
      }
      assert View() == Finished(fs0, fs1, i, off, src);
      assert dinodes == inodes;
      EndWrite(g, fs0, fs1, View(), dinodes0, owner, i, off, src);
      T.ReachTrans(g, rest0, T.SELF, held, Rest());
      r := |src|;
    }

    /** writei and then readi of the same range: what was written is read back, and the read changes nothing. */
    method WriteRead(i: int, src: seq<int>, off: nat) returns (r: int, panicked: bool, dst: seq<int>)
      requires Valid() && 0 <= i < |inodes| && i < g.ninodes && inodes[i].kind != 0 && off < 0x1_0000_0000
      requires |src| < 0x1_0000_0000 && Bytes(src)
      modifies this`blocks, this`inodes, this`dinodes, this`owner, this`logged
      ensures !panicked ==> (r == -1 && dst == []) || (r == |src| && dst == src)
      ensures !panicked && r != -1 ==> Wrote(g, old(View()), View(), i, src, off)
    {
      hide Own, Used, BlockOk, Addr, NoHoles, Touched, DiskFull, T.Reaches, AllLogged, Content;
      dst := [];
      r, panicked := Writei(i, src, off);
      if !panicked && r != -1 {
        ghost var c := Content(g, old(View()), i);
        WroteSize(g, old(View()), View(), i, src, off);
        assert SpliceBytes(c, off, src)[off..off + |src|] == src;
        var n;
        n, dst := Readi(i, off, |src|);
      }
    }

    /**
     filewrite on an inode: chunks that each fit a transaction. The chunks that succeed compose to one
     splice at `off`; all of them succeed exactly when the range is valid. Each transaction, from disk `disks[t]`
     to the next, logs every block it changes; with a one-block bitmap it logs no more than seven.
     */
    method FileWrite(i: int, addr: seq<int>, off: nat)
      returns (r: int, off': nat, panicked: bool, ghost txns: seq<set<int>>, ghost disks: seq<Image>)
      requires Valid() && 0 <= i < |inodes| && i < g.ninodes && inodes[i].kind != 0 && off < 0x8000_0000
      requires |addr| < 0x8000_0000 && Bytes(addr)
      modifies this`blocks, this`inodes, this`dinodes, this`owner, this`logged
      ensures panicked ==> DiskFull(g, blocks)
      ensures !panicked ==> Valid() && off <= off' <= off + |addr|
      ensures !panicked ==> r == if off' == off + |addr| then |addr| else -1
      ensures !panicked && off <= old(inodes)[i].size ==> Wrote(g, old(View()), View(), i, addr[..off' - off], off)
      ensures !panicked && off > old(inodes)[i].size ==> View() == old(View()) && off' == off
      ensures !panicked && |addr| > 0 ==> (r == |addr| <==> off <= old(inodes)[i].size && off + |addr| <= MAXBYTES)
      ensures !panicked && g.size <= BPB ==> forall t :: t in txns ==> |t| <= 7
      ensures !panicked ==> Transactions(g, disks, txns) && disks[0] == old(Disk()) && disks[|txns|] == Disk()
      ensures !panicked ==> T.Reaches(g, old(Rest()), T.SELF, Rest())
    {
      hide Own, Used, BlockOk, Addr, NoHoles, Written, Touched, Wrote, DiskFull, T.Reaches, AllLogged;
      T.ReachRefl(g, Rest(), T.SELF);
      ghost var fs0 := View();
      OwnShape(g, fs0, owner, {});
      if off <= inodes[i].size { WroteNothing(g, fs0, i, addr[..0], off); }
      var n, max, done := |addr|, ((10 - 1 - 1 - 2) / 2) * 512, 0;
      off', panicked, txns, disks := off, false, [], [Disk()];
      while done < n
        invariant 0 <= done <= n && off' == off + done && Valid()
        invariant off <= fs0.inodes[i].size ==> Wrote(g, fs0, View(), i, addr[..done], off)
        invariant off > fs0.inodes[i].size ==> View() == fs0 && done == 0
        invariant done > 0 ==> off + done <= MAXBYTES
        invariant g.size <= BPB ==> forall t :: t in txns ==> |t| <= 7
        invariant T.Reaches(g, old(Rest()), T.SELF, Rest())
        invariant Transactions(g, disks, txns) && disks[0] == old(Disk()) && disks[|txns|] == Disk()
      {
        ghost var rest := Rest();
        var n1 := if n - done > max then max else n - done;
        logged := {};
        ghost var fs1 := View();
        OwnShape(g, fs1, owner, {});
        if off <= fs0.inodes[i].size { WroteSize(g, fs0, fs1, i, addr[..done], off); }
        var w, p := Writei(i, addr[done..done + n1], off');
        if p {
          return 0, off', true, txns, disks;
        }
        T.ReachTrans(g, old(Rest()), T.SELF, rest, Rest());
        if w < 0 {
          break;
        }
        OwnShape(g, View(), owner, {});
        WroteCompose(g, fs0, fs1, View(), i, addr[..done], addr[done..done + n1], off);
        assert addr[..done] + addr[done..done + n1] == addr[..done + n1];
        if g.size <= BPB { FewTouched(g, View(), i, off', n1, logged); }
        txns, disks := txns + [logged], disks + [Disk()];
        off' := off' + w;
        done := done + w;
      }
      r := if done == n then n else -1;
    }

    /** The state of the step machine when the first `n` blocks of inode `i` are given up. */
    ghost function Freeing(i: int, n: int): S.Mach
      reads this
    {
      S.Mach(blocks, inodes, dinodes, T.Past(owner, i, n), map[], map[i := T.SELF])
    }

    /** itrunc's loop over the direct blocks: frees and clears each; "freeing free block" cannot happen. */
    method TruncDirect(i: int) returns (panicked: bool)
      requires Own(g, View(), owner, {}) && 0 <= i < g.ninodes
      modifies this`blocks, this`inodes, this`logged
      ensures !panicked && BlocksOk(g, old(blocks)) && BitsAfter(g, old(blocks), blocks, owner, i, NDIRECT)
      ensures |inodes| == |old(inodes)| && inodes == old(inodes)[i := old(inodes)[i].(addrs := inodes[i].addrs)]
      ensures |inodes[i].addrs| == NDIRECT + 1 && inodes[i].addrs[NDIRECT] == old(inodes)[i].addrs[NDIRECT]
      ensures forall m :: 0 <= m < NDIRECT ==> inodes[i].addrs[m] == 0
      ensures old(logged) <= logged && AllLogged(g, old(Disk()), Disk(), logged)
      ensures forall x :: x in logged ==> x in old(logged) || g.IsBitmap(x)
      ensures T.Reaches(g, old(Held(i)), T.SELF, Freeing(i, NDIRECT))
    {
      hide Own, Used, BlockOk, Flip, T.Reaches, T.Past, AllLogged;
      NoneChanged(g, Disk(), logged);
      ghost var fs0 := View();
      OwnShape(g, fs0, owner, {});
      NoneGone(g, fs0, owner, i);
      T.PastAll(g, fs0, owner, i);
      T.ReachRefl(g, Held(i), T.SELF);
      panicked := false;
      var k := 0;
      while k < NDIRECT
        invariant 0 <= k <= NDIRECT && !panicked
        invariant BitsAfter(g, fs0.blocks, blocks, owner, i, k)
        invariant |inodes| == |fs0.inodes| && inodes == fs0.inodes[i := fs0.inodes[i].(addrs := inodes[i].addrs)]
        invariant |inodes[i].addrs| == NDIRECT + 1
        invariant forall m :: 0 <= m <= NDIRECT ==> inodes[i].addrs[m] == if m < k then 0 else fs0.inodes[i].addrs[m]
        invariant T.Reaches(g, old(Held(i)), T.SELF, Freeing(i, k))
        invariant old(logged) <= logged && AllLogged(g, old(Disk()), Disk(), logged)
        invariant forall x :: x in logged ==> x in old(logged) || g.IsBitmap(x)
      {
        ghost var mach, disk, l := Freeing(i, k), Disk(), logged;
        T.FreeDirect(g, fs0, owner, View(), dinodes, i, k);
        FreeStep(g, fs0, blocks, owner, i, k);
        if inodes[i].addrs[k] != 0 {
          panicked := Bfree(inodes[i].addrs[k]);
          LoggedTrans(g, old(Disk()), disk, Disk(), l, logged);
          inodes := inodes[i := inodes[i].(addrs := inodes[i].addrs[k := 0])];
          T.ReachTrans(g, old(Held(i)), T.SELF, mach, Freeing(i, k + 1));
        }
        k := k + 1;
      }
    }

    /** The same when the indirect block is given up and the first `n` blocks are free again. */
    ghost function Draining(mem: seq<Inode>, i: int, n: int): S.Mach
      reads this
    {
      S.Mach(blocks, mem, dinodes, T.Past(owner, i, NSLOTS), T.Left(owner, i, n), map[i := T.SELF])
    }

    /** itrunc's loop over the entries of the indirect block, then the block itself. */
    method TruncIndirect(i: int, ghost fs0: Fs) returns (panicked: bool)
      requires Own(g, fs0, owner, {}) && 0 <= i < |inodes| == g.ninodes && Shape(g, fs0)
      requires BitsAfter(g, fs0.blocks, blocks, owner, i, NDIRECT)
      requires |inodes[i].addrs| == NDIRECT + 1 && inodes[i].addrs[NDIRECT] == fs0.inodes[i].addrs[NDIRECT]
      requires Shape(g, View())
      modifies this`blocks, this`inodes, this`logged
      ensures !panicked && BitsAfter(g, fs0.blocks, blocks, owner, i, NSLOTS)
      ensures inodes == old(inodes)[i := old(inodes)[i].(addrs := old(inodes)[i].addrs[NDIRECT := 0])]
      ensures T.Reaches(g, old(Freeing(i, NDIRECT)), T.SELF, Freeing(i, NSLOTS))
      ensures old(logged) <= logged && AllLogged(g, old(Disk()), Disk(), logged)
      ensures forall x :: x in logged ==> x in old(logged) || g.IsBitmap(x)
    {
      hide Own, Used, BlockOk, Flip, Word, T.Reaches, T.Past, T.Left, AllLogged;
      NoneChanged(g, Disk(), logged);
      T.ReachRefl(g, Freeing(i, NDIRECT), T.SELF);
      T.PastAll(g, fs0, owner, i);
      panicked := false;
      var ind := inodes[i].addrs[NDIRECT];
      if ind == 0 {
        NoEntries(g, fs0, blocks, owner, i);
        NothingPast(g, fs0, owner, i);
        assert inodes[i].addrs[NDIRECT := 0] == inodes[i].addrs;
        return;
      }
      ghost var mem := inodes[i := inodes[i].(addrs := inodes[i].addrs[NDIRECT := 0])];
      T.DropIndirect(g, fs0, owner, View(), dinodes, i);
      IndirectOwned(g, fs0, owner, {}, i);
      BlockLength(g, fs0, ind);
      var a := blocks[ind];
      var j := 0;
      while j < NINDIRECT
        invariant 0 <= j <= NINDIRECT && !panicked && inodes == old(inodes)
        invariant BitsAfter(g, fs0.blocks, blocks, owner, i, NDIRECT + j)
        invariant T.Reaches(g, old(Freeing(i, NDIRECT)), T.SELF, Draining(mem, i, NDIRECT + j))
        invariant old(logged) <= logged && AllLogged(g, old(Disk()), Disk(), logged)
        invariant forall x :: x in logged ==> x in old(logged) || g.IsBitmap(x)
      {
        ghost var mach, disk, l := Draining(mem, i, NDIRECT + j), Disk(), logged;
        FreeStep(g, fs0, blocks, owner, i, NDIRECT + 1 + j);
        T.FreeNext(g, fs0, owner, Fs(blocks, mem), dinodes, T.Past(owner, i, NSLOTS), i, NDIRECT + 1 + j);
        if Word(a, j) != 0 {
          panicked := Bfree(Word(a, j));
          LoggedTrans(g, old(Disk()), disk, Disk(), l, logged);
          T.ReachTrans(g, old(Freeing(i, NDIRECT)), T.SELF, mach, Draining(mem, i, NDIRECT + j + 1));
        }
        j := j + 1;
      }
      ghost var mach, disk, l := Draining(mem, i, NDIRECT + j), Disk(), logged;
      FreeStep(g, fs0, blocks, owner, i, NDIRECT);
      T.FreeNext(g, fs0, owner, Fs(blocks, mem), dinodes, T.Past(owner, i, NSLOTS), i, NDIRECT);
      panicked := Bfree(ind);
      LoggedTrans(g, old(Disk()), disk, Disk(), l, logged);
      inodes := inodes[i := inodes[i].(addrs := inodes[i].addrs[NDIRECT := 0])];
      T.ReachTrans(g, old(Freeing(i, NDIRECT)), T.SELF, mach, Freeing(i, NSLOTS));
    }

    /** itrunc: frees exactly what the inode owned; every other file is untouched. */
    method Itrunc(i: int) returns (panicked: bool)
      requires Valid() && 0 <= i < g.ninodes
      modifies this`blocks, this`inodes, this`dinodes, this`owner, this`logged
      ensures !panicked && Valid() && owner == Disowned(old(owner), i)
      ensures old(logged) <= logged && AllLogged(g, old(Disk()), Disk(), logged)
      ensures forall x :: x in logged ==> x in old(logged) || g.IsBitmap(x) || x == g.InodeBlock(i)
      ensures Shape(g, View()) && Shape(g, old(View())) && inodes == Emptied(old(View()), i).inodes
      ensures forall x :: 0 <= x < g.size ==>
        (Used(g, blocks, x) <==> Used(g, old(blocks), x) && !(x in old(owner) && old(owner)[x].inum == i))
      ensures forall j :: 0 <= j < g.ninodes && j != i ==> Content(g, View(), j) == Content(g, old(View()), j)
      ensures T.Reaches(g, old(Rest()), T.SELF, Rest())
    {
      hide Own, Used, BlockOk, NoHoles, Addr, T.Reaches, T.Past, AllLogged;
      ghost var fs0, rest0 := View(), Rest();
      OwnShape(g, fs0, owner, {});
      T.HoldInode(g, fs0, dinodes, owner, i);
      T.PastAll(g, fs0, owner, i);
      panicked := TruncDirect(i);
      T.ReachTrans(g, rest0, T.SELF, old(Held(i)), Freeing(i, NDIRECT));
      ghost var direct, disk1, l1 := Freeing(i, NDIRECT), Disk(), logged;
      panicked := TruncIndirect(i, fs0);
      ghost var disk2, l2 := Disk(), logged;
      LoggedTrans(g, old(Disk()), disk1, disk2, l1, l2);
      T.ReachTrans(g, rest0, T.SELF, direct, Freeing(i, NSLOTS));
      ghost var all, fs1 := Freeing(i, NSLOTS), View();
      inodes := inodes[i := inodes[i].(size := 0)];
      Iupdate(i);
      LoggedTrans(g, old(Disk()), disk2, Disk(), l2, logged);
      TruncOwn(g, fs0, blocks, owner, i);
      AllGone(g, fs0, owner, i);
      assert inodes[i].addrs == seq(NDIRECT + 1, _ => 0);
      assert View() == Emptied(Fs(blocks, fs0.inodes), i);
      owner := Disowned(owner, i);
      OwnShape(g, View(), owner, {});
      T.WriteInode(g, fs1, fs0.inodes, owner, i, inodes[i]);
      T.ReachTrans(g, rest0, T.SELF, all, Rest());
    }

    /**
     The freeing half of iput: itrunc, clear the type, and write the inode. Its blocks, and only
     those, are free again.
     */
    method Ifree(i: int) returns (panicked: bool)
      requires Valid() && 0 <= i < g.ninodes
      modifies this`blocks, this`inodes, this`dinodes, this`owner, this`logged
      ensures !panicked && Valid() && owner == Disowned(old(owner), i) && Shape(g, View()) && Shape(g, old(View()))
      ensures inodes == old(inodes)[i := Inode(0, old(inodes)[i].nlink, 0, NoAddrs())]
      ensures old(logged) <= logged && AllLogged(g, old(Disk()), Disk(), logged)
      ensures forall x :: x in logged ==> x in old(logged) || g.IsBitmap(x) || x == g.InodeBlock(i)
      ensures forall x :: 0 <= x < g.size ==>
        (Used(g, blocks, x) <==> Used(g, old(blocks), x) && !(x in old(owner) && old(owner)[x].inum == i))
      ensures forall j :: 0 <= j < g.ninodes && j != i ==> Content(g, View(), j) == Content(g, old(View()), j)
      ensures T.Reaches(g, old(Rest()), T.SELF, Rest())
    {
      hide Own, Used, BlockOk, NoHoles, Addr, Content, T.Reaches, AllLogged;
      panicked := Itrunc(i);
      ghost var fs1, rest, disk, l := View(), Rest(), Disk(), logged;
      OwnShape(g, fs1, owner, {});
      inodes := inodes[i := inodes[i].(kind := 0)];
      Iupdate(i);
      LoggedTrans(g, old(Disk()), disk, Disk(), l, logged);
      Retype(g, fs1, owner, i, inodes[i], View());
      ChangeInode(g, fs1, owner, i, inodes[i], View());
      T.ReachTrans(g, old(Rest()), T.SELF, rest, Rest());
    }
  }

  lemma NoEntries(g: Geometry, fs: Fs, blocks: seq<Block>, owner: map<int, Slot>, i: int)
    requires Own(g, fs, owner, {}) && 0 <= i < g.ninodes && BitsAfter(g, fs.blocks, blocks, owner, i, NDIRECT)
    requires fs.inodes[i].addrs[NDIRECT] == 0
    ensures BitsAfter(g, fs.blocks, blocks, owner, i, NSLOTS)
  {
    hide Used, BlockOk;
    assert forall k :: IsSlot(g, i, k) && k >= NDIRECT ==> Addr(g, fs, i, k) == 0;
    assert forall x :: Gone(owner, i, NSLOTS, x) <==> Gone(owner, i, NDIRECT, x);
  }

  lemma NothingPast(g: Geometry, fs: Fs, owner: map<int, Slot>, i: int)
    requires Own(g, fs, owner, {}) && 0 <= i < g.ninodes && fs.inodes[i].addrs[NDIRECT] == 0
    ensures T.Past(owner, i, NSLOTS) == T.Past(owner, i, NDIRECT)
  {
    hide Used, BlockOk;
    assert forall k :: IsSlot(g, i, k) && k >= NDIRECT ==> Addr(g, fs, i, k) == 0;
    assert forall x :: Gone(owner, i, NSLOTS, x) <==> Gone(owner, i, NDIRECT, x);
  }

  lemma NoneGone(g: Geometry, fs: Fs, owner: map<int, Slot>, i: int)
    requires Own(g, fs, owner, {})
    ensures BitsAfter(g, fs.blocks, fs.blocks, owner, i, 0)
  {
    hide Used, Addr, BlockOk;
  }

  lemma AllGone(g: Geometry, fs: Fs, owner: map<int, Slot>, i: int)
    requires Own(g, fs, owner, {})
    ensures forall x :: Gone(owner, i, NSLOTS, x) <==> x in owner && owner[x].inum == i
  {
    hide Used, Addr;
  }

  lemma WroteNothing(g: Geometry, fs: Fs, i: int, none: seq<int>, off: nat)
    requires Shape(g, fs) && 0 <= i < g.ninodes && (forall j :: 0 <= j < g.ninodes ==> NoHoles(g, fs, j))
    requires none == [] && off <= fs.inodes[i].size
    ensures Wrote(g, fs, fs, i, none, off)
  {
    hide NoHoles, Addr;
    var c := Content(g, fs, i);
    assert SpliceBytes(c, off, none) == c;
  }

  lemma WroteSize(g: Geometry, fs: Fs, fs': Fs, i: int, src: seq<int>, off: nat)
    requires Wrote(g, fs, fs', i, src, off)
    ensures fs'.inodes[i].size == if off + |src| > fs.inodes[i].size then off + |src| else fs.inodes[i].size
    ensures fs'.inodes[i].kind == fs.inodes[i].kind
  {
    hide NoHoles, Addr;
    assert |Content(g, fs', i)| == |SpliceBytes(Content(g, fs, i), off, src)|;
  }

  lemma SliceJoin(c: seq<int>, x: nat, y: nat, z: nat)
    requires x <= y <= z <= |c|
    ensures c[x..y] + c[y..z] == c[x..z]
  {
  }

  lemma SpliceTwice(c: seq<int>, off: nat, a: seq<int>, b: seq<int>)
    requires off <= |c|
    ensures off + |a| <= |SpliceBytes(c, off, a)|
    ensures SpliceBytes(SpliceBytes(c, off, a), off + |a|, b) == SpliceBytes(c, off, a + b)
  {
  }

  /** Consecutive writes are one write of the concatenation. */
  lemma WroteCompose(g: Geometry, fs0: Fs, fs1: Fs, fs2: Fs, i: int, a: seq<int>, b: seq<int>, off: nat)
    requires Wrote(g, fs0, fs1, i, a, off) && Wrote(g, fs1, fs2, i, b, off + |a|)
    ensures Wrote(g, fs0, fs2, i, a + b, off)
  {
    hide NoHoles, Addr;
    var c := Content(g, fs0, i);
    SpliceTwice(c, off, a, b);
  }

  lemma SubsetSize(a: set<int>, b: set<int>)
    requires a <= b
    ensures |a| <= |b|
  {
    assert b == a + (b - a);
  }

  /** 4 data blocks, the indirect block, the inode block and the bitmap block. */
  lemma FewTouched(g: Geometry, fs: Fs, i: int, off: nat, n: nat, logged: set<int>)
    requires Shape(g, fs) && 0 <= i < g.ninodes && g.size <= BPB && n <= 1536
    requires forall x :: x in logged ==> x == g.InodeBlock(i) || Touched(g, fs, i, off, n, x)
    ensures |logged| <= 7
  {
    hide FileBlock, BlockOk;
    var lo := off / BSIZE;
    var at := (k: nat) => if IsFileBlock(g, i, lo + k) then FileBlock(g, fs, i, lo + k) else 0;
    var all := {g.InodeBlock(i), g.bmapstart, fs.inodes[i].addrs[NDIRECT], at(0), at(1), at(2), at(3)};
    forall x | x in logged ensures x in all {
      if x != g.InodeBlock(i) && !g.IsBitmap(x) && x != fs.inodes[i].addrs[NDIRECT] {
        var bn :| IsFileBlock(g, i, bn) && lo <= bn && bn * BSIZE < off + n && x == FileBlock(g, fs, i, bn) != 0;
        assert bn - lo <= 3;
        assert x == at(bn - lo);
      }
    }
    SubsetSize(logged, all);
  }

  /** The inode's size after the loop: grown if the write ran past the end. */
  function Finished(fs0: Fs, fs: Fs, i: int, off: nat, src: seq<int>): Fs
    requires 0 <= i < |fs.inodes| && 0 <= i < |fs0.inodes|
  {
    if off + |src| > fs0.inodes[i].size then Resized(fs, i, off + |src|) else fs
  }

  /** `fs'` is `fs` with `src` written into file `i` at `off`, and every other file unchanged. */
  ghost predicate Wrote(g: Geometry, fs: Fs, fs': Fs, i: int, src: seq<int>, off: nat) {
    && Shape(g, fs) && Shape(g, fs') && 0 <= i < g.ninodes
    && (forall j :: 0 <= j < g.ninodes ==> NoHoles(g, fs, j) && NoHoles(g, fs', j))
    && off <= fs.inodes[i].size
    && Content(g, fs', i) == SpliceBytes(Content(g, fs, i), off, src)
    && (forall j :: 0 <= j < g.ninodes && j != i ==>
         fs'.inodes[j] == fs.inodes[j] && Content(g, fs', j) == Content(g, fs, j))
    && fs'.inodes[i].kind == fs.inodes[i].kind && fs'.inodes[i].nlink == fs.inodes[i].nlink
  }

  /** writei's conditional iupdate suffices: if the write did not grow the file, bmap allocated nothing for it. */
  lemma WrittenInodes(g: Geometry, fs0: Fs, fs: Fs, i: int, off: nat, src: seq<int>)
    requires Shape(g, fs0) && Shape(g, fs) && 0 <= i < g.ninodes && Written(g, fs0, fs, i, off, src, |src|)
    ensures off + |src| <= fs0.inodes[i].size ==> fs.inodes == fs0.inodes
    ensures fs.inodes == fs0.inodes[i := fs0.inodes[i].(addrs := fs.inodes[i].addrs)]
  {
  }

  /** A change of type or links as steps: the inode held, changed and written. */
  lemma ChangeInode(g: Geometry, fs: Fs, owner: map<int, Slot>, i: int, d: Inode, fs': Fs)
    requires Shape(g, fs) && Shape(g, fs') && 0 <= i < g.ninodes && d.addrs == fs.inodes[i].addrs
    requires fs' == Fs(fs.blocks, fs.inodes[i := d]) && NoHoles(g, fs', i) && (d.kind == 0 ==> Clean(d))
    ensures T.Reaches(g, S.Mach(fs.blocks, fs.inodes, fs.inodes, owner, map[], map[]), T.SELF,
                         S.Mach(fs'.blocks, fs'.inodes, fs'.inodes, owner, map[], map[]))
  {
    hide T.Reaches, NoHoles, BlockOk;
    T.HoldInode(g, fs, fs.inodes, owner, i);
    T.WriteInode(g, fs, fs.inodes, owner, i, d);
    T.ReachTrans(g, S.Mach(fs.blocks, fs.inodes, fs.inodes, owner, map[], map[]), T.SELF,
                 S.Mach(fs.blocks, fs.inodes, fs.inodes, owner, map[], map[i := T.SELF]),
                 S.Mach(fs'.blocks, fs'.inodes, fs'.inodes, owner, map[], map[]));
  }

  /** The end of writei as steps: the size set and the inode written, or let go as it was. */
  lemma EndWrite(g: Geometry, fs0: Fs, fs: Fs, fs': Fs, disk: seq<Inode>, owner: map<int, Slot>, i: int, off: nat,
                 src: seq<int>)
    requires Shape(g, fs0) && Shape(g, fs) && Shape(g, fs') && 0 <= i < g.ninodes && disk == fs0.inodes
    requires Written(g, fs0, fs, i, off, src, |src|) && fs' == Finished(fs0, fs, i, off, src)
    requires off <= fs0.inodes[i].size
    requires NoHoles(g, fs', i) && fs.inodes[i].kind == fs0.inodes[i].kind != 0
    ensures T.Reaches(g, S.Mach(fs.blocks, fs.inodes, disk, owner, map[], map[i := T.SELF]), T.SELF,
                         S.Mach(fs'.blocks, fs'.inodes, fs'.inodes, owner, map[], map[]))
  {
    hide T.Reaches, NoHoles, Written, BlockOk;
    WrittenInodes(g, fs0, fs, i, off, src);
    if |src| > 0 && off + |src| > fs.inodes[i].size {
      var d := fs.inodes[i].(size := off + |src|);
      assert fs' == Fs(fs.blocks, fs.inodes[i := d]) && disk[i := d] == fs'.inodes;
      T.WriteInode(g, fs, disk, owner, i, d);
    } else {
      assert fs' == fs && fs.inodes == disk;
      T.LetInode(g, fs, disk, owner, i);
    }
  }

  lemma FinishWrite(g: Geometry, fs0: Fs, fs: Fs, owner: map<int, Slot>, i: int, off: nat, src: seq<int>)
    requires Shape(g, fs0) && Own(g, fs, owner, {}) && Shape(g, fs) && 0 <= i < g.ninodes
    requires forall j :: 0 <= j < g.ninodes ==> NoHoles(g, fs0, j)
    requires off <= fs0.inodes[i].size && off + |src| <= MAXBYTES
    requires Written(g, fs0, fs, i, off, src, |src|)
    ensures var fs' := Finished(fs0, fs, i, off, src);
      && Own(g, fs', owner, {}) && Wrote(g, fs0, fs', i, src, off)
      && Shape(g, fs') && (forall j :: 0 <= j < g.ninodes ==> NoHoles(g, fs', j))
      && forall x :: Touched(g, fs, i, off, |src|, x) ==> Touched(g, fs', i, off, |src|, x)
  {
    hide Own, Used, BlockOk, Addr, NoHoles;
    var fs' := Finished(fs0, fs, i, off, src);
    ResizedShape(g, fs, owner, i, off + |src|);
    OwnShape(g, fs', owner, {});
    assert SameAddrs(g, fs, fs');
    FinishContent(g, fs0, fs, fs', i, off, src);
    forall j | 0 <= j < g.ninodes && j != i
      ensures NoHoles(g, fs', j) && Content(g, fs', j) == Content(g, fs0, j)
    {
      assert forall bn :: IsFileBlock(g, j, bn) && FileBlock(g, fs0, j, bn) != 0 ==> SameFileBlock(g, fs0, fs, j, bn);
      SameContent(g, fs0, fs', j);
    }
  }

  /** Blocks a write of `n` bytes at `off` may log: bitmap, indirect block, and the file blocks it covers. */
  ghost predicate Touched(g: Geometry, fs: Fs, i: int, off: nat, n: nat, x: int)
    requires Shape(g, fs) && 0 <= i < g.ninodes
  {
    || g.IsBitmap(x)
    || x == fs.inodes[i].addrs[NDIRECT] != 0
    || exists bn :: IsFileBlock(g, i, bn) && off / BSIZE <= bn && bn * BSIZE < off + n &&
         x == FileBlock(g, fs, i, bn) != 0
  }

  lemma TouchedGrows(g: Geometry, fs: Fs, fs': Fs, i: int, off: nat, tot: nat, m: nat, x: int)
    requires Shape(g, fs) && Shape(g, fs') && 0 <= i < g.ninodes && m > 0 && off + tot + m <= MAXBYTES
    requires forall bn :: IsFileBlock(g, i, bn) && FileBlock(g, fs, i, bn) != 0 ==>
      FileBlock(g, fs', i, bn) == FileBlock(g, fs, i, bn)
    requires fs.inodes[i].addrs[NDIRECT] != 0 ==> fs'.inodes[i].addrs[NDIRECT] == fs.inodes[i].addrs[NDIRECT]
    requires FileBlock(g, fs', i, (off + tot) / BSIZE) != 0
    ensures Touched(g, fs, i, off, tot, x) || g.IsBitmap(x) || x == FileBlock(g, fs', i, (off + tot) / BSIZE) ||
      x == fs'.inodes[i].addrs[NDIRECT] != 0
      ==> Touched(g, fs', i, off, tot + m, x)
  {
    hide FileBlock;
    assert IsFileBlock(g, i, (off + tot) / BSIZE);
    if bn :| IsFileBlock(g, i, bn) && off / BSIZE <= bn && bn * BSIZE < off + tot && x == FileBlock(g, fs, i, bn) != 0 {
      assert x == FileBlock(g, fs', i, bn);
    }
  }

  lemma WrittenNothing(g: Geometry, fs: Fs, owner: map<int, Slot>, i: int, off: int, src: seq<int>)
    requires Own(g, fs, owner, {}) && 0 <= i < g.ninodes
    ensures Shape(g, fs) && Written(g, fs, fs, i, off, src, 0)
  {
    ExtendsRefl(g, fs, owner, {});
  }

  lemma BlockLength(g: Geometry, fs: Fs, b: int)
    requires Shape(g, fs) && 0 <= b < g.size
    ensures |fs.blocks[b]| == BSIZE
  {
  }

  lemma BlockSlice(g: Geometry, fs: Fs, i: int, o: nat, m: nat)
    requires Shape(g, fs) && 0 <= i < g.ninodes && NoHoles(g, fs, i) && o + m <= fs.inodes[i].size
    requires 0 < m <= BSIZE - o % BSIZE
    ensures var b := FileBlock(g, fs, i, o / BSIZE);
      0 < b < g.size && |fs.blocks[b]| == BSIZE && fs.blocks[b][o % BSIZE..o % BSIZE + m] == Content(g, fs, i)[o..o + m]
  {
    hide Addr;
    var b := FileBlock(g, fs, i, o / BSIZE);
    assert 0 < b < g.size;
    var s, c := fs.blocks[b][o % BSIZE..o % BSIZE + m], Content(g, fs, i)[o..o + m];
    forall x | 0 <= x < m
      ensures s[x] == c[x]
    {
      assert (o + x) / BSIZE == o / BSIZE && (o + x) % BSIZE == o % BSIZE + x;
    }
  }

  lemma DirectAddr(g: Geometry, fs: Fs, i: int, k: int)
    requires Shape(g, fs) && IsSlot(g, i, k)
    ensures Addr(g, fs, i, NDIRECT) == fs.inodes[i].addrs[NDIRECT]
    ensures k > NDIRECT && fs.inodes[i].addrs[NDIRECT] == 0 ==> Addr(g, fs, i, k) == 0
  {
  }
}
