/**
 The buffer cache of bio.c over the in-memory disk of memide.c, proved to behave as a plain
 map from block number to contents. `now` is that map; buffers and disk are where it lives.
 */
module BufferCache {
  import opened LruList

  type Block = seq<int>

  /** One cache slot: what block it is for, its reference count, flags, sleep lock and data. */
  datatype Buf = Buf(dev: nat, blockno: nat, refcnt: nat, valid: bool, dirty: bool, locked: bool, data: Block)

  datatype Opt = NoBuffers | Found(b: nat)

  predicate Caches(x: Buf, dev: nat, blockno: nat) {
    x.dev == dev && x.blockno == blockno
  }

  /** bget may take a buffer over: nobody refers to it and the log does not need it. */
  predicate Spare(x: Buf) {
    x.refcnt == 0 && !x.dirty
  }

  /** A buffer that has been read holds its block's contents; a clean unlocked one, the disk's too. */
  ghost predicate BufOk(x: Buf, disk: seq<Block>, now: seq<Block>) {
    && |now| == |disk|
    && (x.locked ==> x.refcnt > 0)
    && (x.valid ==> x.dev == 1 && x.blockno < |disk| && x.data == now[x.blockno])
    && (x.valid && !x.dirty && !x.locked ==> x.data == disk[x.blockno])
    && (x.dirty ==> x.valid)
  }

  ghost predicate Cached(bufs: seq<Buf>, blockno: nat) {
    exists i :: 0 <= i < |bufs| && bufs[i].valid && Caches(bufs[i], 1, blockno)
  }

  /** At most one buffer per block; device 0 is excepted, where every buffer starts out. */
  ghost predicate Unique(bufs: seq<Buf>) {
    forall i, j :: 0 <= i < j < |bufs| && bufs[i].dev != 0 ==> !Caches(bufs[j], bufs[i].dev, bufs[i].blockno)
  }

  ghost predicate Coherent(bufs: seq<Buf>, disk: seq<Block>, now: seq<Block>) {
    && |now| == |disk| && Unique(bufs)
    && (forall i :: 0 <= i < |bufs| ==> BufOk(bufs[i], disk, now))
    && (forall k :: 0 <= k < |disk| && !Cached(bufs, k) ==> now[k] == disk[k])
  }

  /** Recycling a spare buffer for an uncached block changes no contents. */
  lemma Recycle(bufs: seq<Buf>, disk: seq<Block>, now: seq<Block>, i: nat, x: Buf)
    requires Coherent(bufs, disk, now) && i < |bufs| && Spare(bufs[i])
    requires !x.valid && !x.dirty && !x.locked
    requires forall j :: 0 <= j < |bufs| ==> !Caches(bufs[j], x.dev, x.blockno)
    ensures Coherent(bufs[i := x], disk, now)
  {
    var bufs' := bufs[i := x];
    assert BufOk(bufs[i], disk, now);
    forall k: nat | Cached(bufs, k) && !(bufs[i].valid && Caches(bufs[i], 1, k)) ensures Cached(bufs', k) {
      var j :| 0 <= j < |bufs| && bufs[j].valid && Caches(bufs[j], 1, k);
      assert bufs'[j] == bufs[j];
    }
    forall j | 0 <= j < |bufs'| ensures BufOk(bufs'[j], disk, now) {
      assert j != i ==> BufOk(bufs[j], disk, now);
    }
  }

  /** A buffer changes without changing which block it is for or whether it is valid. */
  lemma Touch(bufs: seq<Buf>, disk: seq<Block>, now: seq<Block>, i: nat, x: Buf)
    requires Coherent(bufs, disk, now) && i < |bufs| && BufOk(x, disk, now)
    requires Caches(x, bufs[i].dev, bufs[i].blockno) && (bufs[i].valid ==> x.valid)
    ensures Coherent(bufs[i := x], disk, now)
  {
    var bufs' := bufs[i := x];
    forall k: nat | Cached(bufs, k) ensures Cached(bufs', k) {
      var j :| 0 <= j < |bufs| && bufs[j].valid && Caches(bufs[j], 1, k);
      assert bufs'[j].valid && Caches(bufs'[j], 1, k);
    }
    forall j | 0 <= j < |bufs'| ensures BufOk(bufs'[j], disk, now) {
      assert j != i ==> BufOk(bufs[j], disk, now);
    }
  }

  /** A locked buffer's block gets new contents, in the buffer alone or on the disk as well. */
  lemma Change(bufs: seq<Buf>, disk: seq<Block>, now: seq<Block>, i: nat, x: Buf, disk': seq<Block>)
    requires Coherent(bufs, disk, now) && i < |bufs| && bufs[i].valid && bufs[i].locked
    requires x.valid && x.locked && x.refcnt > 0 && Caches(x, 1, bufs[i].blockno) && x.blockno < |disk|
    requires disk' == disk || disk' == disk[x.blockno := x.data]
    ensures bufs[i].blockno < |now|
    ensures Coherent(bufs[i := x], disk', now[x.blockno := x.data])
  {
    var bufs', now' := bufs[i := x], now[x.blockno := x.data];
    assert BufOk(bufs[i], disk, now);
    assert Cached(bufs', x.blockno) by { assert bufs'[i].valid && Caches(bufs'[i], 1, x.blockno); }
    forall k: nat | Cached(bufs, k) ensures Cached(bufs', k) {
      var j :| 0 <= j < |bufs| && bufs[j].valid && Caches(bufs[j], 1, k);
      assert bufs'[j].valid && Caches(bufs'[j], 1, k);
    }
    forall j | 0 <= j < |bufs'| ensures BufOk(bufs'[j], disk', now') {
      if j != i {
        assert BufOk(bufs[j], disk, now);
        assert bufs[j].valid ==> bufs[j].blockno != x.blockno;
      }
    }
  }

  const NBUF := 30

  ghost predicate Everyone(order: seq<nat>, n: nat) {
    |order| == n && forall b: nat :: b < n ==> b in order
  }

  /** `b` moved to the front of the list. */
  ghost predicate MovedToFront(order: seq<nat>, order': seq<nat>, b: nat) {
    exists k: nat :: k < |order| && order[k] == b && order' == [b] + Without(order, k)
  }

  lemma FrontEveryone(order: seq<nat>, k: nat, n: nat)
    requires Everyone(order, n) && k < |order| && forall i, j :: 0 <= i < j < |order| ==> order[i] != order[j]
    ensures Everyone([order[k]] + Without(order, k), n) && order[k] !in Without(order, k)
  {
    var order' := [order[k]] + Without(order, k);
    forall b: nat | b < n ensures b in order' {
      assert b in order;
      var i :| 0 <= i < |order| && order[i] == b;
      assert i < k ==> order'[i + 1] == b;
      assert i > k ==> order'[i] == b;
      assert order'[0] == order[k];
    }
  }

  /** No spare buffer was used less recently than `b`. */
  ghost predicate LastSpare(bufs: seq<Buf>, order: seq<nat>, b: nat) {
    exists i: nat :: i < |order| && order[i] == b
      && forall j :: i < j < |order| && order[j] < |bufs| ==> !Spare(bufs[order[j]])
  }

  lemma Retain(bufs: seq<Buf>, disk: seq<Block>, now: seq<Block>, i: nat)
    requires Coherent(bufs, disk, now) && i < |bufs|
    ensures Coherent(bufs[i := bufs[i].(refcnt := bufs[i].refcnt + 1)], disk, now)
  {
    assert BufOk(bufs[i], disk, now);
    Touch(bufs, disk, now, i, bufs[i].(refcnt := bufs[i].refcnt + 1));
  }

  /** The list reaches every buffer, so what it misses no buffer has. */
  lemma AllOf(order: seq<nat>, bufs: seq<Buf>, dev: nat, blockno: nat)
    requires Everyone(order, |bufs|)
    requires forall j :: 0 <= j < |order| ==> order[j] < |bufs| && !Caches(bufs[order[j]], dev, blockno)
    ensures forall b :: 0 <= b < |bufs| ==> !Caches(bufs[b], dev, blockno)
  {
    forall b: nat | b < |bufs| ensures !Caches(bufs[b], dev, blockno) {
      assert b in order;
    }
  }

  lemma NoneOf(order: seq<nat>, bufs: seq<Buf>)
    requires Everyone(order, |bufs|)
    requires forall j :: 0 <= j < |order| ==> order[j] < |bufs| && !Spare(bufs[order[j]])
    ensures forall b :: 0 <= b < |bufs| ==> !Spare(bufs[b])
  {
    forall b: nat | b < |bufs| ensures !Spare(bufs[b]) {
      assert b in order;
    }
  }

  /** A buffer for a block of disk 1 that has not been read is the only one for that block. */
  lemma NotCached(bufs: seq<Buf>, b: nat)
    requires Unique(bufs) && b < |bufs| && bufs[b].dev == 1 && !bufs[b].valid
    ensures !Cached(bufs, bufs[b].blockno)
  {
    forall i | 0 <= i < |bufs| && i != b ensures !Caches(bufs[i], 1, bufs[b].blockno) {
      if i < b {
        assert bufs[i].dev != 0 ==> !Caches(bufs[b], bufs[i].dev, bufs[i].blockno);
      } else {
        assert !Caches(bufs[i], bufs[b].dev, bufs[b].blockno);
      }
    }
  }

  lemma LockedHeld(bufs: seq<Buf>, disk: seq<Block>, now: seq<Block>, b: nat)
    requires Coherent(bufs, disk, now) && b < |bufs| && bufs[b].locked
    ensures bufs[b].refcnt > 0
  {
    assert BufOk(bufs[b], disk, now);
  }

  /** Letting a buffer go keeps the map exactly when its data is on disk or pinned. */
  lemma LetGo(bufs: seq<Buf>, disk: seq<Block>, now: seq<Block>, b: nat, x: Buf)
    requires Coherent(bufs, disk, now) && b < |bufs| && bufs[b].locked && bufs[b].refcnt > 0
    requires x == bufs[b].(locked := false, refcnt := bufs[b].refcnt - 1)
    ensures Coherent(bufs[b := x], disk, now) <==>
      (x.valid && !x.dirty ==> x.blockno < |disk| && x.data == disk[x.blockno])
  {
    assert BufOk(bufs[b], disk, now);
    if BufOk(x, disk, now) {
      Touch(bufs, disk, now, b, x);
    } else {
      assert bufs[b := x][b] == x;
    }
  }

  class Bcache {
    var next: seq<nat>
    var prev: seq<nat>
    var bufs: seq<Buf>
    var disk: seq<Block>
    ghost var order: seq<nat>
    ghost var now: seq<Block>

    ghost predicate Valid()
      reads this
    {
      && |bufs| == NBUF && List(next, prev, order, NBUF) && Everyone(order, NBUF)
      && Coherent(bufs, disk, now)
    }

    /** binit, over buffers that start out zeroed in static storage. */
    constructor (image: seq<Block>, zero: Block)
      ensures Valid() && disk == image && now == image
      ensures forall i :: 0 <= i < NBUF ==> bufs[i] == Buf(0, 0, 0, false, false, false, zero)
    {
      var nx: seq<nat> := seq(NBUF + 1, _ => NBUF);
      var pv: seq<nat> := seq(NBUF + 1, _ => NBUF);
      ghost var list: seq<nat> := [];
      assert List(nx, pv, [], NBUF);
      var b: nat := 0;
      while b < NBUF
        invariant b <= NBUF && List(nx, pv, list, NBUF) && |list| == b
        invariant forall i: nat :: i in list <==> i < b
      {
        assert LinkAt(nx, pv, list, -1, NBUF);
        ghost var nx0, pv0 := nx, pv;
        nx := nx[b := nx[NBUF]];
        pv := pv[b := NBUF];
        pv := pv[nx[NBUF] := b];
        nx := nx[NBUF := b];
        Push(nx0, pv0, list, b, NBUF, nx, pv);
        list := [b] + list;
        b := b + 1;
      }
      next, prev, order := nx, pv, list;
      bufs := seq(NBUF, _ => Buf(0, 0, 0, false, false, false, zero));
      disk, now := image, image;
    }

    /** bget: the cached buffer, or the least recently used spare one, or the panic. */
    method Bget(dev: nat, blockno: nat) returns (r: Opt)
      requires Valid()
      modifies `bufs
      ensures Valid()
      ensures r.NoBuffers? <==>
        forall i :: 0 <= i < NBUF ==> !Caches(old(bufs[i]), dev, blockno) && !Spare(old(bufs[i]))
      ensures r.NoBuffers? ==> bufs == old(bufs)
      ensures r.Found? ==> r.b < NBUF && bufs[r.b].refcnt > 0 && Caches(bufs[r.b], dev, blockno)
      ensures r.Found? && Caches(old(bufs)[r.b], dev, blockno) ==>
        bufs == old(bufs)[r.b := old(bufs)[r.b].(refcnt := old(bufs)[r.b].refcnt + 1)]
      ensures r.Found? && !Caches(old(bufs)[r.b], dev, blockno) ==>
        && (forall i :: 0 <= i < NBUF ==> !Caches(old(bufs[i]), dev, blockno))
        && Spare(old(bufs)[r.b]) && LastSpare(old(bufs), order, r.b)
        && bufs == old(bufs)[r.b := Buf(dev, blockno, 1, false, false, false, old(bufs)[r.b].data)]
    {
      hide Coherent;
      var b := next[NBUF];
      ghost var i := 0;
      assert LinkAt(next, prev, order, -1, NBUF);
      while b != NBUF
        invariant 0 <= i <= NBUF && b == Nth(order, i, NBUF)
        invariant forall j :: 0 <= j < i ==> !Caches(bufs[order[j]], dev, blockno)
        decreases NBUF - i
      {
        if Caches(bufs[b], dev, blockno) {
          bufs := bufs[b := bufs[b].(refcnt := bufs[b].refcnt + 1)];
          Retain(old(bufs), disk, now, b);
          return Found(b);
        }
        assert LinkAt(next, prev, order, i, NBUF);
        b := next[b];
        i := i + 1;
      }
      AllOf(order, bufs, dev, blockno);
      b := prev[NBUF];
      i := NBUF - 1;
      assert LinkAt(next, prev, order, NBUF - 1, NBUF);
      while b != NBUF
        invariant -1 <= i < NBUF && b == Nth(order, i, NBUF)
        invariant forall j :: i < j < NBUF ==> !Spare(bufs[order[j]])
        decreases i
      {
        if Spare(bufs[b]) {
          bufs := bufs[b := Buf(dev, blockno, 1, false, false, false, bufs[b].data)];
          Recycle(old(bufs), disk, now, b, bufs[b]);
          return Found(b);
        }
        assert LinkAt(next, prev, order, i - 1, NBUF);
        b := prev[b];
        i := i - 1;
      }
      NoneOf(order, bufs);
      r := NoBuffers;
    }

    /** The rest of bread once the sleep lock is free: take it, and read the block if need be. */
    method LockAndRead(b: nat)
      requires Valid() && b < NBUF && bufs[b].refcnt > 0 && !bufs[b].locked
      requires bufs[b].dev == 1 && bufs[b].blockno < |disk|
      modifies `bufs
      ensures Valid()
      ensures bufs == old(bufs)[b := old(bufs[b]).(locked := true, valid := true, data := now[old(bufs[b]).blockno])]
    {
      assert BufOk(bufs[b], disk, now);
      var x := bufs[b].(locked := true);
      if !x.valid {
        assert !Cached(bufs, x.blockno) by { NotCached(bufs, b); }
        x := x.(valid := true, data := disk[x.blockno]);
      }
      Touch(bufs, disk, now, b, x);
      bufs := bufs[b := x];
    }

    /** The holder changes the data. */
    method SetData(b: nat, data: Block)
      requires Valid() && b < NBUF && bufs[b].locked && bufs[b].valid
      modifies `bufs, `now
      ensures Valid() && bufs[b].blockno < |old(now)|
      ensures now == old(now)[bufs[b].blockno := data] && bufs == old(bufs)[b := old(bufs[b]).(data := data)]
    {
      assert BufOk(bufs[b], disk, now);
      Change(bufs, disk, now, b, bufs[b].(data := data), disk);
      now := now[bufs[b].blockno := data];
      bufs := bufs[b := bufs[b].(data := data)];
    }

    /** log_write's mark: the buffer stays cached until it is written home. */
    method Pin(b: nat)
      requires Valid() && b < NBUF && bufs[b].locked && bufs[b].valid
      modifies `bufs
      ensures Valid() && bufs == old(bufs)[b := old(bufs[b]).(dirty := true)]
    {
      assert BufOk(bufs[b], disk, now);
      Touch(bufs, disk, now, b, bufs[b].(dirty := true));
      bufs := bufs[b := bufs[b].(dirty := true)];
    }

    /** bwrite: mark dirty, and iderw writes the block and clears the mark. */
    method Bwrite(b: nat)
      requires Valid() && b < NBUF && bufs[b].locked && bufs[b].valid
      modifies `bufs, `disk
      ensures Valid() && bufs[b].blockno < |disk|
      ensures disk == old(disk)[bufs[b].blockno := bufs[b].data]
      ensures bufs == old(bufs)[b := old(bufs[b]).(dirty := false)]
    {
      assert BufOk(bufs[b], disk, now);
      var x := bufs[b].(dirty := true);
      // iderw
      x := x.(dirty := false);
      disk := disk[x.blockno := x.data];
      bufs := bufs[b := x];
      assert now[x.blockno := x.data] == now;
      Change(old(bufs), old(disk), now, b, x, disk);
    }

    /** The list surgery of brelse: unlink, then link in behind the head. */
    method MoveToFront(b: nat)
      requires List(next, prev, order, NBUF) && Everyone(order, NBUF) && b < NBUF
      modifies `next, `prev, `order
      ensures List(next, prev, order, NBUF) && Everyone(order, NBUF) && MovedToFront(old(order), order, b)
    {
      assert b in order;
      ghost var k: nat :| k < |order| && order[k] == b;
      assert LinkAt(next, prev, order, k - 1, NBUF) && LinkAt(next, prev, order, k, NBUF);
      ghost var less := Without(order, k);
      prev := prev[next[b] := prev[b]];
      next := next[prev[b] := next[b]];
      Unlink(old(next), old(prev), order, k, NBUF, next, prev);
      FrontEveryone(order, k, NBUF);
      assert LinkAt(next, prev, less, -1, NBUF);
      ghost var nx, pv := next, prev;
      next := next[b := next[NBUF]];
      prev := prev[b := NBUF];
      prev := prev[next[NBUF] := b];
      next := next[NBUF := b];
      Push(nx, pv, less, b, NBUF, next, prev);
      order := [b] + less;
    }

    /**
     brelse. The cache still stands for `now` exactly when the data is on disk or pinned for the log:
     a change released with neither can be lost when the buffer is recycled.
     */
    method Brelse(b: nat)
      requires Valid() && b < NBUF && bufs[b].locked
      modifies `bufs, `next, `prev, `order
      ensures old(bufs[b]).refcnt > 0 && |bufs| == NBUF && List(next, prev, order, NBUF) && Everyone(order, NBUF)
      ensures bufs == old(bufs)[b := old(bufs[b]).(locked := false, refcnt := old(bufs[b]).refcnt - 1)]
      ensures if bufs[b].refcnt == 0 then MovedToFront(old(order), order, b) else order == old(order)
      ensures Valid() <==>
        (bufs[b].valid && !bufs[b].dirty ==> bufs[b].blockno < |disk| && bufs[b].data == disk[bufs[b].blockno])
    {
      hide Coherent;
      assert bufs[b].refcnt > 0 by { LockedHeld(bufs, disk, now, b); }
      var x := bufs[b].(locked := false);
      x := x.(refcnt := x.refcnt - 1);
      bufs := bufs[b := x];
      LetGo(old(bufs), disk, now, b, x);
      if bufs[b].refcnt == 0 {
        MoveToFront(b);
      }
    }
  }
}
