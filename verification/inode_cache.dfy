/**
 The inode cache of fs.c: a table of slots shared by all processes. Each method is one atomic
 stretch of the code, so any interleaving of the methods is a run of the system, and the
 invariant `Valid` holds between any two.
 */
module InodeCache {
  import opened Options
  import opened FsLayout
  import FS = FileSystem
  import opened FsInodes

  const NINODE := 50
  const ROOTDEV := 1

  datatype Key = Key(dev: nat, inum: nat)

  /** An in-memory inode; `din` is its copy of the on-disk fields. */
  datatype Slot = Slot(dev: nat, inum: nat, ref: nat, locked: bool, valid: bool, din: Inode)

  function KeyOf(s: Slot): Key { Key(s.dev, s.inum) }

  predicate Coherent(s: Slot, dinodes: seq<Inode>) {
    s.inum < |dinodes| && s.din == dinodes[s.inum] && s.din.kind != 0
  }

  /** A referenced entry that has been read is of the disk; unlocked, it agrees with it. */
  predicate SlotOk(s: Slot, dinodes: seq<Inode>) {
    && (s.locked ==> s.ref > 0)
    && (s.ref > 0 && s.valid ==> s.dev == ROOTDEV && s.inum < |dinodes|)
    && (s.ref > 0 && s.valid && !s.locked ==> Coherent(s, dinodes))
  }

  /** `at` finds the one referenced entry of each inode. */
  ghost predicate Indexed(slots: seq<Slot>, at: map<Key, nat>) {
    && (forall i: nat :: i < |slots| && slots[i].ref > 0 ==> KeyOf(slots[i]) in at && at[KeyOf(slots[i])] == i)
    && (forall k :: k in at ==> at[k] < |slots| && slots[at[k]].ref > 0 && KeyOf(slots[at[k]]) == k)
  }

  /** References are counted per inode. */
  ghost predicate Counted(slots: seq<Slot>, at: map<Key, nat>, refs: multiset<Key>) {
    forall k :: refs[k] == if k in at && at[k] < |slots| then slots[at[k]].ref else 0
  }

  ghost predicate Table(slots: seq<Slot>, dinodes: seq<Inode>, at: map<Key, nat>, refs: multiset<Key>) {
    && |slots| == NINODE && Indexed(slots, at) && Counted(slots, at, refs)
    && forall i: nat :: i < |slots| ==> SlotOk(slots[i], dinodes)
  }

  /** At most one referenced entry per inode. */
  lemma OneEntry(slots: seq<Slot>, dinodes: seq<Inode>, at: map<Key, nat>, refs: multiset<Key>, i: nat, j: nat)
    requires Table(slots, dinodes, at, refs) && i < NINODE && j < NINODE
    requires slots[i].ref > 0 && slots[j].ref > 0 && KeyOf(slots[i]) == KeyOf(slots[j])
    ensures i == j
  {
    assert at[KeyOf(slots[i])] == i;
  }

  /** One more or one less reference to an entry that stays referenced, or another change to it. */
  lemma Rewrite(slots: seq<Slot>, dinodes: seq<Inode>, at: map<Key, nat>, refs: multiset<Key>, i: nat, s: Slot,
                refs': multiset<Key>)
    requires Table(slots, dinodes, at, refs) && i < NINODE && slots[i].ref > 0 && s.ref > 0
    requires KeyOf(s) == KeyOf(slots[i]) && SlotOk(s, dinodes) && refs' == refs[KeyOf(s) := s.ref]
    ensures Table(slots[i := s], dinodes, at, refs')
  {
    assert at[KeyOf(slots[i])] == i;
  }

  lemma Keep(slots: seq<Slot>, dinodes: seq<Inode>, at: map<Key, nat>, refs: multiset<Key>, i: nat, s: Slot)
    requires Table(slots, dinodes, at, refs) && i < NINODE && slots[i].ref > 0 && s.ref == slots[i].ref
    requires KeyOf(s) == KeyOf(slots[i]) && SlotOk(s, dinodes)
    ensures Table(slots[i := s], dinodes, at, refs)
  {
    assert refs[KeyOf(s) := s.ref] == refs;
    Rewrite(slots, dinodes, at, refs, i, s, refs);
  }

  /** A free slot taken for an inode that has no entry. */
  lemma Insert(slots: seq<Slot>, dinodes: seq<Inode>, at: map<Key, nat>, refs: multiset<Key>, i: nat, s: Slot)
    requires Table(slots, dinodes, at, refs) && i < NINODE && slots[i].ref == 0 && s.ref == 1
    requires SlotOk(s, dinodes) && forall j: nat :: j < NINODE && slots[j].ref > 0 ==> KeyOf(slots[j]) != KeyOf(s)
    ensures Table(slots[i := s], dinodes, at[KeyOf(s) := i], refs + multiset{KeyOf(s)})
  {
    assert KeyOf(s) !in at;
  }

  /** The last reference dropped. */
  lemma Remove(slots: seq<Slot>, dinodes: seq<Inode>, at: map<Key, nat>, refs: multiset<Key>, i: nat)
    requires Table(slots, dinodes, at, refs) && i < NINODE && slots[i].ref == 1 && !slots[i].locked
    ensures Table(slots[i := slots[i].(ref := 0)], dinodes, at - {KeyOf(slots[i])}, refs - multiset{KeyOf(slots[i])})
  {
    var k := KeyOf(slots[i]);
    assert at[k] == i;
    assert refs[k] == 1;
  }

  /** The disk inode changes under a lock, or where no valid unlocked entry copies it. */
  lemma WriteDisk(slots: seq<Slot>, dinodes: seq<Inode>, at: map<Key, nat>, refs: multiset<Key>, inum: nat, d: Inode)
    requires Table(slots, dinodes, at, refs) && inum < |dinodes|
    requires forall i: nat :: i < NINODE && slots[i].ref > 0 && slots[i].valid && !slots[i].locked ==>
      slots[i].inum != inum
    ensures Table(slots, dinodes[inum := d], at, refs)
  {
  }

  /** What iput leaves of an inode nobody can reach. */
  function Freed(d: Inode): Inode {
    Inode(0, d.nlink, 0, NoAddrs())
  }

  /** The file system below lies on the disk the cache reads. */
  ghost predicate SameDisk(fs: FS.FileSys, dinodes: seq<Inode>)
    reads fs
  {
    fs.Valid() && fs.dinodes == dinodes && |dinodes| == fs.g.ninodes
  }

  /** Exactly the blocks of inode `n` went from used to free. */
  twostate predicate BlocksFreed(fs: FS.FileSys, n: int)
    reads fs
  {
    && BlocksOk(fs.g, fs.blocks) && BlocksOk(fs.g, old(fs.blocks))
    && forall x :: 0 <= x < fs.g.size ==>
         (Used(fs.g, fs.blocks, x) <==>
            Used(fs.g, old(fs.blocks), x) && !(x in old(fs.owner) && old(fs.owner)[x].inum == n))
  }

  lemma Unlocked(slots: seq<Slot>, dinodes: seq<Inode>, at: map<Key, nat>, refs: multiset<Key>, i: nat)
    requires Table(slots, dinodes, at, refs) && i < |slots| && slots[i].ref > 0 && !slots[i].locked
    ensures slots[i].valid ==> Coherent(slots[i], dinodes)
  {
    assert SlotOk(slots[i], dinodes);
  }

  lemma Raise(slots: seq<Slot>, dinodes: seq<Inode>, at: map<Key, nat>, refs: multiset<Key>, i: nat)
    requires Table(slots, dinodes, at, refs) && i < NINODE && slots[i].ref > 0
    ensures Table(slots[i := slots[i].(ref := slots[i].ref + 1)], dinodes, at, refs + multiset{KeyOf(slots[i])})
  {
    var s := slots[i].(ref := slots[i].ref + 1);
    assert SlotOk(slots[i], dinodes) && refs[KeyOf(s)] == slots[i].ref;
    assert refs + multiset{KeyOf(s)} == refs[KeyOf(s) := s.ref];
    Rewrite(slots, dinodes, at, refs, i, s, refs + multiset{KeyOf(s)});
  }

  lemma Lower(slots: seq<Slot>, dinodes: seq<Inode>, at: map<Key, nat>, refs: multiset<Key>, i: nat)
    requires Table(slots, dinodes, at, refs) && i < NINODE && slots[i].ref > 1
    ensures Table(slots[i := slots[i].(ref := slots[i].ref - 1)], dinodes, at, refs - multiset{KeyOf(slots[i])})
  {
    var s := slots[i].(ref := slots[i].ref - 1);
    assert SlotOk(slots[i], dinodes) && refs[KeyOf(s)] == slots[i].ref;
    assert refs - multiset{KeyOf(s)} == refs[KeyOf(s) := s.ref];
    Rewrite(slots, dinodes, at, refs, i, s, refs - multiset{KeyOf(s)});
  }

  /** While an inode is locked through its entry, no other entry copies it. */
  lemma LockedAlone(slots: seq<Slot>, dinodes: seq<Inode>, at: map<Key, nat>, refs: multiset<Key>, i: nat)
    requires Table(slots, dinodes, at, refs) && i < NINODE && slots[i].locked && slots[i].valid
    ensures forall j: nat :: j < NINODE && slots[j].ref > 0 && slots[j].valid && !slots[j].locked ==>
      slots[j].inum != slots[i].inum
  {
    assert SlotOk(slots[i], dinodes);
    forall j: nat | j < NINODE && slots[j].ref > 0 && slots[j].valid && !slots[j].locked
      ensures slots[j].inum != slots[i].inum
    {
      assert SlotOk(slots[j], dinodes);
      assert KeyOf(slots[j]) == KeyOf(slots[i]) ==> at[KeyOf(slots[i])] == i && at[KeyOf(slots[j])] == j;
    }
  }

  /** An inode that is free on disk is in no valid unlocked entry. */
  lemma FreeUncached(slots: seq<Slot>, dinodes: seq<Inode>, at: map<Key, nat>, refs: multiset<Key>, inum: nat)
    requires Table(slots, dinodes, at, refs) && inum < |dinodes| && dinodes[inum].kind == 0
    ensures forall i: nat :: i < NINODE && slots[i].ref > 0 && slots[i].valid && !slots[i].locked ==>
      slots[i].inum != inum
  {
    forall i: nat | i < NINODE && slots[i].ref > 0 && slots[i].valid && !slots[i].locked ensures slots[i].inum != inum {
      assert SlotOk(slots[i], dinodes);
    }
  }

  lemma SyncedInodes(fs: FS.FileSys, dinodes: seq<Inode>)
    requires fs.Valid() && fs.dinodes == dinodes
    ensures fs.inodes == dinodes && |dinodes| == fs.g.ninodes
  {
  }

  /** The last reference to an inode that was read and has no links. */
  predicate LastUse(s: Slot) {
    s.valid && s.din.nlink == 0 && s.ref == 1
  }

  predicate AllInUse(slots: seq<Slot>) {
    forall i :: 0 <= i < |slots| ==> slots[i].ref > 0
  }

  class Icache {
    var slots: seq<Slot>
    var dinodes: seq<Inode>
    ghost var at: map<Key, nat>
    ghost var refs: multiset<Key>

    ghost predicate Valid()
      reads this
    {
      |slots| == NINODE && Table(slots, dinodes, at, refs)
    }

    /** iinit, over slots that start out zeroed in static storage. */
    constructor (image: seq<Inode>, zero: Inode)
      ensures Valid() && dinodes == image && refs == multiset{}
      ensures forall i: nat :: i < NINODE ==> slots[i].ref == 0 && !slots[i].locked
    {
      slots := seq(NINODE, _ => Slot(0, 0, 0, false, false, zero));
      dinodes := image;
      at, refs := map[], multiset{};
    }

    /** Slot `i` refers to inode `k`. */
    predicate Refers(i: nat, k: Key)
      reads this
    {
      i < |slots| && slots[i].ref > 0 && KeyOf(slots[i]) == k
    }

    /** iget: the entry already there, else the first free slot, else the panic. */
    method Iget(dev: nat, inum: nat) returns (r: Option<nat>)
      requires Valid()
      modifies `slots, `at, `refs
      ensures Valid()
      ensures r.None? <==>
        forall i: nat :: i < NINODE ==> old(slots)[i].ref > 0 && KeyOf(old(slots)[i]) != Key(dev, inum)
      ensures r.None? ==> slots == old(slots) && refs == old(refs)
      ensures r.Some? ==>
        r.value < NINODE && Refers(r.value, Key(dev, inum)) && refs == old(refs) + multiset{Key(dev, inum)}
      ensures r.Some? && old(slots)[r.value].ref > 0 ==>
        slots == old(slots)[r.value := old(slots)[r.value].(ref := old(slots)[r.value].ref + 1)]
      ensures r.Some? && old(slots)[r.value].ref == 0 ==>
        && slots == old(slots)[r.value := Slot(dev, inum, 1, false, false, old(slots)[r.value].din)]
        && (forall i: nat :: i < NINODE && old(slots)[i].ref > 0 ==> KeyOf(old(slots)[i]) != Key(dev, inum))
        && (forall i: nat :: i < r.value ==> old(slots)[i].ref > 0)
    {
      hide Table, Indexed, Counted;
      ghost var k := Key(dev, inum);
      var empty: Option<nat> := None;
      var i: nat := 0;
      while i < NINODE
        invariant i <= NINODE
        invariant forall j: nat :: j < i && slots[j].ref > 0 ==> KeyOf(slots[j]) != k
        invariant empty.None? ==> forall j: nat :: j < i ==> slots[j].ref > 0
        invariant empty.Some? ==>
          empty.value < i && slots[empty.value].ref == 0 && forall j: nat :: j < empty.value ==> slots[j].ref > 0
      {
        if slots[i].ref > 0 && slots[i].dev == dev && slots[i].inum == inum {
          var s := slots[i].(ref := slots[i].ref + 1);
          Raise(slots, dinodes, at, refs, i);
          slots := slots[i := s];
          refs := refs + multiset{k};
          return Some(i);
        }
        if empty.None? && slots[i].ref == 0 {
          empty := Some(i);
        }
        i := i + 1;
      }
      if empty.None? {
        return None;
      }
      var s := Slot(dev, inum, 1, false, false, slots[empty.value].din);
      Insert(slots, dinodes, at, refs, empty.value, s);
      slots := slots[empty.value := s];
      at, refs := at[k := empty.value], refs + multiset{k};
      r := empty;
    }

    method Idup(i: nat)
      requires Valid() && i < NINODE && slots[i].ref > 0
      modifies `slots, `refs
      ensures Valid() && refs == old(refs) + multiset{KeyOf(slots[i])}
      ensures slots == old(slots)[i := old(slots)[i].(ref := old(slots)[i].ref + 1)]
    {
      Raise(slots, dinodes, at, refs, i);
      refs := refs + multiset{KeyOf(slots[i])};
      slots := slots[i := slots[i].(ref := slots[i].ref + 1)];
    }

    /** ilock once the sleep lock is free. The disk inode is allocated, or the code panics. */
    method Ilock(i: nat)
      requires Valid() && i < NINODE && slots[i].ref > 0 && !slots[i].locked
      requires slots[i].dev == ROOTDEV && slots[i].inum < |dinodes| && dinodes[slots[i].inum].kind != 0
      modifies `slots
      ensures Valid()
      ensures var s := old(slots)[i];
        slots == old(slots)[i := s.(locked := true, valid := true, din := dinodes[s.inum])]
    {
      var s := slots[i].(locked := true);
      if !s.valid {
        s := s.(din := dinodes[s.inum], valid := true);
      }
      Keep(slots, dinodes, at, refs, i, s);
      slots := slots[i := s];
    }

    /** The first step of iput: only the lock. */
    method Acquire(i: nat)
      requires Valid() && i < NINODE && slots[i].ref > 0 && !slots[i].locked
      modifies `slots
      ensures Valid() && slots == old(slots)[i := old(slots)[i].(locked := true)]
    {
      Keep(slots, dinodes, at, refs, i, slots[i].(locked := true));
      slots := slots[i := slots[i].(locked := true)];
    }

    /** iunlock: the cache is write-through, so a valid entry has been copied to disk by now. */
    method Iunlock(i: nat)
      requires Valid() && i < NINODE && slots[i].locked && (slots[i].valid ==> Coherent(slots[i], dinodes))
      modifies `slots
      ensures Valid() && slots == old(slots)[i := old(slots)[i].(locked := false)]
    {
      Keep(slots, dinodes, at, refs, i, slots[i].(locked := false));
      slots := slots[i := slots[i].(locked := false)];
    }

    /** The lock holder changes its copy. */
    method Edit(i: nat, d: Inode)
      requires Valid() && i < NINODE && slots[i].locked && slots[i].valid
      modifies `slots
      ensures Valid() && slots == old(slots)[i := old(slots)[i].(din := d)]
    {
      Keep(slots, dinodes, at, refs, i, slots[i].(din := d));
      slots := slots[i := slots[i].(din := d)];
    }

    method Iupdate(i: nat)
      requires Valid() && i < NINODE && slots[i].locked && slots[i].valid
      modifies `dinodes
      ensures Valid() && slots[i].inum < |old(dinodes)| && dinodes == old(dinodes)[slots[i].inum := slots[i].din]
    {
      assert SlotOk(slots[i], dinodes);
      LockedAlone(slots, dinodes, at, refs, i);
      WriteDisk(slots, dinodes, at, refs, slots[i].inum, slots[i].din);
      dinodes := dinodes[slots[i].inum := slots[i].din];
    }

    /** iput's middle: itrunc frees its blocks, the type is cleared and written, and the copy forgotten. */
    method FreeInode(fs: FS.FileSys, i: nat)
      requires Valid() && i < NINODE && slots[i].locked && slots[i].valid && Coherent(slots[i], dinodes)
      requires SameDisk(fs, dinodes)
      modifies `slots, `dinodes, fs
      ensures Valid() && slots[i].inum < |old(dinodes)| && SameDisk(fs, dinodes)
      ensures slots == old(slots)[i := old(slots)[i].(valid := false, din := Freed(old(slots)[i].din))]
      ensures dinodes == old(dinodes)[slots[i].inum := Freed(old(slots)[i].din)]
      ensures BlocksFreed(fs, slots[i].inum)
      ensures old(fs.logged) <= fs.logged && FS.AllLogged(fs.g, old(fs.Disk()), fs.Disk(), fs.logged)
    {
      hide Indexed, Counted, FS.FileSys.Valid, Used, FS.AllLogged;
      var n := slots[i].inum;
      SyncedInodes(fs, dinodes);
      var panicked := fs.Ifree(n);
      SyncedInodes(fs, fs.dinodes);
      LockedAlone(slots, dinodes, at, refs, i);
      WriteDisk(slots, dinodes, at, refs, n, fs.inodes[n]);
      dinodes := fs.dinodes;
      Keep(slots, dinodes, at, refs, i, slots[i].(valid := false, din := fs.inodes[n]));
      slots := slots[i := slots[i].(valid := false, din := fs.inodes[n])];
    }

    /** iput's last step. */
    method Drop(i: nat)
      requires Valid() && i < NINODE && slots[i].ref > 0 && (slots[i].locked ==> slots[i].ref > 1)
      modifies `slots, `at, `refs
      ensures Valid() && refs == old(refs) - multiset{KeyOf(slots[i])}
      ensures slots == old(slots)[i := old(slots)[i].(ref := old(slots)[i].ref - 1)]
    {
      hide Table, Indexed, Counted;
      ghost var k := KeyOf(slots[i]);
      var s := slots[i].(ref := slots[i].ref - 1);
      if s.ref == 0 {
        Remove(slots, dinodes, at, refs, i);
        at, refs := at - {k}, refs - multiset{k};
      } else {
        Lower(slots, dinodes, at, refs, i);
        refs := refs - multiset{k};
      }
      slots := slots[i := s];
    }

    /** iput's test under the lock. */
    method FreeIfLast(fs: FS.FileSys, i: nat)
      requires Valid() && i < NINODE && slots[i].locked && (slots[i].valid ==> Coherent(slots[i], dinodes))
      requires SameDisk(fs, dinodes)
      modifies `slots, `dinodes, fs
      ensures Valid() && (slots[i].valid ==> Coherent(slots[i], dinodes)) && SameDisk(fs, dinodes)
      ensures LastUse(old(slots)[i]) ==>
        && slots == old(slots)[i := old(slots)[i].(valid := false, din := Freed(old(slots)[i].din))]
        && old(slots)[i].inum < |old(dinodes)|
        && dinodes == old(dinodes)[old(slots)[i].inum := Freed(old(slots)[i].din)]
        && BlocksFreed(fs, old(slots)[i].inum)
      ensures !LastUse(old(slots)[i]) ==> slots == old(slots) && dinodes == old(dinodes) && fs.View() == old(fs.View())
      ensures !LastUse(old(slots)[i]) ==> fs.logged == old(fs.logged)
      ensures old(fs.logged) <= fs.logged && FS.AllLogged(fs.g, old(fs.Disk()), fs.Disk(), fs.logged)
    {
      FS.NoneChanged(fs.g, fs.Disk(), fs.logged);
      if slots[i].valid && slots[i].din.nlink == 0 {
        var r := slots[i].ref;
        if r == 1 {
          FreeInode(fs, i);
        }
      }
    }

    /** The last steps of iput: the lock goes, then the reference. */
    method Release(i: nat)
      requires Valid() && i < NINODE && slots[i].locked && slots[i].ref > 0
      requires slots[i].valid ==> Coherent(slots[i], dinodes)
      modifies `slots, `at, `refs
      ensures Valid() && refs == old(refs) - multiset{KeyOf(old(slots)[i])}
      ensures slots == old(slots)[i := old(slots)[i].(locked := false, ref := old(slots)[i].ref - 1)]
    {
      hide Table, Indexed, Counted, Coherent;
      Iunlock(i);
      Drop(i);
    }

    /** iput with nothing else running: the inode and its blocks are freed exactly when this was its last use. */
    method Iput(fs: FS.FileSys, i: nat)
      requires Valid() && i < NINODE && slots[i].ref > 0 && !slots[i].locked && SameDisk(fs, dinodes)
      modifies `slots, `dinodes, `at, `refs, fs
      ensures Valid() && refs == old(refs) - multiset{KeyOf(old(slots)[i])} && SameDisk(fs, dinodes)
      ensures LastUse(old(slots)[i]) ==>
        && old(slots)[i].inum < |old(dinodes)|
        && dinodes == old(dinodes)[old(slots)[i].inum := Freed(old(slots)[i].din)]
        && BlocksFreed(fs, old(slots)[i].inum)
      ensures !LastUse(old(slots)[i]) ==>
        && dinodes == old(dinodes) && fs.View() == old(fs.View()) && fs.logged == old(fs.logged)
        && slots == old(slots)[i := old(slots)[i].(ref := old(slots)[i].ref - 1)]
      ensures forall j: nat :: j < NINODE && j != i ==> slots[j] == old(slots)[j]
      ensures slots[i].ref == old(slots)[i].ref - 1 && KeyOf(slots[i]) == KeyOf(old(slots)[i]) && !slots[i].locked
      ensures old(fs.logged) <= fs.logged && FS.AllLogged(fs.g, old(fs.Disk()), fs.Disk(), fs.logged)
    {
      hide Table, Indexed, Counted, FS.FileSys.Valid, Used, SameDisk, Coherent, Freed, FS.AllLogged;
      Unlocked(slots, dinodes, at, refs, i);
      Acquire(i);
      FreeIfLast(fs, i);
      Release(i);
    }

    /** ialloc: the first free inode on disk is marked and referenced; no free one, or no free slot, is the panic. */
    method Ialloc(fs: FS.FileSys, kind: int) returns (r: Option<nat>)
      requires Valid() && kind != 0 && SameDisk(fs, dinodes)
      modifies `slots, `dinodes, `at, `refs, fs
      ensures Valid() && SameDisk(fs, dinodes) && fs.blocks == old(fs.blocks) && fs.owner == old(fs.owner)
      ensures r.Some? ==>
        && r.value < NINODE && Refers(r.value, Key(ROOTDEV, slots[r.value].inum))
        && refs == old(refs) + multiset{KeyOf(slots[r.value])}
      ensures r.Some? ==> var n := slots[r.value].inum;
        && 1 <= n < |old(dinodes)| && old(dinodes)[n].kind == 0
        && (forall m :: 1 <= m < n ==> old(dinodes)[m].kind != 0)
        && dinodes == old(dinodes)[n := Inode(kind, 0, 0, NoAddrs())]
        && !(slots[r.value].valid && !slots[r.value].locked)
      ensures (forall m :: 1 <= m < |old(dinodes)| ==> old(dinodes)[m].kind != 0) ==> r.None? && dinodes == old(dinodes)
      ensures r.None? ==> (forall m :: 1 <= m < |old(dinodes)| ==> old(dinodes)[m].kind != 0) || AllInUse(slots)
      ensures old(fs.logged) <= fs.logged && FS.AllLogged(fs.g, old(fs.Disk()), fs.Disk(), fs.logged)
    {
      hide Table, Indexed, Counted, FS.FileSys.Valid, FS.AllLogged;
      SyncedInodes(fs, dinodes);
      var n := fs.Ialloc(kind);
      SyncedInodes(fs, fs.dinodes);
      if n.None? {
        return None;
      }
      FreeUncached(slots, dinodes, at, refs, n.value);
      WriteDisk(slots, dinodes, at, refs, n.value, Inode(kind, 0, 0, NoAddrs()));
      dinodes := fs.dinodes;
      r := Iget(ROOTDEV, n.value);
    }
  }
}
