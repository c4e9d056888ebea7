/**
 dirlookup and dirlink of fs.c: loops over a directory's records through readi and writei,
 proved to look up and extend the directory seen as a map, and to account for every reference
 to an inode that they take or drop.
 */
module Directories {
  import opened FsLayout
  import opened FsOwnership
  import opened FsFiles
  import opened FileSystem
  import opened FsInodes
  import D = DirMap
  import IC = InodeCache

  /** The contents of file `i`. */
  ghost function Bytes(fs: FileSys, i: int): seq<int>
    requires fs.Valid() && 0 <= i < fs.g.ninodes
    reads fs
  {
    OwnShape(fs.g, fs.View(), fs.owner, {});
    Content(fs.g, fs.View(), i)
  }

  /** strncmp over DIRSIZ bytes of a NUL-terminated name and a record's name field. */
  method NameCmp(name: D.Name, t: seq<int>) returns (same: bool)
    requires D.NulFree(name) && |t| == D.DIRSIZ
    ensures same <==> D.Clip(name) == D.CName(t)
  {
    var k := 0;
    while k < D.DIRSIZ && k < |name| && name[k] == t[k]
      invariant 0 <= k <= D.DIRSIZ && k <= |name|
      invariant forall i :: 0 <= i < k ==> name[i] == t[i]
    {
      k := k + 1;
    }
    if k == D.DIRSIZ {
      D.CNameIs(t, D.DIRSIZ);
      assert D.Clip(name) == t;
      return true;
    }
    var p := if k < |name| then name[k] else 0;
    same := p == t[k];
    if same {
      D.CNameIs(t, k);
      assert name == t[..k];
    } else {
      Differ(name, t, k);
    }
  }

  lemma Differ(name: D.Name, t: seq<int>, k: nat)
    requires D.NulFree(name) && |t| == D.DIRSIZ && k < D.DIRSIZ && k <= |name|
    requires (forall i :: 0 <= i < k ==> name[i] == t[i]) && (if k < |name| then name[k] else 0) != t[k]
    ensures D.Clip(name) != D.CName(t)
  {
    CNamePrefix(t, k);
  }

  lemma {:induction false} CNamePrefix(t: seq<int>, k: nat)
    requires k < |t| && forall i :: 0 <= i < k ==> t[i] != 0
    ensures t[k] == 0 ==> |D.CName(t)| == k
    ensures t[k] != 0 ==> |D.CName(t)| > k && D.CName(t)[k] == t[k]
    decreases k
  {
    if k > 0 {
      CNamePrefix(t[1..], k - 1);
    }
  }

  /** One record, read with readi. */
  method ReadRecord(fs: FileSys, dp: int, k: nat) returns (de: seq<int>)
    requires fs.Valid() && 0 <= dp < fs.g.ninodes && k < D.Count(Bytes(fs, dp))
    modifies fs
    ensures fs.Valid() && fs.View() == old(fs.View()) && Bytes(fs, dp) == old(Bytes(fs, dp))
    ensures de == D.Rec(Bytes(fs, dp), k) && fs.logged == old(fs.logged)
  {
    hide Own, Content, NoHoles;
    OwnShape(fs.g, fs.View(), fs.owner, {});
    SizeBound(fs, dp);
    var r;
    r, de := fs.Readi(dp, k * D.DESIZE, D.DESIZE);
  }

  lemma SizeBound(fs: FileSys, i: int)
    requires fs.Valid() && 0 <= i < fs.g.ninodes
    ensures i < |fs.inodes| && |Bytes(fs, i)| == fs.inodes[i].size <= MAXBYTES
  {
    OwnShape(fs.g, fs.View(), fs.owner, {});
    assert NoHoles(fs.g, fs.View(), i);
  }

  /** dirlookup's loop over a directory of whole records: the first record in use under the name. */
  method FindEntry(fs: FileSys, dp: int, name: D.Name) returns (found: bool, inum: int, off: nat)
    requires fs.Valid() && 0 <= dp < fs.g.ninodes && D.NulFree(name) && D.Whole(Bytes(fs, dp))
    requires dp < |fs.inodes| && fs.inodes[dp].kind == D.T_DIR
    modifies fs
    ensures fs.Valid() && fs.View() == old(fs.View()) && Bytes(fs, dp) == old(Bytes(fs, dp))
    ensures fs.logged == old(fs.logged)
    ensures var c := Bytes(fs, dp); found ==>
      && off % D.DESIZE == 0 && D.Holds(c, off / D.DESIZE, D.Clip(name)) && inum == D.InumOf(D.Rec(c, off / D.DESIZE))
      && forall k: nat :: k < off / D.DESIZE ==> !D.Holds(c, k, D.Clip(name))
    ensures var c := Bytes(fs, dp); !found ==> forall k: nat :: k < D.Count(c) ==> !D.Holds(c, k, D.Clip(name))
    ensures var c := Bytes(fs, dp); D.NoDup(c) ==>
      (found <==> D.Clip(name) in D.Entries(c)) && (found ==> D.Entries(c)[D.Clip(name)] == inum)
  {
    hide Own, Content, NoHoles, D.NoDup, D.Entries, D.CName, D.Clip, D.NulFree;
    found, inum, off := false, 0, 0;
    ghost var c := Bytes(fs, dp);
    SizeBound(fs, dp);
    while off < fs.inodes[dp].size
      invariant fs.Valid() && fs.View() == old(fs.View()) && Bytes(fs, dp) == c && fs.logged == old(fs.logged)
      invariant dp < |fs.inodes| && off % D.DESIZE == 0 && off <= |c| == fs.inodes[dp].size
      invariant forall k: nat :: k < off / D.DESIZE ==> !D.Holds(c, k, D.Clip(name))
      decreases |c| - off
    {
      var de := ReadRecord(fs, dp, off / D.DESIZE);
      SizeBound(fs, dp);
      if D.InumOf(de) != 0 {
        var same := NameCmp(name, de[2..]);
        if same {
          LookupHit(c, off / D.DESIZE, D.Clip(name));
          return true, D.InumOf(de), off;
        }
      }
      off := off + D.DESIZE;
    }
    LookupMiss(c, D.Clip(name));
  }

  lemma LookupHit(c: seq<int>, k: nat, name: D.Name)
    requires D.Holds(c, k, name)
    ensures D.NoDup(c) ==> name in D.Entries(c) && D.Entries(c)[name] == D.InumOf(D.Rec(c, k))
  {
    if D.NoDup(c) {
      D.FoundIs(c, D.Count(c), k, name);
    }
  }

  lemma LookupMiss(c: seq<int>, name: D.Name)
    requires forall k: nat :: k < D.Count(c) ==> !D.Holds(c, k, name)
    ensures name !in D.Entries(c)
  {
    if name in D.Entries(c) {
      var k := D.MappedIs(c, D.Count(c), name);
    }
  }

  /** dirlink's second loop: the first free record, or the end. */
  method FindFree(fs: FileSys, dp: int) returns (off: nat)
    requires fs.Valid() && 0 <= dp < fs.g.ninodes && D.Whole(Bytes(fs, dp))
    modifies fs
    ensures fs.Valid() && fs.View() == old(fs.View()) && Bytes(fs, dp) == old(Bytes(fs, dp))
    ensures fs.logged == old(fs.logged)
    ensures off % D.DESIZE == 0 && off <= |Bytes(fs, dp)| && !D.Live(Bytes(fs, dp), off / D.DESIZE)
    ensures forall k: nat :: k < off / D.DESIZE ==> D.Live(Bytes(fs, dp), k)
  {
    hide Own, Content, NoHoles;
    off := 0;
    ghost var c := Bytes(fs, dp);
    SizeBound(fs, dp);
    while off < fs.inodes[dp].size
      invariant fs.Valid() && fs.View() == old(fs.View()) && Bytes(fs, dp) == c && fs.logged == old(fs.logged)
      invariant dp < |fs.inodes| && off % D.DESIZE == 0 && off <= |c| == fs.inodes[dp].size
      invariant forall k: nat :: k < off / D.DESIZE ==> D.Live(c, k)
      decreases |c| - off
    {
      var de := ReadRecord(fs, dp, off / D.DESIZE);
      SizeBound(fs, dp);
      if D.InumOf(de) == 0 {
        return;
      }
      off := off + D.DESIZE;
    }
  }

  lemma SplicePut(c: seq<int>, off: nat, r: seq<int>)
    requires D.Whole(c) && off % D.DESIZE == 0 && off <= |c| && |r| == D.DESIZE
    ensures D.Whole(SpliceBytes(c, off, r)) && D.Put(c, SpliceBytes(c, off, r), off / D.DESIZE, r)
  {
    var c', k := SpliceBytes(c, off, r), off / D.DESIZE;
    assert D.Rec(c', k) == r;
    forall j: nat | j < D.Count(c) && j != k ensures D.Rec(c', j) == D.Rec(c, j) {
      assert j < k ==> j * D.DESIZE + D.DESIZE <= off;
      assert j > k ==> j * D.DESIZE >= off + D.DESIZE;
    }
  }

  /** The map with the name added; a number that is 0 in 16 bits leaves the record unused. */
  ghost function Linked(m: map<D.Name, int>, name: D.Name, inum: nat): map<D.Name, int> {
    if inum % 0x10000 == 0 then m else m[D.Clip(name) := inum % 0x10000]
  }

  lemma LinkEntry(c: seq<int>, off: nat, name: D.Name, inum: nat)
    requires D.Whole(c) && D.NoDup(c) && off % D.DESIZE == 0 && off <= |c| && !D.Live(c, off / D.DESIZE)
    requires D.NulFree(name)
    requires forall k: nat :: k < D.Count(c) ==> !D.Holds(c, k, D.Clip(name))
    ensures var c' := SpliceBytes(c, off, D.Dirent(name, inum));
      D.Whole(c') && D.NoDup(c') && D.Entries(c') == Linked(D.Entries(c), name, inum)
  {
    hide D.CName, D.Clip, D.Entries, D.NoDup, D.Dirent, D.Rec;
    var r := D.Dirent(name, inum);
    D.DirentIs(name, inum);
    SplicePut(c, off, r);
    var c' := SpliceBytes(c, off, r);
    if inum % 0x10000 == 0 {
      D.PutNothing(c, c', off / D.DESIZE, r);
    } else {
      D.PutEntry(c, c', off / D.DESIZE, r);
    }
  }

  /** A record does not straddle blocks. */
  lemma RecordFits(off: nat)
    requires off % D.DESIZE == 0
    ensures off % BSIZE + D.DESIZE <= BSIZE
  {
    assert off % BSIZE % D.DESIZE == 0;
  }

  /** dirlink once the name is known to be absent: the map gains it, or the write fails and the code panics. */
  method AddEntry(fs: FileSys, dp: int, name: D.Name, inum: nat) returns (panicked: bool)
    requires fs.Valid() && 0 <= dp < fs.g.ninodes && D.NulFree(name)
    requires dp < |fs.inodes| && fs.inodes[dp].kind == D.T_DIR
    requires D.Whole(Bytes(fs, dp)) && D.NoDup(Bytes(fs, dp))
    requires forall k: nat :: k < D.Count(Bytes(fs, dp)) ==> !D.Holds(Bytes(fs, dp), k, D.Clip(name))
    modifies fs
    ensures panicked ==> DiskFull(fs.g, fs.blocks) || |old(Bytes(fs, dp))| == MAXBYTES
    ensures panicked && |old(Bytes(fs, dp))| < NDIRECT * BSIZE ==> fs.blocks == old(fs.blocks)
    ensures !panicked ==>
      && fs.Valid() && D.Whole(Bytes(fs, dp)) && D.NoDup(Bytes(fs, dp))
      && D.Entries(Bytes(fs, dp)) == Linked(D.Entries(old(Bytes(fs, dp))), name, inum)
    ensures !panicked ==> forall j :: 0 <= j < fs.g.ninodes && j != dp ==> Bytes(fs, j) == old(Bytes(fs, j))
    ensures !panicked ==>
      dp < |fs.inodes| && fs.inodes[dp].kind == D.T_DIR && fs.inodes == old(fs.inodes)[dp := fs.inodes[dp]]
    ensures old(fs.logged) <= fs.logged && AllLogged(fs.g, old(fs.Disk()), fs.Disk(), fs.logged)
  {
    hide Own, Content, NoHoles, D.NoDup, D.Entries, D.CName, D.Clip, D.NulFree, D.Dirent, DiskFull, FreeClean;
    hide AllLogged;
    ghost var c := Bytes(fs, dp);
    var off := FindFree(fs, dp);
    D.DirentIs(name, inum);
    LinkEntry(c, off, name, inum);
    SizeBound(fs, dp);
    RecordFits(off);
    var n;
    n, panicked := fs.Writei(dp, D.Dirent(name, inum), off);
    if !panicked && n != D.DESIZE {
      panicked := true;
    }
  }

  /** Inode numbers in records are not negative. */
  lemma InumNat(fs: FileSys, dp: int, k: nat)
    requires fs.Valid() && 0 <= dp < fs.g.ninodes && k < D.Count(Bytes(fs, dp))
    ensures D.InumOf(D.Rec(Bytes(fs, dp), k)) >= 0
  {
    OwnShape(fs.g, fs.View(), fs.owner, {});
    SizeBound(fs, dp);
    hide Own, NoHoles, FileBlock;
    var c := Bytes(fs, dp);
    assert c[k * D.DESIZE] == ByteAt(fs.g, fs.View(), dp, k * D.DESIZE);
    assert c[k * D.DESIZE + 1] == ByteAt(fs.g, fs.View(), dp, k * D.DESIZE + 1);
  }

  datatype Lookup = Absent | Found(slot: nat, inum: nat, off: nat) | NoSlot(inum: nat)

  /** Record `off / DESIZE` is the first under the name, and gives its inode. */
  ghost predicate IsFirst(c: seq<int>, name: D.Name, inum: int, off: nat) {
    && off % D.DESIZE == 0 && D.Holds(c, off / D.DESIZE, D.Clip(name)) && inum == D.InumOf(D.Rec(c, off / D.DESIZE))
    && forall k: nat :: k < off / D.DESIZE ==> !D.Holds(c, k, D.Clip(name))
  }

  /** One reference more, to an entry whose release right now would free nothing. */
  ghost predicate Gained(slots: seq<IC.Slot>, slots': seq<IC.Slot>, i: nat, k: IC.Key) {
    && |slots'| == |slots| && i < |slots| && IC.KeyOf(slots'[i]) == k && slots'[i].ref > 0 && !IC.LastUse(slots'[i])
    && slots' == slots[i := slots'[i]]
    && (slots[i].ref > 0 ==> slots'[i] == slots[i].(ref := slots[i].ref + 1))
    && (slots[i].ref == 0 ==> slots'[i].ref == 1 && !slots'[i].locked)
  }

  /** dirlookup: a name that is there comes with a reference to its inode, taken by iget. */
  method DirLookup(ic: IC.Icache, fs: FileSys, dp: int, name: D.Name) returns (r: Lookup)
    requires fs.Valid() && 0 <= dp < fs.g.ninodes && D.NulFree(name) && D.Whole(Bytes(fs, dp))
    requires dp < |fs.inodes| && fs.inodes[dp].kind == D.T_DIR && ic.Valid()
    modifies ic`slots, ic`at, ic`refs, fs
    ensures fs.Valid() && fs.View() == old(fs.View()) && Bytes(fs, dp) == old(Bytes(fs, dp)) && ic.Valid()
    ensures fs.logged == old(fs.logged)
    ensures r.Absent? <==> forall k: nat :: k < D.Count(Bytes(fs, dp)) ==> !D.Holds(Bytes(fs, dp), k, D.Clip(name))
    ensures D.NoDup(Bytes(fs, dp)) ==> (r.Absent? <==> D.Clip(name) !in D.Entries(Bytes(fs, dp)))
    ensures r.Found? ==>
      && IsFirst(Bytes(fs, dp), name, r.inum, r.off)
      && (D.NoDup(Bytes(fs, dp)) ==> D.Entries(Bytes(fs, dp))[D.Clip(name)] == r.inum)
      && ic.refs == old(ic.refs) + multiset{IC.Key(IC.ROOTDEV, r.inum)}
      && Gained(old(ic.slots), ic.slots, r.slot, IC.Key(IC.ROOTDEV, r.inum))
    ensures !r.Found? ==> ic.slots == old(ic.slots) && ic.refs == old(ic.refs)
    ensures r.NoSlot? ==>
      && IC.AllInUse(ic.slots) && (D.NoDup(Bytes(fs, dp)) ==> D.Entries(Bytes(fs, dp))[D.Clip(name)] == r.inum)
      && forall i: nat :: i < IC.NINODE ==> IC.KeyOf(ic.slots[i]) != IC.Key(IC.ROOTDEV, r.inum)
  {
    hide Own, Content, NoHoles, D.NoDup, D.Entries, D.CName, D.Clip, D.NulFree, IC.Table, FreeClean;
    var found, inum, off := FindEntry(fs, dp, name);
    if !found {
      return Absent;
    }
    InumNat(fs, dp, off / D.DESIZE);
    var ip := ic.Iget(IC.ROOTDEV, inum);
    r := if ip.None? then NoSlot(inum) else Found(ip.value, inum, off);
  }

  datatype Link = Done | Exists | Waits(slot: nat) | Panicked

  /** The locked directory in slot `ip`, as its cache entry and the disk agree on it. */
  ghost predicate LockedDir(ic: IC.Icache, fs: FileSys, ip: nat)
    reads ic, fs
  {
    && ic.Valid() && IC.SameDisk(fs, ic.dinodes) && ip < IC.NINODE && ic.slots[ip].ref > 0 && ic.slots[ip].locked
    && ic.slots[ip].valid && IC.Coherent(ic.slots[ip], ic.dinodes)
    && ic.slots[ip].dev == IC.ROOTDEV && ic.slots[ip].din.kind == D.T_DIR
  }

  /** The contents of the directory in slot `ip`. */
  ghost function DirBytes(ic: IC.Icache, fs: FileSys, ip: nat): seq<int>
    requires LockedDir(ic, fs, ip)
    reads ic, fs
  {
    Bytes(fs, ic.slots[ip].inum)
  }

  /** The map has the name for inode `k`. */
  ghost predicate Names(m: map<D.Name, int>, name: D.Name, k: IC.Key) {
    D.Clip(name) in m && k.dev == IC.ROOTDEV && m[D.Clip(name)] == k.inum
  }

  /** Somebody has the inode of that name locked. */
  ghost predicate NameLocked(m: map<D.Name, int>, name: D.Name, slots: seq<IC.Slot>) {
    exists j: nat :: j < |slots| && slots[j].locked && Names(m, name, IC.KeyOf(slots[j]))
  }

  /** Every slot is taken, and none of them for the inode of that name. */
  ghost predicate NoRoom(m: map<D.Name, int>, name: D.Name, slots: seq<IC.Slot>) {
    IC.AllInUse(slots) && forall j: nat :: j < |slots| ==> !Names(m, name, IC.KeyOf(slots[j]))
  }

  /**
   What dirlink comes to with the map `m` and the cache entries `slots`: it waits exactly if the inode of
   the name is locked, for its own lock exactly if the name is that of the directory itself, and on an
   existing name it panics exactly if there is no room for a reference.
   */
  ghost predicate Outcome(r: Link, m: map<D.Name, int>, name: D.Name, slots: seq<IC.Slot>, ip: nat)
    requires ip < |slots|
  {
    && (r.Waits? <==> NameLocked(m, name, slots))
    && (r == Waits(ip) <==> Names(m, name, IC.KeyOf(slots[ip])))
    && (if D.Clip(name) in m then !r.Done? && (r.Panicked? <==> NoRoom(m, name, slots)) else r.Done? || r.Panicked?)
  }

  lemma FoundOutcome(slots: seq<IC.Slot>, ic: IC.Icache, m: map<D.Name, int>, name: D.Name, i: nat, ip: nat)
    requires ic.Valid() && |slots| == IC.NINODE
    requires forall j: nat :: j < |slots| && slots[j].locked ==> slots[j].ref > 0
    requires i < |slots| && ip < |slots| && slots[ip].locked
    requires Gained(slots, ic.slots, i, IC.KeyOf(ic.slots[i])) && Names(m, name, IC.KeyOf(ic.slots[i]))
    ensures Outcome(if ic.slots[i].locked then Waits(i) else Exists, m, name, slots, ip)
  {
    hide IC.Table, D.Clip;
    forall j: nat | j < |slots| && slots[j].locked && Names(m, name, IC.KeyOf(slots[j])) ensures j == i {
      IC.OneEntry(ic.slots, ic.dinodes, ic.at, ic.refs, i, j);
    }
    if ic.slots[i].locked {
      assert slots[i].locked && Names(m, name, IC.KeyOf(slots[i]));
    }
    assert slots[i].ref > 0 ==> Names(m, name, IC.KeyOf(slots[i]));
  }

  lemma NoSlotOutcome(m: map<D.Name, int>, name: D.Name, slots: seq<IC.Slot>, ip: nat, inum: nat)
    requires ip < |slots| && IC.AllInUse(slots) && D.Clip(name) in m && m[D.Clip(name)] == inum
    requires forall i: nat :: i < |slots| ==> IC.KeyOf(slots[i]) != IC.Key(IC.ROOTDEV, inum)
    ensures Outcome(Panicked, m, name, slots, ip)
  {
    hide D.Clip;
    assert forall j: nat :: j < |slots| ==> !Names(m, name, IC.KeyOf(slots[j]));
  }

  lemma AbsentOutcome(r: Link, m: map<D.Name, int>, name: D.Name, slots: seq<IC.Slot>, ip: nat)
    requires ip < |slots| && D.Clip(name) !in m && (r.Done? || r.Panicked?)
    ensures Outcome(r, m, name, slots, ip)
  {
    hide D.Clip;
  }

  lemma LockedHeld(ic: IC.Icache)
    requires ic.Valid()
    ensures forall j: nat :: j < IC.NINODE && ic.slots[j].locked ==> ic.slots[j].ref > 0
  {
    forall j: nat | j < IC.NINODE && ic.slots[j].locked ensures ic.slots[j].ref > 0 {
      assert IC.SlotOk(ic.slots[j], ic.dinodes);
    }
  }

  /**
   dirlink on the locked directory in slot `ip`. The name's absence, the new entry, and the references:
   the one dirlookup takes to an inode that has the name is dropped again, which frees nothing. If that
   inode is locked, iput waits for it; if it is the directory itself, as for ".", it waits for its own lock.
   */
  method DirLink(ic: IC.Icache, fs: FileSys, ip: nat, name: D.Name, inum: nat) returns (r: Link)
    requires LockedDir(ic, fs, ip) && D.NulFree(name)
    requires D.Whole(DirBytes(ic, fs, ip)) && D.NoDup(DirBytes(ic, fs, ip))
    modifies ic, fs
    ensures r.Done? || r.Exists? ==>
      LockedDir(ic, fs, ip) && ic.refs == old(ic.refs) && ic.slots[ip].inum == old(ic.slots[ip].inum)
    ensures r.Done? ==>
      && D.Clip(name) !in D.Entries(old(DirBytes(ic, fs, ip)))
      && D.Whole(DirBytes(ic, fs, ip)) && D.NoDup(DirBytes(ic, fs, ip))
      && D.Entries(DirBytes(ic, fs, ip)) == Linked(D.Entries(old(DirBytes(ic, fs, ip))), name, inum)
      && (forall j :: 0 <= j < fs.g.ninodes && j != ic.slots[ip].inum ==> Bytes(fs, j) == old(Bytes(fs, j)))
      && (forall j: nat :: j < IC.NINODE && j != ip ==> ic.slots[j] == old(ic.slots)[j])
    ensures r.Exists? || r.Waits? ==>
      fs.Valid() && fs.View() == old(fs.View()) && ic.Valid() && ic.dinodes == old(ic.dinodes)
    ensures r.Exists? ==> forall j: nat :: j < IC.NINODE && old(ic.slots)[j].ref > 0 ==> ic.slots[j] == old(ic.slots)[j]
    ensures r.Waits? ==>
      && r.slot < IC.NINODE && ic.slots[r.slot].locked && ic.refs == old(ic.refs) + multiset{IC.KeyOf(ic.slots[r.slot])}
      && Names(D.Entries(old(DirBytes(ic, fs, ip))), name, IC.KeyOf(ic.slots[r.slot]))
    ensures Outcome(r, D.Entries(old(DirBytes(ic, fs, ip))), name, old(ic.slots), ip)
    ensures r.Panicked? && D.Clip(name) !in D.Entries(old(DirBytes(ic, fs, ip))) ==>
      && (DiskFull(fs.g, fs.blocks) || |old(DirBytes(ic, fs, ip))| == MAXBYTES)
      && (|old(DirBytes(ic, fs, ip))| < NDIRECT * BSIZE ==> fs.blocks == old(fs.blocks))
    ensures old(fs.logged) <= fs.logged && AllLogged(fs.g, old(fs.Disk()), fs.Disk(), fs.logged)
  {
    hide Own, Content, NoHoles, D.NoDup, D.Entries, D.CName, D.Clip, D.NulFree, IC.Table, FreeClean, DiskFull;
    hide Outcome, AllLogged;
    NoneChanged(fs.g, fs.Disk(), fs.logged);
    IC.SyncedInodes(fs, ic.dinodes);
    LockedHeld(ic);
    var dp := ic.slots[ip].inum;
    ghost var m, slots := D.Entries(DirBytes(ic, fs, ip)), ic.slots;
    var found := DirLookup(ic, fs, dp, name);
    match found
    case NoSlot(n) =>
      NoSlotOutcome(m, name, slots, ip, n);
      r := Panicked;
    case Found(slot, _, _) =>
      FoundOutcome(slots, ic, m, name, slot, ip);
      if ic.slots[slot].locked {
        return Waits(slot);
      }
      ic.Iput(fs, slot);
      r := Exists;
    case Absent =>
      var panicked := AddEntry(fs, dp, name, inum);
      r := if panicked then Panicked else Done;
      AbsentOutcome(r, m, name, slots, ip);
      if !panicked {
        ic.Edit(ip, fs.inodes[dp]);
        ic.Iupdate(ip);
      }
  }

  const DOT: D.Name := [46]

  lemma EmptyDir(fs: FileSys, n: int)
    requires fs.Valid() && 0 <= n < fs.g.ninodes && n < |fs.inodes| && fs.inodes[n].size == 0
    ensures Bytes(fs, n) == [] && D.Whole(Bytes(fs, n)) && D.NoDup(Bytes(fs, n)) && D.Entries(Bytes(fs, n)) == map[]
  {
    SizeBound(fs, n);
  }

  /** A block past the metadata of a new image is free. */
  lemma RoomLeft(g: Geometry, blocks: seq<Block>)
    requires MarkedTo(g, blocks, g.nmeta) && g.nmeta < g.size
    ensures !DiskFull(g, blocks)
  {
    hide Used, BlockOk;
    assert !Used(g, blocks, g.nmeta);
  }

  /** A new, empty, locked directory on a small disk with room. */
  method NewDir() returns (fs: FileSys, ic: IC.Icache, ip: nat)
    ensures fresh(fs) && fresh(ic) && LockedDir(ic, fs, ip) && ic.slots[ip].inum == 1
    ensures DirBytes(ic, fs, ip) == [] && !DiskFull(fs.g, fs.blocks)
  {
    hide Own, Content, NoHoles, D.NoDup, D.Entries, IC.Table, FreeClean, DiskFull, MarkedTo;
    fs := new FileSys(Geometry(4, 3, 2, 1, 2));
    RoomLeft(fs.g, fs.blocks);
    assert fs.inodes[1].kind == 0;
    var n := fs.Ialloc(D.T_DIR);
    IC.SyncedInodes(fs, fs.dinodes);
    ic := new IC.Icache(fs.dinodes, fs.dinodes[0]);
    assert ic.slots[0].ref == 0;
    var slot := ic.Iget(IC.ROOTDEV, n.value);
    ip := slot.value;
    assert !ic.slots[ip].locked;
    ic.Ilock(ip);
    EmptyDir(fs, n.value);
  }

  /** A directory that has "." for itself: to link another inode there as "." waits for its own lock. */
  method LinkDotTwice(inum: nat) returns (first: Link, ip: nat, second: Link)
    ensures first == Done && second == Waits(ip)
  {
    hide Own, Content, NoHoles, D.NoDup, D.Entries, IC.Table, FreeClean, DiskFull, NameLocked, NoRoom;
    var fs, ic;
    fs, ic, ip := NewDir();
    var n := ic.slots[ip].inum;
    IC.SyncedInodes(fs, ic.dinodes);
    SizeBound(fs, n);
    EmptyDir(fs, n);
    assert D.Clip(DOT) == DOT;
    first := DirLink(ic, fs, ip, DOT, n);
    assert Linked(map[], DOT, 1) == map[DOT := 1];
    second := DirLink(ic, fs, ip, DOT, inum);
  }
}
