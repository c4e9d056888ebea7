/**
 Path names: skipelem's scan of one element, and namex's walk through the directories, proved
 to be a fold of the directory maps over the path's components.
 */
module Paths {
  import opened Options
  import opened FsLayout
  import O = FsOwnership
  import opened InodeCache
  import F = FsFiles
  import D = DirMap
  import Dir = Directories
  import FS = FileSystem

  const SLASH := 47
  const ROOTINO := 1

  /** Where the path element starting at `i` ends. */
  function ElemEnd(p: seq<int>, i: nat): (e: nat)
    requires i <= |p|
    ensures i <= e <= |p| && (e < |p| ==> p[e] == SLASH) && forall j :: i <= j < e ==> p[j] != SLASH
    decreases |p| - i
  {
    if i < |p| && p[i] != SLASH then ElemEnd(p, i + 1) else i
  }

  /** The nonempty components of the path from position `i` on. */
  function Comps(p: seq<int>, i: nat): seq<D.Name>
    requires i <= |p|
    decreases |p| - i
  {
    if i == |p| then []
    else if p[i] == SLASH then Comps(p, i + 1)
    else [p[i..ElemEnd(p, i)]] + Comps(p, ElemEnd(p, i))
  }

  function Components(p: seq<int>): seq<D.Name> { Comps(p, 0) }

  predicate SlashFree(s: seq<int>) {
    forall i :: 0 <= i < |s| ==> s[i] != SLASH
  }

  lemma {:induction false} ElemEndIs(p: seq<int>, i: nat, e: nat)
    requires i <= e <= |p| && (e < |p| ==> p[e] == SLASH) && forall j :: i <= j < e ==> p[j] != SLASH
    ensures ElemEnd(p, i) == e
    decreases e - i
  {
    if i < e {
      ElemEndIs(p, i + 1, e);
    }
  }

  /** A path without a slash is its own only component, if it is not empty. */
  lemma ComponentsOne(s: seq<int>)
    requires SlashFree(s)
    ensures Components(s) == if s == [] then [] else [s]
  {
    if s != [] {
      ElemEndIs(s, 0, |s|);
      assert s[0..|s|] == s;
      assert s[0] != SLASH && Comps(s, |s|) == [];
    }
  }

  /** Components do not reach across a slash. */
  lemma ComponentsJoin(a: seq<int>, b: seq<int>)
    ensures Components(a + [SLASH] + b) == Components(a) + Components(b)
  {
    CompsJoin(a, b, 0);
  }

  lemma {:induction false} CompsJoin(a: seq<int>, b: seq<int>, i: nat)
    requires i <= |a|
    ensures Comps(a + [SLASH] + b, i) == Comps(a, i) + Components(b)
    decreases |a| - i
  {
    var p := a + [SLASH] + b;
    if i == |a| {
      assert p[i] == SLASH;
      CompsShift(a + [SLASH], b, 0);
    } else if a[i] == SLASH {
      assert p[i] == SLASH;
      CompsJoin(a, b, i + 1);
    } else {
      var e := ElemEnd(a, i);
      assert p[i] == a[i] && e < |a| ==> p[e] == a[e];
      assert forall j :: i <= j < e ==> p[j] == a[j];
      assert p[|a|] == SLASH;
      ElemEndIs(p, i, e);
      assert p[i..e] == a[i..e];
      CompsJoin(a, b, e);
    }
  }

  /** A component is where it was behind what precedes it. */
  lemma ElemShift(a: seq<int>, b: seq<int>, i: nat)
    requires i < |b| && b[i] != SLASH
    ensures ElemEnd(a + b, |a| + i) == |a| + ElemEnd(b, i)
    ensures (a + b)[|a| + i..|a| + ElemEnd(b, i)] == b[i..ElemEnd(b, i)]
  {
    var p, e := a + b, ElemEnd(b, i);
    assert forall j :: |a| + i <= j < |a| + e ==> p[j] == b[j - |a|];
    assert e < |b| ==> p[|a| + e] == b[e];
    ElemEndIs(p, |a| + i, |a| + e);
    assert p[|a| + i..|a| + e] == b[i..e];
  }

  lemma Past(p: seq<int>, i: nat)
    requires i < |p| && p[i] != SLASH
    ensures i < ElemEnd(p, i)
  {
  }

  lemma {:induction false} CompsShift(a: seq<int>, b: seq<int>, i: nat)
    requires i <= |b|
    ensures Comps(a + b, |a| + i) == Comps(b, i)
    decreases |b| - i
  {
    hide ElemEnd;
    var p, k := a + b, |a| + i;
    if i < |b| {
      assert p[k] == b[i];
      if b[i] == SLASH {
        CompsShift(a, b, i + 1);
        assert Comps(p, k) == Comps(p, k + 1);
      } else {
        var e := ElemEnd(b, i);
        ElemShift(a, b, i);
        Past(b, i);
        CompsShift(a, b, e);
        assert Comps(p, k) == [p[k..|a| + e]] + Comps(p, |a| + e);
      }
    }
  }

  /** skipelem from position `pos`: the next component, cut to DIRSIZ bytes, and where the one after starts. */
  method SkipElem(path: seq<int>, pos: nat) returns (r: Option<nat>, name: D.Name)
    requires pos <= |path|
    ensures r.None? <==> Comps(path, pos) == []
    ensures r.Some? ==> pos < r.value <= |path| && name == D.Clip(Comps(path, pos)[0])
    ensures r.Some? ==> Comps(path, r.value) == Comps(path, pos)[1..]
    ensures r.Some? ==> (r.value == |path| <==> Comps(path, r.value) == [])
    ensures D.NulFree(path) ==> D.NulFree(name)
  {
    var i := pos;
    name := [];
    while i < |path| && path[i] == SLASH
      invariant pos <= i <= |path| && Comps(path, i) == Comps(path, pos)
    {
      i := i + 1;
    }
    if i == |path| {
      return None, [];
    }
    var s := i;
    while i < |path| && path[i] != SLASH
      invariant s <= i <= |path| && ElemEnd(path, i) == ElemEnd(path, s)
      decreases |path| - i
    {
      i := i + 1;
    }
    name := if i - s >= D.DIRSIZ then path[s..s + D.DIRSIZ] else path[s..i];
    assert i - s >= D.DIRSIZ ==> path[s..i][..D.DIRSIZ] == path[s..s + D.DIRSIZ];
    assert name == D.Clip(path[s..i]);
    assert Comps(path, s) == [path[s..i]] + Comps(path, i);
    ghost var e := i;
    while i < |path| && path[i] == SLASH
      invariant e <= i <= |path| && Comps(path, i) == Comps(path, e)
    {
      i := i + 1;
    }
    assert i < |path| ==> Comps(path, i) == [path[i..ElemEnd(path, i)]] + Comps(path, ElemEnd(path, i));
    r := Some(i);
  }

  /** The map of each directory. */
  type Tree = map<nat, map<D.Name, int>>

  /** Directory `n` holds whole records without duplicate names, and `dirs` has its map. */
  ghost predicate DirOf(g: Geometry, v: O.Fs, dirs: Tree, n: nat)
    requires O.Shape(g, v) && n < g.ninodes && F.NoHoles(g, v, n)
  {
    var c := F.Content(g, v, n);
    n in dirs && D.Whole(c) && D.NoDup(c) && dirs[n] == D.Entries(c)
  }

  /** The directories of the blocks and inodes `v` are `dirs`. */
  ghost predicate TreeIn(g: Geometry, v: O.Fs, dirs: Tree) {
    O.Shape(g, v) && forall n: nat :: n < g.ninodes && v.inodes[n].kind == D.T_DIR ==>
      F.NoHoles(g, v, n) && DirOf(g, v, dirs, n)
  }

  /** The file system's directories are `dirs`. */
  ghost predicate TreeOf(fs: FS.FileSys, dirs: Tree)
    reads fs
  {
    fs.Valid() && |fs.dinodes| == fs.g.ninodes && TreeIn(fs.g, fs.View(), dirs)
  }

  /** dirlookup in a directory of the tree. */
  method LookIn(fs: FS.FileSys, ghost dirs: Tree, n: nat, name: D.Name) returns (found: bool, t: int)
    requires TreeOf(fs, dirs) && n < |fs.dinodes| && fs.dinodes[n].kind == D.T_DIR && D.NulFree(name)
    requires |name| <= D.DIRSIZ
    modifies fs
    ensures TreeOf(fs, dirs) && fs.dinodes == old(fs.dinodes)
    ensures n in dirs && (found <==> name in dirs[n]) && (found ==> t == dirs[n][name])
  {
    hide D.NoDup, D.Entries, D.NulFree;
    assert DirOf(fs.g, fs.View(), dirs, n);
    var off;
    found, t, off := Dir.FindEntry(fs, n, name);
  }

  predicate IsDir(dinodes: seq<Inode>, dirs: Tree, n: nat) {
    n < |dinodes| && dinodes[n].kind == D.T_DIR && n in dirs
  }

  /** Every directory has its map, and every entry names an inode that iput will not free under the walk. */
  ghost predicate Sound(dinodes: seq<Inode>, dirs: Tree, refs: multiset<Key>) {
    && (forall n: nat :: n < |dinodes| && dinodes[n].kind == D.T_DIR ==> n in dirs)
    && (forall n: nat, name :: n in dirs && name in dirs[n] ==>
          0 <= dirs[n][name] && Kept(dinodes, dirs[n][name], refs))
  }

  /** An inode of the disk that, if allocated, has a link or a user. */
  predicate Kept(dinodes: seq<Inode>, n: nat, refs: multiset<Key>) {
    n < |dinodes| && (dinodes[n].kind != 0 ==> dinodes[n].nlink > 0 || Key(ROOTDEV, n) in refs)
  }

  /** The directory maps folded over the components. */
  function Walk(dinodes: seq<Inode>, dirs: Tree, n: nat, comps: seq<D.Name>): Option<nat>
    decreases |comps|
  {
    if comps == [] then Some(n)
    else if IsDir(dinodes, dirs, n) && D.Clip(comps[0]) in dirs[n] && dirs[n][D.Clip(comps[0])] >= 0
    then Walk(dinodes, dirs, dirs[n][D.Clip(comps[0])], comps[1..])
    else None
  }

  /** namex's answer: the walk over all components, or to the directory holding the last one. */
  function Target(dinodes: seq<Inode>, dirs: Tree, n: nat, comps: seq<D.Name>, parent: bool): Option<nat> {
    if !parent then Walk(dinodes, dirs, n, comps)
    else if comps == [] then None
    else
      var d := Walk(dinodes, dirs, n, comps[..|comps| - 1]);
      if d.Some? && IsDir(dinodes, dirs, d.value) then d else None
  }

  /** One component of the walk, as namex's loop takes it. */
  lemma {:induction false} TargetStep(dinodes: seq<Inode>, dirs: Tree, n: nat, comps: seq<D.Name>, parent: bool)
    requires comps != []
    ensures Target(dinodes, dirs, n, comps, parent) ==
      if !IsDir(dinodes, dirs, n) then None
      else if parent && |comps| == 1 then Some(n)
      else if D.Clip(comps[0]) in dirs[n] && dirs[n][D.Clip(comps[0])] >= 0
        then Target(dinodes, dirs, dirs[n][D.Clip(comps[0])], comps[1..], parent)
      else None
  {
    if parent && |comps| > 1 {
      var init := comps[..|comps| - 1];
      assert init[0] == comps[0] && init[1..] == comps[1..][..|comps[1..]| - 1];
    }
  }

  /** Somebody has inode `n` locked. */
  ghost predicate IsLocked(slots: seq<Slot>, n: nat) {
    exists j: nat :: j < |slots| && slots[j].locked && KeyOf(slots[j]) == Key(ROOTDEV, n)
  }

  /** How a walk ends: at an inode, nowhere, waiting for the lock of one, or in ilock's panic on a free one. */
  datatype Ending = At(n: nat) | Nowhere | Waiting(n: nat) | Untyped(n: nat)

  /** The walk of namex over the locks `slots` show, inode by inode. */
  ghost function Ends(dinodes: seq<Inode>, dirs: Tree, slots: seq<Slot>, n: nat, comps: seq<D.Name>,
                      parent: bool): Ending
    decreases |comps|
  {
    if comps == [] && !parent then At(n)
    else if IsLocked(slots, n) then Waiting(n)
    else if comps == [] then Nowhere
    else if n >= |dinodes| || dinodes[n].kind == 0 then Untyped(n)
    else if !IsDir(dinodes, dirs, n) then Nowhere
    else if parent && |comps| == 1 then At(n)
    else if D.Clip(comps[0]) in dirs[n] && dirs[n][D.Clip(comps[0])] >= 0
      then Ends(dinodes, dirs, slots, dirs[n][D.Clip(comps[0])], comps[1..], parent)
    else Nowhere
  }

  /** Inode `x` is on the way: the fold over some of the first components. */
  ghost predicate OnWay(dinodes: seq<Inode>, dirs: Tree, n: nat, comps: seq<D.Name>, x: nat) {
    exists k: nat :: k <= |comps| && Walk(dinodes, dirs, n, comps[..k]) == Some(x)
  }

  lemma WayStarts(dinodes: seq<Inode>, dirs: Tree, n: nat, comps: seq<D.Name>)
    ensures OnWay(dinodes, dirs, n, comps, n)
  {
    assert Walk(dinodes, dirs, n, comps[..0]) == Some(n);
  }

  lemma WayGoesOn(dinodes: seq<Inode>, dirs: Tree, n: nat, comps: seq<D.Name>, x: nat)
    requires comps != [] && IsDir(dinodes, dirs, n) && D.Clip(comps[0]) in dirs[n] && dirs[n][D.Clip(comps[0])] >= 0
    requires OnWay(dinodes, dirs, dirs[n][D.Clip(comps[0])], comps[1..], x)
    ensures OnWay(dinodes, dirs, n, comps, x)
  {
    var k: nat :| k <= |comps[1..]| && Walk(dinodes, dirs, dirs[n][D.Clip(comps[0])], comps[1..][..k]) == Some(x);
    assert comps[..k + 1][0] == comps[0] && comps[..k + 1][1..] == comps[1..][..k];
    assert Walk(dinodes, dirs, n, comps[..k + 1]) == Some(x);
  }

  /**
   The walk answers as the fold of the directory maps does, unless an inode on its way is locked or free;
   and then it ends at one that is.
   */
  lemma {:induction false} EndsIs(dinodes: seq<Inode>, dirs: Tree, slots: seq<Slot>, n: nat, comps: seq<D.Name>,
                                  parent: bool)
    ensures var e := Ends(dinodes, dirs, slots, n, comps, parent);
      && (e.At? ==> Target(dinodes, dirs, n, comps, parent) == Some(e.n))
      && (e.Nowhere? ==> Target(dinodes, dirs, n, comps, parent) == None)
      && (e.Waiting? ==> IsLocked(slots, e.n) && OnWay(dinodes, dirs, n, comps, e.n))
      && (e.Untyped? ==> (e.n < |dinodes| ==> dinodes[e.n].kind == 0) && OnWay(dinodes, dirs, n, comps, e.n))
    decreases |comps|
  {
    hide IsLocked, OnWay, Target, D.Clip;
    WayStarts(dinodes, dirs, n, comps);
    if comps == [] {
      NoComps(dinodes, dirs, n, parent);
    } else {
      TargetStep(dinodes, dirs, n, comps, parent);
      var name := D.Clip(comps[0]);
      if IsDir(dinodes, dirs, n) && !(parent && |comps| == 1) && name in dirs[n] && dirs[n][name] >= 0 {
        var t := dirs[n][name];
        EndsIs(dinodes, dirs, slots, t, comps[1..], parent);
        var e := Ends(dinodes, dirs, slots, t, comps[1..], parent);
        if e.Waiting? || e.Untyped? {
          WayGoesOn(dinodes, dirs, n, comps, e.n);
        }
      }
    }
  }

  lemma NoComps(dinodes: seq<Inode>, dirs: Tree, n: nat, parent: bool)
    ensures Target(dinodes, dirs, n, [], parent) == if parent then None else Some(n)
  {
  }

  /** References held beyond `refs`: one to inode `n`. */
  ghost function Plus(refs: multiset<Key>, n: nat): multiset<Key> {
    refs + multiset{Key(ROOTDEV, n)}
  }

  /** The same entries are locked, for the same inodes. */
  ghost predicate SameLocks(slots: seq<Slot>, slots': seq<Slot>) {
    && |slots'| == |slots|
    && forall j: nat :: j < |slots| ==>
         slots'[j].locked == slots[j].locked && (slots[j].locked ==> KeyOf(slots'[j]) == KeyOf(slots[j]))
  }

  /** The walk stands at inode `n` through slot `ip`, with one reference more than `base`, and holds no lock. */
  ghost predicate StandsAt(ic: Icache, dinodes: seq<Inode>, base: multiset<Key>, locks: seq<Slot>, ip: nat, n: nat)
    reads ic
  {
    && ic.Valid() && ic.dinodes == dinodes && ip < NINODE && ic.Refers(ip, Key(ROOTDEV, n))
    && ic.refs == Plus(base, n) && Kept(dinodes, n, base) && SameLocks(locks, ic.slots)
  }

  /** The walk has inode `n` locked as well. */
  ghost predicate LockedAt(ic: Icache, dinodes: seq<Inode>, base: multiset<Key>, locks: seq<Slot>, ip: nat, n: nat)
    reads ic
  {
    && ic.Valid() && ic.dinodes == dinodes && ip < NINODE && ic.Refers(ip, Key(ROOTDEV, n))
    && ic.refs == Plus(base, n) && Kept(dinodes, n, base) && ic.slots[ip].locked && ic.slots[ip].valid
    && Coherent(ic.slots[ip], dinodes) && SameLocks(locks, ic.slots[ip := ic.slots[ip].(locked := false)])
  }

  /** iunlockput: the lock and the reference go, and with its last use the inode. */
  method UnlockPut(ic: Icache, fs: FS.FileSys, ip: nat)
    requires ic.Valid() && ip < NINODE && ic.slots[ip].locked
    requires (ic.slots[ip].valid ==> Coherent(ic.slots[ip], ic.dinodes))
    requires SameDisk(fs, ic.dinodes)
    modifies ic, fs
    ensures ic.Valid() && ic.refs == old(ic.refs) - multiset{KeyOf(old(ic.slots)[ip])} && SameDisk(fs, ic.dinodes)
    ensures var s := old(ic.slots)[ip];
      if LastUse(s) then
        s.inum < |old(ic.dinodes)| && ic.dinodes == old(ic.dinodes)[s.inum := Freed(s.din)] && BlocksFreed(fs, s.inum)
      else
        ic.dinodes == old(ic.dinodes) && fs.View() == old(fs.View())
    ensures forall j: nat :: j < NINODE && j != ip ==> ic.slots[j] == old(ic.slots)[j]
    ensures ic.slots[ip].ref == old(ic.slots)[ip].ref - 1 && KeyOf(ic.slots[ip]) == KeyOf(old(ic.slots)[ip])
    ensures !ic.slots[ip].locked
  {
    hide Table, FS.FileSys.Valid, Used;
    HeldRef(ic.slots, ic.dinodes, ic.at, ic.refs, ip);
    ic.Iunlock(ip);
    ic.Iput(fs, ip);
  }

  /** iunlockput of an inode that has a link or another user: nothing is freed, so the tree stays. */
  method UnlockPutLinked(ic: Icache, fs: FS.FileSys, ghost dirs: Tree, ip: nat)
    requires ic.Valid() && ip < NINODE && ic.slots[ip].locked && ic.slots[ip].valid
    requires Coherent(ic.slots[ip], ic.dinodes)
    requires !LastUse(ic.slots[ip]) && TreeOf(fs, dirs) && fs.dinodes == ic.dinodes
    modifies ic, fs
    ensures ic.Valid() && ic.dinodes == old(ic.dinodes) && TreeOf(fs, dirs) && fs.dinodes == ic.dinodes
    ensures ic.refs == old(ic.refs) - multiset{KeyOf(old(ic.slots)[ip])}
    ensures forall j: nat :: j < NINODE && j != ip ==> ic.slots[j] == old(ic.slots)[j]
    ensures ic.slots[ip].ref == old(ic.slots)[ip].ref - 1 && KeyOf(ic.slots[ip]) == KeyOf(old(ic.slots)[ip])
    ensures !ic.slots[ip].locked
  {
    hide Table, TreeIn, FS.FileSys.Valid;
    UnlockPut(ic, fs, ip);
  }

  lemma HeldRef(slots: seq<Slot>, dinodes: seq<Inode>, at: map<Key, nat>, refs: multiset<Key>, i: nat)
    requires Table(slots, dinodes, at, refs) && i < |slots|
    ensures slots[i].locked ==> slots[i].ref > 0
    ensures slots[i].ref > 0 ==> refs[KeyOf(slots[i])] == slots[i].ref
  {
    assert SlotOk(slots[i], dinodes);
  }

  /** The entry the walk stands at is locked exactly if the inode was when the walk began. */
  lemma StandLocked(ic: Icache, dinodes: seq<Inode>, base: multiset<Key>, locks: seq<Slot>, ip: nat, n: nat)
    requires StandsAt(ic, dinodes, base, locks, ip, n)
    ensures ic.slots[ip].locked <==> IsLocked(locks, n)
  {
    if ic.slots[ip].locked {
      assert locks[ip].locked && KeyOf(locks[ip]) == Key(ROOTDEV, n);
    }
    if IsLocked(locks, n) {
      var j: nat :| j < |locks| && locks[j].locked && KeyOf(locks[j]) == Key(ROOTDEV, n);
      HeldRef(ic.slots, ic.dinodes, ic.at, ic.refs, j);
      OneEntry(ic.slots, ic.dinodes, ic.at, ic.refs, ip, j);
    }
  }

  /** Two references to an inode that is in `base` and held once more. */
  lemma OthersHold(ic: Icache, base: multiset<Key>, ip: nat, n: nat)
    requires ic.Valid() && ip < NINODE && ic.Refers(ip, Key(ROOTDEV, n)) && ic.refs == Plus(base, n)
    requires Kept(ic.dinodes, n, base) && (ic.slots[ip].valid ==> Coherent(ic.slots[ip], ic.dinodes))
    ensures !LastUse(ic.slots[ip])
  {
    HeldRef(ic.slots, ic.dinodes, ic.at, ic.refs, ip);
  }

  lemma Swap(base: multiset<Key>, n: nat, t: nat)
    ensures Plus(base, n) + multiset{Key(ROOTDEV, t)} - multiset{Key(ROOTDEV, n)} == Plus(base, t)
    ensures Plus(base, n) - multiset{Key(ROOTDEV, n)} == base
  {
  }

  lemma Locked(ic: Icache)
    requires ic.Valid()
    ensures forall j: nat :: j < NINODE && ic.slots[j].locked ==> ic.slots[j].ref > 0
  {
    forall j: nat | j < NINODE && ic.slots[j].locked ensures ic.slots[j].ref > 0 {
      HeldRef(ic.slots, ic.dinodes, ic.at, ic.refs, j);
    }
  }

  /** With the walk's own lock given up, the locks are those it found. */
  lemma LetGo(locks: seq<Slot>, slots: seq<Slot>, ip: nat, slots': seq<Slot>)
    requires ip < |slots| == |slots'| && SameLocks(locks, slots[ip := slots[ip].(locked := false)])
    requires !slots'[ip].locked
    requires forall j: nat :: j < |slots| && j != ip ==>
      slots'[j].locked == slots[j].locked && (slots[j].locked ==> KeyOf(slots'[j]) == KeyOf(slots[j]))
    ensures SameLocks(locks, slots')
  {
    forall j: nat | j < |slots|
      ensures slots'[j].locked == locks[j].locked && (locks[j].locked ==> KeyOf(slots'[j]) == KeyOf(locks[j]))
    {
      assert slots[ip := slots[ip].(locked := false)][j].locked == locks[j].locked;
    }
  }

  /** Leaving the walk at a locked inode. */
  method Quit(ic: Icache, fs: FS.FileSys, ghost dirs: Tree, ip: nat, ghost base: multiset<Key>, ghost locks: seq<Slot>,
              ghost n: nat)
    requires LockedAt(ic, ic.dinodes, base, locks, ip, n) && TreeOf(fs, dirs) && fs.dinodes == ic.dinodes
    modifies ic, fs
    ensures TreeOf(fs, dirs) && fs.dinodes == ic.dinodes
    ensures ic.Valid() && ic.dinodes == old(ic.dinodes) && ic.refs == base && SameLocks(locks, ic.slots)
  {
    hide Table, TreeOf, SameLocks;
    OthersHold(ic, base, ip, n);
    Swap(base, n, n);
    UnlockPutLinked(ic, fs, dirs, ip);
    LetGo(locks, old(ic.slots), ip, ic.slots);
  }

  /** The directory in slot `ip` is locked, and slot `next` refers to one of its entries as well. */
  ghost predicate Reaches(ic: Icache, dinodes: seq<Inode>, base: multiset<Key>, locks: seq<Slot>, ip: nat, n: nat,
                          next: nat, t: nat)
    reads ic
  {
    && ic.Valid() && ic.dinodes == dinodes && ip < NINODE && ic.Refers(ip, Key(ROOTDEV, n)) && ic.slots[ip].locked
    && ic.slots[ip].valid && Coherent(ic.slots[ip], dinodes) && !LastUse(ic.slots[ip])
    && next < NINODE && ic.Refers(next, Key(ROOTDEV, t)) && (next == ip ==> ic.slots[ip].ref > 1)
    && ic.refs == Plus(base, n) + multiset{Key(ROOTDEV, t)}
    && SameLocks(locks, ic.slots[ip := ic.slots[ip].(locked := false)])
  }

  /** iget of an entry, under the directory's lock. */
  method Reach(ic: Icache, ip: nat, t: nat, ghost base: multiset<Key>, ghost locks: seq<Slot>, ghost n: nat)
    returns (next: Option<nat>)
    requires LockedAt(ic, ic.dinodes, base, locks, ip, n)
    modifies ic`slots, ic`at, ic`refs
    ensures next.Some? ==> Reaches(ic, ic.dinodes, base, locks, ip, n, next.value, t)
    ensures next.None? ==> AllInUse(ic.slots)
  {
    hide Table, Plus, SameLocks, Kept;
    Locked(ic);
    OthersHold(ic, base, ip, n);
    next := ic.Iget(ROOTDEV, t);
    if next.Some? {
      ghost var s := old(ic.slots)[ip];
      assert ic.slots[ip] == s || (next.value == ip && ic.slots[ip] == s.(ref := s.ref + 1));
      LetGo(locks, old(ic.slots), ip, ic.slots[ip := ic.slots[ip].(locked := false)]);
    }
  }

  /** From a locked directory to the inode `t` one of its entries names. */
  method Advance(ic: Icache, fs: FS.FileSys, ghost dirs: Tree, ip: nat, t: nat, ghost base: multiset<Key>,
                 ghost locks: seq<Slot>, ghost n: nat)
    returns (next: Option<nat>)
    requires LockedAt(ic, ic.dinodes, base, locks, ip, n) && Kept(ic.dinodes, t, base) && TreeOf(fs, dirs)
    requires fs.dinodes == ic.dinodes
    modifies ic, fs
    ensures TreeOf(fs, dirs) && fs.dinodes == ic.dinodes == old(ic.dinodes)
    ensures next.Some? ==> StandsAt(ic, old(ic.dinodes), base, locks, next.value, t)
    ensures next.None? ==> AllInUse(ic.slots)
  {
    hide Table, Plus, TreeOf, SameLocks, Kept, Coherent, LastUse;
    next := Reach(ic, ip, t, base, locks, n);
    if next.Some? {
      ghost var slots := ic.slots;
      UnlockPutLinked(ic, fs, dirs, ip);
      Swap(base, n, t);
      LetGo(locks, slots, ip, ic.slots);
    }
  }

  /** ilock when the walk stands at an inode that nobody has locked; false is its panic on a free inode. */
  method LockHere(ic: Icache, ip: nat, ghost base: multiset<Key>, ghost locks: seq<Slot>, ghost n: nat)
    returns (ok: bool)
    requires StandsAt(ic, ic.dinodes, base, locks, ip, n) && !ic.slots[ip].locked
    modifies ic`slots
    ensures ok <==> ic.dinodes[n].kind != 0
    ensures ok ==> LockedAt(ic, ic.dinodes, base, locks, ip, n)
  {
    hide Table, Plus;
    Unlocked(ic.slots, ic.dinodes, ic.at, ic.refs, ip);
    if !ic.slots[ip].valid && ic.dinodes[ic.slots[ip].inum].kind == 0 {
      return false;
    }
    ic.Ilock(ip);
    ok := true;
  }

  datatype Step = Missing | Stop | Next(slot: nat, inum: nat) | Waits | NoType | NoSlots

  /** One turn of namex's loop, from inode `n` by `name`; `stop` asks for the directory itself. */
  method StepInto(ic: Icache, fs: FS.FileSys, ghost dirs: Tree, ip: nat, name: D.Name, stop: bool,
                  ghost base: multiset<Key>, ghost locks: seq<Slot>, ghost n: nat)
    returns (r: Step)
    requires StandsAt(ic, ic.dinodes, base, locks, ip, n) && Sound(ic.dinodes, dirs, base)
    requires TreeOf(fs, dirs) && fs.dinodes == ic.dinodes && D.NulFree(name) && |name| <= D.DIRSIZ
    modifies ic, fs
    ensures TreeOf(fs, dirs) && fs.dinodes == old(fs.dinodes) == ic.dinodes
    ensures r == Waits <==> IsLocked(locks, n)
    ensures r == NoType <==> !IsLocked(locks, n) && ic.dinodes[n].kind == 0
    ensures r == NoSlots ==> AllInUse(ic.slots)
    ensures r == Missing ==> ic.Valid() && ic.refs == base && SameLocks(locks, ic.slots)
    ensures r == Missing || r == Stop || r.Next? ==>
      (r == Missing <==> !IsDir(ic.dinodes, dirs, n) || (!stop && name !in dirs[n]))
    ensures r == Stop ==> stop
    ensures r == Stop || r == Waits ==> StandsAt(ic, old(ic.dinodes), base, locks, ip, n)
    ensures r == NoSlots ==> IsDir(ic.dinodes, dirs, n) && !stop
    ensures r.Next? ==>
      && !stop && name in dirs[n] && dirs[n][name] == r.inum
      && StandsAt(ic, old(ic.dinodes), base, locks, r.slot, r.inum)
  {
    hide Table, Plus, TreeOf, D.NulFree, SameLocks, IsLocked;
    StandLocked(ic, ic.dinodes, base, locks, ip, n);
    if ic.slots[ip].locked {
      return Waits;
    }
    var typed := LockHere(ic, ip, base, locks, n);
    if !typed {
      return NoType;
    }
    if ic.slots[ip].din.kind != D.T_DIR {
      Quit(ic, fs, dirs, ip, base, locks, n);
      return Missing;
    }
    if stop {
      ic.Iunlock(ip);
      return Stop;
    }
    var found, t := LookIn(fs, dirs, ic.slots[ip].inum, name);
    if !found {
      Quit(ic, fs, dirs, ip, base, locks, n);
      return Missing;
    }
    assert Kept(ic.dinodes, t, base);
    var next := Advance(ic, fs, dirs, ip, t, base, locks, n);
    r := if next.None? then NoSlots else Next(next.value, t);
  }

  /** iput at the end of a path that has no last component to stop before; it waits if the inode is locked. */
  method Leave(ic: Icache, fs: FS.FileSys, ghost dirs: Tree, ip: nat, ghost base: multiset<Key>, ghost locks: seq<Slot>,
               ghost n: nat)
    returns (waits: bool)
    requires StandsAt(ic, ic.dinodes, base, locks, ip, n) && TreeOf(fs, dirs) && fs.dinodes == ic.dinodes
    modifies ic, fs
    ensures TreeOf(fs, dirs) && fs.dinodes == ic.dinodes == old(ic.dinodes)
    ensures waits <==> IsLocked(locks, n)
    ensures if waits then StandsAt(ic, ic.dinodes, base, locks, ip, n)
            else ic.Valid() && ic.refs == base && SameLocks(locks, ic.slots)
  {
    hide Table, TreeIn, FS.FileSys.Valid, IsLocked;
    StandLocked(ic, ic.dinodes, base, locks, ip, n);
    if ic.slots[ip].locked {
      return true;
    }
    Unlocked(ic.slots, ic.dinodes, ic.at, ic.refs, ip);
    OthersHold(ic, base, ip, n);
    Swap(base, n, n);
    ic.Iput(fs, ip);
    waits := false;
  }

  /** The root, or one more reference to the current directory. */
  method Begin(ic: Icache, path: seq<int>, cwd: nat) returns (ip: Option<nat>)
    requires ic.Valid() && cwd < NINODE && ic.slots[cwd].ref > 0 && ic.slots[cwd].dev == ROOTDEV
    requires ic.slots[cwd].inum < |ic.dinodes| && Kept(ic.dinodes, ROOTINO, ic.refs)
    modifies ic`slots, ic`at, ic`refs
    ensures ip.None? ==> AllInUse(ic.slots)
    ensures ip.Some? && [SLASH] <= path ==>
      StandsAt(ic, ic.dinodes, old(ic.refs), old(ic.slots), ip.value, ROOTINO)
    ensures ip.Some? && !([SLASH] <= path) ==>
      StandsAt(ic, ic.dinodes, old(ic.refs), old(ic.slots), ip.value, old(ic.slots)[cwd].inum)
  {
    hide Table;
    Locked(ic);
    HeldRef(ic.slots, ic.dinodes, ic.at, ic.refs, cwd);
    if |path| > 0 && path[0] == SLASH {
      ip := ic.Iget(ROOTDEV, ROOTINO);
    } else {
      ic.Idup(cwd);
      ip := Some(cwd);
    }
  }

  datatype Found = In(slot: nat) | Missed | Blocked(slot: nat) | Panic(noslots: bool)

  /** What namex returned is how the walk ends; it holds the one reference that goes with it. */
  ghost predicate Answers(r: Found, e: Ending, ic: Icache, dinodes: seq<Inode>, base: multiset<Key>, locks: seq<Slot>)
    reads ic
  {
    match r
    case In(slot) => e.At? && StandsAt(ic, dinodes, base, locks, slot, e.n)
    case Missed => e.Nowhere? && ic.Valid() && ic.dinodes == dinodes && ic.refs == base && SameLocks(locks, ic.slots)
    case Blocked(slot) => e.Waiting? && StandsAt(ic, dinodes, base, locks, slot, e.n)
    case Panic(noslots) => if noslots then AllInUse(ic.slots) else e.Untyped?
  }

  /**
   namex with nothing else running: it ends as `Ends` says the walk does, from the root if the path begins with
   a slash and otherwise from the current directory, holding one reference to the inode found or waited for and
   no other new reference or lock. A panic is iget out of slots, or ilock's.
   */
  method Namex(ic: Icache, fs: FS.FileSys, ghost dirs: Tree, path: seq<int>, parent: bool, cwd: nat)
    returns (r: Found, name: D.Name)
    requires ic.Valid() && cwd < NINODE && ic.slots[cwd].ref > 0 && ic.slots[cwd].dev == ROOTDEV
    requires ic.slots[cwd].inum < |ic.dinodes| && Kept(ic.dinodes, ROOTINO, ic.refs)
    requires Sound(ic.dinodes, dirs, ic.refs) && TreeOf(fs, dirs) && fs.dinodes == ic.dinodes && D.NulFree(path)
    modifies ic, fs
    ensures TreeOf(fs, dirs) && fs.dinodes == old(fs.dinodes)
    ensures [SLASH] <= path ==>
      Answers(r, Ends(old(ic.dinodes), dirs, old(ic.slots), ROOTINO, Components(path), parent),
              ic, old(ic.dinodes), old(ic.refs), old(ic.slots))
    ensures !([SLASH] <= path) ==>
      Answers(r, Ends(old(ic.dinodes), dirs, old(ic.slots), old(ic.slots)[cwd].inum, Components(path), parent),
              ic, old(ic.dinodes), old(ic.refs), old(ic.slots))
    ensures r.In? && parent ==> Components(path) != [] && name == D.Clip(Components(path)[|Components(path)| - 1])
  {
    hide Table, Plus, Ends, Comps, IsDir, Sound, TreeOf, D.NulFree, IsLocked, SameLocks;
    name := [];
    ghost var dinodes, base, locks := ic.dinodes, ic.refs, ic.slots;
    ghost var n: nat := if [SLASH] <= path then ROOTINO else ic.slots[cwd].inum;
    ghost var want := Ends(dinodes, dirs, locks, n, Components(path), parent);
    var ip := Begin(ic, path, cwd);
    if ip.None? {
      return Panic(true), [];
    }
    var cur, pos := ip.value, 0;
    while true
      invariant pos <= |path| && StandsAt(ic, dinodes, base, locks, cur, n)
      invariant TreeOf(fs, dirs) && fs.dinodes == dinodes
      invariant Ends(dinodes, dirs, locks, n, Comps(path, pos), parent) == want
      invariant |Comps(path, pos)| <= |Components(path)|
      invariant Comps(path, pos) == [] ||
        Comps(path, pos)[|Comps(path, pos)| - 1] == Components(path)[|Components(path)| - 1]
      decreases |path| - pos
    {
      ghost var comps := Comps(path, pos);
      var rest;
      rest, name := SkipElem(path, pos);
      if rest.None? {
        break;
      }
      EndsStep(dinodes, dirs, locks, n, comps, parent);
      var step := StepInto(ic, fs, dirs, cur, name, parent && rest.value == |path|, base, locks, n);
      match step
      case NoSlots => return Panic(true), name;
      case NoType => return Panic(false), name;
      case Waits => return Blocked(cur), name;
      case Missing => return Missed, name;
      case Stop => return In(cur), name;
      case Next(slot, inum) =>
        cur, n, pos := slot, inum, rest.value;
    }
    EndsNone(dinodes, dirs, locks, n, parent);
    if parent {
      var waits := Leave(ic, fs, dirs, cur, base, locks, n);
      return if waits then Blocked(cur) else Missed, name;
    }
    r := In(cur);
  }

  lemma EndsStep(dinodes: seq<Inode>, dirs: Tree, slots: seq<Slot>, n: nat, comps: seq<D.Name>, parent: bool)
    requires comps != []
    ensures Ends(dinodes, dirs, slots, n, comps, parent) ==
      if IsLocked(slots, n) then Waiting(n)
      else if n >= |dinodes| || dinodes[n].kind == 0 then Untyped(n)
      else if !IsDir(dinodes, dirs, n) then Nowhere
      else if parent && |comps| == 1 then At(n)
      else if D.Clip(comps[0]) in dirs[n] && dirs[n][D.Clip(comps[0])] >= 0
        then Ends(dinodes, dirs, slots, dirs[n][D.Clip(comps[0])], comps[1..], parent)
      else Nowhere
  {
  }

  lemma EndsNone(dinodes: seq<Inode>, dirs: Tree, slots: seq<Slot>, n: nat, parent: bool)
    ensures Ends(dinodes, dirs, slots, n, [], parent) ==
      if !parent then At(n) else if IsLocked(slots, n) then Waiting(n) else Nowhere
  {
  }

  // ---------- relative and absolute paths ----------

  /** A walk over two lists of components is the walk over the second from where the first one ends. */
  lemma {:induction false} EndsJoin(dinodes: seq<Inode>, dirs: Tree, slots: seq<Slot>, n: nat, a: seq<D.Name>, m: nat,
                                    b: seq<D.Name>, parent: bool)
    requires Ends(dinodes, dirs, slots, n, a, false) == At(m) && (parent ==> b != [])
    ensures Ends(dinodes, dirs, slots, n, a + b, parent) == Ends(dinodes, dirs, slots, m, b, parent)
    decreases |a|
  {
    if a == [] {
      assert a + b == b;
    } else {
      hide IsLocked, IsDir, D.Clip;
      var name := D.Clip(a[0]);
      assert (a + b)[0] == a[0] && (a + b)[1..] == a[1..] + b;
      EndsJoin(dinodes, dirs, slots, dirs[n][name], a[1..], m, b, parent);
    }
  }

  lemma {:induction false} WalkJoin(dinodes: seq<Inode>, dirs: Tree, n: nat, a: seq<D.Name>, b: seq<D.Name>)
    ensures Walk(dinodes, dirs, n, a + b) ==
      var m := Walk(dinodes, dirs, n, a); if m.None? then None else Walk(dinodes, dirs, m.value, b)
    decreases |a|
  {
    if a == [] {
      assert a + b == b;
    } else {
      assert (a + b)[0] == a[0] && (a + b)[1..] == a[1..] + b;
      if IsDir(dinodes, dirs, n) && D.Clip(a[0]) in dirs[n] && dirs[n][D.Clip(a[0])] >= 0 {
        WalkJoin(dinodes, dirs, dirs[n][D.Clip(a[0])], a[1..], b);
      }
    }
  }

  /**
   Relative paths mean what they should: if the absolute path `d` leads to the current directory, then `q` from
   there answers as `d/q` does. It is so exactly if the directory holding the last component is not asked for when
   `q` has none: then namex fails in the current directory, while the last component of `d` would serve.
   */
  lemma RelativeIsAbsolute(dinodes: seq<Inode>, dirs: Tree, cwd: nat, d: seq<int>, q: seq<int>, parent: bool)
    requires [SLASH] <= d && Walk(dinodes, dirs, ROOTINO, Components(d)) == Some(cwd)
    ensures var path := d + [SLASH] + q;
      && [SLASH] <= path
      && (Target(dinodes, dirs, ROOTINO, Components(path), parent) == Target(dinodes, dirs, cwd, Components(q), parent)
          <==> (parent && Components(q) == [] ==> Components(d) == []))
  {
    hide Comps, D.Clip;
    ComponentsJoin(d, q);
    var a, b := Components(d), Components(q);
    WalkJoin(dinodes, dirs, ROOTINO, a, b);
    if parent && b != [] {
      assert (a + b)[..|a + b| - 1] == a + b[..|b| - 1];
      WalkJoin(dinodes, dirs, ROOTINO, a, b[..|b| - 1]);
    } else if parent && a != [] {
      assert a + b == a && a == a[..|a| - 1] + [a[|a| - 1]];
      WalkJoin(dinodes, dirs, ROOTINO, a[..|a| - 1], [a[|a| - 1]]);
    }
  }

  /** The same of namex's walk with its locks, if the way down `d` is free. */
  lemma RelativeEnds(dinodes: seq<Inode>, dirs: Tree, slots: seq<Slot>, cwd: nat, d: seq<int>, q: seq<int>,
                     parent: bool)
    requires Ends(dinodes, dirs, slots, ROOTINO, Components(d), false) == At(cwd) && (parent ==> Components(q) != [])
    ensures Ends(dinodes, dirs, slots, ROOTINO, Components(d + [SLASH] + q), parent) ==
      Ends(dinodes, dirs, slots, cwd, Components(q), parent)
  {
    hide Comps, Ends;
    ComponentsJoin(d, q);
    EndsJoin(dinodes, dirs, slots, ROOTINO, Components(d), cwd, Components(q), parent);
  }
}
