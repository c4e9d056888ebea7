/**
 Directory contents as fs.c stores them: a byte sequence of 16-byte records, each a 16-bit
 inode number and a name of at most 14 bytes, seen as a finite map from names to inodes.
 */
module DirMap {
  const DIRSIZ := 14
  const DESIZE := 16
  const T_DIR := 1

  type Name = seq<int>

  /** The part of a name that namecmp and strncpy look at. */
  function Clip(name: Name): (r: Name)
    ensures |r| <= DIRSIZ
  {
    if |name| > DIRSIZ then name[..DIRSIZ] else name
  }

  predicate NulFree(name: Name) {
    forall i :: 0 <= i < |name| ==> 0 < name[i] < 256
  }

  /** The bytes before the first NUL. */
  function CName(b: seq<int>): (r: Name)
    ensures |r| <= |b|
  {
    if b == [] || b[0] == 0 then [] else [b[0]] + CName(b[1..])
  }

  function Zeros(n: nat): (r: seq<int>)
    ensures |r| == n && forall i :: 0 <= i < n ==> r[i] == 0
  {
    seq(n, _ => 0)
  }

  /** What strncpy leaves in a record: the name, NUL-padded. */
  function Pad(name: Name): (r: seq<int>)
    ensures |r| == DIRSIZ
  {
    Clip(name) + Zeros(DIRSIZ - |Clip(name)|)
  }

  lemma {:induction false} CNameIs(b: seq<int>, k: nat)
    requires k <= |b| && (k < |b| ==> b[k] == 0) && forall i :: 0 <= i < k ==> b[i] != 0
    ensures CName(b) == b[..k]
    decreases k
  {
    if k > 0 {
      CNameIs(b[1..], k - 1);
      assert b[..k] == [b[0]] + b[1..][..k - 1];
    }
  }

  lemma PadName(name: Name)
    requires NulFree(name)
    ensures CName(Pad(name)) == Clip(name)
  {
    CNameIs(Pad(name), |Clip(name)|);
  }

  /** Directory files hold whole records. */
  predicate Whole(c: seq<int>) {
    |c| % DESIZE == 0
  }

  function Count(c: seq<int>): nat { |c| / DESIZE }

  /** Record `k`. */
  function Rec(c: seq<int>, k: nat): (r: seq<int>)
    requires k < Count(c)
    ensures |r| == DESIZE
  {
    c[k * DESIZE..k * DESIZE + DESIZE]
  }

  function InumOf(r: seq<int>): int
    requires |r| == DESIZE
  {
    r[0] + 256 * r[1]
  }

  function NameOf(r: seq<int>): Name
    requires |r| == DESIZE
  {
    CName(r[2..])
  }

  predicate Live(c: seq<int>, k: nat) {
    k < Count(c) && InumOf(Rec(c, k)) != 0
  }

  /** Record `k` is in use under name `name`. */
  predicate Holds(c: seq<int>, k: nat, name: Name) {
    Live(c, k) && NameOf(Rec(c, k)) == name
  }

  ghost predicate NoDup(c: seq<int>) {
    forall j: nat, k: nat :: j < k && Live(c, j) ==> !Holds(c, k, NameOf(Rec(c, j)))
  }

  /** The first `n` records as a map. */
  ghost function EntriesTo(c: seq<int>, n: nat): map<Name, int>
    requires n <= Count(c)
  {
    if n == 0 then map[]
    else if Live(c, n - 1) then EntriesTo(c, n - 1)[NameOf(Rec(c, n - 1)) := InumOf(Rec(c, n - 1))]
    else EntriesTo(c, n - 1)
  }

  /** The directory as a map. */
  ghost function Entries(c: seq<int>): map<Name, int> {
    EntriesTo(c, Count(c))
  }

  /** A record in use is its name's value in the map. */
  lemma {:induction false} FoundIs(c: seq<int>, n: nat, k: nat, name: Name)
    requires NoDup(c) && k < n <= Count(c) && Holds(c, k, name)
    ensures name in EntriesTo(c, n) && EntriesTo(c, n)[name] == InumOf(Rec(c, k))
    decreases n
  {
    if k < n - 1 {
      FoundIs(c, n - 1, k, name);
      assert !Holds(c, n - 1, NameOf(Rec(c, k)));
    }
  }

  /** Every name in the map comes from a record in use. */
  lemma {:induction false} MappedIs(c: seq<int>, n: nat, name: Name) returns (k: nat)
    requires n <= Count(c) && name in EntriesTo(c, n)
    ensures k < n && Holds(c, k, name)
    decreases n
  {
    if Live(c, n - 1) && NameOf(Rec(c, n - 1)) == name {
      k := n - 1;
    } else {
      k := MappedIs(c, n - 1, name);
    }
  }

  /** The record dirlink writes; the inode number is cut to 16 bits. */
  function Dirent(name: Name, inum: nat): (r: seq<int>)
    ensures |r| == DESIZE
  {
    [inum % 256, inum / 256 % 256] + Pad(name)
  }

  lemma DirentIs(name: Name, inum: nat)
    requires NulFree(name)
    ensures InumOf(Dirent(name, inum)) == inum % 0x10000 && NameOf(Dirent(name, inum)) == Clip(name)
    ensures forall i :: 0 <= i < DESIZE ==> 0 <= Dirent(name, inum)[i] < 256
  {
    PadName(name);
    assert Dirent(name, inum)[2..] == Pad(name);
  }

  /** `c'` is `c` with record `k` replaced, or added at the end. */
  ghost predicate Put(c: seq<int>, c': seq<int>, k: nat, r: seq<int>) {
    && k <= Count(c) && Count(c') == (if k < Count(c) then Count(c) else k + 1)
    && k < Count(c') && Rec(c', k) == r
    && forall j: nat :: j < Count(c) && j != k ==> Rec(c', j) == Rec(c, j)
  }

  lemma PutNoDup(c: seq<int>, c': seq<int>, k: nat, r: seq<int>)
    requires NoDup(c) && |r| == DESIZE && Put(c, c', k, r) && !Live(c, k)
    requires forall j: nat :: j < Count(c) ==> !Holds(c, j, NameOf(r))
    ensures NoDup(c')
  {
    forall j: nat, m: nat | j < m && Live(c', j) ensures !Holds(c', m, NameOf(Rec(c', j))) {
      if j != k && m != k {
        assert j < Count(c) ==> Live(c, j) == Live(c', j);
        assert !Holds(c, m, NameOf(Rec(c, j)));
      } else if j == k {
        assert m < Count(c) ==> !Holds(c, m, NameOf(r));
      } else {
        assert j < Count(c) ==> !Holds(c, j, NameOf(r));
      }
    }
  }

  /** A free record filled under a new name adds exactly that name to the map. */
  lemma PutEntry(c: seq<int>, c': seq<int>, k: nat, r: seq<int>)
    requires NoDup(c) && |r| == DESIZE && Put(c, c', k, r) && !Live(c, k) && InumOf(r) != 0
    requires forall j: nat :: j < Count(c) ==> !Holds(c, j, NameOf(r))
    ensures NoDup(c') && Entries(c') == Entries(c)[NameOf(r) := InumOf(r)]
  {
    PutNoDup(c, c', k, r);
    var want := Entries(c)[NameOf(r) := InumOf(r)];
    forall n | n in Entries(c') ensures n in want && want[n] == Entries(c')[n] {
      var j := MappedIs(c', Count(c'), n);
      FoundIs(c', Count(c'), j, n);
      if j != k {
        assert Holds(c, j, n);
        FoundIs(c, Count(c), j, n);
      }
    }
    forall n | n in want ensures n in Entries(c') {
      if n == NameOf(r) {
        FoundIs(c', Count(c'), k, n);
      } else {
        var j := MappedIs(c, Count(c), n);
        assert Holds(c', j, n);
        FoundIs(c', Count(c'), j, n);
      }
    }
  }

  /** With a number whose low 16 bits are zero the record stays free and the map does not change. */
  lemma PutNothing(c: seq<int>, c': seq<int>, k: nat, r: seq<int>)
    requires NoDup(c) && |r| == DESIZE && Put(c, c', k, r) && !Live(c, k) && InumOf(r) == 0
    ensures NoDup(c') && Entries(c') == Entries(c)
  {
    assert forall j: nat :: Live(c', j) == Live(c, j) && (Live(c, j) ==> Rec(c', j) == Rec(c, j));
    forall j: nat, m: nat | j < m && Live(c', j) ensures !Holds(c', m, NameOf(Rec(c', j))) {
      assert !Holds(c, m, NameOf(Rec(c, j)));
    }
    forall n | n in Entries(c') ensures n in Entries(c) && Entries(c)[n] == Entries(c')[n] {
      var j := MappedIs(c', Count(c'), n);
      FoundIs(c', Count(c'), j, n);
      FoundIs(c, Count(c), j, n);
    }
    forall n | n in Entries(c) ensures n in Entries(c') {
      var j := MappedIs(c, Count(c), n);
      FoundIs(c', Count(c'), j, n);
    }
  }
}
