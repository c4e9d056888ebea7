/**
 On-disk format of the write-ahead log and what recovery makes of it.

 The log area is `size` consecutive blocks from `start`: a header block (entry count, then the
 home block number of each entry) followed by one log block per entry. Every other block is a
 home block. One block write is atomic; everything else about a crash is explicit in LogProtocol.
 */
module LogDisk {
  const MAXOPBLOCKS := 10
  const LOGSIZE := MAXOPBLOCKS * 3

  /** A 512-byte block, seen as the 128 C ints that the log header overlays on it. */
  type Block = b: seq<int> | |b| == 128 witness seq(128, _ => 0)

  /** Contents of the home blocks. */
  type Home = map<int, Block>

  /** Disk geometry from the superblock, plus the number of process slots. */
  datatype Config = Config(nblocks: nat, start: nat, size: nat, nproc: nat) {
    predicate Valid() {
      1 <= start && 1 <= size && start + size <= nblocks
    }

    predicate InLog(b: int) {
      start <= b < start + size
    }

    /** The log block of entry `i`. */
    function Slot(i: int): int {
      start + 1 + i
    }

    predicate IsHome(b: int) {
      0 <= b < nblocks && !InLog(b)
    }
  }

  predicate Distinct(s: seq<int>) {
    forall i, j :: 0 <= i < j < |s| ==> s[i] != s[j]
  }

  predicate AllHome(c: Config, es: seq<int>) {
    forall i :: 0 <= i < |es| ==> c.IsHome(es[i])
  }

  /** What `write_head` leaves in a header block `h`: words past the entries stay as they were. */
  function HeaderWith(h: Block, entries: seq<int>): (r: Block)
    requires |entries| <= LOGSIZE
    ensures r[0] == |entries|
    ensures Entries(r) == entries
  {
    [|entries|] + entries + h[1 + |entries|..]
  }

  predicate CountOk(h: Block) {
    0 <= h[0] <= LOGSIZE
  }

  /** The block numbers that `read_head` takes from a header block. */
  function Entries(h: Block): (r: seq<int>)
    requires CountOk(h)
    ensures |r| == h[0]
  {
    h[1..1 + h[0]]
  }

  predicate HeaderOk(c: Config, h: Block) {
    && CountOk(h)
    && h[0] < c.size
    && Distinct(Entries(h))
    && AllHome(c, Entries(h))
  }

  predicate DiskOk(c: Config, d: seq<Block>) {
    && c.Valid()
    && |d| == c.nblocks
    && HeaderOk(c, d[c.start])
  }

  /** Home contents of a disk image, the log ignored. */
  function HomeOf(c: Config, d: seq<Block>): Home
    requires |d| == c.nblocks
  {
    map b | 0 <= b < c.nblocks && !c.InLog(b) :: d[b]
  }

  /** `install_trans`: copy the first `k` log blocks to the home blocks `es` names, in order. */
  function Install(c: Config, d: seq<Block>, es: seq<int>, k: nat): (r: seq<Block>)
    requires |d| == c.nblocks && c.Valid()
    requires k <= |es| < c.size
    requires AllHome(c, es)
    ensures |r| == |d|
    ensures forall b :: c.InLog(b) ==> r[b] == d[b]
  {
    if k == 0 then d
    else
      var r := Install(c, d, es, k - 1);
      r[es[k - 1] := r[c.Slot(k - 1)]]
  }

  /** `recover_from_log` run to completion on disk image `d`. */
  function Recover(c: Config, d: seq<Block>): (r: seq<Block>)
    requires DiskOk(c, d)
    ensures |r| == |d|
  {
    var h := d[c.start];
    Install(c, d, Entries(h), h[0])[c.start := HeaderWith(h, [])]
  }

  /** The content home block `b` has once the first `k` entries of `es` are installed. */
  function Eff(c: Config, d: seq<Block>, es: seq<int>, k: nat, b: int): Block
    requires |d| == c.nblocks && c.Valid()
    requires k <= |es| < c.size
    requires c.IsHome(b)
  {
    if k == 0 then d[b]
    else if es[k - 1] == b then d[c.Slot(k - 1)]
    else Eff(c, d, es, k - 1, b)
  }

  /** What every home block will hold after recovery. */
  function Effective(c: Config, d: seq<Block>): Home
    requires DiskOk(c, d)
  {
    map b | 0 <= b < c.nblocks && !c.InLog(b) :: Eff(c, d, Entries(d[c.start]), d[c.start][0], b)
  }

  lemma {:induction false} InstallIsEff(c: Config, d: seq<Block>, es: seq<int>, k: nat, b: int)
    requires |d| == c.nblocks && c.Valid()
    requires k <= |es| < c.size
    requires AllHome(c, es)
    requires c.IsHome(b)
    ensures Install(c, d, es, k)[b] == Eff(c, d, es, k, b)
  {
    if k > 0 {
      InstallIsEff(c, d, es, k - 1, b);
      assert c.InLog(c.Slot(k - 1));
    }
  }

  /** Recovery leaves exactly the effective contents in the home blocks, and an empty log. */
  lemma RecoverIsEffective(c: Config, d: seq<Block>)
    requires DiskOk(c, d)
    ensures HomeOf(c, Recover(c, d)) == Effective(c, d)
    ensures DiskOk(c, Recover(c, d)) && Recover(c, d)[c.start][0] == 0
  {
    var es := Entries(d[c.start]);
    forall b | c.IsHome(b)
      ensures Recover(c, d)[b] == Eff(c, d, es, |es|, b)
    {
      InstallIsEff(c, d, es, |es|, b);
    }
  }

  /** Log blocks that hold the values `want` make those values effective. */
  lemma {:induction false} EffFromBody(c: Config, d: seq<Block>, es: seq<int>, k: nat, b: int, want: Block)
    requires |d| == c.nblocks && c.Valid()
    requires k <= |es| < c.size
    requires c.IsHome(b)
    requires forall i :: 0 <= i < k && es[i] == b ==> d[c.Slot(i)] == want
    requires (exists i :: 0 <= i < k && es[i] == b) || d[b] == want
    ensures Eff(c, d, es, k, b) == want
  {
    if k > 0 && es[k - 1] != b {
      EffFromBody(c, d, es, k - 1, b, want);
    } else if k > 0 {
      assert d[c.Slot(k - 1)] == want;
    }
  }

  /** Two disks with the same log agree on block `b` after recovery if they agree on it now, or the log names it. */
  lemma {:induction false} EffFrame(c: Config, d: seq<Block>, d': seq<Block>, es: seq<int>, k: nat, b: int)
    requires |d| == |d'| == c.nblocks && c.Valid()
    requires k <= |es| < c.size
    requires c.IsHome(b)
    requires forall i :: c.InLog(i) ==> d[i] == d'[i]
    requires (exists i :: 0 <= i < k && es[i] == b) || d[b] == d'[b]
    ensures Eff(c, d, es, k, b) == Eff(c, d', es, k, b)
  {
    if k > 0 && es[k - 1] != b {
      EffFrame(c, d, d', es, k - 1, b);
    } else if k > 0 {
      assert c.InLog(c.Slot(k - 1));
    }
  }

  /** Once every entry is installed the log no longer matters. */
  lemma {:induction false} EffInstalled(c: Config, d: seq<Block>, es: seq<int>, k: nat, b: int)
    requires |d| == c.nblocks && c.Valid()
    requires k <= |es| < c.size
    requires c.IsHome(b)
    requires forall i :: 0 <= i < k && es[i] == b ==> d[c.Slot(i)] == d[b]
    ensures Eff(c, d, es, k, b) == d[b]
  {
    EffFromBody(c, d, es, k, b, d[b]);
  }
}
