/**
 How many frames mapping takes: one per user page and one per page-directory slot that was
 empty. This makes "out of memory" exact.
 */
module FrameBudget {
  import opened PageTable
  import opened Frames
  import opened AddressSpace

  /** Frames setupkvm needs: the directory and the tables of the kernel ranges. */
  const KERNELFRAMES := 65

  /** Slot `i` of the directory was filled, if it was not already. */
  ghost predicate AddedAt(dir: Page, dir': Page, i: nat) {
    |dir'| == |dir| && forall j: nat :: j < |dir| ==> (Present(dir'[j]) <==> Present(dir[j]) || j == i)
  }

  /** Slot `j` covers one of the pages `lo` up to `p`. */
  predicate Reached(lo: nat, p: nat, j: nat) {
    lo < p && lo / NENTRIES <= j <= (p - 1) / NENTRIES
  }

  ghost predicate PresentAfter(dir: Page, dir': Page, lo: nat, p: nat) {
    |dir'| == |dir| && forall j: nat :: j < |dir| ==> (Present(dir'[j]) <==> Present(dir[j]) || Reached(lo, p, j))
  }

  function TableCost(dir: Page, i: nat): nat { if i < |dir| && Present(dir[i]) then 0 else 1 }

  /** Tables that mapping pages `lo` up to `p` adds to a directory. */
  ghost function NewTables(dir: Page, lo: nat, p: nat): nat
    decreases p
  {
    if p <= lo then 0
    else
      NewTables(dir, lo, p - 1)
      + if p - 1 == lo || (p - 1) % NENTRIES == 0 then TableCost(dir, (p - 1) / NENTRIES) else 0
  }

  /** The next page costs a table exactly when its slot is still empty. */
  lemma NextCost(dir: Page, dir1: Page, lo: nat, p: nat)
    requires PresentAfter(dir, dir1, lo, p) && lo <= p && p / NENTRIES < |dir|
    ensures NewTables(dir, lo, p + 1) == NewTables(dir, lo, p) + TableCost(dir1, p / NENTRIES)
  {
    if p > lo && p % NENTRIES != 0 {
      assert (p - 1) / NENTRIES == p / NENTRIES && Reached(lo, p, p / NENTRIES);
    } else {
      assert !Reached(lo, p, p / NENTRIES);
    }
  }

  lemma NextPresent(dir: Page, dir1: Page, dir2: Page, lo: nat, p: nat)
    requires PresentAfter(dir, dir1, lo, p) && lo <= p && AddedAt(dir1, dir2, p / NENTRIES)
    ensures PresentAfter(dir, dir2, lo, p + 1)
  {
    forall j: nat | j < |dir| ensures Reached(lo, p + 1, j) <==> Reached(lo, p, j) || j == p / NENTRIES {
    }
  }

  lemma NonePresent(dir: Page, lo: nat)
    ensures PresentAfter(dir, dir, lo, lo) && NewTables(dir, lo, lo) == 0
  {
  }

  lemma {:induction false} NewTablesGrow(dir: Page, lo: nat, p: nat, q: nat)
    requires p <= q
    ensures NewTables(dir, lo, p) <= NewTables(dir, lo, q)
    decreases q
  {
    if p < q {
      NewTablesGrow(dir, lo, p, q - 1);
    }
  }

  function TablesUp(p: nat): nat { (p + NENTRIES - 1) / NENTRIES }

  /** Where every slot past the first page's is empty, each 4 MB begun costs one table. */
  lemma {:induction false} FreshRegions(dir: Page, lo: nat, p: nat)
    requires lo <= p <= NPAGES && |dir| == NENTRIES
    requires lo % NENTRIES == 0 || (lo < NPAGES && Present(dir[lo / NENTRIES]))
    requires forall j: nat :: TablesUp(lo) <= j < TablesUp(p) ==> j < |dir| && !Present(dir[j])
    ensures NewTables(dir, lo, p) == TablesUp(p) - TablesUp(lo)
    decreases p
  {
    if lo < p {
      assert TablesUp(p - 1) <= TablesUp(p);
      FreshRegions(dir, lo, p - 1);
    }
  }

  /** Directory slots that hold tables after the first `n` kernel ranges. */
  predicate KernelSlot(kdata: nat, n: nat, j: nat) {
    USERPAGES / NENTRIES <= j < TablesUp(if n < 3 then KernelTop(kdata, n) else USERPAGES + NFRAMES)
    || (n == 4 && DEVPAGE / NENTRIES <= j < NENTRIES)
  }

  ghost predicate KernelDir(kdata: nat, n: nat, dir: Page) {
    |dir| == NENTRIES && forall j: nat :: j < NENTRIES ==> (Present(dir[j]) <==> KernelSlot(kdata, n, j))
  }

  function KernelTables(kdata: nat, n: nat): int {
    if n < 4 then TablesUp(KernelTop(kdata, n)) - USERPAGES / NENTRIES else KERNELFRAMES - 1
  }

  lemma KernelStart(kdata: nat)
    requires EXTMEM < kdata < NFRAMES
    ensures KernelView(kdata, 0) == map[] && KernelDir(kdata, 0, Blank()) && KernelTables(kdata, 0) == 0
  {
  }

  /** The tables kernel range `n` costs: its slots past the previous range are empty. */
  lemma KernelNew(kdata: nat, n: nat, dir: Page, p: nat, done: nat)
    requires EXTMEM < kdata < NFRAMES && n < 4 && KernelDir(kdata, n, dir)
    requires p == (if n < 3 then KernelTop(kdata, n) else DEVPAGE) && p + done <= KernelTop(kdata, n + 1)
    ensures NewTables(dir, p, p + done) == TablesUp(p + done) - TablesUp(p)
  {
    if p % NENTRIES != 0 {
      assert KernelSlot(kdata, n, p / NENTRIES);
    }
    forall j: nat | TablesUp(p) <= j < TablesUp(p + done) ensures j < |dir| && !Present(dir[j]) {
      assert !KernelSlot(kdata, n, j);
    }
    assert TablesUp(p + done) <= NENTRIES;
    FreshRegions(dir, p, p + done);
  }

  lemma KernelDone(kdata: nat, n: nat, dir: Page, dir': Page, p: nat)
    requires EXTMEM < kdata < NFRAMES && n < 4 && KernelDir(kdata, n, dir)
    requires p == (if n < 3 then KernelTop(kdata, n) else DEVPAGE)
    requires PresentAfter(dir, dir', p, KernelTop(kdata, n + 1))
    ensures KernelDir(kdata, n + 1, dir')
  {
    forall j: nat | j < NENTRIES
      ensures KernelSlot(kdata, n + 1, j) <==> KernelSlot(kdata, n, j) || Reached(p, KernelTop(kdata, n + 1), j)
    {
    }
  }

  /** Part or all of kernel range `n`: the tables so far, and that a missing one means fewer than all. */
  lemma KernelCost(kdata: nat, n: nat, dir: Page, dir': Page, p: nat, done: nat)
    requires EXTMEM < kdata < NFRAMES && n < 4 && KernelDir(kdata, n, dir)
    requires p == (if n < 3 then KernelTop(kdata, n) else DEVPAGE) && p + done <= KernelTop(kdata, n + 1)
    requires PresentAfter(dir, dir', p, p + done)
    ensures p + done == KernelTop(kdata, n + 1) ==>
      KernelDir(kdata, n + 1, dir')
      && KernelTables(kdata, n) + NewTables(dir, p, p + done) == KernelTables(kdata, n + 1)
    ensures p + done < KernelTop(kdata, n + 1) && !Present(dir'[(p + done) / NENTRIES]) ==>
      KernelTables(kdata, n) + NewTables(dir, p, p + done) < KERNELFRAMES - 1
  {
    KernelNew(kdata, n, dir, p, done);
    if p + done == KernelTop(kdata, n + 1) {
      KernelDone(kdata, n, dir, dir', p);
    } else if !Present(dir'[(p + done) / NENTRIES]) {
      assert !Reached(p, p + done, (p + done) / NENTRIES);
    }
  }

  lemma KernelTablesAll(kdata: nat)
    ensures KernelTables(kdata, 4) == KERNELFRAMES - 1
  {
  }

  /** Over the kernel ranges alone, user pages from 0 cost one table for each 4 MB begun. */
  lemma UserTables(kdata: nat, dir: Page, p: nat)
    requires KernelDir(kdata, 4, dir) && p <= USERPAGES
    ensures NewTables(dir, 0, p) == TablesUp(p)
  {
    forall j: nat | TablesUp(0) <= j < TablesUp(p) ensures j < |dir| && !Present(dir[j]) {
      assert !KernelSlot(kdata, 4, j);
    }
    assert TablesUp(p) <= NENTRIES;
    FreshRegions(dir, 0, p);
  }

  lemma DirPages(dir: Page, dir1: Page, p: nat, kdata: nat)
    requires KernelDir(kdata, 4, dir) && PresentAfter(dir, dir1, 0, p) && p < USERPAGES
    ensures p / NENTRIES < |dir| == |dir1|
  {
  }
}
