/**
 The abstract free list of umalloc.c: blocks in address order, the zero-sized `base` first, never
 touching (so fully coalesced). Addresses and sizes count header-sized units.
 */
module HeapList {
  datatype Blk = Blk(addr: int, size: nat) {
    function End(): int {
      addr + size
    }

    predicate Has(u: int) {
      addr <= u < addr + size
    }
  }

  /** Address-ordered with a gap after every block; only the first block, `base`, is empty. */
  predicate Ordered(fl: seq<Blk>) {
    && |fl| > 0 && fl[0].size == 0
    && (forall i :: 0 < i < |fl| ==> fl[i].size > 0)
    && (forall i, j :: 0 <= i < j < |fl| ==> fl[i].End() < fl[j].addr)
  }

  predicate Covers(fl: seq<Blk>, u: int) {
    exists i :: 0 <= i < |fl| && fl[i].Has(u)
  }

  /** The block shares no unit with the list, and lies above `base`. */
  predicate Apart(fl: seq<Blk>, b: Blk) {
    && b.size > 0 && |fl| > 0 && fl[0].addr < b.addr
    && forall i :: 0 <= i < |fl| ==> fl[i].End() <= b.addr || b.End() <= fl[i].addr
  }

  /** Index of the last block that starts below `a`. */
  function Gap(fl: seq<Blk>, a: int): (g: nat)
    requires |fl| > 0 && fl[0].addr < a
    ensures g < |fl| && fl[g].addr < a
    ensures g + 1 < |fl| ==> a <= fl[|fl| - 1].addr
    ensures forall i :: g < i < |fl| ==> a <= fl[i].addr
  {
    if fl[|fl| - 1].addr < a then |fl| - 1 else Gap(fl[..|fl| - 1], a)
  }

  /** Blocks `x..y` replaced by one block. */
  function Splice(fl: seq<Blk>, x: nat, y: nat, m: Blk): seq<Blk>
    requires x <= y <= |fl|
  {
    fl[..x] + [m] + fl[y..]
  }

  /** The list after `b` is freed into gap `g`, joined with the neighbours it touches. */
  function InsertAt(fl: seq<Blk>, g: nat, b: Blk): (r: seq<Blk>)
    requires g < |fl|
  {
    var up := g + 1 < |fl| && b.End() == fl[g + 1].addr;
    var joined := if up then Blk(b.addr, b.size + fl[g + 1].size) else b;
    var y := if up then g + 2 else g + 1;
    if fl[g].End() == b.addr then Splice(fl, g, y, Blk(fl[g].addr, fl[g].size + joined.size))
    else Splice(fl, g + 1, y, joined)
  }

  function Insert(fl: seq<Blk>, b: Blk): seq<Blk>
    requires |fl| > 0 && fl[0].addr < b.addr
  {
    InsertAt(fl, Gap(fl, b.addr), b)
  }

  /** The list after `n` units are taken from the end of block `i`. */
  function Carve(fl: seq<Blk>, i: nat, n: nat): seq<Blk>
    requires i < |fl| && n <= fl[i].size
  {
    if fl[i].size == n then fl[..i] + fl[i + 1..] else Splice(fl, i, i + 1, Blk(fl[i].addr, fl[i].size - n))
  }

  lemma SpliceOrdered(fl: seq<Blk>, x: nat, y: nat, m: Blk)
    requires Ordered(fl) && 0 < x <= y <= |fl| && m.size > 0
    requires fl[x - 1].End() < m.addr && (y < |fl| ==> m.End() < fl[y].addr)
    ensures Ordered(Splice(fl, x, y, m)) && Splice(fl, x, y, m)[0] == fl[0]
  {
    var r := Splice(fl, x, y, m);
    forall i, j | 0 <= i < j < |r|
      ensures r[i].End() < r[j].addr
    {
      assert r[i] == if i < x then fl[i] else if i == x then m else fl[i - 1 - x + y];
      assert r[j] == if j < x then fl[j] else if j == x then m else fl[j - 1 - x + y];
      assert i < x ==> fl[i].End() < m.addr;
      assert j > x ==> m.End() < fl[j - 1 - x + y].addr;
    }
  }

  lemma CoversConcat(a: seq<Blk>, b: seq<Blk>, u: int)
    ensures Covers(a + b, u) <==> Covers(a, u) || Covers(b, u)
  {
    if i :| 0 <= i < |b| && b[i].Has(u) {
      assert (a + b)[|a| + i].Has(u);
    }
    if i :| 0 <= i < |a| && a[i].Has(u) {
      assert (a + b)[i].Has(u);
    }
  }

  lemma SpliceCovers(fl: seq<Blk>, x: nat, y: nat, m: Blk, u: int)
    requires x <= y <= |fl|
    ensures Covers(fl, u) <==> Covers(fl[..x], u) || Covers(fl[x..y], u) || Covers(fl[y..], u)
    ensures Covers(Splice(fl, x, y, m), u) <==> Covers(fl[..x], u) || m.Has(u) || Covers(fl[y..], u)
  {
    CoversConcat(fl[..x] + [m], fl[y..], u);
    CoversConcat(fl[..x], [m], u);
    CoversConcat(fl[..x] + fl[x..y], fl[y..], u);
    CoversConcat(fl[..x], fl[x..y], u);
    assert fl == fl[..x] + fl[x..y] + fl[y..];
    assert Covers([m], u) <==> [m][0].Has(u);
  }

  /** What surrounds the gap a block is freed into. */
  lemma GapFacts(fl: seq<Blk>, b: Blk, g: nat)
    requires Ordered(fl) && Apart(fl, b) && g == Gap(fl, b.addr)
    ensures b.size > 0 && g < |fl| && fl[g].End() <= b.addr && (fl[g].End() == b.addr ==> g > 0)
    ensures g > 0 ==> fl[g - 1].End() < fl[g].addr
    ensures g + 1 < |fl| ==> b.End() <= fl[g + 1].addr
    ensures g + 2 < |fl| ==> fl[g + 1].End() < fl[g + 2].addr
  {
  }

  /** Freeing keeps the list ordered and coalesced, and adds exactly the units of the freed block. */
  lemma InsertKeeps(fl: seq<Blk>, b: Blk)
    requires Ordered(fl) && Apart(fl, b)
    ensures Ordered(Insert(fl, b)) && Insert(fl, b)[0] == fl[0]
    ensures exists i :: 0 < i < |Insert(fl, b)| && Insert(fl, b)[i].size >= b.size
  {
    hide Ordered, Gap;
    var g := Gap(fl, b.addr);
    GapFacts(fl, b, g);
    var r := Insert(fl, b);
    var up := g + 1 < |fl| && b.End() == fl[g + 1].addr;
    var joined := if up then Blk(b.addr, b.size + fl[g + 1].size) else b;
    var y := if up then g + 2 else g + 1;
    if fl[g].End() == b.addr {
      SpliceOrdered(fl, g, y, Blk(fl[g].addr, fl[g].size + joined.size));
      assert r[g].size >= b.size;
    } else {
      SpliceOrdered(fl, g + 1, y, joined);
      assert r[g + 1].size >= b.size;
    }
  }

  lemma InsertCovers(fl: seq<Blk>, b: Blk, u: int)
    requires Ordered(fl) && Apart(fl, b)
    ensures Covers(Insert(fl, b), u) <==> Covers(fl, u) || b.Has(u)
  {
    hide Covers;
    var g := Gap(fl, b.addr);
    var up := g + 1 < |fl| && b.End() == fl[g + 1].addr;
    var joined := if up then Blk(b.addr, b.size + fl[g + 1].size) else b;
    var y := if up then g + 2 else g + 1;
    if fl[g].End() == b.addr {
      SpliceCovers(fl, g, y, Blk(fl[g].addr, fl[g].size + joined.size), u);
      CoversFew(fl, g, y, u);
    } else {
      SpliceCovers(fl, g + 1, y, joined, u);
      CoversFew(fl, g + 1, y, u);
    }
  }

  lemma CoversFew(fl: seq<Blk>, x: nat, y: nat, u: int)
    requires x <= y <= |fl| && y <= x + 2
    ensures Covers(fl[x..y], u) <==> (x < y && fl[x].Has(u)) || (x + 1 < y && fl[x + 1].Has(u))
  {
    assert x < y ==> fl[x..y][0] == fl[x];
    assert x + 1 < y ==> fl[x..y][1] == fl[x + 1];
  }

  lemma SpliceApart(fl: seq<Blk>, i: nat, n: nat)
    requires Ordered(fl) && 0 < i < |fl| && 0 < n < fl[i].size
    ensures Apart(fl[i := Blk(fl[i].addr, fl[i].size - n)], Blk(fl[i].End() - n, n))
  {
  }

  lemma RemoveOrdered(fl: seq<Blk>, i: nat)
    requires Ordered(fl) && 0 < i < |fl|
    ensures Ordered(fl[..i] + fl[i + 1..]) && Apart(fl[..i] + fl[i + 1..], fl[i])
  {
    var r := fl[..i] + fl[i + 1..];
    forall j | 0 <= j < |r|
      ensures r[j] == if j < i then fl[j] else fl[j + 1]
    {
    }
  }

  /** Allocating keeps the list ordered and coalesced, and removes exactly the units handed out. */
  lemma CarveKeeps(fl: seq<Blk>, i: nat, n: nat)
    requires Ordered(fl) && 0 < i < |fl| && 0 < n <= fl[i].size
    ensures Ordered(Carve(fl, i, n)) && Carve(fl, i, n)[0] == fl[0]
    ensures Apart(Carve(fl, i, n), Blk(fl[i].End() - n, n))
  {
    if fl[i].size > n {
      SpliceOrdered(fl, i, i + 1, Blk(fl[i].addr, fl[i].size - n));
      SpliceApart(fl, i, n);
      assert Carve(fl, i, n) == fl[i := Blk(fl[i].addr, fl[i].size - n)];
    } else {
      RemoveOrdered(fl, i);
    }
  }

  lemma CarveCovers(fl: seq<Blk>, i: nat, n: nat, u: int)
    requires i < |fl| && n <= fl[i].size
    ensures Covers(fl, u) <==> Covers(Carve(fl, i, n), u) || Blk(fl[i].End() - n, n).Has(u)
  {
    hide Covers;
    SpliceCovers(fl, i, i + 1, Blk(fl[i].addr, fl[i].size - n), u);
    CoversFew(fl, i, i + 1, u);
    CoversConcat(fl[..i], fl[i + 1..], u);
  }

  lemma UndoExact(fl: seq<Blk>, i: nat)
    requires 0 < i < |fl| && fl[i - 1].End() < fl[i].addr && (i + 1 < |fl| ==> fl[i].End() < fl[i + 1].addr)
    ensures InsertAt(fl[..i] + fl[i + 1..], i - 1, fl[i]) == fl
  {
    var r := fl[..i] + fl[i + 1..];
    assert r[..i] == fl[..i] && r[i..] == fl[i + 1..];
    assert i < |r| ==> r[i] == fl[i + 1];
  }

  lemma UndoSplit(fl: seq<Blk>, i: nat, n: nat)
    requires i < |fl| && n < fl[i].size && (i + 1 < |fl| ==> fl[i].End() < fl[i + 1].addr)
    ensures InsertAt(Splice(fl, i, i + 1, Blk(fl[i].addr, fl[i].size - n)), i, Blk(fl[i].End() - n, n)) == fl
  {
    var r := Splice(fl, i, i + 1, Blk(fl[i].addr, fl[i].size - n));
    assert r[..i] == fl[..i] && r[i + 1..] == fl[i + 1..];
    assert i + 1 < |r| ==> r[i + 1] == fl[i + 1];
  }

  /** The gap is the one place where the address fits between two neighbours. */
  lemma {:induction false} GapUnique(fl: seq<Blk>, a: int, g: nat)
    requires g < |fl| && fl[g].addr < a && (g + 1 < |fl| ==> a <= fl[g + 1].addr)
    requires forall i, j :: 0 <= i < j < |fl| ==> fl[i].addr < fl[j].addr
    ensures fl[0].addr < a && Gap(fl, a) == g
  {
    var last := |fl| - 1;
    assert g > 0 ==> fl[0].addr < fl[g].addr;
    if g < last {
      assert fl[g + 1].addr <= fl[last].addr;
      GapUnique(fl[..last], a, g);
    }
  }

  lemma Ascending(fl: seq<Blk>)
    requires Ordered(fl)
    ensures forall i, j :: 0 <= i < j < |fl| ==> fl[i].addr < fl[j].addr
  {
    forall i, j | 0 <= i < j < |fl| ensures fl[i].addr < fl[j].addr {
      assert fl[i].End() < fl[j].addr;
    }
  }

  /** Where the carved block belongs: after the block before it, or after what is left of its own. */
  lemma CarvedGap(fl: seq<Blk>, i: nat, n: nat)
    requires Ordered(fl) && 0 < i < |fl| && 0 < n <= fl[i].size
    ensures var r, a, g := Carve(fl, i, n), fl[i].End() - n, if fl[i].size == n then i - 1 else i;
      g < |r| && r[g].addr < a && (g + 1 < |r| ==> a <= r[g + 1].addr)
  {
    assert fl[i - 1].End() < fl[i].addr;
    assert i + 1 < |fl| ==> fl[i].End() < fl[i + 1].addr;
  }

  lemma Neighbours(fl: seq<Blk>, i: nat)
    requires Ordered(fl) && 0 < i < |fl|
    ensures fl[i - 1].End() < fl[i].addr && (i + 1 < |fl| ==> fl[i].End() < fl[i + 1].addr)
  {
  }

  /** Freeing what was just allocated restores the free list, block for block. */
  lemma InsertUndoesCarve(fl: seq<Blk>, i: nat, n: nat)
    requires Ordered(fl) && 0 < i < |fl| && 0 < n <= fl[i].size
    ensures Carve(fl, i, n) != [] && Carve(fl, i, n)[0].addr < fl[i].End() - n
    ensures Insert(Carve(fl, i, n), Blk(fl[i].End() - n, n)) == fl
  {
    hide Ordered, Gap, InsertAt, Apart;
    CarveKeeps(fl, i, n);
    Ascending(Carve(fl, i, n));
    CarvedGap(fl, i, n);
    GapUnique(Carve(fl, i, n), fl[i].End() - n, if fl[i].size == n then i - 1 else i);
    Neighbours(fl, i);
    if fl[i].size == n {
      UndoExact(fl, i);
    } else {
      UndoSplit(fl, i, n);
    }
  }
}
