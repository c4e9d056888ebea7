/**
 The K&R allocator of umalloc.c: headers (ptr, size) in memory, a circular free list through `freep`.
 The memory words `ptr` and `size` are proved to represent the abstract list of HeapList throughout.
 */
module Heap {
  import opened Options
  import opened HeapList

  function Succ(i: nat, n: nat): nat {
    if i + 1 < n then i + 1 else 0
  }

  /** The header of block `i` gives its size and the address of the next block. */
  predicate Node(ptr: map<int, int>, size: map<int, nat>, fl: seq<Blk>, i: nat)
    requires i < |fl|
  {
    && fl[i].addr in ptr && ptr[fl[i].addr] == fl[Succ(i, |fl|)].addr
    && fl[i].addr in size && size[fl[i].addr] == fl[i].size
  }

  /** The headers in memory form the circular list `fl`. */
  predicate Linked(ptr: map<int, int>, size: map<int, nat>, fl: seq<Blk>) {
    forall i :: 0 <= i < |fl| ==> Node(ptr, size, fl, i)
  }

  /** Allocated blocks are non-empty and share no unit with each other or with the free list. */
  ghost predicate LiveOk(fl: seq<Blk>, live: map<int, nat>) {
    && (forall a: int :: a in live ==> live[a] > 0 && Apart(fl, Blk(a, live[a])))
    && (forall a: int, b: int :: a in live && b in live && a != b ==> a + live[a] <= b || b + live[b] <= a)
  }

  ghost predicate LiveHas(live: map<int, nat>, u: int) {
    exists a: int :: a in live && a <= u < a + live[a]
  }

  /** A block that shares no unit with an ordered list is apart from it. */
  lemma ApartFromUnits(fl: seq<Blk>, c: Blk)
    requires Ordered(fl) && c.size > 0 && fl[0].addr < c.addr
    requires forall u :: c.Has(u) ==> !Covers(fl, u)
    ensures Apart(fl, c)
  {
    forall i | 0 <= i < |fl|
      ensures fl[i].End() <= c.addr || c.End() <= fl[i].addr
    {
      var u := if fl[i].addr < c.addr then c.addr else fl[i].addr;
      assert fl[i].Has(u) && c.Has(u) ==> Covers(fl, u);
    }
  }

  lemma InsertApart(fl: seq<Blk>, b: Blk, c: Blk)
    requires Ordered(fl) && Apart(fl, b) && Apart(fl, c) && (b.End() <= c.addr || c.End() <= b.addr)
    ensures Apart(Insert(fl, b), c)
  {
    InsertKeeps(fl, b);
    forall u | c.Has(u) ensures !Covers(Insert(fl, b), u) {
      InsertCovers(fl, b, u);
    }
    ApartFromUnits(Insert(fl, b), c);
  }

  lemma CarveApart(fl: seq<Blk>, i: nat, n: nat, c: Blk)
    requires Ordered(fl) && 0 < i < |fl| && 0 < n <= fl[i].size && Apart(fl, c)
    ensures Apart(Carve(fl, i, n), c)
    ensures var b := Blk(fl[i].End() - n, n); b.End() <= c.addr || c.End() <= b.addr
  {
    CarveKeeps(fl, i, n);
    forall u | c.Has(u) ensures !Covers(Carve(fl, i, n), u) {
      CarveCovers(fl, i, n, u);
    }
    ApartFromUnits(Carve(fl, i, n), c);
  }

  /** Replacing part of the list: only the block before it and the new block need new headers. */
  lemma RelinkSplice(ptr: map<int, int>, size: map<int, nat>, fl: seq<Blk>, x: nat, y: nat, m: Blk,
                     ptr': map<int, int>, size': map<int, nat>)
    requires Linked(ptr, size, fl) && 0 < x <= y <= |fl|
    requires forall i :: 0 <= i < |fl| && (i < x || y <= i) ==>
      fl[i].addr in ptr' && fl[i].addr in size' && size'[fl[i].addr] == fl[i].size
    requires forall i :: 0 <= i < |fl| && (i < x - 1 || y <= i) ==>
      fl[i].addr in ptr && ptr'[fl[i].addr] == ptr[fl[i].addr]
    requires ptr'[fl[x - 1].addr] == m.addr
    requires m.addr in ptr' && ptr'[m.addr] == (if y < |fl| then fl[y].addr else fl[0].addr)
    requires m.addr in size' && size'[m.addr] == m.size
    ensures Linked(ptr', size', Splice(fl, x, y, m))
  {
    var r := Splice(fl, x, y, m);
    forall i | 0 <= i < |r|
      ensures Node(ptr', size', r, i)
    {
      assert i < x - 1 ==> Node(ptr, size, fl, i);
      assert i > x ==> Node(ptr, size, fl, i - 1 - x + y);
      assert r[i] == if i < x then fl[i] else if i == x then m else fl[i - 1 - x + y];
    }
  }

  /** The header words after the four assignments of free() for block `b` in gap `g`. */
  function FreedPtr(ptr: map<int, int>, fl: seq<Blk>, g: nat, b: Blk): map<int, int>
    requires g < |fl| && fl[g].addr in ptr && ptr[fl[g].addr] in ptr
  {
    var p, next := fl[g].addr, ptr[fl[g].addr];
    var ptr1 := ptr[b.addr := if b.End() == next then ptr[next] else next];
    ptr1[p := if fl[g].End() == b.addr then ptr1[b.addr] else b.addr]
  }

  function FreedSize(ptr: map<int, int>, size: map<int, nat>, fl: seq<Blk>, g: nat, b: Blk): map<int, nat>
    requires g < |fl| && fl[g].addr in ptr && ptr[fl[g].addr] in size && fl[g].addr in size
  {
    var p, next := fl[g].addr, ptr[fl[g].addr];
    var size1 := size[b.addr := if b.End() == next then b.size + size[next] else b.size];
    if fl[g].End() == b.addr then size1[p := size[p] + size1[b.addr]] else size1
  }

  /** Only block `g` has the header that free() rewrites besides that of `b`. */
  predicate DistinctAddrs(fl: seq<Blk>, g: nat, b: Blk)
    requires g < |fl|
  {
    forall i :: 0 <= i < |fl| ==> fl[i].addr != b.addr && (i != g ==> fl[i].addr != fl[g].addr)
  }

  lemma FreedWords(ptr: map<int, int>, size: map<int, nat>, fl: seq<Blk>, g: nat, b: Blk)
    requires Linked(ptr, size, fl) && g < |fl| && DistinctAddrs(fl, g, b)
    requires g + 1 == |fl| ==> b.End() != fl[0].addr
    ensures fl[g].addr in ptr && ptr[fl[g].addr] in ptr && ptr[fl[g].addr] in size && fl[g].addr in size
    ensures var ptr', size' := FreedPtr(ptr, fl, g, b), FreedSize(ptr, size, fl, g, b);
      var up := g + 1 < |fl| && b.End() == fl[g + 1].addr;
      var joined, after := b.size + (if up then fl[g + 1].size else 0), fl[Succ(if up then g + 1 else g, |fl|)].addr;
      && (forall i :: 0 <= i < |fl| && i != g ==>
            fl[i].addr in ptr' && fl[i].addr in ptr && ptr'[fl[i].addr] == ptr[fl[i].addr] && fl[i].addr in size' &&
              size'[fl[i].addr] == fl[i].size)
      && fl[g].addr in ptr' && fl[g].addr in size' && b.addr in ptr' && b.addr in size'
      && (if fl[g].End() == b.addr then ptr'[fl[g].addr] == after && size'[fl[g].addr] == fl[g].size + joined
          else
            && ptr'[fl[g].addr] == b.addr && size'[fl[g].addr] == fl[g].size
            && ptr'[b.addr] == after && size'[b.addr] == joined)
  {
    assert Node(ptr, size, fl, g) && Node(ptr, size, fl, Succ(g, |fl|));
    forall i | 0 <= i < |fl|
      ensures fl[i].addr in ptr && fl[i].addr in size && size[fl[i].addr] == fl[i].size
    {
      assert Node(ptr, size, fl, i);
    }
  }

  lemma FreedAt(ptr: map<int, int>, size: map<int, nat>, fl: seq<Blk>, g: nat, b: Blk)
    requires Linked(ptr, size, fl) && g < |fl| && DistinctAddrs(fl, g, b)
    requires (g + 1 == |fl| ==> b.End() != fl[0].addr) && (g == 0 ==> fl[g].End() != b.addr)
    ensures fl[g].addr in ptr && ptr[fl[g].addr] in ptr && ptr[fl[g].addr] in size && fl[g].addr in size
    ensures Linked(FreedPtr(ptr, fl, g, b), FreedSize(ptr, size, fl, g, b), InsertAt(fl, g, b))
  {
    hide FreedPtr, FreedSize, Splice;
    FreedWords(ptr, size, fl, g, b);
    var ptr', size' := FreedPtr(ptr, fl, g, b), FreedSize(ptr, size, fl, g, b);
    var up := g + 1 < |fl| && b.End() == fl[g + 1].addr;
    var joined, y := b.size + (if up then fl[g + 1].size else 0), if up then g + 2 else g + 1;
    if fl[g].End() == b.addr {
      assert Node(ptr, size, fl, g - 1);
      RelinkSplice(ptr, size, fl, g, y, Blk(fl[g].addr, fl[g].size + joined), ptr', size');
    } else {
      RelinkSplice(ptr, size, fl, g + 1, y, Blk(b.addr, joined), ptr', size');
    }
  }

  /** Those words represent the list with the block inserted. */
  lemma FreedLinked(ptr: map<int, int>, size: map<int, nat>, fl: seq<Blk>, b: Blk)
    requires Ordered(fl) && Linked(ptr, size, fl) && Apart(fl, b)
    ensures var g := Gap(fl, b.addr);
      && fl[g].addr in ptr && ptr[fl[g].addr] in ptr && ptr[fl[g].addr] in size && fl[g].addr in size
      && Linked(FreedPtr(ptr, fl, g, b), FreedSize(ptr, size, fl, g, b), Insert(fl, b))
  {
    var g := Gap(fl, b.addr);
    hide Splice, FreedPtr, FreedSize, InsertAt, Linked;
    GapFacts(fl, b, g);
    assert DistinctAddrs(fl, g, b);
    FreedAt(ptr, size, fl, g, b);
  }

  lemma RemovedLinked(ptr: map<int, int>, size: map<int, nat>, fl: seq<Blk>, i: nat)
    requires Linked(ptr, size, fl) && 0 < i < |fl|
    requires forall j :: 0 <= j < |fl| && j != i - 1 ==> fl[j].addr != fl[i - 1].addr
    ensures Node(ptr, size, fl, i - 1) && Node(ptr, size, fl, i)
    ensures Linked(ptr[fl[i - 1].addr := ptr[fl[i].addr]], size, fl[..i] + fl[i + 1..])
  {
    assert Node(ptr, size, fl, i - 1) && Node(ptr, size, fl, i);
    var r, ptr' := fl[..i] + fl[i + 1..], ptr[fl[i - 1].addr := ptr[fl[i].addr]];
    forall j | 0 <= j < |r|
      ensures Node(ptr', size, r, j)
    {
      assert Node(ptr, size, fl, if j < i then j else j + 1);
      assert j != i - 1 ==> r[j].addr != fl[i - 1].addr;
    }
  }

  lemma ShrunkLinked(ptr: map<int, int>, size: map<int, nat>, fl: seq<Blk>, i: nat, n: nat)
    requires Ordered(fl) && Linked(ptr, size, fl) && 0 < i < |fl| && 0 < n < fl[i].size
    ensures Linked(ptr, size[fl[i].addr := fl[i].size - n][fl[i].End() - n := n],
      fl[i := Blk(fl[i].addr, fl[i].size - n)])
  {
    var r, size' := fl[i := Blk(fl[i].addr, fl[i].size - n)], size[fl[i].addr := fl[i].size - n][fl[i].End() - n := n];
    forall j | 0 <= j < |r|
      ensures Node(ptr, size', r, j)
    {
      assert Node(ptr, size, fl, j);
      assert j != i ==> fl[j].addr != fl[i].addr;
      assert fl[j].addr != fl[i].End() - n;
    }
  }

  /** The exit test of free()'s search holds at the right place only. */
  lemma GapExit(fl: seq<Blk>, bp: int, k: nat)
    requires Ordered(fl) && Apart(fl, Blk(bp, 1)) && k < |fl|
    ensures var p, q := fl[k].addr, fl[Succ(k, |fl|)].addr;
      (bp > p && bp < q) || (p >= q && (bp > p || bp < q)) <==> k == Gap(fl, bp)
  {
  }

  /** Header-sized units for a request: the payload rounded up, plus the header. */
  function UnitsFor(nbytes: nat): (n: nat)
    ensures (n - 1) * 8 >= nbytes && (n - 1) * 8 < nbytes + 8
  {
    (nbytes + 8 - 1) / 8 + 1
  }

  /** Memory, free list and allocated blocks agree. */
  ghost predicate Rep(base: int, ptr: map<int, int>, size: map<int, nat>, freep: int, fl: seq<Blk>,
                      live: map<int, nat>) {
    && Ordered(fl) && fl[0] == Blk(base, 0)
    && Linked(ptr, size, fl)
    && LiveOk(fl, live)
    && (exists i :: 0 <= i < |fl| && fl[i].addr == freep)
    && (forall a: int :: a in live ==> a in size && size[a] == live[a])
  }

  lemma InsertLive(fl: seq<Blk>, live: map<int, nat>, bp: int)
    requires Ordered(fl) && LiveOk(fl, live) && bp in live
    ensures Apart(fl, Blk(bp, live[bp]))
    ensures LiveOk(Insert(fl, Blk(bp, live[bp])), live - {bp})
  {
    hide Ordered, Apart, Insert;
    var b := Blk(bp, live[bp]);
    assert Apart(fl, b);
    ApartBase(fl, b);
    forall a | a in live && a != bp
      ensures Apart(Insert(fl, b), Blk(a, live[a]))
    {
      InsertApart(fl, b, Blk(a, live[a]));
    }
  }

  lemma ApartBase(fl: seq<Blk>, b: Blk)
    requires Ordered(fl) && Apart(fl, b)
    ensures |fl| > 0 && fl[0].addr < b.addr && b.size > 0
    ensures forall i :: 0 <= i < |fl| ==> fl[0].addr <= fl[i].addr != b.addr
  {
  }

  lemma FreeRep(base: int, ptr: map<int, int>, size: map<int, nat>, freep: int, fl: seq<Blk>, live: map<int, nat>,
                bp: int)
    requires Rep(base, ptr, size, freep, fl, live) && bp in live
    ensures Apart(fl, Blk(bp, live[bp])) && Apart(fl, Blk(bp, 1))
    ensures var b := Blk(bp, live[bp]);
      var g := Gap(fl, bp);
      && fl[g].addr in ptr && ptr[fl[g].addr] in ptr && ptr[fl[g].addr] in size && fl[g].addr in size
      && Rep(base, FreedPtr(ptr, fl, g, b), FreedSize(ptr, size, fl, g, b), fl[g].addr, Insert(fl, b), live - {bp})
  {
    hide Ordered, Linked, Gap;
    var b := Blk(bp, live[bp]);
    InsertLive(fl, live, bp);
    var g := Gap(fl, bp);
    FreedLinked(ptr, size, fl, b);
    InsertKeeps(fl, b);
    assert Insert(fl, b)[g].addr == fl[g].addr;
    forall a | a in live - {bp}
      ensures a != bp && a != fl[g].addr
    {
      ApartBase(fl, Blk(a, live[a]));
    }
  }

  lemma FreeUnits(fl: seq<Blk>, live: map<int, nat>, bp: int, u: int)
    requires Ordered(fl) && bp in live && Apart(fl, Blk(bp, live[bp]))
    ensures Covers(Insert(fl, Blk(bp, live[bp])), u) || LiveHas(live - {bp}, u) <==> Covers(fl, u) || LiveHas(live, u)
  {
    hide Ordered, Insert, Covers;
    InsertCovers(fl, Blk(bp, live[bp]), u);
    if a: int :| a in live && a <= u < a + live[a] && a != bp {
      assert a in live - {bp};
    }
  }

  lemma TakeLive(fl: seq<Blk>, live: map<int, nat>, i: nat, n: nat)
    requires Ordered(fl) && LiveOk(fl, live) && 0 < i < |fl| && 0 < n <= fl[i].size
    ensures fl[i].End() - n !in live && fl[i].addr !in live
    ensures Ordered(Carve(fl, i, n)) && Carve(fl, i, n)[0] == fl[0]
    ensures LiveOk(Carve(fl, i, n), live[fl[i].End() - n := n])
  {
    hide Apart, Carve, Ordered;
    var a := fl[i].End() - n;
    CarveKeeps(fl, i, n);
    forall c: int | c in live
      ensures c != fl[i].addr && Apart(Carve(fl, i, n), Blk(c, live[c])) && (a + n <= c || c + live[c] <= a)
    {
      CarveApart(fl, i, n, Blk(c, live[c]));
      ApartBase(fl, Blk(c, live[c]));
    }
  }

  /** The memory words after malloc() takes `n` units from the end of free block `i`. */
  lemma TakeRep(base: int, ptr: map<int, int>, size: map<int, nat>, freep: int, fl: seq<Blk>, live: map<int, nat>,
                i: nat, n: nat)
    requires Rep(base, ptr, size, freep, fl, live) && 0 < i < |fl| && 0 < n <= fl[i].size
    ensures Node(ptr, size, fl, i - 1) && Node(ptr, size, fl, i)
    ensures var a, p, prev := fl[i].End() - n, fl[i].addr, fl[i - 1].addr;
      && a !in live && base <= prev && base < a
      && (fl[i].size == n ==> Rep(base, ptr[prev := ptr[p]], size, prev, Carve(fl, i, n), live[a := n]))
      && (fl[i].size > n ==> Rep(base, ptr, size[p := fl[i].size - n][a := n], prev, Carve(fl, i, n), live[a := n]))
  {
    hide Linked, LiveOk, Ordered, Carve;
    TakeLive(fl, live, i, n);
    OrderedDistinct(fl, i - 1);
    OrderedDistinct(fl, i);
    CarveIs(fl, i, n);
    RemovedLinked(ptr, size, fl, i);
    if n < fl[i].size {
      ShrunkLinked(ptr, size, fl, i, n);
    }
  }

  lemma CarveIs(fl: seq<Blk>, i: nat, n: nat)
    requires 0 < i < |fl| && n <= fl[i].size
    ensures i <= |Carve(fl, i, n)| && Carve(fl, i, n)[0] == fl[0] && Carve(fl, i, n)[i - 1] == fl[i - 1]
    ensures Carve(fl, i, n) ==
      if fl[i].size == n then fl[..i] + fl[i + 1..] else fl[i := Blk(fl[i].addr, fl[i].size - n)]
  {
  }

  lemma OrderedDistinct(fl: seq<Blk>, i: nat)
    requires Ordered(fl) && i < |fl|
    ensures forall j :: 0 <= j < |fl| && j != i ==> fl[j].addr != fl[i].addr
    ensures if i == 0 then fl[0].addr == fl[i].addr else fl[0].addr < fl[i].addr
  {
  }

  lemma TakeUnits(fl: seq<Blk>, live: map<int, nat>, i: nat, n: nat, u: int)
    requires i < |fl| && n <= fl[i].size && fl[i].End() - n !in live
    ensures Covers(Carve(fl, i, n), u) || LiveHas(live[fl[i].End() - n := n], u) <==> Covers(fl, u) || LiveHas(live, u)
  {
    hide Carve, Covers;
    CarveCovers(fl, i, n, u);
    var live' := live[fl[i].End() - n := n];
    if a: int :| a in live && a <= u < a + live[a] {
      assert a in live' && live'[a] == live[a];
    }
    if Blk(fl[i].End() - n, n).Has(u) {
      assert fl[i].End() - n in live';
    }
  }

  /** Fresh memory above the break is a new allocated block. */
  lemma GrowRep(base: int, ptr: map<int, int>, size: map<int, nat>, freep: int, fl: seq<Blk>, live: map<int, nat>,
                brk: int, hp: int, nu: nat)
    requires Rep(base, ptr, size, freep, fl, live) && base < brk <= hp && nu > 0
    requires forall u :: Covers(fl, u) || LiveHas(live, u) ==> u < brk
    ensures hp !in live && Rep(base, ptr, size[hp := nu], freep, fl, live[hp := nu])
  {
    ApartFromUnits(fl, Blk(hp, nu));
    ApartBase(fl, Blk(hp, nu));
    hide Ordered, Apart;
    forall a: int | a in live
      ensures a + live[a] <= hp
    {
      assert LiveHas(live, a + live[a] - 1);
    }
    var size' := size[hp := nu];
    forall i | 0 <= i < |fl|
      ensures Node(ptr, size', fl, i)
    {
      assert Node(ptr, size, fl, i);
    }
  }

  ghost function UnitsOf(b: Blk): iset<int> {
    iset u: int | b.Has(u)
  }

  /** The block morecore() asks for: at least 4096 units. */
  function CoreBlk(addr: int, n: nat): Blk {
    Blk(addr, if n < 4096 then 4096 else n)
  }

  predicate Fits(fl: seq<Blk>, n: nat) {
    exists j :: 0 <= j < |fl| && fl[j].size >= n
  }

  /** Free blocks strictly between index `f` and index `i`, going round the list. */
  predicate Between(f: nat, i: nat, j: nat) {
    if f < i then f < j < i else j > f || j < i
  }

  /** None of the free blocks passed since `f` is large enough. */
  predicate Scanned(fl: seq<Blk>, f: nat, i: nat, n: nat) {
    forall j :: 0 <= j < |fl| && Between(f, i, j) ==> fl[j].size < n
  }

  lemma TheyFit(fl: seq<Blk>, i: nat, n: nat)
    requires i < |fl| && fl[i].size >= n
    ensures Fits(fl, n)
  {
  }

  lemma ScanStart(fl: seq<Blk>, f: nat, n: nat)
    requires f < |fl|
    ensures Scanned(fl, f, Succ(f, |fl|), n)
  {
  }

  lemma ScanOn(fl: seq<Blk>, f: nat, i: nat, n: nat)
    requires f < |fl| && i < |fl| && Scanned(fl, f, i, n) && fl[i].size < n
    ensures i != f ==> Scanned(fl, f, Succ(i, |fl|), n)
    ensures i == f ==> !Fits(fl, n)
  {
  }

  class Allocator {
    const base: int
    var ptr: map<int, int>
    var size: map<int, nat>
    var freep: int

    // the free list, the allocated blocks, every unit obtained from sbrk, and the program break
    ghost var fl: seq<Blk>
    ghost var live: map<int, nat>
    ghost var arena: iset<int>
    ghost var brk: int

    ghost predicate Valid()
      reads this
    {
      && 0 < base < brk
      && (forall u :: u in arena <==> Covers(fl, u) || LiveHas(live, u))
      && (forall u :: u in arena ==> u < brk)
      && if freep == 0 then fl == [] && live == map[] else Rep(base, ptr, size, freep, fl, live)
    }

    constructor (base: int, brk: int)
      requires 0 < base < brk
      ensures Valid() && freep == 0 && this.brk == brk && this.base == base
    {
      this.base := base;
      ptr, size, freep := map[], map[], 0;
      fl, live, arena := [], map[], iset{};
      this.brk := brk;
    }

    /** free()'s search: the free block after which `bp` belongs. */
    method FindGap(bp: int) returns (p: int)
      requires Ordered(fl) && Linked(ptr, size, fl) && Apart(fl, Blk(bp, 1))
      requires exists i :: 0 <= i < |fl| && fl[i].addr == freep
      ensures p == fl[Gap(fl, bp)].addr
    {
      hide Ordered, Gap;
      p := freep;
      ghost var k :| 0 <= k < |fl| && fl[k].addr == freep;
      GapExit(fl, bp, k);
      assert Node(ptr, size, fl, k);
      ghost var g := Gap(fl, bp);
      while !(bp > p && bp < ptr[p])
        invariant 0 <= k < |fl| && p == fl[k].addr && Node(ptr, size, fl, k)
        decreases if k <= g then g - k else |fl| - k + g
      {
        GapExit(fl, bp, k);
        if p >= ptr[p] && (bp > p || bp < ptr[p]) {
          break;
        }
        p := ptr[p];
        k := Succ(k, |fl|);
        assert Node(ptr, size, fl, k);
      }
      GapExit(fl, bp, k);
    }

    /** The header updates of free(), for block `b` and the free block before it. */
    method LinkIn(ghost b: Blk, ghost g: nat, bp: int, p: int)
      requires g < |fl| && p == fl[g].addr && p in ptr && ptr[p] in ptr && ptr[p] in size && p in size && bp in size
      requires size[p] == fl[g].size && b == Blk(bp, size[bp]) && size[bp] > 0 && p != bp
      requires ptr[p] != bp
      modifies this`ptr, this`size
      ensures ptr == FreedPtr(old(ptr), fl, g, b) && size == FreedSize(old(ptr), old(size), fl, g, b)
    {
      var next := ptr[p];
      if bp + size[bp] == next {
        size := size[bp := size[bp] + size[next]];
        ptr := ptr[bp := ptr[next]];
      } else {
        ptr := ptr[bp := next];
      }
      if p + size[p] == bp {
        size := size[p := size[p] + size[bp]];
        ptr := ptr[p := ptr[bp]];
      } else {
        ptr := ptr[p := bp];
      }
    }

    /** free(): the block joins the free list, coalesced with its neighbours; every other block is untouched. */
    method Free(ap: int)
      requires Valid() && ap - 1 in live
      modifies this`ptr, this`size, this`freep, this`fl, this`live
      ensures Valid() && freep != 0 && arena == old(arena)
      ensures live == old(live) - {ap - 1}
      ensures old(fl) != [] && old(fl)[0].addr < ap - 1 && fl == Insert(old(fl), Blk(ap - 1, old(live)[ap - 1]))
    {
      hide Ordered, LiveOk, Insert, Gap, Covers, LiveHas, FreedPtr, FreedSize, Apart;
      var bp := ap - 1;
      ghost var b := Blk(bp, live[bp]);
      FreeRep(base, ptr, size, freep, fl, live, bp);
      ApartBase(fl, b);
      ghost var g := Gap(fl, bp);
      assert Node(ptr, size, fl, g);
      var p := FindGap(bp);
      forall u ensures Covers(Insert(fl, b), u) || LiveHas(live - {bp}, u) <==> Covers(fl, u) || LiveHas(live, u) {
        FreeUnits(fl, live, bp, u);
      }
      LinkIn(b, g, bp, p);
      freep := p;
      fl := Insert(fl, b);
      live := live - {bp};
    }

    /** Removes `n` units from free block `i`, which follows `prevp`. */
    method Take(prevp: int, p: int, ghost i: nat, n: nat) returns (ap: int)
      requires Valid() && freep != 0 && 0 < i < |fl| && prevp == fl[i - 1].addr && p == fl[i].addr
      requires 0 < n <= fl[i].size
      modifies this`ptr, this`size, this`freep, this`fl, this`live
      ensures Valid() && freep != 0 && arena == old(arena)
      ensures ap - 1 == old(fl)[i].End() - n && ap - 1 !in old(live) && ap - 1 > base
      ensures live == old(live)[ap - 1 := n] && fl == Carve(old(fl), i, n)
    {
      hide Ordered, LiveOk, Carve, Covers, LiveHas, Linked;
      TakeRep(base, ptr, size, freep, fl, live, i, n);
      forall u
        ensures Covers(Carve(fl, i, n), u) || LiveHas(live[fl[i].End() - n := n], u) <==>
          Covers(fl, u) || LiveHas(live, u)
      {
        TakeUnits(fl, live, i, n, u);
      }
      var q := p;
      if size[p] == n {
        ptr := ptr[prevp := ptr[p]];
      } else {
        size := size[p := size[p] - n];
        q := p + size[p];
        size := size[q := n];
      }
      freep := prevp;
      ap := q + 1;
      live := live[q := n];
      fl := Carve(fl, i, n);
    }

    /** sbrk's new memory, as one allocated block. */
    method Grow(p: int, nu: nat)
      requires Valid() && freep != 0 && nu > 0 && p >= brk
      modifies this`size, this`live, this`arena, this`brk
      ensures Valid() && p !in old(live) && live == old(live)[p := nu]
      ensures arena == old(arena) + UnitsOf(Blk(p, nu))
    {
      hide Ordered, LiveOk, Covers, Linked, LiveHas;
      GrowRep(base, ptr, size, freep, fl, live, brk, p, nu);
      LiveGrows(live, p, nu);
      size := size[p := nu];
      live := live[p := nu];
      arena := arena + UnitsOf(Blk(p, nu));
      brk := p + nu;
    }

    /** morecore(): `grant` is what sbrk returns, fresh memory above the break or -1. */
    method Morecore(n: nat, grant: Option<int>) returns (hp: int)
      requires Valid() && freep != 0 && n > 0 && (grant.Some? ==> grant.value >= brk)
      modifies this
      ensures Valid() && freep != 0 && live == old(live)
      ensures grant.None? ==> hp == 0 && fl == old(fl) && arena == old(arena) && freep == old(freep)
      ensures grant.Some? ==>
        var b := CoreBlk(grant.value, n);
        && hp == freep
        && old(fl) != [] && old(fl)[0].addr < b.addr && fl == Insert(old(fl), b)
        && arena == old(arena) + UnitsOf(b) && Fits(fl, n)
    {
      hide Rep, Insert, Covers, LiveHas;
      if grant.None? {
        return 0;
      }
      var nu := if n < 4096 then 4096 else n;
      var p := grant.value;
      Grow(p, nu);
      InsertFits(base, ptr, size, freep, fl, live, p);
      Free(p + 1);
      assert live == old(live);
      hp := freep;
    }

    lemma At(i: nat)
      requires Valid() && freep != 0 && i < |fl|
      ensures Node(ptr, size, fl, i) && fl[0] == Blk(base, 0)
      ensures forall f :: 0 <= f < |fl| && fl[f].addr == fl[i].addr ==> f == i
    {
    }

    lemma FreepIndex() returns (f: nat)
      requires Valid() && freep != 0
      ensures f < |fl| && fl[f].addr == freep && Node(ptr, size, fl, f) && fl[0] == Blk(base, 0)
    {
      f :| f < |fl| && fl[f].addr == freep;
    }

    /** The first call sets up the list that consists of `base` alone. */
    method Init()
      requires Valid() && freep == 0
      modifies this`ptr, this`size, this`freep, this`fl
      ensures Valid() && freep == base && fl == [Blk(base, 0)]
    {
      ptr := ptr[base := base];
      freep := base;
      size := size[base := 0];
      assert forall u :: !Covers([], u);
      fl := [Blk(base, 0)];
      assert forall u :: !Covers(fl, u);
      assert fl[0].addr == freep;
    }

    /**
     malloc(): the block returned was free (or is new), is large enough, and overlaps no live block;
     memory is requested at most once, and only when no free block fits.
     */
    method Malloc(nbytes: nat, grant: Option<int>) returns (ap: int, ghost grew: bool, ghost i: nat)
      requires Valid() && (grant.Some? ==> grant.value >= brk)
      modifies this
      ensures Valid() && freep != 0
      ensures var n, start := UnitsFor(nbytes), Started(base, old(fl));
        && (grew <==> !Fits(start, n) && grant.Some?)
        && (ap == 0 <==> !Fits(start, n) && grant.None?)
        && (ap == 0 ==> fl == start && live == old(live) && arena == old(arena))
        && (grew ==> base < grant.value && start[0].addr == base)
        && (ap != 0 ==>
              var had := if grew then Insert(start, CoreBlk(grant.value, n)) else start;
              && 0 < i < |had| && had[i].size >= n && fl == Carve(had, i, n)
              && ap - 1 == had[i].End() - n && ap - 1 !in old(live) && live == old(live)[ap - 1 := n]
              && arena == if grew then old(arena) + UnitsOf(CoreBlk(grant.value, n)) else old(arena))
    {
      hide Rep, Covers, LiveHas, Insert, Carve, UnitsOf, Scanned, Fits;
      var n := UnitsFor(nbytes);
      grew, i := false, 0;
      var prevp := freep;
      if prevp == 0 {
        Init();
        prevp := freep;
      }
      ghost var start := fl;
      ghost var f: nat := FreepIndex();
      var p := ptr[prevp];
      i := Succ(f, |fl|);
      ScanStart(fl, f, n);
      while true
        invariant Valid() && freep != 0 && f < |fl| && fl[f].addr == freep && i < |fl|
        invariant p == fl[i].addr && prevp == fl[if i == 0 then |fl| - 1 else i - 1].addr
        invariant Scanned(fl, f, i, n)
        invariant live == old(live) && start[0] == Blk(base, 0)
        invariant !grew ==> fl == start && arena == old(arena) && (grant.Some? ==> grant.value >= brk)
        invariant grew ==>
          && grant.Some? && base < grant.value && fl == Insert(start, CoreBlk(grant.value, n))
          && arena == old(arena) + UnitsOf(CoreBlk(grant.value, n)) && Fits(fl, n) && !Fits(start, n)
        decreases !grew, if f < i then |fl| - i + f + 1 else f - i + 1
      {
        At(i);
        if size[p] >= n {
          TheyFit(fl, i, n);
          ap := Take(prevp, p, i, n);
          return;
        }
        ScanOn(fl, f, i, n);
        if p == freep {
          p := Morecore(n, grant);
          if p == 0 {
            ap := 0;
            return;
          }
          grew := true;
          f := FreepIndex();
          i := f;
          ScanStart(fl, f, n);
        }
        prevp := p;
        p := ptr[p];
        i := Succ(i, |fl|);
      }
    }

    /** malloc followed by free leaves the free list as it was, plus any memory added. */
    method MallocFree(nbytes: nat, grant: Option<int>)
      requires Valid() && (grant.Some? ==> grant.value >= brk)
      modifies this
      ensures Valid() && live == old(live)
      ensures var n, start := UnitsFor(nbytes), Started(base, old(fl));
        if Fits(start, n) || grant.None? then fl == start && arena == old(arena)
        else
          && base < grant.value && start[0].addr == base
          && fl == Insert(start, CoreBlk(grant.value, n)) && arena == old(arena) + UnitsOf(CoreBlk(grant.value, n))
    {
      hide Carve, Rep, UnitsOf, Covers, LiveHas, Fits, Insert, Ordered, Linked;
      ghost var n, start := UnitsFor(nbytes), Started(base, fl);
      StartedApart(base, ptr, size, freep, fl, live, brk, if grant.Some? then grant.value else brk, n);
      var ap, grew, i := Malloc(nbytes, grant);
      if ap != 0 {
        ghost var had := if grew then Insert(start, CoreBlk(grant.value, n)) else start;
        if grew { InsertKeeps(start, CoreBlk(grant.value, n)); }
        InsertUndoesCarve(had, i, n);
        Free(ap);
        assert live == old(live);
      }
    }
  }

  function Started(base: int, fl: seq<Blk>): seq<Blk> {
    if fl == [] then [Blk(base, 0)] else fl
  }

  lemma StartedApart(base: int, ptr: map<int, int>, size: map<int, nat>, freep: int, fl: seq<Blk>, live: map<int, nat>,
                     brk: int, hp: int, n: nat)
    requires fl == [] || Rep(base, ptr, size, freep, fl, live)
    requires base < brk <= hp && forall u :: Covers(fl, u) ==> u < brk
    ensures Ordered(Started(base, fl)) && Apart(Started(base, fl), CoreBlk(hp, n))
  {
    ApartFromUnits(Started(base, fl), CoreBlk(hp, n));
  }

  lemma LiveGrows(live: map<int, nat>, p: int, n: nat)
    requires p !in live
    ensures forall u :: LiveHas(live[p := n], u) <==> LiveHas(live, u) || p <= u < p + n
  {
    forall u ensures LiveHas(live[p := n], u) <==> LiveHas(live, u) || p <= u < p + n {
      if a: int :| a in live && a <= u < a + live[a] {
        assert a in live[p := n] && live[p := n][a] == live[a];
      }
      assert p in live[p := n];
    }
  }

  lemma InsertFits(base: int, ptr: map<int, int>, size: map<int, nat>, freep: int, fl: seq<Blk>, live: map<int, nat>,
                   p: int)
    requires Rep(base, ptr, size, freep, fl, live) && p in live
    ensures fl != [] && fl[0].addr < p
    ensures var r := Insert(fl, Blk(p, live[p])); exists i :: 0 < i < |r| && r[i].size >= live[p]
  {
    InsertKeeps(fl, Blk(p, live[p]));
  }
}
