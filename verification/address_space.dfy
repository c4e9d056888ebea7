/**
 Address spaces over page tables and frames: who holds which frame, the kernel's fixed ranges,
 and how a view grows, shrinks and is copied.
 */
module AddressSpace {
  import opened PageTable
  import opened Frames

  /** A directory and its table pages lie past the kernel image and off the free list. */
  ghost predicate Held(d: nat, tabs: map<nat, nat>, free: seq<nat>, first: nat) {
    && first <= d && d !in FreeSet(free) && tabs.Keys !! FreeSet(free)
    && forall f: nat :: f in tabs ==> first <= f
  }

  lemma RangeNext(lo: nat, p: nat, hi: nat)
    requires lo <= p < hi
    ensures Range(lo, p + 1) == Range(lo, p) + {p} && p in Range(lo, hi) && p !in Range(lo, p)
    ensures Range(lo, p) <= Range(lo, hi)
  {
    assert Within(p, lo, hi) && Within(p, lo, p + 1);
  }

  /** A fresh frame becomes the blank table of directory slot `i`. */
  lemma WalkAdd(mem: Mem, d: nat, tabs: map<nat, nat>, i: nat, t: nat, mem': Mem, free0: seq<nat>, free: seq<nat>,
                first: nat)
    requires Tables(mem, d, tabs) && i < NENTRIES && !Present(mem[d][i]) && d < |mem|
    requires t < |mem| && t !in tabs && t != d && mem' == Put(mem[t := Blank()], d, i, Make(t, PTE_P + PTE_W + PTE_U))
    requires Held(d, tabs, free0, first) && FreeSet(free) <= FreeSet(free0) && first <= t && t !in FreeSet(free)
    ensures Tables(mem', d, tabs[t := i]) && View(mem', d) == View(mem, d) && OnlyIn(mem, mem', {d, t})
    ensures Held(d, tabs[t := i], free, first)
    ensures Present(mem'[d][i]) && FrameOf(mem'[d][i]) == t
  {
    MakeParts(t, PTE_P + PTE_W + PTE_U);
    AddTable(mem, d, tabs, i, t, Make(t, PTE_P + PTE_W + PTE_U), mem');
  }

  lemma TableOf(mem: Mem, d: nat, tabs: map<nat, nat>, i: nat)
    requires Tables(mem, d, tabs) && i < NENTRIES && Present(mem[d][i])
    ensures FrameOf(mem[d][i]) in tabs && FrameOf(mem[d][i]) < |mem| && FrameOf(mem[d][i]) != d
  {
  }

  lemma DirSize(mem: Mem, d: nat, tabs: map<nat, nat>)
    requires Tables(mem, d, tabs)
    ensures d < |mem| && |mem[d]| == NENTRIES && Sized(mem) && d !in tabs
  {
  }

  /** A directory and its tables are not free. */
  lemma HeldApart(d: nat, tabs: map<nat, nat>, free: seq<nat>, first: nat)
    requires Held(d, tabs, free, first)
    ensures d !in FreeSet(free) && tabs.Keys !! FreeSet(free)
  {
  }

  const BYTES := 0x1_0000_0000

  /** How many pages the byte range touches; an empty range wraps round the whole space. */
  function Covering(va: nat, size: nat): (n: nat)
    requires va < BYTES && size < BYTES
    ensures 1 <= n <= NPAGES
  {
    ((va + size + BYTES - 1) % BYTES / PGSIZE + NPAGES - va / PGSIZE) % NPAGES + 1
  }

  ghost predicate Unmapped(view: map<nat, nat>, first: nat, n: nat) {
    forall k: nat :: k < n ==> Nth(first, k) !in view
  }

  lemma StraightPage(p: nat, k: nat)
    requires p + k < NPAGES
    ensures Nth(p, k) == p + k
  {
  }

  /** The last page is reached exactly when all the covering pages are done. */
  lemma LastPage(va: nat, size: nat, done: nat)
    requires va < BYTES && size < BYTES && 1 <= done <= Covering(va, size)
    ensures Nth(va / PGSIZE, done - 1) == (va + size + BYTES - 1) % BYTES / PGSIZE <==> done == Covering(va, size)
    ensures Nth(va / PGSIZE, done) == (Nth(va / PGSIZE, done - 1) + 1) % NPAGES
    ensures forall f: nat :: Nth(f, done) == (Nth(f, done - 1) + 1) % NPAGES
  {
  }

  /** What walkpgdir's pointer points at is the page's translation. */
  lemma EntryIs(mem: Mem, d: nat, tabs: map<nat, nat>, v: nat)
    requires Tables(mem, d, tabs) && v < NPAGES && Present(mem[d][v / NENTRIES])
    ensures var t := FrameOf(mem[d][v / NENTRIES]);
      && t in tabs && t < |mem| && |mem[t]| == NENTRIES
      && (v in View(mem, d) <==> Present(mem[t][v % NENTRIES]))
      && (v in View(mem, d) ==> View(mem, d)[v] == mem[t][v % NENTRIES])
  {
    assert Entry(mem, d, v) == mem[FrameOf(mem[d][v / NENTRIES])][v % NENTRIES];
  }

  /** The next page of a run is not among those before it. */
  lemma ExtendNext(view: map<nat, nat>, first: nat, n: nat, frame: nat, perm: nat)
    requires n < NPAGES
    ensures Nth(first, n) in Extend(view, first, n, frame, perm) <==> Nth(first, n) in view
  {
    ExtendIs(view, first, n, frame, perm);
    forall k: nat | k < n ensures Nth(first, k) != Nth(first, n) {
      NthDistinct(first, k, n);
    }
  }

  lemma SetMapped(mem: Mem, d: nat, tabs: map<nat, nat>, v: nat, frame: nat, perm: nat, mem': Mem)
    requires Tables(mem, d, tabs) && v < NPAGES && Present(mem[d][v / NENTRIES]) && perm < PGSIZE
    requires var t := FrameOf(mem[d][v / NENTRIES]);
      t < |mem| && mem' == Put(mem, t, v % NENTRIES, Make(frame, WithP(perm)))
    ensures Tables(mem', d, tabs) && View(mem', d) == View(mem, d)[v := Make(frame, WithP(perm))]
  {
    MakeParts(frame, WithP(perm));
    SetEntry(mem, d, tabs, v, Make(frame, WithP(perm)), mem');
    ViewSet(mem, mem', d, v, Make(frame, WithP(perm)));
  }

  /** Data frames are distinct from the directory, its tables and the free list. */
  ghost predicate DataHeld(d: nat, tabs: map<nat, nat>, data: map<nat, nat>, free: seq<nat>, first: nat) {
    && d !in data && tabs.Keys !! data.Keys && data.Keys !! FreeSet(free)
    && forall f: nat :: f in data ==> first <= f < NFRAMES
  }

  /** Sizes in bytes rounded up to pages. */
  function PagesUp(sz: nat): nat { (sz + PGSIZE - 1) / PGSIZE }

  /** The view with pages `lo` up to `hi` removed. */
  ghost function Without(view: map<nat, nat>, lo: nat, hi: nat): map<nat, nat> {
    map v: nat | v in view && !(lo <= v < hi) :: view[v]
  }

  lemma WithoutNext(view: map<nat, nat>, lo: nat, p: nat)
    requires lo <= p
    ensures Without(view, lo, p + 1) == Without(view, lo, p) - {p}
    ensures p in Without(view, lo, p) <==> p in view
  {
  }

  /** Where a table is missing, the rest of its 4 MB holds no page, so skipping it loses none. */
  lemma SkipAhead(mem: Mem, d: nat, view: map<nat, nat>, lo: nat, p: nat, e: nat)
    requires Sized(mem) && d < |mem| && p < NPAGES && !Present(mem[d][p / NENTRIES])
    requires lo <= p <= e <= (p / NENTRIES + 1) * NENTRIES && View(mem, d) == Without(view, lo, p)
    ensures Without(view, lo, e) == Without(view, lo, p)
  {
    forall v: nat | p <= v < e ensures v !in view {
      assert v in view ==> v in Without(view, lo, p);
      assert v / NENTRIES == p / NENTRIES;
    }
  }

  lemma ClearMapped(mem: Mem, d: nat, tabs: map<nat, nat>, v: nat, mem': Mem)
    requires Tables(mem, d, tabs) && v < NPAGES && Present(mem[d][v / NENTRIES])
    requires var t := FrameOf(mem[d][v / NENTRIES]); t < |mem| && mem' == Put(mem, t, v % NENTRIES, 0)
    ensures Tables(mem', d, tabs) && View(mem', d) == View(mem, d) - {v}
  {
    SetEntry(mem, d, tabs, v, 0, mem');
    ViewSet(mem, mem', d, v, 0);
  }

  /** A user page's frame is the space's; without the page it need not be. */
  lemma OwnsLess(view: map<nat, nat>, data: map<nat, nat>, v: nat)
    requires Owns(view, data) && v in view && v < USERPAGES
    ensures FrameOf(view[v]) in data && Owns(view - {v}, data - {FrameOf(view[v])})
  {
  }

  lemma OwnsMore(view: map<nat, nat>, data: map<nat, nat>, p: nat, m: nat, flags: nat)
    requires Owns(view, data) && p < USERPAGES && p !in view && m !in data && flags < PGSIZE
    ensures Owns(view[p := Make(m, flags)], data[m := p])
  {
    MakeParts(m, flags);
  }

  /** Without user pages there are no data frames. */
  lemma NoUserPages(view: map<nat, nat>, data: map<nat, nat>)
    requires forall v: nat :: v in view ==> v >= USERPAGES
    ensures Owns(view, data) <==> data == map[]
  {
  }

  /** A frame freed from under a directory that does not hold it as a table. */
  lemma FreedAside(mem: Mem, mem': Mem, d: nat, tabs: map<nat, nat>, f: nat)
    requires Tables(mem, d, tabs) && Sized(mem') && OnlyIn(mem, mem', {f}) && f != d && f !in tabs
    ensures Tables(mem', d, tabs) && View(mem', d) == View(mem, d) && mem'[d] == mem[d]
  {
    Untouched(mem, d, tabs, mem');
  }

  lemma HeldMore(d: nat, tabs: map<nat, nat>, free: seq<nat>, first: nat, f: nat)
    requires Held(d, tabs, free, first) && f != d && f !in tabs
    ensures Held(d, tabs, [f] + free, first)
  {
  }

  /** Table pages hung in directory slots below `i`. */
  ghost function TabsBelow(tabs: map<nat, nat>, i: nat): set<nat> {
    set f: nat | f in tabs && tabs[f] < i
  }

  lemma TabsNext(mem: Mem, d: nat, tabs: map<nat, nat>, i: nat)
    requires Tables(mem, d, tabs) && i < NENTRIES
    ensures TabsBelow(tabs, i + 1) == TabsBelow(tabs, i) + if Present(mem[d][i]) then {FrameOf(mem[d][i])} else {}
    ensures Present(mem[d][i]) ==>
      FrameOf(mem[d][i]) in tabs && FrameOf(mem[d][i]) !in TabsBelow(tabs, i) && FrameOf(mem[d][i]) < |mem|
  {
    forall f: nat | f in tabs && tabs[f] == i ensures Present(mem[d][i]) && f == FrameOf(mem[d][i]) {
      assert TableAt(mem[d], f, i);
    }
  }

  lemma TabsAll(mem: Mem, d: nat, tabs: map<nat, nat>)
    requires Tables(mem, d, tabs)
    ensures TabsBelow(tabs, NENTRIES) == tabs.Keys && TabsBelow(tabs, 0) == {}
  {
    forall f: nat | f in tabs ensures tabs[f] < NENTRIES {
      assert TableAt(mem[d], f, tabs[f]);
    }
  }

  const EXTMEM := 0x100
  const DEVPAGE := 0xFE000

  datatype Kmap = Kmap(virt: nat, frame: nat, size: nat, perm: nat)

  /** kmap[]: virtual address, first frame, byte size and permissions of each kernel range. */
  function KernelRanges(kdata: nat): (k: seq<Kmap>)
    requires EXTMEM < kdata < NFRAMES
    ensures |k| == 4
  {
    [ Kmap(KERNBASE, 0, EXTMEM * PGSIZE, PTE_W),
      Kmap(KERNBASE + EXTMEM * PGSIZE, EXTMEM, (kdata - EXTMEM) * PGSIZE, 0),
      Kmap(KERNBASE + kdata * PGSIZE, kdata, (NFRAMES - kdata) * PGSIZE, PTE_W),
      Kmap(DEVPAGE * PGSIZE, DEVPAGE, (BYTES - DEVPAGE * PGSIZE) % BYTES, PTE_W) ]
  }

  /** The view after the first `n` kernel ranges are mapped. */
  ghost function KernelView(kdata: nat, n: nat): map<nat, nat>
    requires EXTMEM < kdata < NFRAMES && n <= 4
  {
    if n == 0 then map[]
    else
      var k := KernelRanges(kdata)[n - 1];
      Extend(KernelView(kdata, n - 1), k.virt / PGSIZE, Covering(k.virt, k.size), k.frame, k.perm)
  }

  /** The page just past the first `n` kernel ranges, and where range `n` starts. */
  function KernelTop(kdata: nat, n: nat): nat {
    if n == 0 then USERPAGES else if n == 1 then USERPAGES + EXTMEM else if n == 2 then USERPAGES + kdata
    else if n == 3 then USERPAGES + NFRAMES else NPAGES
  }

  lemma RangePages(kdata: nat, n: nat)
    requires EXTMEM < kdata < NFRAMES && n < 4
    ensures var k := KernelRanges(kdata)[n]; var p := k.virt / PGSIZE;
      && KernelTop(kdata, n) <= p && p + Covering(k.virt, k.size) == KernelTop(kdata, n + 1)
      && k.virt < BYTES && k.size < BYTES && k.frame < NPAGES && k.perm < PGSIZE
      && (n < 3 ==> p == KernelTop(kdata, n) && k.frame == p - USERPAGES) && (n == 3 ==> p == DEVPAGE == k.frame)
      && k.perm == if n == 1 then 0 else PTE_W
  {
  }

  /** Mapping pages that do not wrap adds exactly the pages of one interval. */
  lemma ExtendInterval(view: map<nat, nat>, p: nat, n: nat, frame: nat, perm: nat)
    requires p + n <= NPAGES && frame + n <= NPAGES
    ensures forall v: nat :: v in Extend(view, p, n, frame, perm) <==> v in view || p <= v < p + n
    ensures forall v: nat :: p <= v < p + n ==> Extend(view, p, n, frame, perm)[v] == Make(frame + (v - p), WithP(perm))
    ensures forall v: nat :: v in view && !(p <= v < p + n) ==>
      v in Extend(view, p, n, frame, perm) && Extend(view, p, n, frame, perm)[v] == view[v]
  {
    if n > 0 {
      ExtendInterval(view, p, n - 1, frame, perm);
      assert Nth(p, n - 1) == p + n - 1 && Nth(frame, n - 1) == frame + n - 1;
    }
  }

  /** Kernel pages lie between KERNBASE and the next range, so no range remaps another. */
  lemma {:induction false} KernelBelow(kdata: nat, n: nat)
    requires EXTMEM < kdata < NFRAMES && n <= 4
    ensures forall v: nat :: v in KernelView(kdata, n) ==> USERPAGES <= v < KernelTop(kdata, n)
    decreases n
  {
    if n > 0 {
      KernelBelow(kdata, n - 1);
      RangePages(kdata, n - 1);
      var k := KernelRanges(kdata)[n - 1];
      ExtendInterval(KernelView(kdata, n - 1), k.virt / PGSIZE, Covering(k.virt, k.size), k.frame, k.perm);
    }
  }

  /** Memory at KERNBASE with read-only text, and the devices one to one. */
  function KernelWord(kdata: nat, v: nat): nat
    requires USERPAGES <= v
  {
    if v >= DEVPAGE then Make(v, PTE_P + PTE_W)
    else Make(v - USERPAGES, if EXTMEM <= v - USERPAGES < kdata then PTE_P else PTE_P + PTE_W)
  }

  predicate KernelHas(kdata: nat, n: nat, v: nat) {
    (USERPAGES <= v < USERPAGES + NFRAMES && v < KernelTop(kdata, n)) || (n == 4 && DEVPAGE <= v < NPAGES)
  }

  lemma {:induction false} KernelAt(kdata: nat, n: nat, v: nat)
    requires EXTMEM < kdata < NFRAMES && n <= 4
    ensures v in KernelView(kdata, n) <==> KernelHas(kdata, n, v)
    ensures KernelHas(kdata, n, v) ==> KernelView(kdata, n)[v] == KernelWord(kdata, v)
    decreases n
  {
    hide Make, KernelRanges, Covering, Extend;
    if n > 0 {
      KernelAt(kdata, n - 1, v);
      RangePages(kdata, n - 1);
      var k := KernelRanges(kdata)[n - 1];
      ExtendInterval(KernelView(kdata, n - 1), k.virt / PGSIZE, Covering(k.virt, k.size), k.frame, k.perm);
    }
  }

  /** What setupkvm maps, page by page. */
  lemma KernelViewIs(kdata: nat)
    requires EXTMEM < kdata < NFRAMES
    ensures forall v: nat :: v in KernelView(kdata, 4) <==>
      USERPAGES <= v < USERPAGES + NFRAMES || DEVPAGE <= v < NPAGES
    ensures forall v: nat :: v in KernelView(kdata, 4) ==>
      v >= USERPAGES && KernelView(kdata, 4)[v] == KernelWord(kdata, v)
  {
    forall v: nat
      ensures v in KernelView(kdata, 4) <==> KernelHas(kdata, 4, v)
      ensures KernelHas(kdata, 4, v) ==> KernelView(kdata, 4)[v] == KernelWord(kdata, v)
    {
      KernelAt(kdata, 4, v);
    }
  }

  /** Part or all of kernel range `n`, on top of the ranges before it. */
  lemma KernelRun(kdata: nat, n: nat, done: nat)
    requires EXTMEM < kdata < NFRAMES && n < 4
    requires done <= Covering(KernelRanges(kdata)[n].virt, KernelRanges(kdata)[n].size)
    ensures var k := KernelRanges(kdata)[n];
      var view := Extend(KernelView(kdata, n), k.virt / PGSIZE, done, k.frame, k.perm);
      && (done == Covering(k.virt, k.size) ==> view == KernelView(kdata, n + 1))
      && Owns(view, map[])
      && (done < Covering(k.virt, k.size) ==> Nth(k.virt / PGSIZE, done) !in KernelView(kdata, n))
  {
    hide KernelRanges, Covering, Extend, Make;
    RangePages(kdata, n);
    KernelBelow(kdata, n);
    var k := KernelRanges(kdata)[n];
    ExtendInterval(KernelView(kdata, n), k.virt / PGSIZE, done, k.frame, k.perm);
    if done < Covering(k.virt, k.size) {
      assert Nth(k.virt / PGSIZE, done) == k.virt / PGSIZE + done;
    }
  }

  /** A one-page range at a page boundary. */
  lemma OnePage(view: map<nat, nat>, p: nat, m: nat, perm: nat)
    requires p < USERPAGES && m < NPAGES
    ensures Covering(p * PGSIZE, PGSIZE) == 1 && p * PGSIZE / PGSIZE == p && Nth(p, 0) == p
    ensures Extend(view, p, 0, m, perm) == view && Extend(view, p, 1, m, perm) == view[p := Make(m, WithP(perm))]
  {
  }

  /** `view` with pages `lo` up to `hi` mapped as well. */
  ghost predicate Grown(old': map<nat, nat>, view: map<nat, nat>, lo: nat, hi: nat) {
    && (forall v: nat :: v in view <==> v in old' || lo <= v < hi)
    && (forall v: nat :: v in old' && !(lo <= v < hi) ==> v in view && view[v] == old'[v])
  }

  /** Pages `lo` up to `hi` are writable user pages of zeroes in frames that were free. */
  ghost predicate Fresh(view: map<nat, nat>, lo: nat, hi: nat, free: set<nat>, mem: Mem) {
    forall v: nat :: v in view && lo <= v < hi ==> FreshPage(view[v], free, mem)
  }

  ghost predicate FreshPage(w: nat, free: set<nat>, mem: Mem) {
    && FlagsOf(w) == PTE_P + PTE_W + PTE_U && FrameOf(w) in free
    && FrameOf(w) < |mem| && mem[FrameOf(w)] == Blank()
  }

  lemma GrownNone(view: map<nat, nat>, lo: nat, pool: set<nat>, mem: Mem)
    ensures Grown(view, view, lo, lo) && Fresh(view, lo, lo, pool, mem)
  {
  }

  lemma GrownNext(old': map<nat, nat>, view: map<nat, nat>, lo: nat, p: nat, w: nat)
    requires Grown(old', view, lo, p) && lo <= p && p !in old'
    ensures p !in view && Grown(old', view[p := w], lo, p + 1)
  {
  }

  /** Taking the added pages away again leaves the old view. */
  lemma GrownBack(old': map<nat, nat>, view: map<nat, nat>, lo: nat, p: nat, hi: nat)
    requires Grown(old', view, lo, p) && lo <= p <= hi && forall v: nat :: lo <= v < hi ==> v !in old'
    ensures Without(view, lo, hi) == old'
  {
  }

  lemma FreshKept(view: map<nat, nat>, data: map<nat, nat>, lo: nat, p: nat, pool: set<nat>, mem: Mem, mem': Mem,
                  s: set<nat>)
    requires Owns(view, data) && p <= USERPAGES && Fresh(view, lo, p, pool, mem)
    requires OnlyIn(mem, mem', s) && s !! data.Keys
    ensures Fresh(view, lo, p, pool, mem')
  {
    forall v: nat | v in view && lo <= v < p ensures FreshPage(view[v], pool, mem') {
      assert FreshPage(view[v], pool, mem);
      assert FrameOf(view[v]) in data;
    }
  }

  lemma FreshNext(view: map<nat, nat>, lo: nat, p: nat, pool: set<nat>, mem: Mem, m: nat)
    requires Fresh(view, lo, p, pool, mem) && m in pool && m < |mem| && mem[m] == Blank()
    ensures Fresh(view[p := Make(m, WithP(PTE_W + PTE_U))], lo, p + 1, pool, mem)
  {
    MakeParts(m, PTE_P + PTE_W + PTE_U);
  }

  lemma OwnsSame(view: map<nat, nat>, data: map<nat, nat>, data': map<nat, nat>)
    requires Owns(view, data) && Owns(view, data')
    ensures data == data'
  {
    OwnsWithin(view, data, data');
    OwnsWithin(view, data', data);
  }

  lemma OwnsWithin(view: map<nat, nat>, data: map<nat, nat>, data': map<nat, nat>)
    requires Owns(view, data) && Owns(view, data')
    ensures forall f: nat :: f in data ==> f in data' && data'[f] == data[f]
  {
    forall f: nat | f in data ensures f in data' && data'[f] == data[f] {
      assert FrameOf(view[data[f]]) == f;
    }
  }

  lemma OnlyInNone(mem: Mem, s: set<nat>)
    ensures OnlyIn(mem, mem, s)
  {
  }

  lemma OnlyInMore(mem: Mem, mem': Mem, s: set<nat>, s': set<nat>)
    requires OnlyIn(mem, mem', s) && s <= s'
    ensures OnlyIn(mem, mem', s')
  {
  }

  lemma OnlyInAt(mem: Mem, mem': Mem, s: set<nat>, f: nat)
    requires OnlyIn(mem, mem', s) && f < |mem| && f !in s
    ensures |mem'| == |mem| && mem'[f] == mem[f]
  {
  }

  lemma OnlyInStep(mem: Mem, mem1: Mem, mem2: Mem, s: set<nat>, s1: set<nat>)
    requires OnlyIn(mem, mem1, s) && OnlyIn(mem1, mem2, s1) && s1 <= s
    ensures OnlyIn(mem, mem2, s)
  {
  }

  /** Frames counted over a failed allocuvm: free, tables and data, before, during and after. */
  lemma FailSets(f0: set<nat>, t0: set<nat>, d0: set<nat>, f: set<nat>, t: set<nat>, d: set<nat>,
                 f1: set<nat>, t1: set<nat>, spare: set<nat>, f2: set<nat>)
    requires f + t + d == f0 + t0 + d0 && t0 <= t && t !! d && f + t <= f0 + t0
    requires f1 + t1 + spare == f + t && f2 + d0 == f1 + d + spare
    ensures f2 + t1 + d0 == f0 + t0 + d0 && t1 + (d - d0) + spare <= t0 + f0
  {
    assert f2 + t1 + d0 == (f2 + d0) + t1;
  }

  /** A child page has its parent page's flags and contents. */
  ghost predicate CopiedPage(w: nat, pw: nat, mem: Mem) {
    && FlagsOf(w) == FlagsOf(pw) && FrameOf(w) < |mem| && FrameOf(pw) < |mem|
    && mem[FrameOf(w)] == mem[FrameOf(pw)]
  }

  /** `view` is `kernel` and copies of the parent's pages below `hi`. */
  ghost predicate Copied(view: map<nat, nat>, kernel: map<nat, nat>, parent: map<nat, nat>, hi: nat, mem: Mem) {
    && (forall v: nat :: v in view <==> v in kernel || v < hi)
    && (forall v: nat :: v in view && v >= hi ==> v in kernel && view[v] == kernel[v])
    && (forall v: nat :: v in view && v < hi ==> v in parent && CopiedPage(view[v], parent[v], mem))
  }

  lemma CopiedNone(kernel: map<nat, nat>, parent: map<nat, nat>, mem: Mem)
    ensures Copied(kernel, kernel, parent, 0, mem)
  {
  }

  lemma CopiedKept(view: map<nat, nat>, kernel: map<nat, nat>, parent: map<nat, nat>, p: nat,
                   data: map<nat, nat>, pdata: map<nat, nat>, mem: Mem, mem': Mem, s: set<nat>)
    requires Copied(view, kernel, parent, p, mem) && Owns(view, data) && Owns(parent, pdata) && p <= USERPAGES
    requires OnlyIn(mem, mem', s) && s !! data.Keys && s !! pdata.Keys
    ensures Copied(view, kernel, parent, p, mem')
  {
    forall v: nat | v in view && v < p ensures CopiedPage(view[v], parent[v], mem') {
      assert CopiedPage(view[v], parent[v], mem);
      assert FrameOf(view[v]) in data && FrameOf(parent[v]) in pdata;
    }
  }

  /** The next page to copy: not in the child yet, its frame the parent's. */
  lemma CopyAhead(view: map<nat, nat>, kernel: map<nat, nat>, parent: map<nat, nat>, pdata: map<nat, nat>, p: nat,
                  mem: Mem)
    requires Copied(view, kernel, parent, p, mem) && p !in kernel && Owns(parent, pdata) && p in parent && p < USERPAGES
    ensures p !in view && FlagsOf(parent[p]) < PGSIZE && FrameOf(parent[p]) in pdata
  {
  }

  lemma CopiedNext(view: map<nat, nat>, kernel: map<nat, nat>, parent: map<nat, nat>, p: nat, mem: Mem, m: nat)
    requires Copied(view, kernel, parent, p, mem) && p !in kernel && p in parent && Present(parent[p])
    requires m < |mem| && FrameOf(parent[p]) < |mem| && mem[m] == mem[FrameOf(parent[p])]
    ensures p !in view && Copied(view[p := Make(m, WithP(FlagsOf(parent[p])))], kernel, parent, p + 1, mem)
  {
    assert FlagsOf(parent[p]) % 2 == 1;
    MakeParts(m, FlagsOf(parent[p]));
  }

  lemma ViewPresent(mem: Mem, d: nat, v: nat)
    requires Sized(mem) && d < |mem| && v in View(mem, d)
    ensures v < NPAGES && Present(View(mem, d)[v]) && Present(mem[d][v / NENTRIES])
  {
  }

  /** A whole address space: directory, tables and user data, none of it on the free list. */
  ghost predicate SpaceOf(mem: Mem, free: seq<nat>, first: nat, d: nat, tabs: map<nat, nat>, data: map<nat, nat>) {
    && Tables(mem, d, tabs) && Held(d, tabs, free, first) && d < NFRAMES
    && Owns(View(mem, d), data) && DataHeld(d, tabs, data, free, first)
  }

  /** An address space is not disturbed by work on frames that were free. */
  lemma OtherKept(mem: Mem, free: seq<nat>, mem': Mem, free': seq<nat>, first: nat, d: nat, tabs: map<nat, nat>,
                  data: map<nat, nat>)
    requires SpaceOf(mem, free, first, d, tabs, data) && Sized(mem')
    requires OnlyIn(mem, mem', FreeSet(free)) && FreeSet(free') <= FreeSet(free)
    ensures SpaceOf(mem', free', first, d, tabs, data) && View(mem', d) == View(mem, d)
  {
    hide View, Owns;
    Untouched(mem, d, tabs, mem');
  }

  /** The four kinds of frame of an address space and its allocator are apart. */
  lemma SpaceApart(mem: Mem, free: seq<nat>, first: nat, d: nat, tabs: map<nat, nat>, data: map<nat, nat>)
    requires SpaceOf(mem, free, first, d, tabs, data)
    ensures Sized(mem) && d < |mem| && Owns(View(mem, d), data)
    ensures ({d} + tabs.Keys + FreeSet(free)) !! data.Keys && ({d} + tabs.Keys) !! FreeSet(free) && d !in tabs
  {
  }

  /** Frames counted over one page: `m` leaves the free list, and tables may be added from it. */
  lemma PageSets(f: set<nat>, f1: set<nat>, f2: set<nat>, t: set<nat>, t1: set<nat>, d: set<nat>, m: nat)
    requires f1 + {m} == f && m !in f1 && t <= t1 && t1 + f2 == t + f1 && f !! t && f !! d && t1 !! f2
    ensures f2 + t1 + (d + {m}) == f + t + d && f2 + t1 + {m} == f + t && f2 + t1 + d + {m} == f + t + d
    ensures m !in f2 && m !in t1 && m !in d && f2 <= f && f2 + t1 <= f + t
  {
    assert m !in t + f1;
  }

  lemma ChildSets(pool: set<nat>, c: nat, f: set<nat>, t: set<nat>, d: set<nat>, f1: set<nat>, t1: set<nat>,
                  d1: set<nat>, spare: set<nat>)
    requires f + {c} + t + d == pool && f1 + t1 + d1 + spare == f + t + d
    ensures f1 + {c} + t1 + d1 + spare == pool && f1 <= pool && {c} + t + f <= pool && {c} + t1 + d1 + spare <= pool
  {
  }

  /** Work on frames that are none of a space's leaves it alone, if none of them is freed. */
  lemma SpaceAside(mem: Mem, free: seq<nat>, mem': Mem, free': seq<nat>, first: nat, d: nat, tabs: map<nat, nat>,
                   data: map<nat, nat>, s: set<nat>)
    requires SpaceOf(mem, free, first, d, tabs, data) && Sized(mem')
    requires OnlyIn(mem, mem', s) && ({d} + tabs.Keys + data.Keys) !! s
    requires ({d} + tabs.Keys + data.Keys) !! FreeSet(free')
    ensures SpaceOf(mem', free', first, d, tabs, data) && View(mem', d) == View(mem, d)
  {
    hide View, Owns;
    Untouched(mem, d, tabs, mem');
  }
}
