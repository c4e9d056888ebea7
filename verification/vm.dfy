/**
 The virtual-memory code of vm.c over the frame allocator of kalloc.c: every routine walks and
 writes page-table words in place, and is proved against the address space seen as a map.
 */
module Vm {
  import opened PageTable
  import opened Frames
  import opened AddressSpace
  import opened FrameBudget

  datatype MapResult = Done | NoMemory | Remap

  class Machine {
    /** The first frame past the kernel image (`end`). */
    const first: nat
    /** The frame where kernel data starts (`V2P(data)`). */
    const kdata: nat
    var mem: Mem
    var freelist: nat
    ghost var free: seq<nat>

    ghost predicate Valid()
      reads this
    {
      first > 0 && EXTMEM < kdata < NFRAMES && Sized(mem) && |mem| == NFRAMES && Chain(mem, freelist, free, first)
    }

    ghost predicate Dir(d: nat, tabs: map<nat, nat>)
      reads this
    {
      Valid() && Tables(mem, d, tabs) && Held(d, tabs, free, first)
    }

    /** Before kinit1: whatever memory holds, nothing is free. */
    constructor (first: nat, kdata: nat, image: Mem)
      requires first > 0 && EXTMEM < kdata < NFRAMES && Sized(image) && |image| == NFRAMES
      ensures this.first == first && this.kdata == kdata && Valid() && free == [] && mem == image
    {
      this.first, this.kdata := first, kdata;
      mem := image;
      freelist, free := 0, [];
    }

    method Kfree(f: nat)
      requires Valid() && first <= f < NFRAMES && f !in FreeSet(free)
      modifies `mem, `freelist, `free
      ensures Valid() && free == [f] + old(free) && FreeSet(free) == old(FreeSet(free)) + {f}
      ensures OnlyIn(old(mem), mem, {f}) && mem[f] == Junk()[0 := old(freelist)]
    {
      mem := mem[f := Junk()];
      mem := Put(mem, f, 0, freelist);
      ChainPush(old(mem), mem, freelist, free, first, f);
      freelist := P2V(f);
      free := [f] + free;
    }

    method Kalloc() returns (r: Opt)
      requires Valid()
      modifies `freelist, `free
      ensures Valid() && (r.Null? <==> old(free) == [])
      ensures r.Null? ==> free == old(free)
      ensures r.Frame? ==> first <= r.f < NFRAMES && [r.f] + free == old(free)
      ensures r.Frame? ==> r.f !in FreeSet(free) && FreeSet(free) + {r.f} == old(FreeSet(free))
    {
      assert free != [] ==> freelist == P2V(free[0]);
      if freelist == 0 {
        return Null;
      }
      ChainPop(mem, freelist, free, first);
      var f := (freelist - KERNBASE) / PGSIZE;
      assert f == free[0];
      freelist := mem[f][0];
      free := free[1..];
      r := Frame(f);
    }

    /** freerange: whole frames from `lo` up to `hi`. */
    method FreeRange(lo: nat, hi: nat)
      requires Valid() && first <= lo && hi <= NFRAMES
      requires Range(lo, hi) !! FreeSet(free)
      modifies `mem, `freelist, `free
      ensures Valid() && FreeSet(free) == old(FreeSet(free)) + Range(lo, hi)
      ensures OnlyIn(old(mem), mem, Range(lo, hi))
    {
      hide Chain;
      var p := lo;
      assert Range(lo, lo) == {};
      while p + 1 <= hi
        invariant (if lo <= hi then lo <= p <= hi else p == lo) && Valid()
        invariant FreeSet(free) == old(FreeSet(free)) + Range(lo, p)
        invariant OnlyIn(old(mem), mem, Range(lo, p))
      {
        RangeNext(lo, p, hi);
        Kfree(p);
        p := p + 1;
      }
      assert Range(lo, p) == Range(lo, hi);
    }

    method Store(f: nat, i: nat, w: nat)
      requires Valid() && f < NFRAMES && i < NENTRIES && f !in FreeSet(free)
      modifies `mem
      ensures Valid() && mem == Put(old(mem), f, i, w) && OnlyIn(old(mem), mem, {f})
    {
      mem := Put(mem, f, i, w);
      ChainFrame(old(mem), mem, freelist, free, first, {f});
    }

    /** memset or memmove of a whole page. */
    method Fill(f: nat, page: Page)
      requires Valid() && f < NFRAMES && |page| == NENTRIES && f !in FreeSet(free)
      modifies `mem
      ensures Valid() && mem == old(mem)[f := page] && OnlyIn(old(mem), mem, {f})
    {
      mem := mem[f := page];
      ChainFrame(old(mem), mem, freelist, free, first, {f});
    }

    /** walkpgdir: the table page for `v`, made if asked for and absent. */
    method WalkPgdir(d: nat, v: nat, alloc: bool, ghost tabs: map<nat, nat>)
      returns (r: Opt, ghost tabs': map<nat, nat>)
      requires Dir(d, tabs) && v < NPAGES
      modifies `mem, `freelist, `free
      ensures Dir(d, tabs') && View(mem, d) == old(View(mem, d))
      ensures r.Null? <==> !Present(old(mem[d][v / NENTRIES])) && (!alloc || old(free) == [])
      ensures r.Null? ==> tabs' == tabs && mem == old(mem) && free == old(free)
      ensures r.Frame? ==> Present(mem[d][v / NENTRIES]) && r.f == FrameOf(mem[d][v / NENTRIES]) && r.f in tabs'
      ensures !alloc ==> tabs' == tabs && mem == old(mem) && free == old(free)
      ensures tabs.Keys <= tabs'.Keys && tabs'.Keys + FreeSet(free) == tabs.Keys + old(FreeSet(free))
      ensures OnlyIn(old(mem), mem, {d} + old(FreeSet(free)))
      ensures r.Frame? ==> AddedAt(old(mem[d]), mem[d], v / NENTRIES)
      ensures r.Frame? ==> |free| == |old(free)| - TableCost(old(mem[d]), v / NENTRIES)
    {
      hide Chain, Tables, View, Held, Make, FrameOf, Present, FreeSet;
      tabs' := tabs;
      var i := v / NENTRIES;
      assert |mem[d]| == NENTRIES by { DirSize(mem, d, tabs); }
      if Present(mem[d][i]) {
        r := Frame(FrameOf(mem[d][i]));
        TableOf(mem, d, tabs, i);
        return;
      }
      if !alloc {
        return Null, tabs;
      }
      r := Kalloc();
      if r.Null? {
        return;
      }
      HeldApart(d, tabs, old(free), first);
      Fill(r.f, Blank());
      Store(d, i, Make(r.f, PTE_P + PTE_W + PTE_U));
      WalkAdd(old(mem), d, tabs, i, r.f, mem, old(free), free, first);
      tabs' := tabs[r.f := i];
    }

    /** One turn of mappages' loop: page `a` is given frame `pa`. */
    method MapOne(d: nat, a: nat, pa: nat, perm: nat, ghost tabs: map<nat, nat>)
      returns (r: MapResult, ghost tabs': map<nat, nat>)
      requires Dir(d, tabs) && a < NPAGES && perm < PGSIZE
      modifies `mem, `freelist, `free
      ensures Dir(d, tabs') && tabs.Keys <= tabs'.Keys
      ensures tabs'.Keys + FreeSet(free) == tabs.Keys + old(FreeSet(free))
      ensures OnlyIn(old(mem), mem, {d} + tabs.Keys + old(FreeSet(free)))
      ensures View(mem, d) == if r == Done then old(View(mem, d))[a := Make(pa, WithP(perm))] else old(View(mem, d))
      ensures r == Done ==> a !in old(View(mem, d))
      ensures r == Remap ==> a in old(View(mem, d))
      ensures r == NoMemory ==> free == [] && mem[d] == old(mem[d]) && !Present(mem[d][a / NENTRIES])
      ensures r != NoMemory ==> AddedAt(old(mem[d]), mem[d], a / NENTRIES)
      ensures r != NoMemory ==> |free| == |old(free)| - TableCost(old(mem[d]), a / NENTRIES)
      ensures r == NoMemory ==> free == old(free)
    {
      hide Chain, Tables, View, Held, Make, FrameOf, Present, FreeSet, AddedAt, TableCost;
      DirSize(mem, d, tabs);
      var t;
      t, tabs' := WalkPgdir(d, a, true, tabs);
      if t.Null? {
        return NoMemory, tabs';
      }
      EntryIs(mem, d, tabs', a);
      TableOf(mem, d, tabs', a / NENTRIES);
      if Present(mem[t.f][a % NENTRIES]) {
        return Remap, tabs';
      }
      ghost var before := mem;
      HeldApart(d, tabs', free, first);
      Store(t.f, a % NENTRIES, Make(pa, WithP(perm)));
      SetMapped(before, d, tabs', a, pa, perm, mem);
      r := Done;
    }

    /**
     mappages. `done` counts the pages mapped; the loop steps `a` modulo the address space and
     stops at the page of the last byte.
     */
    method MapPages(d: nat, va: nat, size: nat, frame: nat, perm: nat, ghost tabs: map<nat, nat>)
      returns (r: MapResult, ghost tabs': map<nat, nat>, ghost done: nat)
      requires Dir(d, tabs) && va < BYTES && size < BYTES && frame < NPAGES && perm < PGSIZE
      modifies `mem, `freelist, `free
      ensures Dir(d, tabs') && tabs.Keys <= tabs'.Keys
      ensures tabs'.Keys + FreeSet(free) == tabs.Keys + old(FreeSet(free))
      ensures OnlyIn(old(mem), mem, {d} + tabs.Keys + old(FreeSet(free)))
      ensures View(mem, d) == Extend(old(View(mem, d)), va / PGSIZE, done, frame, perm)
      ensures Unmapped(old(View(mem, d)), va / PGSIZE, done)
      ensures r == Done <==> done == Covering(va, size)
      ensures r != Done ==> done < Covering(va, size)
      ensures r == Remap ==> Nth(va / PGSIZE, done) in old(View(mem, d))
      ensures r == NoMemory ==> free == []
      ensures var p := va / PGSIZE; p + Covering(va, size) <= NPAGES && r != Remap ==>
        && PresentAfter(old(mem[d]), mem[d], p, p + done) && |free| == |old(free)| - NewTables(old(mem[d]), p, p + done)
        && (r == NoMemory ==> !Present(mem[d][(p + done) / NENTRIES]))
    {
      hide Chain, Tables, View, Held, Make, FreeSet, Covering, Present, AddedAt, TableCost, PresentAfter, NewTables,
        Nth;
      DirSize(mem, d, tabs);
      ghost var p, straight := va / PGSIZE, va / PGSIZE + Covering(va, size) <= NPAGES;
      NonePresent(mem[d], p);
      var a, pa := va / PGSIZE, frame;
      var last := (va + size + BYTES - 1) % BYTES / PGSIZE;
      tabs', done := tabs, 0;
      StraightPage(va / PGSIZE, 0);
      StraightPage(frame, 0);
      ghost var view := View(mem, d);
      while true
        invariant Dir(d, tabs') && tabs.Keys <= tabs'.Keys
        invariant tabs'.Keys + FreeSet(free) == tabs.Keys + old(FreeSet(free))
        invariant OnlyIn(old(mem), mem, {d} + tabs.Keys + old(FreeSet(free)))
        invariant a < NPAGES && done < Covering(va, size) && a == Nth(va / PGSIZE, done) && pa == Nth(frame, done)
        invariant View(mem, d) == Extend(view, va / PGSIZE, done, frame, perm)
        invariant Unmapped(view, va / PGSIZE, done)
        invariant straight ==> PresentAfter(old(mem[d]), mem[d], p, p + done)
        invariant straight ==> |free| == |old(free)| - NewTables(old(mem[d]), p, p + done)
        decreases Covering(va, size) - done
      {
        DirSize(mem, d, tabs');
        ghost var dir1 := mem[d];
        if straight {
          StraightPage(p, done);
          NextCost(old(mem[d]), dir1, p, a);
        }
        r, tabs' := MapOne(d, a, pa, perm, tabs');
        DirSize(mem, d, tabs');
        if straight && r != NoMemory {
          NextPresent(old(mem[d]), dir1, mem[d], p, a);
        }
        ExtendNext(view, va / PGSIZE, done, frame, perm);
        if r != Done {
          return;
        }
        done := done + 1;
        LastPage(va, size, done);
        if a == last {
          return;
        }
        a, pa := (a + 1) % NPAGES, (pa + 1) % NPAGES;
      }
    }

    ghost predicate Space(d: nat, tabs: map<nat, nat>, data: map<nat, nat>)
      reads this
    {
      Valid() && SpaceOf(mem, free, first, d, tabs, data)
    }

    /** One present user page given back: its frame freed and its entry cleared. */
    method UnmapOne(d: nat, p: nat, t: nat, ghost tabs: map<nat, nat>, ghost data: map<nat, nat>)
      returns (ghost data': map<nat, nat>)
      requires Space(d, tabs, data) && p < USERPAGES && p in View(mem, d)
      requires Present(mem[d][p / NENTRIES]) && t == FrameOf(mem[d][p / NENTRIES])
      modifies `mem, `freelist, `free
      ensures Space(d, tabs, data') && View(mem, d) == old(View(mem, d)) - {p}
      ensures data'.Keys <= data.Keys && FreeSet(free) + data'.Keys == old(FreeSet(free)) + data.Keys
      ensures OnlyIn(old(mem), mem, tabs.Keys + (data.Keys - data'.Keys))
    {
      hide Chain, Tables, View, Held, Make, FrameOf, Present, Put, Owns;
      EntryIs(mem, d, tabs, p);
      HeldApart(d, tabs, free, first);
      OwnsLess(View(mem, d), data, p);
      var f := FrameOf(mem[t][p % NENTRIES]);
      Kfree(f);
      FreedAside(old(mem), mem, d, tabs, f);
      HeldMore(d, tabs, old(free), first, f);
      ghost var freed := mem;
      Store(t, p % NENTRIES, 0);
      ClearMapped(freed, d, tabs, p, mem);
      data' := data - {f};
    }

    /** deallocuvm. */
    method DeallocUvm(d: nat, oldsz: nat, newsz: nat, ghost tabs: map<nat, nat>, ghost data: map<nat, nat>)
      returns (sz: nat, ghost data': map<nat, nat>)
      requires Space(d, tabs, data) && oldsz <= KERNBASE
      modifies `mem, `freelist, `free
      ensures Space(d, tabs, data') && sz == if newsz >= oldsz then oldsz else newsz
      ensures View(mem, d) == Without(old(View(mem, d)), PagesUp(newsz), PagesUp(oldsz))
      ensures data'.Keys <= data.Keys && FreeSet(free) + data'.Keys == old(FreeSet(free)) + data.Keys
      ensures OnlyIn(old(mem), mem, tabs.Keys + (data.Keys - data'.Keys))
    {
      hide Chain, Tables, View, Held, Make, FrameOf, Put, Owns, DataHeld;
      data' := data;
      ghost var view, lo, hi := View(mem, d), PagesUp(newsz), PagesUp(oldsz);
      if newsz >= oldsz {
        return oldsz, data;
      }
      var p := PagesUp(newsz);
      while p * PGSIZE < oldsz
        invariant Space(d, tabs, data') && lo <= p
        invariant View(mem, d) == Without(view, lo, if p < hi then p else hi)
        invariant data'.Keys <= data.Keys && FreeSet(free) + data'.Keys == old(FreeSet(free)) + data.Keys
        invariant OnlyIn(old(mem), mem, tabs.Keys + (data.Keys - data'.Keys))
        decreases oldsz - p * PGSIZE
      {
        var t, _ := WalkPgdir(d, p, false, tabs);
        DirSize(mem, d, tabs);
        if t.Null? {
          var next := (p / NENTRIES + 1) * NENTRIES - 1;
          SkipAhead(mem, d, view, lo, p, if next + 1 < hi then next + 1 else hi);
          p := next;
        } else {
          EntryIs(mem, d, tabs, p);
          WithoutNext(view, lo, p);
          if Present(mem[t.f][p % NENTRIES]) {
            data' := UnmapOne(d, p, t.f, tabs, data');
          }
        }
        p := p + 1;
      }
      sz := newsz;
    }

    /** freevm's loop over the directory: every table page is freed. */
    method FreeTables(d: nat, ghost tabs: map<nat, nat>)
      requires Dir(d, tabs)
      modifies `mem, `freelist, `free
      ensures Valid() && FreeSet(free) == old(FreeSet(free)) + tabs.Keys && OnlyIn(old(mem), mem, tabs.Keys)
    {
      hide Chain, Tables, Make, FrameOf, Present, FreeSet;
      DirSize(mem, d, tabs);
      TabsAll(mem, d, tabs);
      var i := 0;
      while i < NENTRIES
        invariant 0 <= i <= NENTRIES && Valid() && mem[d] == old(mem[d])
        invariant FreeSet(free) == old(FreeSet(free)) + TabsBelow(tabs, i)
        invariant OnlyIn(old(mem), mem, TabsBelow(tabs, i))
      {
        TabsNext(old(mem), d, tabs, i);
        if Present(mem[d][i]) {
          var f := FrameOf(mem[d][i]);
          TableOf(old(mem), d, tabs, i);
          Kfree(f);
        }
        i := i + 1;
      }
    }

    /** freevm. */
    method FreeVm(d: nat, ghost tabs: map<nat, nat>, ghost data: map<nat, nat>)
      requires Space(d, tabs, data)
      modifies `mem, `freelist, `free
      ensures Valid() && FreeSet(free) == old(FreeSet(free)) + {d} + tabs.Keys + data.Keys
      ensures OnlyIn(old(mem), mem, {d} + tabs.Keys + data.Keys)
    {
      hide Chain, Tables, Make, FrameOf, Present, FreeSet, View, Owns;
      var _, left := DeallocUvm(d, KERNBASE, 0, tabs, data);
      DirSize(mem, d, tabs);
      NoUserPages(View(mem, d), left);
      FreeTables(d, tabs);
      Kfree(d);
    }

    /** One kernel range of setupkvm. */
    method MapRange(d: nat, n: nat, ghost tabs: map<nat, nat>) returns (ok: bool, ghost tabs': map<nat, nat>)
      requires Dir(d, tabs) && d < NFRAMES && n < 4 && View(mem, d) == KernelView(kdata, n)
      requires KernelDir(kdata, n, mem[d])
      modifies `mem, `freelist, `free
      ensures Dir(d, tabs') && tabs'.Keys + FreeSet(free) == tabs.Keys + old(FreeSet(free))
      ensures OnlyIn(old(mem), mem, {d} + tabs.Keys + old(FreeSet(free)))
      ensures ok ==> View(mem, d) == KernelView(kdata, n + 1) && KernelDir(kdata, n + 1, mem[d])
      ensures ok ==> |free| + KernelTables(kdata, n + 1) == |old(free)| + KernelTables(kdata, n)
      ensures !ok ==> Owns(View(mem, d), map[]) && |old(free)| + KernelTables(kdata, n) < KERNELFRAMES - 1
    {
      hide Chain, Tables, Make, FrameOf, Present, FreeSet, View, Owns, KernelRanges, KernelView, Covering, KernelDir,
        KernelTables, NewTables, PresentAfter, Held, OnlyIn;
      var k := KernelRanges(kdata)[n];
      RangePages(kdata, n);
      ghost var done, dir1 := 0, mem[d];
      var m;
      m, tabs', done := MapPages(d, k.virt, k.size, k.frame, k.perm, tabs);
      KernelRun(kdata, n, done);
      DirSize(mem, d, tabs');
      KernelCost(kdata, n, dir1, mem[d], k.virt / PGSIZE, done);
      ok := m == Done;
    }

    /** setupkvm: a directory mapping exactly the kernel ranges, or nothing taken. */
    method SetupKvm() returns (r: Opt, ghost tabs: map<nat, nat>)
      requires Valid()
      modifies `mem, `freelist, `free
      ensures Valid() && OnlyIn(old(mem), mem, old(FreeSet(free)))
      ensures r.Frame? <==> |old(free)| >= KERNELFRAMES
      ensures r.Null? ==> FreeSet(free) == old(FreeSet(free))
      ensures r.Frame? ==> Space(r.f, tabs, map[]) && View(mem, r.f) == KernelView(kdata, 4)
      ensures r.Frame? ==> FreeSet(free) + {r.f} + tabs.Keys == old(FreeSet(free))
      ensures r.Frame? ==> KernelDir(kdata, 4, mem[r.f]) && |free| == |old(free)| - KERNELFRAMES
    {
      hide Chain, Tables, Make, FrameOf, Present, FreeSet, View, Owns, KernelRanges, KernelView, KernelDir,
        KernelTables;
      KernelTablesAll(kdata);
      KernelStart(kdata);
      tabs := map[];
      r := Kalloc();
      if r.Null? {
        return;
      }
      var d := r.f;
      Fill(d, Blank());
      BlankDir(mem, d);
      var n := 0;
      while n < 4
        invariant 0 <= n <= 4 && Dir(d, tabs) && View(mem, d) == KernelView(kdata, n) && KernelDir(kdata, n, mem[d])
        invariant |free| + 1 + KernelTables(kdata, n) == |old(free)|
        invariant FreeSet(free) + {d} + tabs.Keys == old(FreeSet(free)) && OnlyIn(old(mem), mem, old(FreeSet(free)))
      {
        var ok;
        ok, tabs := MapRange(d, n, tabs);
        if !ok {
          FreeVm(d, tabs, map[]);
          return Null, tabs;
        }
        n := n + 1;
      }
      KernelBelow(kdata, 4);
      NoUserPages(View(mem, d), map[]);
    }

    /** A filled frame is mapped as user page `p`; without memory for a table nothing is mapped. */
    method MapUser(d: nat, p: nat, m: nat, perm: nat, ghost tabs: map<nat, nat>, ghost data: map<nat, nat>)
      returns (ok: bool, ghost tabs': map<nat, nat>, ghost data': map<nat, nat>)
      requires Space(d, tabs, data) && p < USERPAGES && p !in View(mem, d) && perm < PGSIZE
      requires first <= m < NFRAMES && m !in FreeSet(free) && m != d && m !in tabs && m !in data
      modifies `mem, `freelist, `free
      ensures Space(d, tabs', data') && data' == if ok then data[m := p] else data
      ensures View(mem, d) == if ok then old(View(mem, d))[p := Make(m, WithP(perm))] else old(View(mem, d))
      ensures tabs.Keys <= tabs'.Keys && tabs'.Keys + FreeSet(free) == tabs.Keys + old(FreeSet(free))
      ensures OnlyIn(old(mem), mem, {d} + tabs.Keys + old(FreeSet(free)))
      ensures ok ==>
        AddedAt(old(mem[d]), mem[d], p / NENTRIES) && |free| == |old(free)| - TableCost(old(mem[d]), p / NENTRIES)
      ensures !ok ==> old(free) == [] && TableCost(old(mem[d]), p / NENTRIES) == 1
    {
      hide Chain, Tables, Make, FrameOf, Present, FreeSet, View, Owns, Covering, Held, Extend;
      DirSize(mem, d, tabs);
      var r;
      ghost var done;
      OnePage(old(View(mem, d)), p, m, perm);
      r, tabs', done := MapPages(d, p * PGSIZE, PGSIZE, m, perm, tabs);
      DirSize(mem, d, tabs');
      ok := r == Done;
      data' := data;
      if ok {
        OwnsMore(old(View(mem, d)), data, p, m, WithP(perm));
        data' := data[m := p];
      }
    }

    /** A frame is taken, filled and mapped as user page `p`; one that could not be mapped is handed back. */
    method AddPage(d: nat, p: nat, page: Page, perm: nat, ghost tabs: map<nat, nat>, ghost data: map<nat, nat>)
      returns (ok: bool, m: Opt, ghost tabs': map<nat, nat>, ghost data': map<nat, nat>)
      requires Space(d, tabs, data) && p < USERPAGES && p !in View(mem, d) && perm < PGSIZE && |page| == NENTRIES
      modifies `mem, `freelist, `free
      ensures Space(d, tabs', data') && tabs.Keys <= tabs'.Keys
      ensures ok ==>
        m.Frame? && m.f in old(FreeSet(free)) && m.f < NFRAMES && mem[m.f] == page && data' == data[m.f := p]
      ensures ok ==> View(mem, d) == old(View(mem, d))[p := Make(m.f, WithP(perm))]
      ensures ok ==> FreeSet(free) + tabs'.Keys + data'.Keys == old(FreeSet(free)) + tabs.Keys + data.Keys
      ensures !ok ==> View(mem, d) == old(View(mem, d)) && data' == data
      ensures !ok ==> FreeSet(free) + tabs'.Keys + (if m.Frame? then {m.f} else {}) == old(FreeSet(free)) + tabs.Keys
      ensures !ok && m.Frame? ==> first <= m.f < NFRAMES && m.f !in FreeSet(free) + tabs'.Keys + data'.Keys && m.f != d
      ensures FreeSet(free) <= old(FreeSet(free)) && FreeSet(free) + tabs'.Keys <= old(FreeSet(free)) + tabs.Keys
      ensures OnlyIn(old(mem), mem, {d} + tabs.Keys + old(FreeSet(free)))
      ensures ok ==>
        AddedAt(old(mem[d]), mem[d], p / NENTRIES) && |free| == |old(free)| - 1 - TableCost(old(mem[d]), p / NENTRIES)
      ensures !ok ==> |old(free)| == if m.Null? then 0 else TableCost(old(mem[d]), p / NENTRIES)
    {
      hide Chain, Tables, Make, FrameOf, Present, FreeSet, View, Owns, WithP, SpaceOf, OnlyIn, AddedAt, TableCost;
      ok, tabs', data' := false, tabs, data;
      ghost var s := {d} + tabs.Keys + FreeSet(free);
      OnlyInNone(mem, s);
      SpaceApart(mem, free, first, d, tabs, data);
      m := Kalloc();
      if m.Null? {
        return;
      }
      Fill(m.f, page);
      OnlyInMore(old(mem), mem, {m.f}, old(FreeSet(free)));
      OnlyInMore(old(mem), mem, {m.f}, s);
      OnlyInAt(old(mem), mem, {m.f}, d);
      OtherKept(old(mem), old(free), mem, free, first, d, tabs, data);
      ghost var f1, mem1 := FreeSet(free), mem;
      ok, tabs', data' := MapUser(d, p, m.f, perm, tabs, data);
      SpaceApart(mem, free, first, d, tabs', data');
      PageSets(old(FreeSet(free)), f1, FreeSet(free), tabs.Keys, tabs'.Keys, data.Keys, m.f);
      OnlyInStep(old(mem), mem1, mem, s, {d} + tabs.Keys + f1);
      OnlyInAt(mem1, mem, {d} + tabs.Keys + f1, m.f);
    }

    /** One turn of allocuvm's loop. */
    method GrowOne(d: nat, p: nat, ghost tabs: map<nat, nat>, ghost data: map<nat, nat>,
                   ghost view: map<nat, nat>, ghost lo: nat, ghost pool: set<nat>)
      returns (ok: bool, m: Opt, ghost tabs': map<nat, nat>, ghost data': map<nat, nat>)
      requires Space(d, tabs, data) && lo <= p < USERPAGES && p !in view && FreeSet(free) <= pool
      requires Grown(view, View(mem, d), lo, p) && Fresh(View(mem, d), lo, p, pool, mem)
      modifies `mem, `freelist, `free
      ensures Space(d, tabs', data') && tabs.Keys <= tabs'.Keys && data.Keys <= data'.Keys
      ensures ok ==> Grown(view, View(mem, d), lo, p + 1) && Fresh(View(mem, d), lo, p + 1, pool, mem)
      ensures ok ==> FreeSet(free) + tabs'.Keys + data'.Keys == old(FreeSet(free)) + tabs.Keys + data.Keys
      ensures !ok ==> View(mem, d) == old(View(mem, d)) && data' == data
      ensures !ok ==> FreeSet(free) + tabs'.Keys + (if m.Frame? then {m.f} else {}) == old(FreeSet(free)) + tabs.Keys
      ensures !ok && m.Frame? ==> first <= m.f < NFRAMES && m.f !in FreeSet(free) + tabs'.Keys + data'.Keys && m.f != d
      ensures FreeSet(free) <= old(FreeSet(free)) && FreeSet(free) + tabs'.Keys <= old(FreeSet(free)) + tabs.Keys
      ensures OnlyIn(old(mem), mem, {d} + tabs.Keys + old(FreeSet(free)))
      ensures ok ==>
        AddedAt(old(mem[d]), mem[d], p / NENTRIES) && |free| == |old(free)| - 1 - TableCost(old(mem[d]), p / NENTRIES)
      ensures !ok ==> |old(free)| == if m.Null? then 0 else TableCost(old(mem[d]), p / NENTRIES)
    {
      hide Chain, Tables, Make, FrameOf, Present, FreeSet, View, Owns, Fresh, Grown, WithP, SpaceOf, OnlyIn,
        AddedAt, TableCost, Blank;
      SpaceApart(mem, free, first, d, tabs, data);
      ghost var was := View(mem, d);
      GrownNext(view, was, lo, p, 0);
      ok, m, tabs', data' := AddPage(d, p, Blank(), PTE_W + PTE_U, tabs, data);
      FreshKept(was, data, lo, p, pool, old(mem), mem, {d} + tabs.Keys + old(FreeSet(free)));
      if ok {
        GrownNext(view, was, lo, p, Make(m.f, WithP(PTE_W + PTE_U)));
        FreshNext(was, lo, p, pool, mem, m.f);
      }
    }

    /** allocuvm's way out: the pages added so far and the spare frame are given back. */
    method GrowFail(d: nat, oldsz: nat, newsz: nat, m: Opt, ghost tabs: map<nat, nat>, ghost data: map<nat, nat>,
                    ghost view: map<nat, nat>, ghost p: nat, ghost data0: map<nat, nat>)
      requires Space(d, tabs, data) && oldsz <= newsz < KERNBASE && Owns(view, data0)
      requires Grown(view, View(mem, d), PagesUp(oldsz), p) && PagesUp(oldsz) <= p <= PagesUp(newsz)
      requires forall v: nat :: PagesUp(oldsz) <= v < PagesUp(newsz) ==> v !in view
      requires m.Frame? ==> first <= m.f < NFRAMES && m.f !in FreeSet(free) + tabs.Keys + data.Keys && m.f != d
      modifies `mem, `freelist, `free
      ensures Space(d, tabs, data0) && View(mem, d) == view
      ensures FreeSet(free) + data0.Keys == old(FreeSet(free)) + data.Keys + if m.Frame? then {m.f} else {}
      ensures OnlyIn(old(mem), mem, tabs.Keys + (data.Keys - data0.Keys) + if m.Frame? then {m.f} else {})
    {
      hide Chain, Tables, Make, FrameOf, Present, View, Owns, Grown, FreeSet;
      GrownBack(view, View(mem, d), PagesUp(oldsz), p, PagesUp(newsz));
      var _, left := DeallocUvm(d, newsz, oldsz, tabs, data);
      OwnsSame(view, data0, left);
      if m.Frame? {
        ghost var before, was := mem, free;
        Kfree(m.f);
        FreedAside(before, mem, d, tabs, m.f);
        HeldMore(d, tabs, was, first, m.f);
      }
    }

    /** allocuvm. The pages it is asked to add are not mapped yet, or mappages would panic. */
    method AllocUvm(d: nat, oldsz: nat, newsz: nat, ghost tabs: map<nat, nat>, ghost data: map<nat, nat>)
      returns (sz: nat, ghost tabs': map<nat, nat>, ghost data': map<nat, nat>)
      requires Space(d, tabs, data) && forall v: nat :: PagesUp(oldsz) <= v < PagesUp(newsz) ==> v !in View(mem, d)
      modifies `mem, `freelist, `free
      ensures Space(d, tabs', data') && tabs.Keys <= tabs'.Keys && data.Keys <= data'.Keys
      ensures newsz >= KERNBASE ==> sz == 0
      ensures newsz < KERNBASE && newsz < oldsz ==> sz == oldsz
      ensures oldsz <= newsz < KERNBASE ==> sz == newsz || sz == 0
      ensures oldsz <= newsz < KERNBASE ==> var lo, hi := PagesUp(oldsz), PagesUp(newsz);
        sz == newsz <==> |old(free)| >= hi - lo + NewTables(old(mem[d]), lo, hi)
      ensures !(oldsz <= newsz < KERNBASE && sz == newsz) ==> View(mem, d) == old(View(mem, d)) && data' == data
      ensures oldsz <= newsz < KERNBASE && sz == newsz ==>
        && Grown(old(View(mem, d)), View(mem, d), PagesUp(oldsz), PagesUp(newsz))
        && Fresh(View(mem, d), PagesUp(oldsz), PagesUp(newsz), old(FreeSet(free)), mem)
      ensures FreeSet(free) + tabs'.Keys + data'.Keys == old(FreeSet(free)) + tabs.Keys + data.Keys
      ensures OnlyIn(old(mem), mem, {d} + tabs.Keys + old(FreeSet(free)))
    {
      hide Chain, Tables, Make, FrameOf, Present, FreeSet, View, Owns, Held, Fresh, Grown, WithP, OnlyIn, Blank,
        PresentAfter, NewTables, AddedAt, TableCost;
      OnlyInNone(mem, {d} + tabs.Keys + FreeSet(free));
      DirSize(mem, d, tabs);
      NonePresent(mem[d], PagesUp(oldsz));
      tabs', data' := tabs, data;
      if newsz >= KERNBASE {
        return 0, tabs, data;
      }
      if newsz < oldsz {
        return oldsz, tabs, data;
      }
      ghost var view, lo, hi := View(mem, d), PagesUp(oldsz), PagesUp(newsz);
      var p := PagesUp(oldsz);
      GrownNone(view, lo, FreeSet(free), mem);
      while p * PGSIZE < newsz
        invariant lo <= p <= hi && Space(d, tabs', data') && tabs.Keys <= tabs'.Keys && data.Keys <= data'.Keys
        invariant Grown(view, View(mem, d), lo, p) && Fresh(View(mem, d), lo, p, old(FreeSet(free)), mem)
        invariant FreeSet(free) + tabs'.Keys + data'.Keys == old(FreeSet(free)) + tabs.Keys + data.Keys
        invariant FreeSet(free) <= old(FreeSet(free)) && FreeSet(free) + tabs'.Keys <= old(FreeSet(free)) + tabs.Keys
        invariant OnlyIn(old(mem), mem, {d} + tabs.Keys + old(FreeSet(free)))
        invariant PresentAfter(old(mem[d]), mem[d], lo, p)
        invariant |free| + (p - lo) + NewTables(old(mem[d]), lo, p) == |old(free)|
      {
        ghost var mem0, t0, d0, f0 := mem, tabs', data', FreeSet(free);
        DirSize(mem, d, tabs');
        NextCost(old(mem[d]), mem[d], lo, p);
        NewTablesGrow(old(mem[d]), lo, p + 1, hi);
        var ok, m;
        ok, m, tabs', data' := GrowOne(d, p, tabs', data', view, lo, old(FreeSet(free)));
        OnlyInStep(old(mem), mem0, mem, {d} + tabs.Keys + old(FreeSet(free)), {d} + t0.Keys + f0);
        if !ok {
          ghost var spare := if m.Frame? then {m.f} else {};
          ghost var mem1, f1 := mem, FreeSet(free);
          GrowFail(d, oldsz, newsz, m, tabs', data', view, p, data);
          FailSets(old(FreeSet(free)), tabs.Keys, data.Keys, f0, t0.Keys, d0.Keys, f1, tabs'.Keys, spare,
            FreeSet(free));
          OnlyInStep(old(mem), mem1, mem, {d} + tabs.Keys + old(FreeSet(free)),
            tabs'.Keys + (d0.Keys - data.Keys) + spare);
          return 0, tabs', data;
        }
        NextPresent(old(mem[d]), mem0[d], mem[d], lo, p);
        p := p + 1;
      }
      sz := newsz;
    }

    /** The parent's entry for a mapped user page. */
    method ReadPte(d: nat, p: nat, ghost tabs: map<nat, nat>, ghost data: map<nat, nat>) returns (pte: nat)
      requires Space(d, tabs, data) && p < USERPAGES && p in View(mem, d)
      modifies `mem, `freelist, `free
      ensures Valid() && mem == old(mem) && free == old(free)
      ensures pte == View(mem, d)[p] && Present(pte) && FrameOf(pte) in data && FrameOf(pte) < NFRAMES
    {
      hide Chain, Tables, FrameOf, Present, View, Owns;
      DirSize(mem, d, tabs);
      ViewPresent(mem, d, p);
      EntryIs(mem, d, tabs, p);
      OwnsLess(View(mem, d), data, p);
      var t, _ := WalkPgdir(d, p, false, tabs);
      pte := mem[t.f][p % NENTRIES];
    }

    /** One turn of copyuvm's loop: parent frame `pa` copied into a new frame of the child. */
    method CopyOne(c: nat, p: nat, pa: nat, flags: nat, ghost tabs: map<nat, nat>, ghost data: map<nat, nat>,
                   ghost kernel: map<nat, nat>, ghost parent: map<nat, nat>, ghost pdata: map<nat, nat>)
      returns (ok: bool, m: Opt, ghost tabs': map<nat, nat>, ghost data': map<nat, nat>)
      requires Space(c, tabs, data) && p < USERPAGES && p in parent && p !in kernel && Present(parent[p])
      requires pa == FrameOf(parent[p]) && flags == FlagsOf(parent[p]) && Owns(parent, pdata) && pa < NFRAMES
      requires pdata.Keys !! FreeSet(free) + {c} + tabs.Keys + data.Keys
      requires Copied(View(mem, c), kernel, parent, p, mem)
      modifies `mem, `freelist, `free
      ensures Space(c, tabs', data') && (ok ==> Copied(View(mem, c), kernel, parent, p + 1, mem))
      ensures ok ==> FreeSet(free) + tabs'.Keys + data'.Keys == old(FreeSet(free)) + tabs.Keys + data.Keys
      ensures !ok ==> FreeSet(free) + tabs'.Keys + data'.Keys + (if m.Frame? then {m.f} else {})
                      == old(FreeSet(free)) + tabs.Keys + data.Keys
      ensures !ok && m.Frame? ==> first <= m.f < NFRAMES && m.f !in FreeSet(free) + tabs'.Keys + data'.Keys && m.f != c
      ensures ok ==>
        AddedAt(old(mem[c]), mem[c], p / NENTRIES) && |free| == |old(free)| - 1 - TableCost(old(mem[c]), p / NENTRIES)
      ensures !ok ==> |old(free)| == if m.Null? then 0 else TableCost(old(mem[c]), p / NENTRIES)
      ensures OnlyIn(old(mem), mem, {c} + tabs.Keys + old(FreeSet(free)))
    {
      hide Chain, Tables, Make, FrameOf, FlagsOf, Present, FreeSet, View, Owns, Copied, WithP, SpaceOf, OnlyIn,
        AddedAt, TableCost;
      SpaceApart(mem, free, first, c, tabs, data);
      ghost var was, s := View(mem, c), {c} + tabs.Keys + FreeSet(free);
      CopyAhead(was, kernel, parent, pdata, p, mem);
      ok, m, tabs', data' := AddPage(c, p, mem[pa], flags, tabs, data);
      CopiedKept(was, kernel, parent, p, data, pdata, old(mem), mem, s);
      OnlyInAt(old(mem), mem, s, pa);
      if ok {
        CopiedNext(was, kernel, parent, p, mem, m.f);
      }
    }

    /** copyuvm's way out: the spare frame and the whole child are given back. */
    method CopyFail(c: nat, m: Opt, ghost tabs: map<nat, nat>, ghost data: map<nat, nat>)
      requires Space(c, tabs, data)
      requires m.Frame? ==> first <= m.f < NFRAMES && m.f !in FreeSet(free) + tabs.Keys + data.Keys && m.f != c
      modifies `mem, `freelist, `free
      ensures Valid()
      ensures FreeSet(free) == old(FreeSet(free)) + {c} + tabs.Keys + data.Keys + if m.Frame? then {m.f} else {}
      ensures OnlyIn(old(mem), mem, {c} + tabs.Keys + data.Keys + if m.Frame? then {m.f} else {})
    {
      hide Chain, Tables, View, Owns, FreeSet;
      if m.Frame? {
        Kfree(m.f);
        FreedAside(old(mem), mem, c, tabs, m.f);
        HeldMore(c, tabs, old(free), first, m.f);
      }
      FreeVm(c, tabs, data);
    }

    /** One turn of copyuvm's loop with the parent in view; on failure the child is given back. */
    method CopyStep(c: nat, pg: nat, p: nat, ghost tabs0: map<nat, nat>, ghost data0: map<nat, nat>,
                    ghost ptabs: map<nat, nat>, ghost pdata: map<nat, nat>, ghost kernel: map<nat, nat>,
                      ghost pool: set<nat>)
      returns (ok: bool, ghost tabs: map<nat, nat>, ghost data: map<nat, nat>)
      requires Space(c, tabs0, data0) && Space(pg, ptabs, pdata) && c < NFRAMES && pg < NFRAMES
      requires p < USERPAGES && p in View(mem, pg) && p !in kernel
      requires Copied(View(mem, c), kernel, View(mem, pg), p, mem)
      requires pool == FreeSet(free) + {c} + tabs0.Keys + data0.Keys && pool !! {pg} + ptabs.Keys + pdata.Keys
      modifies `mem, `freelist, `free
      ensures Valid() && OnlyIn(old(mem), mem, pool)
      ensures ok ==> Space(c, tabs, data) && Space(pg, ptabs, pdata) && View(mem, pg) == old(View(mem, pg))
      ensures ok ==> Copied(View(mem, c), kernel, View(mem, pg), p + 1, mem)
      ensures ok ==> FreeSet(free) + {c} + tabs.Keys + data.Keys == pool
      ensures !ok ==> FreeSet(free) == pool
      ensures ok ==>
        AddedAt(old(mem[c]), mem[c], p / NENTRIES) && |free| == |old(free)| - 1 - TableCost(old(mem[c]), p / NENTRIES)
      ensures !ok ==> |old(free)| <= TableCost(old(mem[c]), p / NENTRIES)
    {
      hide Chain, Tables, Make, FrameOf, Present, FreeSet, View, Owns, Copied, FlagsOf, OnlyIn, SpaceOf, AddedAt,
        TableCost;
      var pte := ReadPte(pg, p, ptabs, pdata);
      SpaceApart(mem, free, first, pg, ptabs, pdata);
      ghost var s, parent := {c} + tabs0.Keys + FreeSet(free), View(mem, pg);
      var m;
      ok, m, tabs, data := CopyOne(c, p, FrameOf(pte), FlagsOf(pte), tabs0, data0, kernel, parent, pdata);
      ghost var spare := if !ok && m.Frame? then {m.f} else {};
      ChildSets(pool, c, old(FreeSet(free)), tabs0.Keys, data0.Keys, FreeSet(free), tabs.Keys, data.Keys, spare);
      OnlyInMore(old(mem), mem, s, pool);
      SpaceAside(old(mem), old(free), mem, free, first, pg, ptabs, pdata, s);
      if !ok {
        ghost var mem1 := mem;
        CopyFail(c, m, tabs, data);
        OnlyInStep(old(mem), mem1, mem, pool, {c} + tabs.Keys + data.Keys + spare);
      }
    }

    /** copyuvm's loop over the parent's pages. */
    method CopyPages(c: nat, pg: nat, sz: nat, ghost tabs0: map<nat, nat>, ghost ptabs: map<nat, nat>,
                     ghost pdata: map<nat, nat>,
                     ghost parent: map<nat, nat>, ghost pool: set<nat>)
      returns (ok: bool, ghost tabs: map<nat, nat>, ghost data: map<nat, nat>)
      requires Space(c, tabs0, map[]) && c < NFRAMES && View(mem, c) == KernelView(kdata, 4)
      requires Space(pg, ptabs, pdata) && pg < NFRAMES && View(mem, pg) == parent && sz <= KERNBASE
      requires pool == FreeSet(free) + {c} + tabs0.Keys && pool !! {pg} + ptabs.Keys + pdata.Keys
      requires KernelDir(kdata, 4, mem[c]) && forall v: nat :: v < PagesUp(sz) ==> v in parent
      modifies `mem, `freelist, `free
      ensures ok <==> |old(free)| >= PagesUp(sz) + TablesUp(PagesUp(sz))
      ensures Valid() && OnlyIn(old(mem), mem, pool)
      ensures !ok ==> FreeSet(free) == pool
      ensures ok ==> Space(c, tabs, data) && Copied(View(mem, c), KernelView(kdata, 4), parent, PagesUp(sz), mem)
      ensures ok ==> FreeSet(free) + {c} + tabs.Keys + data.Keys == pool
    {
      hide Chain, Tables, Make, FrameOf, Present, FreeSet, View, Owns, Copied, KernelView, FlagsOf, OnlyIn, SpaceOf,
        PresentAfter, NewTables, AddedAt, TableCost, KernelDir;
      ghost var kernel, dir := KernelView(kdata, 4), mem[c];
      tabs, data := tabs0, map[];
      KernelBelow(kdata, 4);
      CopiedNone(kernel, parent, mem);
      OnlyInNone(mem, pool);
      NonePresent(dir, 0);
      var p := 0;
      while p * PGSIZE < sz
        invariant 0 <= p <= PagesUp(sz) && Space(c, tabs, data) && Space(pg, ptabs, pdata) && View(mem, pg) == parent
        invariant OnlyIn(old(mem), mem, pool) && FreeSet(free) + {c} + tabs.Keys + data.Keys == pool
        invariant Copied(View(mem, c), kernel, parent, p, mem)
        invariant PresentAfter(dir, mem[c], 0, p) && |free| + p + NewTables(dir, 0, p) == |old(free)|
      {
        UserTables(kdata, dir, p);
        UserTables(kdata, dir, p + 1);
        DirPages(dir, mem[c], p, kdata);
        NextCost(dir, mem[c], 0, p);
        ghost var mem0 := mem;
        ok, tabs, data := CopyStep(c, pg, p, tabs, data, ptabs, pdata, kernel, pool);
        OnlyInStep(old(mem), mem0, mem, pool, pool);
        if !ok {
          return;
        }
        NextPresent(dir, mem0[c], mem[c], 0, p);
        p := p + 1;
      }
      UserTables(kdata, dir, p);
      ok := true;
    }

    /**
     copyuvm. The pages below `sz` are mapped in the parent, or the code panics. The child's frames
     all come from the free list, so they are disjoint from the parent's.
     */
    method CopyUvm(pg: nat, sz: nat, ghost ptabs: map<nat, nat>, ghost pdata: map<nat, nat>)
      returns (r: Opt, ghost tabs: map<nat, nat>, ghost data: map<nat, nat>)
      requires Space(pg, ptabs, pdata) && sz <= KERNBASE
      requires forall v: nat :: v < PagesUp(sz) ==> v in View(mem, pg)
      modifies `mem, `freelist, `free
      ensures Space(pg, ptabs, pdata) && View(mem, pg) == old(View(mem, pg))
      ensures OnlyIn(old(mem), mem, old(FreeSet(free)))
      ensures r.Null? ==> FreeSet(free) == old(FreeSet(free))
      ensures r.Frame? ==> Space(r.f, tabs, data)
      ensures r.Frame? ==> Copied(View(mem, r.f), KernelView(kdata, 4), View(mem, pg), PagesUp(sz), mem)
      ensures r.Frame? ==> FreeSet(free) + {r.f} + tabs.Keys + data.Keys == old(FreeSet(free))
      ensures r.Frame? <==> |old(free)| >= KERNELFRAMES + PagesUp(sz) + TablesUp(PagesUp(sz))
    {
      hide Chain, Tables, Make, FrameOf, Present, FreeSet, View, Owns, Copied, KernelView, FlagsOf, OnlyIn, SpaceOf;
      SpaceApart(mem, free, first, pg, ptabs, pdata);
      ghost var parent, kernel, hi, pool := View(mem, pg), KernelView(kdata, 4), PagesUp(sz), FreeSet(free);
      data := map[];
      r, tabs := SetupKvm();
      OtherKept(old(mem), old(free), mem, free, first, pg, ptabs, pdata);
      if r.Null? {
        return;
      }
      SpaceApart(mem, free, first, r.f, tabs, data);
      ghost var mem0 := mem;
      var ok;
      ok, tabs, data := CopyPages(r.f, pg, sz, tabs, ptabs, pdata, parent, pool);
      OnlyInStep(old(mem), mem0, mem, pool, pool);
      OtherKept(old(mem), old(free), mem, free, first, pg, ptabs, pdata);
      if !ok {
        r := Null;
      }
    }
  }
}
