/**
 The whole of physical memory. Every frame the allocator manages is on the free list, lent out, or
 part of exactly one address space, and every routine of vm.c and kalloc.c keeps it so.
 */
module Ledger {
  import opened PageTable
  import opened Frames
  import opened AddressSpace
  import opened FrameBudget
  import opened Vm

  /** What a frame is used for: a frame not yet given to the allocator, or taken for a stack or a pipe, is lent. */
  datatype Use = Free | Lent | Of(d: nat)

  /** The table and data frames of one directory. */
  datatype Holding = Holding(tabs: map<nat, nat>, data: map<nat, nat>)

  ghost function FramesOf(d: nat, h: Holding): set<nat> {
    {d} + h.tabs.Keys + h.data.Keys
  }

  ghost predicate Spaces(mem: Mem, free: seq<nat>, first: nat, spaces: map<nat, Holding>) {
    forall d: nat :: d in spaces ==> SpaceOf(mem, free, first, d, spaces[d].tabs, spaces[d].data)
  }

  /** `owner` gives every frame past the kernel its one use, and the free list and the spaces are what it says. */
  ghost predicate Accounts(owner: map<nat, Use>, free: seq<nat>, first: nat, spaces: map<nat, Holding>) {
    && (forall f: nat :: f in owner <==> first <= f < NFRAMES)
    && (forall f: nat :: f in FreeSet(free) <==> f in owner && owner[f] == Free)
    && (forall d: nat, f: nat :: d in spaces && f in FramesOf(d, spaces[d]) ==> f in owner && owner[f] == Of(d))
    && (forall f: nat :: f in owner && owner[f].Of? ==>
         owner[f].d in spaces && f in FramesOf(owner[f].d, spaces[owner[f].d]))
  }

  /** The books after directory `d` came to hold `frames` and the free list became `free`. */
  ghost function Booked(owner: map<nat, Use>, free: seq<nat>, d: nat, frames: set<nat>): map<nat, Use> {
    map f: nat | f in owner :: if f in FreeSet(free) then Free else if f in frames then Of(d) else owner[f]
  }

  /** The books after the frames of `moved` got another use. */
  ghost function Moved(owner: map<nat, Use>, moved: set<nat>, use: Use): map<nat, Use> {
    map f: nat | f in owner :: if f in moved then use else owner[f]
  }

  /** What directory `d` holds, if it is one. */
  ghost function Now(spaces: map<nat, Holding>, d: nat): set<nat> {
    if d in spaces then FramesOf(d, spaces[d]) else {}
  }

  /** An address space keeps its translations, and every one of its frames its contents. */
  ghost predicate Intact(mem: Mem, mem': Mem, d: nat, h: Holding) {
    && Sized(mem) && Sized(mem') && |mem'| == |mem| && d < |mem| && View(mem', d) == View(mem, d)
    && forall f: nat :: f in FramesOf(d, h) && f < |mem| ==> mem'[f] == mem[f]
  }

  ghost predicate AllIntact(mem: Mem, mem': Mem, spaces: map<nat, Holding>) {
    forall e: nat :: e in spaces ==> Intact(mem, mem', e, spaces[e])
  }

  lemma ApartIntact(mem: Mem, mem': Mem, d: nat, h: Holding, s: set<nat>)
    requires Sized(mem) && Sized(mem') && d < |mem| && OnlyIn(mem, mem', s) && FramesOf(d, h) !! s
    requires d < |mem'| ==> View(mem', d) == View(mem, d)
    ensures Intact(mem, mem', d, h)
  {
    hide View, Sized;
  }

  /** Work on one directory's frames and the free ones leaves every other address space alone. */
  lemma OthersKept(mem: Mem, free: seq<nat>, first: nat, spaces: map<nat, Holding>, owner: map<nat, Use>,
                   mem': Mem, free': seq<nat>, d: nat, e: nat)
    requires Spaces(mem, free, first, spaces) && Accounts(owner, free, first, spaces) && Sized(mem')
    requires OnlyIn(mem, mem', Now(spaces, d) + FreeSet(free)) && FreeSet(free') <= Now(spaces, d) + FreeSet(free)
    requires e in spaces && e != d
    ensures SpaceOf(mem', free', first, e, spaces[e].tabs, spaces[e].data) && Intact(mem, mem', e, spaces[e])
  {
    hide SpaceOf, FreeSet, View, Sized, OnlyIn, Intact;
    var s := Now(spaces, d) + FreeSet(free);
    assert FramesOf(e, spaces[e]) !! s;
    SpaceApart(mem, free, first, e, spaces[e].tabs, spaces[e].data);
    SpaceAside(mem, free, mem', free', first, e, spaces[e].tabs, spaces[e].data, s);
    ApartIntact(mem, mem', e, spaces[e], s);
  }

  /** The holding of `d` changes (or begins), and the frames change hands between it and the free list. */
  lemma Settle(mem: Mem, free: seq<nat>, first: nat, spaces: map<nat, Holding>, owner: map<nat, Use>,
               mem': Mem, free': seq<nat>, d: nat, h: Holding)
    requires Spaces(mem, free, first, spaces) && Accounts(owner, free, first, spaces) && Sized(mem')
    requires OnlyIn(mem, mem', Now(spaces, d) + FreeSet(free))
    requires FramesOf(d, h) + FreeSet(free') == Now(spaces, d) + FreeSet(free) && FramesOf(d, h) !! FreeSet(free')
    requires SpaceOf(mem', free', first, d, h.tabs, h.data)
    ensures Spaces(mem', free', first, spaces[d := h])
    ensures Accounts(Booked(owner, free', d, FramesOf(d, h)), free', first, spaces[d := h])
    ensures AllIntact(mem, mem', spaces - {d})
  {
    hide SpaceOf, FreeSet, FramesOf, Intact;
    forall e: nat | e in spaces && e != d
      ensures SpaceOf(mem', free', first, e, spaces[e].tabs, spaces[e].data) && Intact(mem, mem', e, spaces[e])
    {
      OthersKept(mem, free, first, spaces, owner, mem', free', d, e);
    }
  }

  /** Directory `d` is given up, and all its frames with it. */
  lemma Close(mem: Mem, free: seq<nat>, first: nat, spaces: map<nat, Holding>, owner: map<nat, Use>,
              mem': Mem, free': seq<nat>, d: nat)
    requires Spaces(mem, free, first, spaces) && Accounts(owner, free, first, spaces) && Sized(mem') && d in spaces
    requires OnlyIn(mem, mem', Now(spaces, d) + FreeSet(free)) && FreeSet(free') == Now(spaces, d) + FreeSet(free)
    ensures Spaces(mem', free', first, spaces - {d})
    ensures Accounts(Booked(owner, free', d, {}), free', first, spaces - {d})
    ensures AllIntact(mem, mem', spaces - {d})
  {
    hide SpaceOf, FreeSet, FramesOf, Intact;
    forall e: nat | e in spaces && e != d
      ensures SpaceOf(mem', free', first, e, spaces[e].tabs, spaces[e].data) && Intact(mem, mem', e, spaces[e])
    {
      OthersKept(mem, free, first, spaces, owner, mem', free', d, e);
    }
  }

  /** Frames of no address space move between the free list and their borrowers. */
  lemma Lend(mem: Mem, free: seq<nat>, first: nat, spaces: map<nat, Holding>, owner: map<nat, Use>,
             mem': Mem, free': seq<nat>, moved: set<nat>, use: Use)
    requires Spaces(mem, free, first, spaces) && Accounts(owner, free, first, spaces) && Sized(mem') && !use.Of?
    requires OnlyIn(mem, mem', moved) && forall f: nat :: f in moved ==> f in owner && !owner[f].Of?
    requires FreeSet(free') == if use == Free then FreeSet(free) + moved else FreeSet(free) - moved
    ensures Spaces(mem', free', first, spaces)
    ensures Accounts(Moved(owner, moved, use), free', first, spaces) && AllIntact(mem, mem', spaces)
  {
    hide SpaceOf, FreeSet, FramesOf, Sized, OnlyIn, Intact;
    forall d: nat | d in spaces
      ensures SpaceOf(mem', free', first, d, spaces[d].tabs, spaces[d].data) && Intact(mem, mem', d, spaces[d])
    {
      assert FramesOf(d, spaces[d]) !! moved && FramesOf(d, spaces[d]) !! FreeSet(free);
      LendAside(mem, free, first, spaces[d], mem', free', moved, d);
    }
  }

  lemma LendAside(mem: Mem, free: seq<nat>, first: nat, h: Holding, mem': Mem, free': seq<nat>, moved: set<nat>, d: nat)
    requires SpaceOf(mem, free, first, d, h.tabs, h.data) && Sized(mem') && OnlyIn(mem, mem', moved)
    requires FramesOf(d, h) !! moved && FramesOf(d, h) !! FreeSet(free) && FreeSet(free') <= FreeSet(free) + moved
    ensures SpaceOf(mem', free', first, d, h.tabs, h.data) && Intact(mem, mem', d, h)
  {
    hide SpaceOf, FreeSet, View, Sized, OnlyIn, Intact;
    SpaceApart(mem, free, first, d, h.tabs, h.data);
    SpaceAside(mem, free, mem', free', first, d, h.tabs, h.data, moved);
    ApartIntact(mem, mem', d, h, moved);
  }

  /** Frame `f` is held by directory `d`. */
  ghost predicate HeldBy(spaces: map<nat, Holding>, d: nat, f: nat) {
    d in spaces && f in FramesOf(d, spaces[d])
  }

  /**
   Every frame is on the free list, lent, or held by an address space; and it is only one of these,
   and of one space.
   */
  lemma EveryFrame(owner: map<nat, Use>, free: seq<nat>, first: nat, spaces: map<nat, Holding>, f: nat, d: nat, e: nat)
    requires Accounts(owner, free, first, spaces) && first <= f < NFRAMES
    ensures f in owner && (f in FreeSet(free) || owner[f] == Lent || exists c: nat :: HeldBy(spaces, c, f))
    ensures !(f in FreeSet(free) && owner[f] == Lent) && !(f in FreeSet(free) && HeldBy(spaces, d, f))
    ensures !(owner[f] == Lent && HeldBy(spaces, d, f)) && (HeldBy(spaces, d, f) && HeldBy(spaces, e, f) ==> d == e)
  {
    hide FramesOf, FreeSet;
    if owner[f].Of? {
      assert HeldBy(spaces, owner[f].d, f);
    }
  }

  lemma MovedIs(owner: map<nat, Use>, free: seq<nat>, first: nat, spaces: map<nat, Holding>, f: nat)
    requires Accounts(owner, free, first, spaces)
    ensures f in owner <==> first <= f < NFRAMES
    ensures f in FreeSet(free) <==> f in owner && owner[f] == Free
  {
    hide FramesOf, FreeSet;
  }

  /** A frame that was free is no directory. */
  lemma NewHere(mem: Mem, free: seq<nat>, first: nat, spaces: map<nat, Holding>, owner: map<nat, Use>, d: nat)
    requires Accounts(owner, free, first, spaces) && d in FreeSet(free)
    ensures d !in spaces && Now(spaces, d) == {}
  {
    hide FreeSet;
    assert d in spaces ==> d in FramesOf(d, spaces[d]);
  }

  /** A call that failed wrote only to free frames and gave them all back. */
  lemma SameFree(mem: Mem, free: seq<nat>, first: nat, spaces: map<nat, Holding>, owner: map<nat, Use>, mem': Mem,
                 free': seq<nat>)
    requires Spaces(mem, free, first, spaces) && Accounts(owner, free, first, spaces) && Sized(mem')
    requires OnlyIn(mem, mem', FreeSet(free)) && FreeSet(free') == FreeSet(free)
    ensures Spaces(mem', free', first, spaces) && Accounts(owner, free', first, spaces) && AllIntact(mem, mem', spaces)
  {
    hide SpaceOf, FreeSet, FramesOf, View, Sized, OnlyIn, Intact;
    forall d: nat | d in spaces
      ensures SpaceOf(mem', free', first, d, spaces[d].tabs, spaces[d].data) && Intact(mem, mem', d, spaces[d])
    {
      SpaceApart(mem, free, first, d, spaces[d].tabs, spaces[d].data);
      OtherKept(mem, free, mem', free', first, d, spaces[d].tabs, spaces[d].data);
      ApartIntact(mem, mem', d, spaces[d], FreeSet(free));
    }
  }

  lemma ApartFree(h: Holding, d: nat, free: seq<nat>)
    requires ({d} + h.tabs.Keys + FreeSet(free)) !! h.data.Keys && ({d} + h.tabs.Keys) !! FreeSet(free)
    ensures FramesOf(d, h) !! FreeSet(free)
  {
  }

  lemma SpaceIn(mem: Mem, free: seq<nat>, first: nat, spaces: map<nat, Holding>, d: nat)
    requires Spaces(mem, free, first, spaces) && d in spaces
    ensures SpaceOf(mem, free, first, d, spaces[d].tabs, spaces[d].data)
  {
  }

  /** Where kinit1 stops and kinit2 goes on: 4 MB. */
  const BOOTFRAMES := 1024

  class Kernel {
    const m: Machine
    ghost var owner: map<nat, Use>
    ghost var spaces: map<nat, Holding>

    ghost predicate Valid()
      reads this, m
    {
      m.Valid() && Spaces(m.mem, m.free, m.first, spaces) && Accounts(owner, m.free, m.first, spaces)
    }

    /** kinit1: the frames past the kernel up to 4 MB are free, the rest not yet the allocator's. */
    constructor (first: nat, kdata: nat, image: Mem)
      requires 0 < first <= BOOTFRAMES && EXTMEM < kdata < NFRAMES && Sized(image) && |image| == NFRAMES
      ensures Valid() && spaces == map[] && fresh(m) && m.first == first && m.kdata == kdata
      ensures FreeSet(m.free) == Range(first, BOOTFRAMES)
      ensures forall f: nat :: BOOTFRAMES <= f < NFRAMES ==> f in owner && owner[f] == Lent
    {
      m := new Machine(first, kdata, image);
      spaces := map[];
      owner := map f: nat | f < NFRAMES && Within(f, first, NFRAMES) :: if f < BOOTFRAMES then Free else Lent;
      new;
      m.FreeRange(first, BOOTFRAMES);
    }

    /** kinit2: the rest of memory joins the free list. */
    method Kinit2()
      requires Valid() && m.first <= BOOTFRAMES
      requires forall f: nat :: BOOTFRAMES <= f < NFRAMES ==> f in owner && owner[f] == Lent
      modifies this, m
      ensures Valid() && spaces == old(spaces) && FreeSet(m.free) == old(FreeSet(m.free)) + Range(BOOTFRAMES, NFRAMES)
      ensures AllIntact(old(m.mem), m.mem, spaces)
    {
      hide Spaces, Chain, AllIntact;
      ghost var moved := Range(BOOTFRAMES, NFRAMES);
      m.FreeRange(BOOTFRAMES, NFRAMES);
      Lend(old(m.mem), old(m.free), m.first, spaces, owner, m.mem, m.free, moved, Free);
      owner := Moved(owner, moved, Free);
    }

    method Kalloc() returns (r: Opt)
      requires Valid()
      modifies this, m
      ensures Valid() && spaces == old(spaces) && (r.Null? <==> old(m.free) == [])
      ensures r.Frame? ==>
        && r.f in old(FreeSet(m.free)) && FreeSet(m.free) == old(FreeSet(m.free)) - {r.f}
        && r.f in owner && owner[r.f] == Lent
      ensures m.mem == old(m.mem)
    {
      hide Spaces, Chain, Accounts, FreeSet, AllIntact;
      r := m.Kalloc();
      if r.Frame? {
        MovedIs(owner, old(m.free), m.first, spaces, r.f);
        Lend(old(m.mem), old(m.free), m.first, spaces, owner, m.mem, m.free, {r.f}, Lent);
        owner := Moved(owner, {r.f}, Lent);
      }
    }

    /** kfree of a frame that was lent. */
    method Kfree(f: nat)
      requires Valid() && f in owner && owner[f] == Lent
      modifies this, m
      ensures Valid() && spaces == old(spaces) && FreeSet(m.free) == old(FreeSet(m.free)) + {f}
      ensures AllIntact(old(m.mem), m.mem, spaces)
    {
      hide Spaces, Chain, Accounts, FreeSet, AllIntact;
      MovedIs(owner, m.free, m.first, spaces, f);
      m.Kfree(f);
      Lend(old(m.mem), old(m.free), m.first, spaces, owner, m.mem, m.free, {f}, Free);
      owner := Moved(owner, {f}, Free);
    }

    /** A new address space, made of frames that were free. */
    ghost method Begin(mem0: Mem, free0: seq<nat>, d: nat, h: Holding)
      requires m.Valid() && Spaces(mem0, free0, m.first, spaces) && Accounts(owner, free0, m.first, spaces)
      requires OnlyIn(mem0, m.mem, FreeSet(free0)) && FramesOf(d, h) + FreeSet(m.free) == FreeSet(free0)
      requires SpaceOf(m.mem, m.free, m.first, d, h.tabs, h.data)
      modifies `owner, `spaces
      ensures Valid() && d !in old(spaces) && spaces == old(spaces)[d := h]
      ensures AllIntact(mem0, m.mem, old(spaces))
    {
      hide Spaces, Chain, Accounts, FreeSet, SpaceOf, OnlyIn, View, Sized, Intact, AllIntact;
      assert d in FramesOf(d, h);
      NewHere(mem0, free0, m.first, spaces, owner, d);
      assert Now(spaces, d) + FreeSet(free0) == FreeSet(free0);
      SpaceApart(m.mem, m.free, m.first, d, h.tabs, h.data);
      assert spaces - {d} == spaces;
      Settle(mem0, free0, m.first, spaces, owner, m.mem, m.free, d, h);
      owner := Booked(owner, m.free, d, FramesOf(d, h));
      spaces := spaces[d := h];
    }

    /** setupkvm, into a new address space. */
    method SetupKvm() returns (r: Opt)
      requires Valid()
      modifies this, m
      ensures Valid() && (r.Frame? <==> |old(m.free)| >= KERNELFRAMES) && AllIntact(old(m.mem), m.mem, old(spaces))
      ensures r.Null? ==> spaces == old(spaces) && FreeSet(m.free) == old(FreeSet(m.free))
      ensures r.Frame? ==>
        r.f !in old(spaces) && r.f in spaces && spaces == old(spaces)[r.f := spaces[r.f]] && spaces[r.f].data == map[]
      ensures r.Frame? ==> View(m.mem, r.f) == KernelView(m.kdata, 4)
    {
      hide Spaces, Chain, Accounts, FreeSet, SpaceOf, OnlyIn, View, KernelView, Tables, AllIntact;
      ghost var tabs;
      r, tabs := m.SetupKvm();
      if r.Frame? {
        Begin(old(m.mem), old(m.free), r.f, Holding(tabs, map[]));
      } else {
        SameFree(old(m.mem), old(m.free), m.first, spaces, owner, m.mem, m.free);
      }
    }

    /** A call changed what directory `d` holds. */
    ghost method Change(mem0: Mem, free0: seq<nat>, d: nat, h: Holding)
      requires m.Valid() && Spaces(mem0, free0, m.first, spaces) && Accounts(owner, free0, m.first, spaces)
      requires d in spaces
      requires OnlyIn(mem0, m.mem, FramesOf(d, spaces[d]) + FreeSet(free0))
      requires FramesOf(d, h) + FreeSet(m.free) == FramesOf(d, spaces[d]) + FreeSet(free0)
      requires SpaceOf(m.mem, m.free, m.first, d, h.tabs, h.data)
      modifies `owner, `spaces
      ensures Valid() && spaces == old(spaces)[d := h] && AllIntact(mem0, m.mem, old(spaces) - {d})
    {
      hide Spaces, Chain, Accounts, FreeSet, SpaceOf, OnlyIn, FramesOf, View, Sized, AllIntact;
      SpaceApart(m.mem, m.free, m.first, d, h.tabs, h.data);
      ApartFree(h, d, m.free);
      Settle(mem0, free0, m.first, spaces, owner, m.mem, m.free, d, h);
      owner := Booked(owner, m.free, d, FramesOf(d, h));
      spaces := spaces[d := h];
    }

    /** allocuvm on a directory of the books. */
    method AllocUvm(d: nat, oldsz: nat, newsz: nat) returns (sz: nat)
      requires Valid() && d in spaces
      requires forall v: nat :: PagesUp(oldsz) <= v < PagesUp(newsz) ==> v !in View(m.mem, d)
      modifies this, m
      ensures Valid() && d in spaces && spaces == old(spaces)[d := spaces[d]]
      ensures oldsz <= newsz < KERNBASE ==>
        var lo, hi := PagesUp(oldsz), PagesUp(newsz);
        sz == newsz <==> |old(m.free)| >= hi - lo + NewTables(old(m.mem[d]), lo, hi)
      ensures oldsz <= newsz < KERNBASE && sz == newsz ==>
        Grown(old(View(m.mem, d)), View(m.mem, d), PagesUp(oldsz), PagesUp(newsz))
      ensures !(oldsz <= newsz < KERNBASE && sz == newsz) ==>
        View(m.mem, d) == old(View(m.mem, d)) && spaces[d].data == old(spaces)[d].data
      ensures AllIntact(old(m.mem), m.mem, old(spaces) - {d})
    {
      hide Spaces, Chain, Accounts, FreeSet, SpaceOf, OnlyIn, View, Grown, Fresh, NewTables, AllIntact;
      SpaceIn(m.mem, m.free, m.first, spaces, d);
      ghost var h, tabs, data := spaces[d], map[], map[];
      sz, tabs, data := m.AllocUvm(d, oldsz, newsz, h.tabs, h.data);
      OnlyInMore(old(m.mem), m.mem, {d} + h.tabs.Keys + old(FreeSet(m.free)), FramesOf(d, h) + old(FreeSet(m.free)));
      Change(old(m.mem), old(m.free), d, Holding(tabs, data));
    }

    /** deallocuvm on a directory of the books. */
    method DeallocUvm(d: nat, oldsz: nat, newsz: nat) returns (sz: nat)
      requires Valid() && d in spaces && oldsz <= KERNBASE
      modifies this, m
      ensures Valid() && d in spaces && spaces == old(spaces)[d := spaces[d]] && spaces[d].tabs == old(spaces)[d].tabs
      ensures View(m.mem, d) == Without(old(View(m.mem, d)), PagesUp(newsz), PagesUp(oldsz))
      ensures FreeSet(m.free) == old(FreeSet(m.free)) + (old(spaces)[d].data.Keys - spaces[d].data.Keys)
      ensures AllIntact(old(m.mem), m.mem, old(spaces) - {d})
    {
      hide Spaces, Chain, Accounts, FreeSet, SpaceOf, OnlyIn, View, Without, AllIntact;
      SpaceIn(m.mem, m.free, m.first, spaces, d);
      ghost var h, data := spaces[d], map[];
      sz, data := m.DeallocUvm(d, oldsz, newsz, h.tabs, h.data);
      OnlyInMore(old(m.mem), m.mem, h.tabs.Keys + (h.data.Keys - data.Keys), FramesOf(d, h) + old(FreeSet(m.free)));
      SpaceApart(m.mem, m.free, m.first, d, h.tabs, data);
      SpaceApart(old(m.mem), old(m.free), m.first, d, h.tabs, h.data);
      Change(old(m.mem), old(m.free), d, Holding(h.tabs, data));
    }

    /** freevm: a directory leaves the books, and all its frames are free. */
    method FreeVm(d: nat)
      requires Valid() && d in spaces
      modifies this, m
      ensures Valid() && spaces == old(spaces) - {d} && AllIntact(old(m.mem), m.mem, spaces)
      ensures FreeSet(m.free) == old(FreeSet(m.free)) + FramesOf(d, old(spaces)[d])
    {
      hide Spaces, Chain, Accounts, FreeSet, SpaceOf, OnlyIn, AllIntact;
      SpaceIn(m.mem, m.free, m.first, spaces, d);
      ghost var h := spaces[d];
      m.FreeVm(d, h.tabs, h.data);
      OnlyInMore(old(m.mem), m.mem, {d} + h.tabs.Keys + h.data.Keys, FramesOf(d, h) + old(FreeSet(m.free)));
      assert FreeSet(m.free) == FramesOf(d, h) + old(FreeSet(m.free));
      Close(old(m.mem), old(m.free), m.first, spaces, owner, m.mem, m.free, d);
      owner := Booked(owner, m.free, d, {});
      spaces := spaces - {d};
    }

    /** copyuvm: the child is a new address space, the parent and every other one untouched. */
    method CopyUvm(pg: nat, sz: nat) returns (r: Opt)
      requires Valid() && pg in spaces && sz <= KERNBASE
      requires forall v: nat :: v < PagesUp(sz) ==> v in View(m.mem, pg)
      modifies this, m
      ensures Valid() && (r.Frame? <==> |old(m.free)| >= KERNELFRAMES + PagesUp(sz) + TablesUp(PagesUp(sz)))
      ensures r.Null? ==> spaces == old(spaces) && FreeSet(m.free) == old(FreeSet(m.free))
      ensures r.Frame? ==>
        r.f !in old(spaces) && r.f in spaces && spaces == old(spaces)[r.f := spaces[r.f]] && r.f < |m.mem|
      ensures pg < |m.mem| && View(m.mem, pg) == old(View(m.mem, pg)) && AllIntact(old(m.mem), m.mem, old(spaces))
      ensures r.Frame? ==> Copied(View(m.mem, r.f), KernelView(m.kdata, 4), View(m.mem, pg), PagesUp(sz), m.mem)
    {
      hide Spaces, Chain, Accounts, FreeSet, SpaceOf, OnlyIn, View, KernelView, Copied, AllIntact;
      SpaceIn(m.mem, m.free, m.first, spaces, pg);
      ghost var h, tabs, data := spaces[pg], map[], map[];
      r, tabs, data := m.CopyUvm(pg, sz, h.tabs, h.data);
      if r.Frame? {
        SpaceApart(m.mem, m.free, m.first, r.f, tabs, data);
        Begin(old(m.mem), old(m.free), r.f, Holding(tabs, data));
      } else {
        SameFree(old(m.mem), old(m.free), m.first, spaces, owner, m.mem, m.free);
      }
    }
  }
}
