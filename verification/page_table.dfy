/**
 Two-level page tables as vm.c lays them out (32-bit paging, section 4.3 of the Intel SDM,
 volume 3A): a directory page of 1024 entries, each naming a page of 1024 entries. Virtual
 pages, frames and 32-bit words are naturals; a word is frame * 4096 + flags.
 */
module PageTable {
  const PGSIZE := 4096
  const NENTRIES := 1024
  const NPAGES := 0x100000
  const USERPAGES := 0x80000
  const PTE_P := 1
  const PTE_W := 2
  const PTE_U := 4

  type Page = seq<nat>
  type Mem = seq<Page>

  function Make(frame: nat, flags: nat): nat { frame * PGSIZE + flags }
  function FrameOf(w: nat): nat { w / PGSIZE }
  function FlagsOf(w: nat): nat { w % PGSIZE }
  predicate Present(w: nat) { w % 2 == 1 }

  /** `perm | PTE_P` */
  function WithP(perm: nat): nat { if perm % 2 == 1 then perm else perm + 1 }

  lemma MakeParts(frame: nat, flags: nat)
    requires flags < PGSIZE
    ensures FrameOf(Make(frame, flags)) == frame && FlagsOf(Make(frame, flags)) == flags
    ensures Present(Make(frame, flags)) == (flags % 2 == 1)
  {
  }

  predicate Sized(mem: Mem) {
    forall f :: 0 <= f < |mem| ==> |mem[f]| == NENTRIES
  }

  /** One word of one frame is written. */
  function Put(mem: Mem, f: nat, i: nat, w: nat): (r: Mem)
    requires f < |mem| && i < |mem[f]|
    ensures Sized(mem) ==> Sized(r)
  {
    var page: Page := mem[f][i := w];
    mem[f := page]
  }

  function Blank(): (p: Page)
    ensures |p| == NENTRIES
  {
    seq<nat>(NENTRIES, _ => 0)
  }

  /**
   `tabs` names the table pages of directory `d`: each present directory entry holds a
   distinct frame of `tabs`, mapped back to the entry's index.
   */
  ghost predicate Tables(mem: Mem, d: nat, tabs: map<nat, nat>) {
    && Sized(mem) && d < |mem| && d !in tabs
    && (forall f: nat :: f in tabs ==> f < |mem| && TableAt(mem[d], f, tabs[f]))
    && (forall i: nat :: i < NENTRIES && Present(mem[d][i]) ==>
          FrameOf(mem[d][i]) in tabs && tabs[FrameOf(mem[d][i])] == i)
  }

  ghost predicate TableAt(dir: Page, f: nat, i: nat) {
    i < |dir| && Present(dir[i]) && FrameOf(dir[i]) == f && FlagsOf(dir[i]) == PTE_P + PTE_W + PTE_U
  }

  predicate HasFlag(w: nat, flag: nat)
    requires flag > 0
  {
    w / flag % 2 == 1
  }

  /** The hardware allows an access that needs `flag`: both levels are present and carry it. */
  predicate Allows(mem: Mem, d: nat, v: nat, flag: nat)
    requires Sized(mem) && d < |mem| && v < NPAGES && flag > 0
  {
    var pde := mem[d][v / NENTRIES];
    && Present(pde) && HasFlag(pde, flag) && FrameOf(pde) < |mem|
    && Present(mem[FrameOf(pde)][v % NENTRIES]) && HasFlag(mem[FrameOf(pde)][v % NENTRIES], flag)
  }

  /** The word that translates virtual page `v`, or 0 where there is no table. */
  function Entry(mem: Mem, d: nat, v: nat): nat
    requires Sized(mem) && d < |mem| && v < NPAGES
  {
    var pde := mem[d][v / NENTRIES];
    if Present(pde) && FrameOf(pde) < |mem| then mem[FrameOf(pde)][v % NENTRIES] else 0
  }

  /** The address space as a map from virtual page to its present entry. */
  ghost function View(mem: Mem, d: nat): map<nat, nat>
    requires Sized(mem) && d < |mem|
  {
    map v: nat | v < NPAGES && Present(Entry(mem, d, v)) :: Entry(mem, d, v)
  }

  /** The directory never restricts: a page may be written, or used by user code, exactly if its own entry says so. */
  lemma AccessIs(mem: Mem, d: nat, tabs: map<nat, nat>, v: nat, flag: nat)
    requires Tables(mem, d, tabs) && v < NPAGES && flag in {PTE_P, PTE_W, PTE_U}
    ensures Allows(mem, d, v, flag) <==> v in View(mem, d) && HasFlag(View(mem, d)[v], flag)
  {
    var pde := mem[d][v / NENTRIES];
    if Present(pde) {
      assert TableAt(mem[d], FrameOf(pde), v / NENTRIES);
      assert pde == Make(FrameOf(pde), PTE_P + PTE_W + PTE_U);
    }
  }

  /** An entry of an existing table is written. */
  lemma SetEntry(mem: Mem, d: nat, tabs: map<nat, nat>, v: nat, w: nat, mem': Mem)
    requires Tables(mem, d, tabs) && v < NPAGES && Present(mem[d][v / NENTRIES])
    requires var t := FrameOf(mem[d][v / NENTRIES]); t < |mem| && mem' == Put(mem, t, v % NENTRIES, w)
    ensures Tables(mem', d, tabs)
    ensures forall u: nat :: u < NPAGES ==> Entry(mem', d, u) == if u == v then w else Entry(mem, d, u)
  {
    var t := FrameOf(mem[d][v / NENTRIES]);
    assert t in tabs;
    assert mem'[d] == mem[d];
    forall u: nat | u < NPAGES ensures Entry(mem', d, u) == if u == v then w else Entry(mem, d, u) {
      var pde := mem[d][u / NENTRIES];
      if Present(pde) && FrameOf(pde) == t {
        assert u / NENTRIES == tabs[t] == v / NENTRIES;
        assert u % NENTRIES == v % NENTRIES <==> u == v;
      }
    }
  }

  /** A blank table is hung in an absent directory entry: no translation changes. */
  lemma AddTable(mem: Mem, d: nat, tabs: map<nat, nat>, i: nat, t: nat, pde: nat, mem': Mem)
    requires Tables(mem, d, tabs) && i < NENTRIES && !Present(mem[d][i])
    requires t < |mem| && t !in tabs && t != d && Present(pde) && FrameOf(pde) == t &&
      FlagsOf(pde) == PTE_P + PTE_W + PTE_U
    requires mem' == Put(mem[t := Blank()], d, i, pde)
    ensures Tables(mem', d, tabs[t := i])
    ensures forall u: nat :: u < NPAGES ==> Entry(mem', d, u) == Entry(mem, d, u)
  {
    forall j: nat | j < NENTRIES && Present(mem'[d][j])
      ensures FrameOf(mem'[d][j]) in tabs[t := i] && tabs[t := i][FrameOf(mem'[d][j])] == j
    {
      if j != i {
        assert mem'[d][j] == mem[d][j];
      }
    }
    forall u: nat | u < NPAGES ensures Entry(mem', d, u) == Entry(mem, d, u) {
      if u / NENTRIES != i {
        assert mem'[d][u / NENTRIES] == mem[d][u / NENTRIES];
      }
    }
  }

  /** Writes outside a directory's own pages leave it alone. */
  lemma Untouched(mem: Mem, d: nat, tabs: map<nat, nat>, mem': Mem)
    requires Tables(mem, d, tabs) && Sized(mem') && |mem'| == |mem|
    requires mem'[d] == mem[d] && forall f: nat :: f in tabs && f < |mem| ==> mem'[f] == mem[f]
    ensures Tables(mem', d, tabs) && View(mem', d) == View(mem, d)
    ensures forall u: nat :: u < NPAGES ==> Entry(mem', d, u) == Entry(mem, d, u)
  {
    forall u: nat | u < NPAGES ensures Entry(mem', d, u) == Entry(mem, d, u) {
      var pde := mem[d][u / NENTRIES];
      if Present(pde) {
        assert FrameOf(pde) in tabs;
      }
    }
  }

  lemma ViewSet(mem: Mem, mem': Mem, d: nat, v: nat, w: nat)
    requires Sized(mem) && Sized(mem') && d < |mem| && d < |mem'| && v < NPAGES
    requires forall u: nat :: u < NPAGES ==> Entry(mem', d, u) == if u == v then w else Entry(mem, d, u)
    ensures View(mem', d) == if Present(w) then View(mem, d)[v := w] else View(mem, d) - {v}
  {
  }

  /** A blank directory maps nothing. */
  lemma BlankDir(mem: Mem, d: nat)
    requires Sized(mem) && d < |mem| && mem[d] == Blank()
    ensures Tables(mem, d, map[]) && View(mem, d) == map[]
  {
  }

  /** The `k`th page from `first`, wrapping at the top of the address space. */
  function Nth(first: nat, k: nat): nat { (first + k) % NPAGES }

  /** `n` pages from `first` mapped to consecutive frames from `frame`. */
  ghost function Extend(view: map<nat, nat>, first: nat, n: nat, frame: nat, perm: nat): map<nat, nat> {
    if n == 0 then view
    else Extend(view, first, n - 1, frame, perm)[Nth(first, n - 1) := Make(Nth(frame, n - 1), WithP(perm))]
  }

  /** Exactly the covering pages are added, each with its own frame. */
  lemma {:induction false} ExtendIs(view: map<nat, nat>, first: nat, n: nat, frame: nat, perm: nat)
    requires n <= NPAGES
    ensures forall v: nat :: v in Extend(view, first, n, frame, perm) <==>
      v in view || exists k: nat :: k < n && v == Nth(first, k)
    ensures forall k: nat :: k < n ==>
      Extend(view, first, n, frame, perm)[Nth(first, k)] == Make(Nth(frame, k), WithP(perm))
    ensures forall v: nat :: v in view && (forall k: nat :: k < n ==> v != Nth(first, k)) ==>
      v in Extend(view, first, n, frame, perm) && Extend(view, first, n, frame, perm)[v] == view[v]
  {
    if n > 0 {
      ExtendIs(view, first, n - 1, frame, perm);
      forall k: nat | k < n - 1 ensures Nth(first, k) != Nth(first, n - 1) {
        NthDistinct(first, k, n - 1);
      }
    }
  }

  lemma NthDistinct(first: nat, j: nat, k: nat)
    requires j < k < NPAGES
    ensures Nth(first, j) != Nth(first, k)
  {
  }

  /** Every present user page holds a frame of `data`, and each such frame one page. */
  ghost predicate Owns(view: map<nat, nat>, data: map<nat, nat>) {
    && (forall f: nat :: f in data ==> data[f] < USERPAGES && data[f] in view && FrameOf(view[data[f]]) == f)
    && (forall v: nat :: v in view && v < USERPAGES ==> FrameOf(view[v]) in data && data[FrameOf(view[v])] == v)
  }
}
