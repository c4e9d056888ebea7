/**
 The physical page allocator of kalloc.c: a free list threaded through the first word of
 each free page.
 */
module Frames {
  import opened PageTable

  const KERNBASE := 0x80000000
  const NFRAMES := 0xE000

  /** P2V of a frame's address. */
  function P2V(f: nat): nat { f * PGSIZE + KERNBASE }

  /** The page the allocator leaves behind: every byte is 1. */
  function Junk(): (p: Page)
    ensures |p| == NENTRIES
  {
    seq(NENTRIES, _ => 0x01010101)
  }

  datatype Opt = Null | Frame(f: nat)

  function Link(free: seq<nat>, i: nat): nat {
    if i < |free| then P2V(free[i]) else 0
  }

  /** The words reached from `head` spell out `free`, each frame once, all past the kernel. */
  ghost predicate Chain(mem: Mem, head: nat, free: seq<nat>, first: nat) {
    && head == Link(free, 0)
    && (forall i: nat :: i < |free| ==> first <= free[i] < |mem| && NextAt(mem, free, i))
    && (forall i: nat, j: nat :: i < j < |free| ==> free[i] != free[j])
  }

  ghost predicate NextAt(mem: Mem, free: seq<nat>, i: nat) {
    i < |free| && free[i] < |mem| && |mem[free[i]]| > 0 && mem[free[i]][0] == Link(free, i + 1)
  }

  ghost function FreeSet(free: seq<nat>): set<nat> { set f | f in free }

  predicate Within(f: nat, lo: nat, hi: nat) { lo <= f < hi }

  ghost function Range(lo: nat, hi: nat): set<nat> { set f: nat | f < hi && Within(f, lo, hi) }

  /** Only frames of `s` differ. */
  ghost predicate OnlyIn(mem: Mem, mem': Mem, s: set<nat>) {
    |mem'| == |mem| && forall f: nat :: f < |mem| && f !in s ==> mem'[f] == mem[f]
  }

  lemma ChainFrame(mem: Mem, mem': Mem, head: nat, free: seq<nat>, first: nat, s: set<nat>)
    requires Chain(mem, head, free, first) && OnlyIn(mem, mem', s) && FreeSet(free) !! s
    ensures Chain(mem', head, free, first)
  {
    forall i: nat | i < |free| ensures NextAt(mem', free, i) {
      assert NextAt(mem, free, i);
      assert free[i] in FreeSet(free);
    }
  }

  lemma ChainPush(mem: Mem, mem': Mem, head: nat, free: seq<nat>, first: nat, f: nat)
    requires Sized(mem) && Sized(mem') && Chain(mem, head, free, first)
    requires first <= f < |mem| && f !in free && OnlyIn(mem, mem', {f}) && mem'[f][0] == head
    ensures Chain(mem', P2V(f), [f] + free, first) && FreeSet([f] + free) == FreeSet(free) + {f}
  {
    hide P2V;
    var more := [f] + free;
    forall i: nat | i < |more| ensures first <= more[i] < |mem'| && NextAt(mem', more, i) {
      assert Link(more, i + 1) == Link(free, i);
      if i > 0 {
        assert more[i] == free[i - 1] && NextAt(mem, free, i - 1);
        assert free[i - 1] in free;
      }
    }
  }

  lemma ChainPop(mem: Mem, head: nat, free: seq<nat>, first: nat)
    requires Sized(mem) && Chain(mem, head, free, first) && free != []
    ensures head == P2V(free[0]) && free[0] < |mem|
    ensures Chain(mem, mem[free[0]][0], free[1..], first)
    ensures FreeSet(free) == FreeSet(free[1..]) + {free[0]} && free[0] !in FreeSet(free[1..])
  {
    hide P2V;
    var rest := free[1..];
    assert NextAt(mem, free, 0);
    forall i: nat | i < |rest| ensures first <= rest[i] < |mem| && NextAt(mem, rest, i) && rest[i] != free[0] {
      assert rest[i] == free[i + 1] && Link(rest, i + 1) == Link(free, i + 2);
      assert NextAt(mem, free, i + 1);
    }
    assert Link(rest, 0) == Link(free, 1);
    assert free == [free[0]] + rest;
  }
}
