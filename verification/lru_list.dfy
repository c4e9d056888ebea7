/**
 The buffer list of bio.c: a circular doubly linked list through `next` and `prev` with a head
 that is not a buffer, here as links between indices with the head at index `h`.
 */
module LruList {
  /** The `i`th buffer after the head, the head itself at either end. */
  function Nth(order: seq<nat>, i: int, h: nat): nat {
    if 0 <= i < |order| then order[i] else h
  }

  ghost predicate LinkAt(next: seq<nat>, prev: seq<nat>, order: seq<nat>, i: int, h: nat) {
    && Nth(order, i, h) < |next| && Nth(order, i + 1, h) < |prev|
    && next[Nth(order, i, h)] == Nth(order, i + 1, h)
    && prev[Nth(order, i + 1, h)] == Nth(order, i, h)
  }

  /** From the head, `next` spells out `order` and `prev` spells it out backwards; no buffer twice. */
  ghost predicate List(next: seq<nat>, prev: seq<nat>, order: seq<nat>, h: nat) {
    && |next| == h + 1 && |prev| == h + 1
    && (forall i :: 0 <= i < |order| ==> order[i] < h)
    && (forall i, j :: 0 <= i < j < |order| ==> order[i] != order[j])
    && (forall i :: -1 <= i < |order| ==> LinkAt(next, prev, order, i, h))
  }

  function Without(order: seq<nat>, k: nat): seq<nat>
    requires k < |order|
  {
    order[..k] + order[k + 1..]
  }

  /** A buffer taken out by joining its neighbours. */
  lemma Unlink(next: seq<nat>, prev: seq<nat>, order: seq<nat>, k: nat, h: nat, next': seq<nat>, prev': seq<nat>)
    requires List(next, prev, order, h) && k < |order|
    requires var b := order[k]; next[b] < |prev| && prev' == prev[next[b] := prev[b]]
    requires var b := order[k]; prev'[b] < |next| && next' == next[prev'[b] := next[b]]
    ensures List(next', prev', Without(order, k), h)
  {
    var b, less := order[k], Without(order, k);
    assert LinkAt(next, prev, order, k - 1, h) && LinkAt(next, prev, order, k, h);
    forall i | -1 <= i < |less| ensures LinkAt(next', prev', less, i, h) {
      if i < k {
        assert LinkAt(next, prev, order, i, h);
      } else {
        assert LinkAt(next, prev, order, i + 1, h);
      }
    }
  }

  /** A buffer put in just after the head. */
  lemma Push(next: seq<nat>, prev: seq<nat>, order: seq<nat>, b: nat, h: nat, next': seq<nat>, prev': seq<nat>)
    requires List(next, prev, order, h) && b < h && b !in order && next[h] < |prev|
    requires next' == next[b := next[h]][h := b] && prev' == prev[b := h][next[h] := b]
    ensures List(next', prev', [b] + order, h)
  {
    var more := [b] + order;
    assert LinkAt(next, prev, order, -1, h);
    forall i | -1 <= i < |more| ensures LinkAt(next', prev', more, i, h) {
      if i >= 1 {
        assert LinkAt(next, prev, order, i - 1, h);
      }
    }
  }
}
