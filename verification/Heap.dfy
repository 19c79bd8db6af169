/** heapq over (similarity, id) pairs, as semantic_search of
    vermyth/grimoire/repositories/casts.py uses it. */
module Heap {
  import opened Order

  datatype Item = Item(sim: real, id: string)

  /** Tuple comparison. */
  predicate Below(a: Item, b: Item) {
    a.sim < b.sim || (a.sim == b.sim && Less(a.id, b.id))
  }

  predicate NotAbove(a: Item, b: Item) {
    !Below(b, a)
  }

  lemma NotAboveIsTransitive(a: Item, b: Item, c: Item)
    requires NotAbove(a, b) && NotAbove(b, c)
    ensures NotAbove(a, c)
  {
    if Below(c, a) && a.sim == c.sim {
      LessIsTotal(a.id, b.id);
      LessIsTotal(b.id, c.id);
      LessIsAsymmetric(c.id, a.id);
      if Less(a.id, b.id) && Less(b.id, c.id) {
        LessIsTransitive(a.id, b.id, c.id);
      }
    }
  }

  lemma BelowIsNotAbove(a: Item, b: Item)
    requires Below(a, b)
    ensures NotAbove(a, b)
  {
    if a.sim == b.sim {
      LessIsAsymmetric(a.id, b.id);
    }
  }

  function Parent(i: nat): nat
    requires i > 0
  {
    (i - 1) / 2
  }

  ghost predicate OrderedAt(h: seq<Item>, i: nat)
    requires 0 < i < |h|
  {
    NotAbove(h[Parent(i)], h[i])
  }

  ghost predicate IsHeap(h: seq<Item>) {
    forall i {:trigger OrderedAt(h, i)} :: 0 < i < |h| ==> OrderedAt(h, i)
  }

  /** The head of a heap is its least item. */
  lemma {:induction false} HeadIsLeast(h: seq<Item>, i: nat)
    requires IsHeap(h) && i < |h|
    ensures NotAbove(h[0], h[i])
  {
    if i > 0 {
      HeadIsLeast(h, Parent(i));
      assert OrderedAt(h, i);
      NotAboveIsTransitive(h[0], h[Parent(i)], h[i]);
    } else {
      LessIsIrreflexive(h[0].id);
    }
  }

  function Swap(h: seq<Item>, i: nat, j: nat): (r: seq<Item>)
    requires i < |h| && j < |h|
    ensures |r| == |h| && multiset(r) == multiset(h)
  {
    h[i := h[j]][j := h[i]]
  }

  /** What a child of `pos` owes to the parent of `pos`. */
  ghost predicate BypassAt(h: seq<Item>, pos: nat, c: nat)
    requires 0 < c < |h| && pos < |h|
  {
    pos > 0 && Parent(c) == pos ==> NotAbove(h[Parent(pos)], h[c])
  }

  /** Ordered everywhere except between `pos` and its parent. */
  ghost predicate Rising(h: seq<Item>, pos: nat) {
    && pos < |h|
    && (forall i {:trigger OrderedAt(h, i)} :: 0 < i < |h| && i != pos ==> OrderedAt(h, i))
    && (forall c {:trigger BypassAt(h, pos, c)} :: 0 < c < |h| ==> BypassAt(h, pos, c))
  }

  /** Ordered everywhere except around `pos`. */
  ghost predicate Sinking(h: seq<Item>, pos: nat) {
    && pos < |h|
    && (forall i {:trigger OrderedAt(h, i)} :: 0 < i < |h| && i != pos && Parent(i) != pos ==> OrderedAt(h, i))
    && (forall c {:trigger BypassAt(h, pos, c)} :: 0 < c < |h| ==> BypassAt(h, pos, c))
  }

  lemma RiseStep(h: seq<Item>, pos: nat)
    requires Rising(h, pos) && pos > 0 && Below(h[pos], h[Parent(pos)])
    ensures Rising(Swap(h, pos, Parent(pos)), Parent(pos))
  {
    var p := Parent(pos);
    var r := Swap(h, pos, p);
    BelowIsNotAbove(h[pos], h[p]);
    forall i | 0 < i < |r| && i != p ensures OrderedAt(r, i) {
      if i == pos {
        assert r[Parent(i)] == h[pos] && r[i] == h[p];
      } else if Parent(i) == pos {
        assert BypassAt(h, pos, i);
      } else {
        assert OrderedAt(h, i);
        if Parent(i) == p {
          NotAboveIsTransitive(h[pos], h[p], h[i]);
        }
      }
    }
    forall c | 0 < c < |r| ensures BypassAt(r, p, c) {
      if p > 0 && Parent(c) == p {
        assert OrderedAt(h, p);
        if c != pos {
          assert OrderedAt(h, c);
          NotAboveIsTransitive(h[Parent(p)], h[p], h[c]);
        }
      }
    }
  }

  lemma RiseEnds(h: seq<Item>, pos: nat)
    requires Rising(h, pos) && (pos == 0 || !Below(h[pos], h[Parent(pos)]))
    ensures IsHeap(h)
  {
    forall i | 0 < i < |h| ensures OrderedAt(h, i) {
      if i != pos { assert OrderedAt(h, i); }
    }
  }

  /** _siftdown: moves the item at `pos` toward the root until its parent is not above it. */
  method SiftDown(h0: seq<Item>, pos0: nat) returns (h: seq<Item>)
    requires Rising(h0, pos0)
    ensures IsHeap(h) && multiset(h) == multiset(h0) && |h| == |h0|
  {
    h := h0;
    var pos := pos0;
    while pos > 0 && Below(h[pos], h[Parent(pos)])
      invariant Rising(h, pos) && multiset(h) == multiset(h0) && |h| == |h0|
      decreases pos
    {
      RiseStep(h, pos);
      h, pos := Swap(h, pos, Parent(pos)), Parent(pos);
    }
    RiseEnds(h, pos);
  }

  /** heappush. */
  method HeapPush(h: seq<Item>, item: Item) returns (r: seq<Item>)
    requires IsHeap(h)
    ensures IsHeap(r) && multiset(r) == multiset(h) + multiset{item}
  {
    var appended := h + [item];
    forall i | 0 < i < |appended| && i != |h| ensures OrderedAt(appended, i) {
      assert OrderedAt(h, i);
    }
    forall c | 0 < c < |appended| ensures BypassAt(appended, |h|, c) {
    }
    r := SiftDown(appended, |h|);
  }

  lemma SinkStep(h: seq<Item>, pos: nat, child: nat)
    requires Sinking(h, pos) && pos < child < |h| && Parent(child) == pos
    requires forall c :: 0 < c < |h| && Parent(c) == pos ==> NotAbove(h[child], h[c])
    ensures Sinking(Swap(h, pos, child), child)
  {
    var r := Swap(h, pos, child);
    forall i | 0 < i < |r| && i != child && Parent(i) != child ensures OrderedAt(r, i) {
      if i == pos {
        assert BypassAt(h, pos, child);
      } else if Parent(i) != pos {
        assert OrderedAt(h, i);
      }
    }
    forall c | 0 < c < |r| ensures BypassAt(r, child, c) {
      if Parent(c) == child {
        assert OrderedAt(h, c);
      }
    }
  }

  lemma SinkEnds(h: seq<Item>, pos: nat)
    requires Sinking(h, pos) && 2 * pos + 1 >= |h|
    ensures Rising(h, pos)
  {
    forall i | 0 < i < |h| && i != pos ensures OrderedAt(h, i) {
      assert Parent(i) != pos;
      assert OrderedAt(h, i);
    }
  }

  lemma ItselfNotAbove(a: Item)
    ensures NotAbove(a, a)
  {
    LessIsIrreflexive(a.id);
  }

  /** The child _siftup follows: the right one unless the left one is below it. */
  function SmallerChild(h: seq<Item>, pos: nat): (c: nat)
    requires 2 * pos + 1 < |h|
    ensures pos < c < |h| && Parent(c) == pos
  {
    var left, right := 2 * pos + 1, 2 * pos + 2;
    if right < |h| && !Below(h[left], h[right]) then right else left
  }

  lemma SmallerChildIsLeast(h: seq<Item>, pos: nat)
    requires 2 * pos + 1 < |h|
    ensures forall c :: 0 < c < |h| && Parent(c) == pos ==> NotAbove(h[SmallerChild(h, pos)], h[c])
  {
    var left, right := 2 * pos + 1, 2 * pos + 2;
    forall c | 0 < c < |h| && Parent(c) == pos ensures NotAbove(h[SmallerChild(h, pos)], h[c]) {
      assert c == left || c == right;
      ItselfNotAbove(h[c]);
      if right < |h| && Below(h[left], h[right]) {
        BelowIsNotAbove(h[left], h[right]);
      }
    }
  }

  /** heapreplace: the root gives way to `item`, which sinks to a leaf (_siftup) and
      rises to its place. */
  method HeapReplace(h: seq<Item>, item: Item) returns (r: seq<Item>)
    requires IsHeap(h) && h != []
    ensures IsHeap(r) && |r| == |h|
    ensures multiset(r) == multiset(h) - multiset{h[0]} + multiset{item}
  {
    r := h[0 := item];
    forall i | 0 < i < |r| && Parent(i) != 0 ensures OrderedAt(r, i) {
      assert OrderedAt(h, i);
    }
    assert forall c :: 0 < c < |r| ==> BypassAt(r, 0, c);
    ghost var start := r;
    var pos: nat := 0;
    while 2 * pos + 1 < |r|
      invariant Sinking(r, pos) && multiset(r) == multiset(start) && |r| == |h|
      decreases |r| - pos
    {
      var child := SmallerChild(r, pos);
      SmallerChildIsLeast(r, pos);
      SinkStep(r, pos, child);
      r, pos := Swap(r, pos, child), child;
    }
    SinkEnds(r, pos);
    r := SiftDown(r, pos);
    assert h == [h[0]] + h[1..] && start == [item] + h[1..];
  }
}
