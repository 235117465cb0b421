/** Indices of a descriptor ring: positions grow for ever, an index is a position modulo the
    ring size, and one slot always stays empty. */
module RingIndex {
  import opened Arith
  import opened Paging

  /** Positions less than a ring apart are different slots. */
  lemma Apart(count: nat, p: nat, q: nat)
    requires count > 0 && p <= q < p + count && Pos(count, p) == Pos(count, q)
    ensures p == q
  {
    Split(count, p);
    Split(count, q);
    MulLe(count, p / count + 1, q / count);
    MulLe(count, q / count, p / count);
    assert count * (p / count + 1) == count * (p / count) + count;
  }

  /** The slot at a position. */
  function SlotAt<T>(s: seq<T>, p: nat): T
    requires s != []
  {
    Split(|s|, p);
    s[Pos(|s|, p)]
  }

  function WithSlot<T>(s: seq<T>, p: nat, x: T): (s': seq<T>)
    requires s != []
    ensures |s'| == |s|
  {
    Split(|s|, p);
    s[Pos(|s|, p) := x]
  }

  /** Writing one slot of a window leaves the others alone. */
  lemma WithSlotAt<T>(s: seq<T>, p: nat, x: T, lo: nat)
    requires s != [] && lo <= p < lo + |s|
    ensures forall q: nat :: lo <= q < lo + |s| ==> SlotAt(WithSlot(s, p, x), q) == if q == p then x else SlotAt(s, q)
  {
    forall q: nat | lo <= q < lo + |s| ensures SlotAt(WithSlot(s, p, x), q) == if q == p then x else SlotAt(s, q) {
      if Pos(|s|, q) == Pos(|s|, p) {
        if p <= q { Apart(|s|, p, q); } else { Apart(|s|, q, p); }
      }
    }
  }

  /** e1000_desc_unused. */
  function DescUnused(count: nat, nextToClean: nat, nextToUse: nat): int {
    if nextToClean > nextToUse then nextToClean - nextToUse - 1 else count + nextToClean - nextToUse - 1
  }

  /** Free plus in flight is the ring size less one. */
  lemma UnusedIsFree(count: nat, clean: nat, use: nat)
    requires count > 0 && clean <= use < clean + count
    ensures DescUnused(count, Pos(count, clean), Pos(count, use)) + (use - clean) == count - 1
  {
    Split(count, clean);
    Split(count, use);
    if Pos(count, clean) + (use - clean) < count {
      Move(count, clean, use - clean);
    } else {
      var d := count - Pos(count, clean);
      Move(count, clean, d);
      Move(count, clean + d, use - clean - d);
      assert clean + d + (use - clean - d) == use;
    }
  }

  /** Advancing an index with wrap-around follows the position. */
  function NextIndex(count: nat, i: nat): nat { if i + 1 == count then 0 else i + 1 }

  lemma NextPos(count: nat, p: nat)
    requires count > 0
    ensures NextIndex(count, Pos(count, p)) == Pos(count, p + 1)
  {
    Split(count, p);
    Move(count, p, 1);
    Split(count, p + 1);
  }
}
