/** A list of blocks over several regions of memory, as initialisation leaves one when the memory map has
    gaps: what `free` does to it. */
module HeapRegions {
  import opened HeapBlocks

  /** The blocks lie in ascending order and apart; there may be gaps. */
  ghost predicate Spaced(bs: seq<Block>)
  {
    forall i, j :: 0 <= i < j < |bs| ==> End(bs[i]) <= bs[j].addr
  }

  predicate Holds(b: Block, x: nat) { b.addr <= x < End(b) }

  /** Address `x` belongs to one of the blocks, header or payload. */
  ghost predicate Covered(bs: seq<Block>, x: nat)
  {
    exists i :: 0 <= i < |bs| && Holds(bs[i], x)
  }

  /** Block `i` ends where its successor starts. */
  predicate Touches(bs: seq<Block>, i: nat)
    requires i + 1 < |bs|
  {
    bs[i + 1].addr == End(bs[i])
  }

  /** The blocks that `free` merges block `k` with touch it. */
  predicate MergesTouch(bs: seq<Block>, k: nat)
    requires k < |bs|
  {
    && (k + 1 < |bs| && !bs[k + 1].used ==> Touches(bs, k))
    && (k > 0 && !bs[k - 1].used ==> Touches(bs, k - 1))
  }

  /** Blocks `i` to `j` follow each other without a gap. */
  predicate NoGap(bs: seq<Block>, i: nat, j: nat)
    requires i <= j < |bs|
  {
    (i < j ==> Touches(bs, i)) && (i + 1 < j ==> Touches(bs, i + 1))
  }

  /** Blocks `i` to `j`, at most three, give way to one block over the same start. */
  ghost predicate Merged(bs: seq<Block>, i: nat, j: nat, rs: seq<Block>)
  {
    && i <= j < |bs| && j <= i + 2 && |rs| == |bs| - (j - i) && rs[i].addr == bs[i].addr
    && (forall t :: 0 <= t < i ==> rs[t] == bs[t])
    && (forall t :: i < t < |rs| ==> rs[t] == bs[t + (j - i)])
    && End(rs[i]) <= End(bs[j]) && (End(rs[i]) == End(bs[j]) <==> NoGap(bs, i, j))
  }

  /** The list once the freed block has been merged with its successor, if that is free. */
  function MergedRight(bs: seq<Block>, k: nat): seq<Block>
    requires k < |bs|
  {
    var freed := Mark(bs, k, false);
    if k + 1 < |bs| && !bs[k + 1].used then Absorb(freed, k) else freed
  }

  lemma MergedRightAt(bs: seq<Block>, k: nat, t: nat)
    requires k < |bs|
    ensures var right := k + 1 < |bs| && !bs[k + 1].used; var rs := MergedRight(bs, k);
      && |rs| == |bs| - (if right then 1 else 0)
      && (t < k ==> rs[t] == bs[t]) && (k < t < |rs| ==> rs[t] == bs[t + if right then 1 else 0])
      && rs[k].addr == bs[k].addr && rs[k].size == bs[k].size + if right then bs[k + 1].size + HEADER else 0
  {
  }

  lemma AbsorbsAt(rs: seq<Block>, k: nat, t: nat)
    requires k + 1 < |rs|
    ensures var r := Absorb(rs, k);
      && (t < k ==> r[t] == rs[t]) && (k < t < |r| ==> r[t] == rs[t + 1])
      && r[k].addr == rs[k].addr && r[k].size == rs[k].size + rs[k + 1].size + HEADER
  {
  }

  lemma ReleaseIs(bs: seq<Block>, k: nat)
    requires k < |bs|
    ensures k < |MergedRight(bs, k)|
    ensures Release(bs, k) ==
      if k > 0 && !bs[k - 1].used then Absorb(MergedRight(bs, k), k - 1) else MergedRight(bs, k)
  {
  }

  /** `free` merges block `k` with blocks `i` to `j`. */
  predicate Merges(bs: seq<Block>, k: nat, i: nat, j: nat)
    requires k < |bs|
  {
    && i == (if k > 0 && !bs[k - 1].used then k - 1 else k)
    && j == (if k + 1 < |bs| && !bs[k + 1].used then k + 1 else k)
  }

  lemma ReleaseAt(bs: seq<Block>, k: nat, i: nat, j: nat, t: nat)
    requires k < |bs| && Merges(bs, k, i, j)
    ensures var rs := Release(bs, k);
      && i <= j < |bs| && j <= i + 2 && |rs| == |bs| - (j - i)
      && (t < i ==> rs[t] == bs[t]) && (i < t < |rs| ==> rs[t] == bs[t + (j - i)])
      && rs[i].addr == bs[i].addr
      && rs[i].size == bs[k].size + (if j > k then bs[k + 1].size + HEADER else 0)
                       + if i < k then bs[k - 1].size + HEADER else 0
  {
    var right := MergedRight(bs, k);
    ReleaseIs(bs, k);
    MergedRightAt(bs, k, t);
    MergedRightAt(bs, k, t + 1);
    hide Release, MergedRight, Absorb;
    if i < k {
      MergedRightAt(bs, k, k - 1);
      AbsorbsAt(right, k - 1, t);
    }
  }

  /** What `free` merges, and how far the block reaches that is left. */
  lemma ReleaseMerges(bs: seq<Block>, k: nat) returns (i: nat, j: nat)
    requires Spaced(bs) && k < |bs|
    ensures Merged(bs, i, j, Release(bs, k)) && (NoGap(bs, i, j) <==> MergesTouch(bs, k))
  {
    i := if k > 0 && !bs[k - 1].used then k - 1 else k;
    j := if k + 1 < |bs| && !bs[k + 1].used then k + 1 else k;
    assert Merges(bs, k, i, j);
    MergesAt(bs, k, i, j);
  }

  lemma MergesAt(bs: seq<Block>, k: nat, i: nat, j: nat)
    requires Spaced(bs) && k < |bs| && Merges(bs, k, i, j)
    ensures Merged(bs, i, j, Release(bs, k)) && (NoGap(bs, i, j) <==> MergesTouch(bs, k))
  {
    hide *;
    ReleaseAt(bs, k, i, j, 0);
    Neighbours(bs, k);
    var rs := Release(bs, k);
    forall t: nat
      ensures (t < i ==> rs[t] == bs[t]) && (i < t < |rs| ==> rs[t] == bs[t + (j - i)])
    {
      ReleaseAt(bs, k, i, j, t);
    }
    MergedEnd(bs, k, i, j, rs[i]);
    MergedFrom(bs, i, j, rs);
  }

  lemma Neighbours(bs: seq<Block>, k: nat)
    requires Spaced(bs) && k < |bs|
    ensures k > 0 ==> End(bs[k - 1]) <= bs[k].addr
    ensures k + 1 < |bs| ==> End(bs[k]) <= bs[k + 1].addr
  {
  }

  lemma MergedEnd(bs: seq<Block>, k: nat, i: nat, j: nat, m: Block)
    requires k < |bs| && Merges(bs, k, i, j)
    requires k > 0 ==> End(bs[k - 1]) <= bs[k].addr
    requires k + 1 < |bs| ==> End(bs[k]) <= bs[k + 1].addr
    requires m.addr == bs[i].addr
    requires m.size == bs[k].size + (if j > k then bs[k + 1].size + HEADER else 0)
                       + if i < k then bs[k - 1].size + HEADER else 0
    ensures i <= j && End(m) <= End(bs[j]) && (End(m) == End(bs[j]) <==> NoGap(bs, i, j))
    ensures NoGap(bs, i, j) <==> MergesTouch(bs, k)
  {
  }

  lemma MergedFrom(bs: seq<Block>, i: nat, j: nat, rs: seq<Block>)
    requires i <= j < |bs| && j <= i + 2 && |rs| == |bs| - (j - i) && rs[i].addr == bs[i].addr
    requires forall t: nat :: (t < i ==> rs[t] == bs[t]) && (i < t < |rs| ==> rs[t] == bs[t + (j - i)])
    requires End(rs[i]) <= End(bs[j]) && (End(rs[i]) == End(bs[j]) <==> NoGap(bs, i, j))
    ensures Merged(bs, i, j, rs)
  {
    hide NoGap;
  }

  lemma CoveredAfter(bs: seq<Block>, i: nat, j: nat, rs: seq<Block>, x: nat)
    requires Merged(bs, i, j, rs) && NoGap(bs, i, j) && Covered(rs, x)
    ensures Covered(bs, x)
  {
    var t :| 0 <= t < |rs| && Holds(rs[t], x);
    var u := if t < i then t else if t > i then t + (j - i)
      else if x < End(bs[i]) then i else if x < End(bs[i + 1]) then i + 1 else i + 2;
    assert Holds(bs[u], x);
  }

  lemma InOrder(bs: seq<Block>, i: nat, t: nat, j: nat)
    requires Spaced(bs) && i <= t <= j < |bs|
    ensures bs[i].addr <= bs[t].addr && End(bs[t]) <= End(bs[j])
  {
    if i < t { assert End(bs[i]) <= bs[t].addr; }
    if t < j { assert End(bs[t]) <= bs[j].addr; }
  }

  lemma CoveredBefore(bs: seq<Block>, i: nat, j: nat, rs: seq<Block>, x: nat)
    requires Spaced(bs) && Merged(bs, i, j, rs) && NoGap(bs, i, j) && Covered(bs, x)
    ensures Covered(rs, x)
  {
    var t :| 0 <= t < |bs| && Holds(bs[t], x);
    var u := if t < i then t else if t > j then t - (j - i) else i;
    if i <= t <= j { InOrder(bs, i, t, j); }
    hide Spaced;
    assert Holds(rs[u], x);
  }

  lemma LastByteIsLost(bs: seq<Block>, i: nat, j: nat, rs: seq<Block>)
    requires Spaced(bs) && Merged(bs, i, j, rs) && !NoGap(bs, i, j)
    ensures End(bs[j]) > 0 && Covered(bs, End(bs[j]) - 1) && !Covered(rs, End(bs[j]) - 1)
  {
    var x := End(bs[j]) - 1;
    assert Holds(bs[j], x);
    forall t | 0 <= t < |rs|
      ensures !Holds(rs[t], x)
    {
      if t < i { assert rs[t] == bs[t]; }
      if t > i { assert rs[t] == bs[t + (j - i)]; }
    }
  }

  /** `free` keeps exactly the memory the list had if and only if the blocks it merges touch; over a gap it
      takes over memory that is not the heap's and loses as much at the end. */
  lemma ReleaseKeepsMemory(bs: seq<Block>, k: nat)
    requires Spaced(bs) && k < |bs|
    ensures (forall x: nat :: Covered(Release(bs, k), x) <==> Covered(bs, x)) <==> MergesTouch(bs, k)
  {
    var i, j := ReleaseMerges(bs, k);
    var rs := Release(bs, k);
    hide Release, Covered, Spaced;
    if NoGap(bs, i, j) {
      forall x: nat
        ensures Covered(rs, x) <==> Covered(bs, x)
      {
        if Covered(rs, x) { CoveredAfter(bs, i, j, rs, x); }
        if Covered(bs, x) { CoveredBefore(bs, i, j, rs, x); }
      }
    } else {
      LastByteIsLost(bs, i, j, rs);
    }
  }
}
