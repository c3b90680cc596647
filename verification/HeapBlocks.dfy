/** The allocator's list of blocks: what each call does to it, and what every call keeps. */
module HeapBlocks {
  const HEADER := 24

  /** A block: a 24-byte header at `addr` and `size` bytes of payload behind it. */
  datatype Block = Block(addr: nat, size: nat, used: bool)

  function Start(b: Block): nat { b.addr + HEADER }

  function End(b: Block): nat { b.addr + HEADER + b.size }

  /** The list covers `lo..hi` in address order, without a gap or an overlap. */
  ghost predicate Tiles(bs: seq<Block>, lo: nat, hi: nat) {
    && bs != [] && bs[0].addr == lo && End(bs[|bs| - 1]) == hi
    && forall i, j :: 0 <= i < j < |bs| && j == i + 1 ==> bs[j].addr == End(bs[i])
  }

  ghost predicate NoTwoFree(bs: seq<Block>) {
    forall i, j :: 0 <= i < j < |bs| && j == i + 1 ==> bs[i].used || bs[j].used
  }

  ghost predicate NoneEmpty(bs: seq<Block>) {
    forall i :: 0 <= i < |bs| ==> bs[i].size > 0
  }

  /** What holds in every reachable state. */
  ghost predicate Inv(bs: seq<Block>, lo: nat, hi: nat) {
    Tiles(bs, lo, hi) && NoTwoFree(bs) && NoneEmpty(bs)
  }

  lemma {:induction false} BlocksApart(bs: seq<Block>, lo: nat, hi: nat, i: nat, j: nat)
    requires Tiles(bs, lo, hi) && i < j < |bs|
    ensures lo <= bs[i].addr && End(bs[i]) <= bs[j].addr && End(bs[j]) <= hi
    decreases |bs|
  {
    StartsInside(bs, lo, hi, i);
    EndsInside(bs, lo, hi, j);
    if i + 1 < j {
      var init := bs[..j];
      assert Tiles(init, lo, bs[j].addr);
      BlocksApart(init, lo, bs[j].addr, i, j - 1);
    }
  }

  lemma {:induction false} StartsInside(bs: seq<Block>, lo: nat, hi: nat, i: nat)
    requires Tiles(bs, lo, hi) && i < |bs|
    ensures lo <= bs[i].addr
  {
    if i > 0 { StartsInside(bs, lo, hi, i - 1); }
  }

  lemma {:induction false} EndsInside(bs: seq<Block>, lo: nat, hi: nat, i: nat)
    requires Tiles(bs, lo, hi) && i < |bs|
    ensures End(bs[i]) <= hi
    decreases |bs| - i
  {
    if i + 1 < |bs| { EndsInside(bs, lo, hi, i + 1); }
  }

  // ----- the three edits every call is made of -----

  /** The first `size` payload bytes of block `k` become one block, the rest another, free one. */
  function Divide(bs: seq<Block>, k: nat, size: nat): (r: seq<Block>)
    requires k < |bs| && size + HEADER <= bs[k].size
    ensures |r| == |bs| + 1
  {
    var b := bs[k];
    bs[..k] + [b.(size := size), Block(b.addr + HEADER + size, b.size - size - HEADER, false)] + bs[k + 1..]
  }

  /** Block `k` takes over its successor, header and all. */
  function Absorb(bs: seq<Block>, k: nat): (r: seq<Block>)
    requires k + 1 < |bs|
    ensures |r| == |bs| - 1
  {
    bs[..k] + [bs[k].(size := bs[k].size + bs[k + 1].size + HEADER)] + bs[k + 2..]
  }

  function Mark(bs: seq<Block>, k: nat, used: bool): (r: seq<Block>)
    requires k < |bs|
    ensures |r| == |bs|
  {
    bs[k := bs[k].(used := used)]
  }

  lemma DivideTiles(bs: seq<Block>, k: nat, size: nat, lo: nat, hi: nat)
    requires Tiles(bs, lo, hi) && k < |bs| && size + HEADER <= bs[k].size
    ensures Tiles(Divide(bs, k, size), lo, hi)
  {
  }

  lemma AbsorbTiles(bs: seq<Block>, k: nat, lo: nat, hi: nat)
    requires Tiles(bs, lo, hi) && k + 1 < |bs|
    ensures Tiles(Absorb(bs, k), lo, hi)
  {
  }

  lemma MarkTiles(bs: seq<Block>, k: nat, used: bool, lo: nat, hi: nat)
    requires Tiles(bs, lo, hi) && k < |bs|
    ensures Tiles(Mark(bs, k, used), lo, hi)
  {
  }

  // ----- the calls -----

  /** Cut a block down to `size` when a header and a payload byte fit behind it. */
  function Trim(bs: seq<Block>, k: nat, size: nat): seq<Block>
    requires k < |bs|
  {
    if bs[k].size > size + HEADER then Divide(bs, k, size) else bs
  }

  /** The list after a call, and the pointer it returns (0 is NULL). */
  datatype Outcome = Outcome(blocks: seq<Block>, ptr: nat)

  function Take(bs: seq<Block>, k: nat, size: nat): Outcome
    requires k < |bs|
  {
    Outcome(Mark(Trim(bs, k, size), k, true), Start(bs[k]))
  }

  /** `malloc` takes any block: every address is a multiple of 1. */
  function Malloc(bs: seq<Block>, size: nat): Outcome {
    if size == 0 then Outcome(bs, 0)
    else
      var k := FirstFit(bs, size, 1, 0);
      if k == |bs| then Outcome(bs, 0) else Take(bs, k, size)
  }

  /** Whether moving `start` up by `p` aligns it and leaves a header and a byte before it. */
  predicate Pads(start: nat, align: nat, p: nat)
    requires align > 0
  {
    p > HEADER && (start + p) % align == 0
  }

  /** The least such move, found as the code finds it. */
  function Padding(start: nat, align: nat): (p: nat)
    requires align > 0
    ensures p > HEADER
  {
    PadFrom(align - start % align, align)
  }

  function PadFrom(p: nat, align: nat): (q: nat)
    requires align > 0
    ensures q > HEADER
    decreases HEADER + 1 - p
  {
    if p <= HEADER then PadFrom(p + align, align) else p
  }

  /** A free block with room for `size` bytes behind its least admissible padding. */
  predicate Fits(b: Block, size: nat, align: nat)
    requires align > 0
  {
    && !b.used && size <= b.size
    && (Start(b) % align == 0 || size + Padding(Start(b), align) <= b.size)
  }

  /** The first block from `i` on that fits, or `|bs|`. */
  function FirstFit(bs: seq<Block>, size: nat, align: nat, i: nat): (k: nat)
    requires align > 0 && i <= |bs|
    ensures i <= k <= |bs| && (k < |bs| ==> Fits(bs[k], size, align))
    ensures forall j :: i <= j < k ==> !Fits(bs[j], size, align)
    decreases |bs| - i
  {
    if i == |bs| || Fits(bs[i], size, align) then i else FirstFit(bs, size, align, i + 1)
  }

  function TakeAligned(bs: seq<Block>, k: nat, size: nat, align: nat): Outcome
    requires align > 0 && k < |bs| && Fits(bs[k], size, align)
  {
    if Start(bs[k]) % align == 0 then Take(bs, k, size)
    else
      var p := Padding(Start(bs[k]), align);
      var cut := Divide(bs, k, p - HEADER);
      if k > 0 && !bs[k - 1].used then Take(Absorb(cut, k - 1), k, size) else Take(cut, k + 1, size)
  }

  function AlignedAlloc(bs: seq<Block>, size: nat, align: nat): Outcome {
    if size == 0 then Outcome(bs, 0)
    else if align < 2 then Malloc(bs, size)
    else
      var k := FirstFit(bs, size, align, 0);
      if k == |bs| then Outcome(bs, 0) else TakeAligned(bs, k, size, align)
  }

  function Release(bs: seq<Block>, k: nat): seq<Block>
    requires k < |bs|
  {
    var freed := Mark(bs, k, false);
    var right := if k + 1 < |bs| && !bs[k + 1].used then Absorb(freed, k) else freed;
    if k > 0 && !bs[k - 1].used then Absorb(right, k - 1) else right
  }

  /** The index from `i` on of the block whose payload starts at `ptr`, or `|bs|`. */
  function Find(bs: seq<Block>, ptr: nat, i: nat): (k: nat)
    requires i <= |bs|
    ensures i <= k <= |bs| && (k < |bs| ==> Start(bs[k]) == ptr)
    ensures forall j :: i <= j < k ==> Start(bs[j]) != ptr
    decreases |bs| - i
  {
    if i == |bs| || Start(bs[i]) == ptr then i else Find(bs, ptr, i + 1)
  }

  predicate IsLive(bs: seq<Block>, ptr: nat) {
    var k := Find(bs, ptr, 0);
    k < |bs| && bs[k].used
  }

  function Free(bs: seq<Block>, ptr: nat): seq<Block>
    requires ptr == 0 || Find(bs, ptr, 0) < |bs|
  {
    if ptr == 0 then bs else Release(bs, Find(bs, ptr, 0))
  }

  predicate GrowsInPlace(bs: seq<Block>, k: nat, size: nat)
    requires k < |bs|
  {
    k + 1 < |bs| && !bs[k + 1].used && bs[k + 1].size + HEADER + bs[k].size >= size
  }

  function Realloc(bs: seq<Block>, ptr: nat, size: nat): Outcome
    requires ptr == 0 || IsLive(bs, ptr)
  {
    if ptr == 0 then Malloc(bs, size)
    else if size == 0 then Outcome(Free(bs, ptr), 0)
    else
      var k := Find(bs, ptr, 0);
      if bs[k].size >= size then Outcome(bs, ptr)
      else if GrowsInPlace(bs, k, size) then Outcome(Trim(Absorb(bs, k), k, size), ptr)
      else
        var o := Malloc(bs, size);
        if o.ptr == 0 || Find(o.blocks, ptr, 0) == |o.blocks| then o else Outcome(Free(o.blocks, ptr), o.ptr)
  }

  // ----- every call keeps the invariant -----

  lemma {:induction false} StartsDiffer(bs: seq<Block>, lo: nat, hi: nat, k: nat)
    requires Tiles(bs, lo, hi) && k < |bs|
    ensures Find(bs, Start(bs[k]), 0) == k
  {
    var f := Find(bs, Start(bs[k]), 0);
    if f < k { BlocksApart(bs, lo, hi, f, k); }
  }

  lemma TrimKeeps(bs: seq<Block>, k: nat, size: nat, lo: nat, hi: nat)
    requires Tiles(bs, lo, hi) && NoneEmpty(bs) && k < |bs| && size > 0
    ensures Tiles(Trim(bs, k, size), lo, hi) && NoneEmpty(Trim(bs, k, size))
    ensures |Trim(bs, k, size)| >= |bs| && Trim(bs, k, size)[k].addr == bs[k].addr
  {
    if bs[k].size > size + HEADER { DivideTiles(bs, k, size, lo, hi); }
  }

  /** No two free neighbours, not counting block `k`, and its right neighbour is not free. */
  ghost predicate SettledFor(bs: seq<Block>, k: nat) {
    && NoneEmpty(bs) && (k + 1 < |bs| ==> bs[k + 1].used)
    && forall i, j :: 0 <= i < j < |bs| && j == i + 1 ==> bs[i].used || bs[j].used || i == k || j == k
  }

  lemma DividedAt(bs: seq<Block>, k: nat, size: nat, i: nat)
    requires k < |bs| && size + HEADER <= bs[k].size && i <= |bs|
    ensures i < k ==> Divide(bs, k, size)[i] == bs[i]
    ensures i == k ==> Divide(bs, k, size)[i] == bs[k].(size := size)
    ensures i == k + 1 ==>
      Divide(bs, k, size)[i] == Block(bs[k].addr + HEADER + size, bs[k].size - size - HEADER, false)
    ensures i > k + 1 ==> Divide(bs, k, size)[i] == bs[i - 1]
  {
  }

  lemma DivideSettles(bs: seq<Block>, k: nat, size: nat)
    requires NoTwoFree(bs) && NoneEmpty(bs) && k < |bs| && !bs[k].used && 0 < size && size + HEADER < bs[k].size
    ensures SettledFor(Divide(bs, k, size), k + 1)
    ensures k == 0 || bs[k - 1].used
  {
    var cut := Divide(bs, k, size);
    forall i | 0 <= i < |cut|
      ensures cut[i].size > 0 && cut[i].used == if i <= k then bs[i].used else bs[i - 1].used
    {
      DividedAt(bs, k, size, i);
    }
    hide Divide;
    if k + 1 < |bs| { assert bs[k].used || bs[k + 1].used; }
  }

  lemma TakeKeepsInv(bs: seq<Block>, k: nat, size: nat, lo: nat, hi: nat)
    requires Tiles(bs, lo, hi) && k < |bs| && size > 0 && SettledFor(bs, k)
    ensures Inv(Take(bs, k, size).blocks, lo, hi)
  {
    TrimKeeps(bs, k, size, lo, hi);
    MarkTiles(Trim(bs, k, size), k, true, lo, hi);
  }

  lemma MallocKeepsInv(bs: seq<Block>, size: nat, lo: nat, hi: nat)
    requires Inv(bs, lo, hi)
    ensures Inv(Malloc(bs, size).blocks, lo, hi)
  {
    var k := FirstFit(bs, size, 1, 0);
    if size > 0 && k < |bs| { TakeKeepsInv(bs, k, size, lo, hi); }
  }

  lemma AlignedTakeKeepsInv(bs: seq<Block>, k: nat, size: nat, p: nat, lo: nat, hi: nat)
    requires Inv(bs, lo, hi) && k < |bs| && !bs[k].used && HEADER < p && size > 0 && size + p <= bs[k].size
    ensures k == 0 || bs[k - 1].used
    ensures Inv(Take(Divide(bs, k, p - HEADER), k + 1, size).blocks, lo, hi)
  {
    hide NoTwoFree, NoneEmpty, Tiles, SettledFor, Divide, Take;
    DivideTiles(bs, k, p - HEADER, lo, hi);
    DivideSettles(bs, k, p - HEADER);
    TakeKeepsInv(Divide(bs, k, p - HEADER), k + 1, size, lo, hi);
  }

  lemma AlignedAllocKeepsInv(bs: seq<Block>, size: nat, align: nat, lo: nat, hi: nat)
    requires Inv(bs, lo, hi)
    ensures Inv(AlignedAlloc(bs, size, align).blocks, lo, hi)
  {
    hide Inv, Take, Divide, Padding, Malloc;
    MallocKeepsInv(bs, size, lo, hi);
    if size > 0 && align >= 2 {
      var k := FirstFit(bs, size, align, 0);
      if k < |bs| {
        if Start(bs[k]) % align == 0 {
          FreeTakeKeepsInv(bs, k, size, lo, hi);
        } else {
          AlignedTakeKeepsInv(bs, k, size, Padding(Start(bs[k]), align), lo, hi);
        }
      }
    }
  }

  lemma FreeTakeKeepsInv(bs: seq<Block>, k: nat, size: nat, lo: nat, hi: nat)
    requires Inv(bs, lo, hi) && k < |bs| && !bs[k].used && size > 0
    ensures Inv(Take(bs, k, size).blocks, lo, hi)
  {
    TakeKeepsInv(bs, k, size, lo, hi);
  }

  /** No two free neighbours, except that block `k` may have one on its left. */
  ghost predicate SettledBut(bs: seq<Block>, k: nat) {
    NoneEmpty(bs) && forall i, j :: 0 <= i < j < |bs| && j == i + 1 && j != k ==> bs[i].used || bs[j].used
  }

  lemma ReleaseRight(bs: seq<Block>, k: nat)
    requires NoTwoFree(bs) && NoneEmpty(bs) && k < |bs|
    ensures k + 1 < |bs| && !bs[k + 1].used ==> SettledBut(Absorb(Mark(bs, k, false), k), k)
    ensures k + 1 == |bs| || bs[k + 1].used ==> SettledBut(Mark(bs, k, false), k)
  {
    var freed := Mark(bs, k, false);
    if k + 1 < |bs| && !bs[k + 1].used {
      var r := Absorb(freed, k);
      assert forall i :: 0 <= i < |r| ==> r[i] == if i < k then bs[i] else if i == k then r[k] else bs[i + 1];
    }
  }

  lemma ReleaseLeft(bs: seq<Block>, k: nat)
    requires SettledBut(bs, k) && k < |bs| && !bs[k].used
    ensures k > 0 && !bs[k - 1].used ==> NoTwoFree(Absorb(bs, k - 1)) && NoneEmpty(Absorb(bs, k - 1))
    ensures k == 0 || bs[k - 1].used ==> NoTwoFree(bs)
  {
    if k > 0 && !bs[k - 1].used {
      var r := Absorb(bs, k - 1);
      assert forall i :: 0 <= i < |r| ==>
        r[i] == if i < k - 1 then bs[i] else if i == k - 1 then r[k - 1] else bs[i + 1];
    }
  }

  lemma ReleaseKeepsInv(bs: seq<Block>, k: nat, lo: nat, hi: nat)
    requires Inv(bs, lo, hi) && k < |bs|
    ensures Inv(Release(bs, k), lo, hi)
  {
    hide Tiles, NoTwoFree, NoneEmpty, SettledBut;
    var freed := Mark(bs, k, false);
    var right := if k + 1 < |bs| && !bs[k + 1].used then Absorb(freed, k) else freed;
    MarkTiles(bs, k, false, lo, hi);
    if k + 1 < |bs| && !bs[k + 1].used { AbsorbTiles(freed, k, lo, hi); }
    if k > 0 && !bs[k - 1].used { AbsorbTiles(right, k - 1, lo, hi); }
    ReleaseRight(bs, k);
    ReleaseLeft(right, k);
  }

  lemma AbsorbedAt(bs: seq<Block>, k: nat, i: nat)
    requires k + 1 < |bs| && i + 1 < |bs|
    ensures i < k ==> Absorb(bs, k)[i] == bs[i]
    ensures i == k ==> Absorb(bs, k)[i] == bs[k].(size := bs[k].size + bs[k + 1].size + HEADER)
    ensures i > k ==> Absorb(bs, k)[i] == bs[i + 1]
  {
  }

  lemma AbsorbSettles(bs: seq<Block>, k: nat)
    requires NoTwoFree(bs) && NoneEmpty(bs) && k + 1 < |bs| && bs[k].used && !bs[k + 1].used
    ensures SettledFor(Absorb(bs, k), k)
  {
    var r := Absorb(bs, k);
    forall i | 0 <= i < |r|
      ensures r[i].size > 0 && r[i].used == if i <= k then bs[i].used else bs[i + 1].used
    {
      AbsorbedAt(bs, k, i);
    }
    hide Absorb;
    if k + 2 < |bs| { assert bs[k + 1].used || bs[k + 2].used; }
  }

  lemma GrowKeepsInv(bs: seq<Block>, k: nat, size: nat, lo: nat, hi: nat)
    requires Inv(bs, lo, hi) && k < |bs| && bs[k].used && bs[k].size < size && GrowsInPlace(bs, k, size)
    ensures Inv(Trim(Absorb(bs, k), k, size), lo, hi)
  {
    hide NoTwoFree, NoneEmpty, Tiles, SettledFor, Absorb, Trim;
    AbsorbedAt(bs, k, k);
    AbsorbTiles(bs, k, lo, hi);
    AbsorbSettles(bs, k);
    TakeKeepsInv(Absorb(bs, k), k, size, lo, hi);
    TrimStaysUsed(Absorb(bs, k), k, size);
  }

  lemma TrimStaysUsed(bs: seq<Block>, k: nat, size: nat)
    requires k < |bs| && bs[k].used
    ensures Take(bs, k, size).blocks == Trim(bs, k, size)
  {
  }

  lemma ReallocKeepsInv(bs: seq<Block>, ptr: nat, size: nat, lo: nat, hi: nat)
    requires Inv(bs, lo, hi) && (ptr == 0 || IsLive(bs, ptr))
    ensures Inv(Realloc(bs, ptr, size).blocks, lo, hi)
  {
    hide Inv, Malloc, Release, Trim, Absorb;
    MallocKeepsInv(bs, size, lo, hi);
    if ptr != 0 {
      var k := Find(bs, ptr, 0);
      ReleaseKeepsInv(bs, k, lo, hi);
      if bs[k].size < size && GrowsInPlace(bs, k, size) { GrowKeepsInv(bs, k, size, lo, hi); }
      var o := Malloc(bs, size);
      var f := Find(o.blocks, ptr, 0);
      if f < |o.blocks| { ReleaseKeepsInv(o.blocks, f, lo, hi); }
    }
  }
}
