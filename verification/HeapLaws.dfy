/** What the allocator's calls promise: which block they pick, when they fail, what undoes
    what, and that memory handed out never overlaps. */
module HeapLaws {
  import opened HeapBlocks
  import Bytes

  // ----- multiples -----

  lemma AddMultiple(x: nat, a: nat)
    requires a > 0 && x % a == 0
    ensures (x + a) % a == 0
  {
    Bytes.DivMod(x + a, a, x / a + 1, 0);
  }

  lemma NextMultiple(x: nat, a: nat, y: nat)
    requires a > 0 && x % a == 0 && y % a == 0 && x < y
    ensures x + a <= y
  {
    var i, j := x / a, y / a;
    assert x == i * a && y == j * a;
    if j <= i { Bytes.MulLe(j, i, a); } else { Bytes.MulLe(i + 1, j, a); }
  }

  lemma UpToMultiple(x: nat, a: nat)
    requires a > 0
    ensures 0 < a - x % a && (x + (a - x % a)) % a == 0
  {
    Bytes.DivMod(x + (a - x % a), a, x / a + 1, 0);
  }

  // ----- which block is taken, and when there is none -----

  lemma {:induction false} PadFromIsLeast(start: nat, p: nat, align: nat, q: nat)
    requires align > 0 && (start + p) % align == 0 && p <= q
    requires Pads(start, align, q)
    ensures PadFrom(p, align) <= q
    decreases HEADER + 1 - p
  {
    if p <= HEADER {
      NextMultiple(start + p, align, start + q);
      AddMultiple(start + p, align);
      PadFromIsLeast(start, p + align, align, q);
    }
  }

  lemma {:induction false} PadFromPads(start: nat, p: nat, align: nat)
    requires align > 0 && (start + p) % align == 0
    ensures Pads(start, align, PadFrom(p, align))
    decreases HEADER + 1 - p
  {
    if p <= HEADER {
      AddMultiple(start + p, align);
      PadFromPads(start, p + align, align);
    }
  }

  /** The padding aligns, leaves a non-empty block in front, and is the least to do so. */
  lemma PaddingIsLeast(start: nat, align: nat)
    requires align > 0 && start % align != 0
    ensures Pads(start, align, Padding(start, align))
    ensures forall q: nat :: Pads(start, align, q) ==> Padding(start, align) <= q
    ensures forall q: nat :: Pads(start, align, q) <==> q > 24 && (start + q) % align == 0
  {
    UpToMultiple(start, align);
    PadFromPads(start, align - start % align, align);
    forall q: nat | Pads(start, align, q)
      ensures Padding(start, align) <= q
    {
      if q < align - start % align { SmallPad(start, align, q); }
      PadFromIsLeast(start, align - start % align, align, q);
    }
  }

  lemma SmallPad(x: nat, a: nat, q: nat)
    requires a > 0 && 0 < q < a - x % a
    ensures (x + q) % a != 0
  {
    Bytes.DivMod(x + q, a, x / a, x % a + q);
  }

  /** Room for `size` aligned bytes in a free block: at its start, or behind a header and at least one byte. */
  ghost predicate HasRoom(b: Block, size: nat, align: nat)
    requires align > 0
  {
    && !b.used && size <= b.size
    && (Start(b) % align == 0 || exists q: nat :: Pads(Start(b), align, q) && size + q <= b.size)
  }

  lemma FitsIsHasRoom(b: Block, size: nat, align: nat)
    requires align > 0
    ensures Fits(b, size, align) <==> HasRoom(b, size, align)
  {
    hide Padding, Pads;
    if Start(b) % align != 0 {
      PaddingIsLeast(Start(b), align);
      assert Pads(Start(b), align, Padding(Start(b), align));
    }
  }

  ghost predicate Lowest(bs: seq<Block>, k: nat, size: nat, align: nat)
    requires align > 0
  {
    && k < |bs| && HasRoom(bs[k], size, align)
    && forall b :: b in bs && HasRoom(b, size, align) ==> bs[k].addr <= b.addr
  }

  lemma FirstIsLowest(bs: seq<Block>, size: nat, align: nat, lo: nat, hi: nat) returns (k: nat)
    requires Tiles(bs, lo, hi) && align > 0
    ensures k == FirstFit(bs, size, align, 0)
    ensures k < |bs| ==> Fits(bs[k], size, align) && Lowest(bs, k, size, align)
    ensures k == |bs| <==> forall b :: b in bs ==> !HasRoom(b, size, align)
  {
    k := FirstFit(bs, size, align, 0);
    hide Fits, HasRoom, FirstFit;
    forall b | b in bs
      ensures Fits(b, size, align) <==> HasRoom(b, size, align)
    {
      FitsIsHasRoom(b, size, align);
    }
    if k < |bs| {
      forall b | b in bs && HasRoom(b, size, align)
        ensures bs[k].addr <= b.addr
      {
        var j :| 0 <= j < |bs| && bs[j] == b;
        if k < j { BlocksApart(bs, lo, hi, k, j); }
      }
    }
  }

  /** `malloc` fails exactly when no free block is large enough, and otherwise takes the lowest one. */
  lemma MallocTakesLowest(bs: seq<Block>, size: nat, lo: nat, hi: nat)
    requires Tiles(bs, lo, hi) && size > 0
    ensures Malloc(bs, size).ptr == 0 <==> forall b :: b in bs ==> b.used || b.size < size
    ensures Malloc(bs, size).ptr == 0 ==> Malloc(bs, size).blocks == bs
    ensures Malloc(bs, size).ptr != 0 ==>
      exists k: nat :: Lowest(bs, k, size, 1) && Malloc(bs, size).ptr == Start(bs[k])
  {
    var k := FirstIsLowest(bs, size, 1, lo, hi);
    hide FirstFit, Lowest, Trim;
    assert forall b: Block :: HasRoom(b, size, 1) <==> !b.used && size <= b.size;
  }

  /** `aalloc` fails exactly when no free block has room behind its least padding; otherwise the
      lowest such block is taken, the result is aligned, and what is split off in front is a
      block with a payload. */
  lemma AlignedAllocTakesLowest(bs: seq<Block>, size: nat, align: nat, lo: nat, hi: nat)
    requires Tiles(bs, lo, hi) && size > 0 && align >= 2
    ensures var o := AlignedAlloc(bs, size, align);
      && (o.ptr == 0 <==> forall b :: b in bs ==> !HasRoom(b, size, align))
      && (o.ptr == 0 ==> o.blocks == bs)
      && o.ptr % align == 0
      && (o.ptr != 0 ==> exists k: nat :: Lowest(bs, k, size, align) && InFront(bs[k], o.ptr, align))
  {
    var k := FirstIsLowest(bs, size, align, lo, hi);
    hide FirstFit, Lowest, Trim, HasRoom, Padding, Divide, Absorb;
    if k < |bs| {
      if Start(bs[k]) % align != 0 {
        PaddingIsLeast(Start(bs[k]), align);
        AlignedStart(bs, k, size, align);
      }
      assert InFront(bs[k], AlignedAlloc(bs, size, align).ptr, align);
    }
  }

  /** `ptr` is the payload of `b` moved up by nothing, or by the least padding. */
  ghost predicate InFront(b: Block, ptr: nat, align: nat)
    requires align > 0
  {
    && ptr >= Start(b)
    && (ptr == Start(b) || (Pads(Start(b), align, ptr - Start(b)) &&
                            forall q: nat :: Pads(Start(b), align, q) ==> ptr - Start(b) <= q))
  }

  lemma AlignedStart(bs: seq<Block>, k: nat, size: nat, align: nat)
    requires align > 0 && k < |bs| && Fits(bs[k], size, align) && Start(bs[k]) % align != 0
    ensures TakeAligned(bs, k, size, align).ptr == Start(bs[k]) + Padding(Start(bs[k]), align)
  {
    var p := Padding(Start(bs[k]), align);
    var cut := Divide(bs, k, p - HEADER);
    DividedAt(bs, k, p - HEADER, k + 1);
    hide Padding, Divide, Trim;
    if k > 0 && !bs[k - 1].used { AbsorbedAt(cut, k - 1, k); }
  }

  // ----- what is live -----

  function Live(bs: seq<Block>): set<Block> { set b | b in bs && b.used }

  lemma LiveAppend(a: seq<Block>, b: seq<Block>)
    ensures Live(a + b) == Live(a) + Live(b)
  {
  }

  /** Nothing but block `k` changes, and `k` is not live elsewhere. */
  lemma LiveReplace(bs: seq<Block>, k: nat, n: nat, mid: seq<Block>, lo: nat, hi: nat)
    requires Tiles(bs, lo, hi) && k + n <= |bs| && n > 0
    requires forall i :: k < i < k + n ==> !bs[i].used
    ensures Live(bs[..k] + mid + bs[k + n..]) == Live(bs) - {bs[k]} + Live(mid)
  {
    LiveAppend(bs[..k] + mid, bs[k + n..]);
    LiveAppend(bs[..k], mid);
    forall i | 0 <= i < |bs| && i != k
      ensures bs[i] != bs[k]
    {
      if i < k { BlocksApart(bs, lo, hi, i, k); } else { BlocksApart(bs, lo, hi, k, i); }
    }
    var rest := Live(bs[..k]) + Live(bs[k + n..]);
    forall b
      ensures b in rest <==> b in Live(bs) - {bs[k]}
    {
      if b in Live(bs) - {bs[k]} {
        var i :| 0 <= i < |bs| && bs[i] == b;
        assert i < k ==> bs[..k][i] == b;
        assert i >= k + n ==> bs[k + n..][i - k - n] == b;
      }
    }
  }

  lemma LiveDivide(bs: seq<Block>, k: nat, size: nat, lo: nat, hi: nat)
    requires Tiles(bs, lo, hi) && k < |bs| && size + HEADER <= bs[k].size
    ensures Live(Divide(bs, k, size)) == if bs[k].used then Live(bs) - {bs[k]} + {bs[k].(size := size)} else Live(bs)
  {
    var b := bs[k];
    var mid := [b.(size := size), Block(b.addr + HEADER + size, b.size - size - HEADER, false)];
    LiveReplace(bs, k, 1, mid, lo, hi);
    assert Live(mid) == if b.used then {mid[0]} else {};
  }

  lemma LiveAbsorb(bs: seq<Block>, k: nat, lo: nat, hi: nat)
    requires Tiles(bs, lo, hi) && k + 1 < |bs| && !bs[k + 1].used
    ensures Live(Absorb(bs, k)) ==
      if bs[k].used then Live(bs) - {bs[k]} + {bs[k].(size := bs[k].size + bs[k + 1].size + HEADER)} else Live(bs)
  {
    var mid := [bs[k].(size := bs[k].size + bs[k + 1].size + HEADER)];
    LiveReplace(bs, k, 2, mid, lo, hi);
    assert Live(mid) == if bs[k].used then {mid[0]} else {};
  }

  lemma LiveMark(bs: seq<Block>, k: nat, used: bool, lo: nat, hi: nat)
    requires Tiles(bs, lo, hi) && k < |bs|
    ensures Live(Mark(bs, k, used)) == Live(bs) - {bs[k]} + if used then {bs[k].(used := true)} else {}
  {
    var mid := [bs[k].(used := used)];
    LiveReplace(bs, k, 1, mid, lo, hi);
    assert Mark(bs, k, used) == bs[..k] + mid + bs[k + 1..];
    assert Live(mid) == if used then {mid[0]} else {};
  }

  /** `b` has `size` bytes, or it uses up the free block it was cut from. */
  ghost predicate Snug(before: seq<Block>, b: Block, size: nat) {
    b.size == size || (size < b.size <= size + 24 && exists f :: f in before && !f.used && End(f) == End(b))
  }

  /** What a call hands out: `size` bytes, or all there is up to 24 more. */
  ghost predicate HandsOut(before: seq<Block>, after: seq<Block>, ptr: nat, size: nat) {
    exists b: Block :: Start(b) == ptr && b.used && size <= b.size <= size + 24 && Snug(before, b, size) &&
                       b !in Live(before) && Live(after) == Live(before) + {b}
  }

  lemma TakeGives(bs: seq<Block>, k: nat, size: nat, lo: nat, hi: nat) returns (b: Block)
    requires Tiles(bs, lo, hi) && k < |bs| && !bs[k].used && size <= bs[k].size
    ensures Start(b) == Start(bs[k]) && b.used && size <= b.size <= size + 24 && b !in Live(bs)
    ensures b.size == size || End(b) == End(bs[k])
    ensures Live(Take(bs, k, size).blocks) == Live(bs) + {b}
  {
    var t := Trim(bs, k, size);
    if bs[k].size > size + HEADER {
      LiveDivide(bs, k, size, lo, hi);
      DivideTiles(bs, k, size, lo, hi);
      DividedAt(bs, k, size, k);
    }
    LiveMark(t, k, true, lo, hi);
    b := t[k].(used := true);
    AloneAt(bs, k, b, lo, hi);
    hide Divide, Mark, Tiles;
    assert Live(Take(bs, k, size).blocks) == Live(bs) + {b};
  }

  lemma HandsOutBy(before: seq<Block>, after: seq<Block>, b: Block, size: nat, f: Block)
    requires b.used && size <= b.size <= size + 24 && b !in Live(before) && Live(after) == Live(before) + {b}
    requires f in before && !f.used && (b.size == size || End(b) == End(f))
    ensures HandsOut(before, after, Start(b), size)
  {
  }

  lemma TakeHandsOut(bs: seq<Block>, k: nat, size: nat, lo: nat, hi: nat)
    requires Tiles(bs, lo, hi) && k < |bs| && !bs[k].used && size <= bs[k].size
    ensures HandsOut(bs, Take(bs, k, size).blocks, Start(bs[k]), size)
  {
    hide *;
    var b := TakeGives(bs, k, size, lo, hi);
    HandsOutBy(bs, Take(bs, k, size).blocks, b, size, bs[k]);
  }

  lemma AloneAt(bs: seq<Block>, k: nat, b: Block, lo: nat, hi: nat)
    requires Tiles(bs, lo, hi) && k < |bs| && !bs[k].used && b.addr == bs[k].addr
    ensures b !in Live(bs) && bs[k] !in Live(bs)
  {
    forall i | 0 <= i < |bs| && bs[i].used
      ensures bs[i] != b
    {
      if i < k { BlocksApart(bs, lo, hi, i, k); } else if i > k { BlocksApart(bs, lo, hi, k, i); }
    }
  }

  lemma MallocHandsOut(bs: seq<Block>, size: nat, lo: nat, hi: nat)
    requires Tiles(bs, lo, hi) && Malloc(bs, size).ptr != 0
    ensures HandsOut(bs, Malloc(bs, size).blocks, Malloc(bs, size).ptr, size)
  {
    TakeHandsOut(bs, FirstFit(bs, size, 1, 0), size, lo, hi);
  }

  lemma AlignedAllocHandsOut(bs: seq<Block>, size: nat, align: nat, lo: nat, hi: nat)
    requires Tiles(bs, lo, hi) && AlignedAlloc(bs, size, align).ptr != 0
    ensures HandsOut(bs, AlignedAlloc(bs, size, align).blocks, AlignedAlloc(bs, size, align).ptr, size)
  {
    hide Padding, Divide, Absorb, Take, Malloc, HandsOut, Tiles;
    if align < 2 {
      MallocHandsOut(bs, size, lo, hi);
    } else {
      var k := FirstFit(bs, size, align, 0);
      TakeStart(bs, k, size);
      if Start(bs[k]) % align == 0 {
        TakeHandsOut(bs, k, size, lo, hi);
      } else {
        MovedTakeHandsOut(bs, k, size, Padding(Start(bs[k]), align), lo, hi);
      }
    }
  }

  lemma MovedCut(bs: seq<Block>, k: nat, p: nat, lo: nat, hi: nat) returns (cut: seq<Block>)
    requires Tiles(bs, lo, hi) && k < |bs| && !bs[k].used && HEADER < p <= bs[k].size
    ensures cut == Divide(bs, k, p - HEADER) && |cut| == |bs| + 1
    ensures !cut[k].used && cut[k + 1] == Block(bs[k].addr + p, bs[k].size - p, false)
    ensures k > 0 ==> cut[k - 1] == bs[k - 1]
    ensures Tiles(cut, lo, hi) && Live(cut) == Live(bs)
  {
    cut := Divide(bs, k, p - HEADER);
    DivideTiles(bs, k, p - HEADER, lo, hi);
    LiveDivide(bs, k, p - HEADER, lo, hi);
    DividedAt(bs, k, p - HEADER, k);
    DividedAt(bs, k, p - HEADER, k + 1);
    if k > 0 { DividedAt(bs, k, p - HEADER, k - 1); }
  }

  /** The list `aalloc` carves the aligned block out of, and that block's place in it. */
  lemma Moved(bs: seq<Block>, k: nat, p: nat, lo: nat, hi: nat) returns (l: seq<Block>, m: nat)
    requires Tiles(bs, lo, hi) && k < |bs| && !bs[k].used && HEADER < p <= bs[k].size
    ensures var cut := Divide(bs, k, p - HEADER); l == if k > 0 && !bs[k - 1].used then Absorb(cut, k - 1) else cut
    ensures m == if k > 0 && !bs[k - 1].used then k else k + 1
    ensures m < |l| && l[m] == Block(bs[k].addr + p, bs[k].size - p, false)
    ensures Tiles(l, lo, hi) && Live(l) == Live(bs)
  {
    hide *;
    l := MovedCut(bs, k, p, lo, hi);
    m := k + 1;
    if k > 0 && !bs[k - 1].used {
      LiveAbsorb(l, k - 1, lo, hi);
      AbsorbTiles(l, k - 1, lo, hi);
      AbsorbedAt(l, k - 1, k);
      l := Absorb(l, k - 1);
      m := k;
    }
  }

  lemma MovedTakeHandsOut(bs: seq<Block>, k: nat, size: nat, p: nat, lo: nat, hi: nat)
    requires Tiles(bs, lo, hi) && k < |bs| && !bs[k].used && HEADER < p && size + p <= bs[k].size
    ensures var cut := Divide(bs, k, p - HEADER);
      var o := if k > 0 && !bs[k - 1].used then Take(Absorb(cut, k - 1), k, size) else Take(cut, k + 1, size);
      HandsOut(bs, o.blocks, o.ptr, size)
  {
    hide *;
    var l, m := Moved(bs, k, p, lo, hi);
    TakeStart(l, m, size);
    var b := TakeGives(l, m, size, lo, hi);
    EndMovedUp(bs[k], l[m], p);
    HandsOutBy(bs, Take(l, m, size).blocks, b, size, bs[k]);
  }

  lemma EndMovedUp(b: Block, c: Block, p: nat)
    requires p <= b.size && c == Block(b.addr + p, b.size - p, false)
    ensures End(c) == End(b)
  {
  }

  lemma TakeStart(bs: seq<Block>, k: nat, size: nat)
    requires k < |bs|
    ensures Take(bs, k, size).ptr == Start(bs[k])
  {
  }

  lemma RightReleased(bs: seq<Block>, k: nat, lo: nat, hi: nat) returns (right: seq<Block>)
    requires Tiles(bs, lo, hi) && k < |bs|
    ensures right == if k + 1 < |bs| && !bs[k + 1].used then Absorb(Mark(bs, k, false), k) else Mark(bs, k, false)
    ensures Tiles(right, lo, hi) && Live(right) == Live(bs) - {bs[k]}
    ensures k < |right| && !right[k].used && (k > 0 ==> right[k - 1] == bs[k - 1])
  {
    hide Tiles, Live, Absorb;
    right := Mark(bs, k, false);
    LiveMark(bs, k, false, lo, hi);
    MarkTiles(bs, k, false, lo, hi);
    if k + 1 < |bs| && !bs[k + 1].used {
      AbsorbTiles(right, k, lo, hi);
      LiveAbsorb(right, k, lo, hi);
      AbsorbedAt(right, k, k);
      if k > 0 { AbsorbedAt(right, k, k - 1); }
      right := Absorb(right, k);
    }
  }

  /** `free` removes exactly the freed block from what is live. */
  lemma ReleaseForgets(bs: seq<Block>, k: nat, lo: nat, hi: nat)
    requires Tiles(bs, lo, hi) && k < |bs|
    ensures Live(Release(bs, k)) == Live(bs) - {bs[k]}
  {
    hide Tiles, Live, Absorb, Mark;
    var right := RightReleased(bs, k, lo, hi);
    if k > 0 && !bs[k - 1].used { LiveAbsorb(right, k - 1, lo, hi); }
  }

  // ----- free undoes what handed the block out -----

  lemma AbsorbUndoesDivide(bs: seq<Block>, k: nat, size: nat)
    requires k < |bs| && size + HEADER <= bs[k].size
    ensures Absorb(Divide(bs, k, size), k) == bs
  {
  }

  lemma MarkedTrim(bs: seq<Block>, k: nat, size: nat)
    requires k < |bs| && !bs[k].used
    ensures Mark(Take(bs, k, size).blocks, k, false) == Trim(bs, k, size)
    ensures |Take(bs, k, size).blocks| == |Trim(bs, k, size)|
    ensures forall i :: 0 <= i < |Trim(bs, k, size)| && i != k ==> Take(bs, k, size).blocks[i] == Trim(bs, k, size)[i]
  {
    hide Trim;
    assert k < |Trim(bs, k, size)| && !Trim(bs, k, size)[k].used by { TrimmedAt(bs, k, size); }
  }

  lemma TrimmedAt(bs: seq<Block>, k: nat, size: nat)
    requires k < |bs|
    ensures k < |Trim(bs, k, size)| && Trim(bs, k, size)[k].used == bs[k].used
    ensures k > 0 ==> Trim(bs, k, size)[k - 1] == bs[k - 1]
    ensures bs[k].size <= size + HEADER ==> Trim(bs, k, size) == bs
    ensures bs[k].size > size + HEADER ==> k + 1 < |Trim(bs, k, size)| && !Trim(bs, k, size)[k + 1].used &&
                                           Absorb(Trim(bs, k, size), k) == bs
  {
    if bs[k].size > size + HEADER { AbsorbUndoesDivide(bs, k, size); }
  }

  /** Releasing a block just taken gives back the list, merged with a free left neighbour. */
  lemma ReleaseUndoesTake(bs: seq<Block>, k: nat, size: nat)
    requires k < |bs| && !bs[k].used && (k + 1 < |bs| ==> bs[k + 1].used)
    ensures k < |Take(bs, k, size).blocks|
    ensures Release(Take(bs, k, size).blocks, k) == if k > 0 && !bs[k - 1].used then Absorb(bs, k - 1) else bs
  {
    MarkedTrim(bs, k, size);
    TrimmedAt(bs, k, size);
    var t := Take(bs, k, size).blocks;
    if bs[k].size <= size + HEADER {
      assert k + 1 < |bs| ==> t[k + 1] == bs[k + 1];
    } else {
      assert t[k + 1] == Trim(bs, k, size)[k + 1];
    }
    assert k > 0 ==> t[k - 1] == bs[k - 1];
    hide Trim, Take, Mark, Absorb;
  }

  /** `free` right after a successful `malloc` restores the exact list. */
  lemma FreeUndoesMalloc(bs: seq<Block>, size: nat, lo: nat, hi: nat)
    requires Inv(bs, lo, hi) && Malloc(bs, size).ptr != 0
    ensures var o := Malloc(bs, size); IsLive(o.blocks, o.ptr) && Free(o.blocks, o.ptr) == bs
  {
    FreeUndoesTake(bs, FirstFit(bs, size, 1, 0), size, lo, hi);
  }

  lemma FreeUndoesTake(bs: seq<Block>, k: nat, size: nat, lo: nat, hi: nat)
    requires Inv(bs, lo, hi) && k < |bs| && !bs[k].used && size > 0
    ensures var o := Take(bs, k, size); IsLive(o.blocks, o.ptr) && Free(o.blocks, o.ptr) == bs
  {
    FreeTakeKeepsInv(bs, k, size, lo, hi);
    FindTaken(bs, k, size, lo, hi);
    ReleaseUndoesTake(bs, k, size);
    hide Take, Release, Tiles;
    if k > 0 { var l, r := bs[k - 1], bs[k]; }
  }

  lemma FindTaken(bs: seq<Block>, k: nat, size: nat, lo: nat, hi: nat)
    requires k < |bs| && Tiles(Take(bs, k, size).blocks, lo, hi)
    ensures var o := Take(bs, k, size);
      o.ptr == Start(bs[k]) && IsLive(o.blocks, o.ptr) && Find(o.blocks, o.ptr, 0) == k
  {
    StartsDiffer(Take(bs, k, size).blocks, lo, hi, k);
  }

  /** `free` right after a successful `aalloc` restores the exact list, the fragment in front included. */
  lemma FreeUndoesAlignedAlloc(bs: seq<Block>, size: nat, align: nat, lo: nat, hi: nat)
    requires Inv(bs, lo, hi) && AlignedAlloc(bs, size, align).ptr != 0
    ensures var o := AlignedAlloc(bs, size, align); IsLive(o.blocks, o.ptr) && Free(o.blocks, o.ptr) == bs
  {
    hide Inv, Take, Divide, Absorb, Padding, Malloc, Free, IsLive;
    if align < 2 {
      FreeUndoesMalloc(bs, size, lo, hi);
    } else {
      var k := FirstFit(bs, size, align, 0);
      if Start(bs[k]) % align == 0 {
        FreeUndoesTake(bs, k, size, lo, hi);
      } else {
        FreeUndoesMovedTake(bs, k, size, Padding(Start(bs[k]), align), lo, hi);
      }
    }
  }

  lemma FreeUndoesMovedTake(bs: seq<Block>, k: nat, size: nat, p: nat, lo: nat, hi: nat)
    requires Inv(bs, lo, hi) && k < |bs| && !bs[k].used && HEADER < p && size + p <= bs[k].size && size > 0
    ensures k == 0 || bs[k - 1].used
    ensures var o := Take(Divide(bs, k, p - HEADER), k + 1, size);
      IsLive(o.blocks, o.ptr) && Free(o.blocks, o.ptr) == bs
  {
    assert Tiles(bs, lo, hi) && NoTwoFree(bs) && NoneEmpty(bs);
    hide *;
    var cut := MovedCut(bs, k, p, lo, hi);
    AlignedTakeKeepsInv(bs, k, size, p, lo, hi);
    RightOfCut(bs, k, p - HEADER);
    InvTiles(Take(cut, k + 1, size).blocks, lo, hi);
    FindTaken(cut, k + 1, size, lo, hi);
    ReleaseUndoesTake(cut, k + 1, size);
    AbsorbUndoesDivide(bs, k, p - HEADER);
    FreeReleases(Take(cut, k + 1, size).blocks, Take(cut, k + 1, size).ptr);
  }

  lemma InvTiles(bs: seq<Block>, lo: nat, hi: nat)
    requires Inv(bs, lo, hi)
    ensures Tiles(bs, lo, hi)
  {
  }

  lemma RightOfCut(bs: seq<Block>, k: nat, size: nat)
    requires k < |bs| && size + HEADER <= bs[k].size && NoTwoFree(bs) && !bs[k].used
    ensures k + 2 < |Divide(bs, k, size)| ==> Divide(bs, k, size)[k + 2].used
  {
    if k + 1 < |bs| { DividedAt(bs, k, size, k + 2); }
  }

  lemma FreeReleases(bs: seq<Block>, ptr: nat)
    requires ptr != 0 && Find(bs, ptr, 0) < |bs|
    ensures Free(bs, ptr) == Release(bs, Find(bs, ptr, 0))
  {
  }

  // ----- realloc -----

  /** `b` is replaced, as the live block `ptr` names, by one of at least `size` bytes: by itself if it is large
      enough, else by one of no more than `size` bytes and what cannot be split off. */
  ghost predicate Exchanges(before: seq<Block>, after: seq<Block>, b: Block, ptr: nat, size: nat) {
    exists c: Block :: Start(c) == ptr && c.used && c.size >= size && c.size >= b.size &&
                       (if b.size >= size then c == b else Snug(before, c, size)) &&
                       (c !in Live(before) || c == b) && Live(after) == Live(before) - {b} + {c}
  }

  lemma GrowExchanges(bs: seq<Block>, k: nat, size: nat, lo: nat, hi: nat)
    requires Inv(bs, lo, hi) && k < |bs| && bs[k].used && bs[k].size < size && GrowsInPlace(bs, k, size)
    ensures Exchanges(bs, Trim(Absorb(bs, k), k, size), bs[k], Start(bs[k]), size)
  {
    var r := Absorb(bs, k);
    LiveAbsorb(bs, k, lo, hi);
    AbsorbTiles(bs, k, lo, hi);
    AbsorbedAt(bs, k, k);
    var c := r[k].(size := if r[k].size > size + HEADER then size else r[k].size);
    assert c !in Live(bs) && r[k] !in Live(bs) by {
      SameAddr(bs, k, c, lo, hi);
      SameAddr(bs, k, r[k], lo, hi);
    }
    assert Snug(bs, c, size) by {
      assert bs[k + 1] in bs && End(bs[k + 1]) == End(r[k]);
    }
    hide Absorb, Divide, Tiles, Snug;
    if r[k].size > size + HEADER { LiveDivide(r, k, size, lo, hi); }
    assert Live(Trim(r, k, size)) == Live(bs) - {bs[k]} + {c};
  }

  lemma SameAddr(bs: seq<Block>, k: nat, c: Block, lo: nat, hi: nat)
    requires Tiles(bs, lo, hi) && k < |bs| && c.addr == bs[k].addr
    ensures c in bs ==> c == bs[k]
  {
    forall i | 0 <= i < |bs| && i != k
      ensures bs[i] != c
    {
      if i < k { BlocksApart(bs, lo, hi, i, k); } else { BlocksApart(bs, lo, hi, k, i); }
    }
  }

  /** After `malloc` inside `realloc`, the old block is still in the list. */
  lemma StillThere(bs: seq<Block>, k: nat, size: nat, lo: nat, hi: nat)
    requires Inv(bs, lo, hi) && k < |bs| && bs[k].used && Malloc(bs, size).ptr != 0
    ensures var o := Malloc(bs, size); var f := Find(o.blocks, Start(bs[k]), 0); f < |o.blocks| && o.blocks[f] == bs[k]
  {
    MallocHandsOut(bs, size, lo, hi);
    MallocKeepsInv(bs, size, lo, hi);
    var o := Malloc(bs, size);
    hide Malloc;
    assert bs[k] in Live(o.blocks);
    var f :| 0 <= f < |o.blocks| && o.blocks[f] == bs[k];
    StartsDiffer(o.blocks, lo, hi, f);
  }

  lemma MoveExchanges(bs: seq<Block>, k: nat, size: nat, lo: nat, hi: nat)
    requires Inv(bs, lo, hi) && k < |bs| && bs[k].used && bs[k].size < size && Malloc(bs, size).ptr != 0
    ensures var o := Malloc(bs, size); var f := Find(o.blocks, Start(bs[k]), 0);
      && f < |o.blocks| && Exchanges(bs, Release(o.blocks, f), bs[k], o.ptr, size)
  {
    StillThere(bs, k, size, lo, hi);
    MallocHandsOut(bs, size, lo, hi);
    MallocKeepsInv(bs, size, lo, hi);
    var o := Malloc(bs, size);
    var f := Find(o.blocks, Start(bs[k]), 0);
    ReleaseForgets(o.blocks, f, lo, hi);
    assert bs[k] in Live(bs);
    hide Malloc, Release, Find, Live, Snug;
    var c: Block :| Start(c) == o.ptr && c.used && size <= c.size && Snug(bs, c, size) && c !in Live(bs) &&
                    Live(o.blocks) == Live(bs) + {c};
    assert Live(Release(o.blocks, f)) == Live(bs) - {bs[k]} + {c};
  }

  /** `realloc` exchanges the block for one that is large enough, or fails and changes nothing:
      exactly when the block is too small, cannot grow into its neighbour, and no free block is
      large enough. The pointer stays where it is whenever the block, or it and a free neighbour with the
      24 bytes between them, have room; else the lowest free block that is large enough is taken. */
  lemma ReallocExchanges(bs: seq<Block>, ptr: nat, size: nat, lo: nat, hi: nat)
    requires Inv(bs, lo, hi) && ptr != 0 && IsLive(bs, ptr) && size > 0
    ensures var o := Realloc(bs, ptr, size); var k := Find(bs, ptr, 0);
      var grows := k + 1 < |bs| && !bs[k + 1].used && bs[k].size + 24 + bs[k + 1].size >= size;
      && (o.ptr == 0 <==> bs[k].size < size && !grows && forall b :: b in bs ==> b.used || b.size < size)
      && (o.ptr == 0 || bs[k].size >= size ==> o.blocks == bs)
      && (o.ptr != 0 ==> Exchanges(bs, o.blocks, bs[k], o.ptr, size))
      && (bs[k].size >= size || grows ==> o.ptr == ptr)
      && (bs[k].size < size && !grows && o.ptr != 0 ==>
            exists j: nat :: Lowest(bs, j, size, 1) && o.ptr == Start(bs[j]))
  {
    hide *;
    var k, o := ReallocCases(bs, ptr, size, lo, hi);
    MallocTakesLowest(bs, size, lo, hi);
    if bs[k].size >= size {
      StayExchanges(bs, k, size);
    } else if GrowsInPlace(bs, k, size) {
      GrowExchanges(bs, k, size, lo, hi);
    } else if Malloc(bs, size).ptr != 0 {
      MoveExchanges(bs, k, size, lo, hi);
    }
  }

  lemma StayExchanges(bs: seq<Block>, k: nat, size: nat)
    requires k < |bs| && bs[k].used && bs[k].size >= size
    ensures Exchanges(bs, bs, bs[k], Start(bs[k]), size)
  {
    assert bs[k] in Live(bs);
    hide Live;
    assert Live(bs) == Live(bs) - {bs[k]} + {bs[k]};
  }

  /** The three ways of `realloc`. */
  lemma ReallocCases(bs: seq<Block>, ptr: nat, size: nat, lo: nat, hi: nat) returns (k: nat, o: Outcome)
    requires Inv(bs, lo, hi) && ptr != 0 && IsLive(bs, ptr) && size > 0
    ensures k == Find(bs, ptr, 0) && o == Realloc(bs, ptr, size) && Tiles(bs, lo, hi)
    ensures k < |bs| && bs[k].used && Start(bs[k]) == ptr && HEADER == 24
    ensures GrowsInPlace(bs, k, size) <==>
      k + 1 < |bs| && !bs[k + 1].used && bs[k].size + 24 + bs[k + 1].size >= size
    ensures bs[k].size >= size ==> o == Outcome(bs, ptr)
    ensures bs[k].size < size && GrowsInPlace(bs, k, size) ==>
      k + 1 < |bs| && o == Outcome(Trim(Absorb(bs, k), k, size), ptr)
    ensures bs[k].size < size && !GrowsInPlace(bs, k, size) ==>
      var m := Malloc(bs, size); var f := Find(m.blocks, ptr, 0);
      if m.ptr == 0 then o == m else f < |m.blocks| && o == Outcome(Release(m.blocks, f), m.ptr)
  {
    k, o := Find(bs, ptr, 0), Realloc(bs, ptr, size);
    if bs[k].size < size && !GrowsInPlace(bs, k, size) && Malloc(bs, size).ptr != 0 { StillThere(bs, k, size, lo, hi); }
    hide Malloc, Release, Trim, Absorb, Tiles, NoTwoFree, NoneEmpty;
  }

  /** The edges of the calls: nothing is asked for, nothing is given, or no alignment. */
  lemma EdgesOfCalls(bs: seq<Block>, size: nat, align: nat, ptr: nat)
    requires IsLive(bs, ptr) && ptr != 0
    ensures Malloc(bs, 0) == Outcome(bs, 0) && AlignedAlloc(bs, 0, align) == Outcome(bs, 0)
    ensures size > 0 ==> AlignedAlloc(bs, size, 0) == Malloc(bs, size) == AlignedAlloc(bs, size, 1)
    ensures Realloc(bs, 0, size) == Malloc(bs, size) && Realloc(bs, ptr, 0) == Outcome(Free(bs, ptr), 0)
    ensures Free(bs, 0) == bs
  {
    hide Take, TakeAligned, Release, FirstFit;
  }

  // ----- the live blocks determine the list -----

  lemma Neighbours(bs: seq<Block>, i: nat)
    requires NoTwoFree(bs) && i + 1 < |bs|
    ensures bs[i].used || bs[i + 1].used
  {
  }

  lemma FirstIsLowestAddr(bs: seq<Block>, lo: nat, hi: nat, b: Block)
    requires Tiles(bs, lo, hi) && b in bs && b.addr < End(bs[0])
    ensures b == bs[0]
  {
    var i :| 0 <= i < |bs| && bs[i] == b;
    if i > 0 { BlocksApart(bs, lo, hi, 0, i); }
  }

  /** The first block of one heap does not end behind that of the other. */
  lemma SameFirst(a: seq<Block>, b: seq<Block>, lo: nat, hi: nat)
    requires Inv(a, lo, hi) && Inv(b, lo, hi) && Live(a) == Live(b)
    ensures a[0] == b[0] || (!a[0].used && !b[0].used && End(b[0]) <= End(a[0]))
  {
    if a[0].used {
      assert a[0] in Live(b);
      FirstIsLowestAddr(b, lo, hi, a[0]);
    } else if b[0].used {
      assert b[0] in Live(a);
      FirstIsLowestAddr(a, lo, hi, b[0]);
    } else if |a| > 1 {
      Neighbours(a, 0);
      assert a[1] in Live(b);
      if End(b[0]) > End(a[0]) { FirstIsLowestAddr(b, lo, hi, a[1]); }
    } else {
      EndsInside(b, lo, hi, 0);
    }
  }

  lemma RestOfTiles(bs: seq<Block>, lo: nat, hi: nat)
    requires Inv(bs, lo, hi) && |bs| > 1
    ensures Inv(bs[1..], End(bs[0]), hi) && Live(bs[1..]) == Live(bs) - {bs[0]}
  {
    forall i | 1 <= i < |bs|
      ensures bs[i] != bs[0]
    {
      BlocksApart(bs, lo, hi, 0, i);
    }
    var t := bs[1..];
    forall b
      ensures b in t <==> b in bs && b != bs[0]
    {
      if b in bs && b != bs[0] {
        var i :| 0 <= i < |bs| && bs[i] == b;
        assert t[i - 1] == b;
      }
    }
  }

  /** With the free blocks coalesced, what is live determines the list: two heaps over one region that have the
      same live blocks are the same. */
  lemma {:induction false} LiveDetermines(a: seq<Block>, b: seq<Block>, lo: nat, hi: nat)
    requires Inv(a, lo, hi) && Inv(b, lo, hi) && Live(a) == Live(b)
    ensures a == b
    decreases |a|
  {
    SameFirst(a, b, lo, hi);
    SameFirst(b, a, lo, hi);
    if |a| > 1 && |b| > 1 {
      RestOfTiles(a, lo, hi);
      RestOfTiles(b, lo, hi);
      LiveDetermines(a[1..], b[1..], End(a[0]), hi);
      assert a == [a[0]] + a[1..] && b == [b[0]] + b[1..];
    } else {
      OneOrMore(a, b, lo, hi);
    }
  }

  lemma OneOrMore(a: seq<Block>, b: seq<Block>, lo: nat, hi: nat)
    requires Inv(a, lo, hi) && Inv(b, lo, hi) && a[0].addr == b[0].addr && End(a[0]) == End(b[0])
    ensures |a| == 1 <==> |b| == 1
  {
    if |a| > 1 { BlocksApart(a, lo, hi, 0, |a| - 1); }
    if |b| > 1 { BlocksApart(b, lo, hi, 0, |b| - 1); }
  }

  // ----- freeing everything -----

  function Initial(lo: nat, hi: nat): seq<Block>
    requires lo + HEADER <= hi
  {
    [Block(lo, hi - lo - HEADER, false)]
  }

  /** With nothing live, what is left is the one block the heap started with. */
  lemma NothingLiveIsInitial(bs: seq<Block>, lo: nat, hi: nat)
    requires Inv(bs, lo, hi) && Live(bs) == {}
    ensures lo + HEADER <= hi && bs == Initial(lo, hi)
  {
    assert forall i :: 0 <= i < |bs| ==> !bs[i].used by {
      forall i | 0 <= i < |bs|
        ensures !bs[i].used
      {
        assert bs[i] !in Live(bs);
      }
    }
    if |bs| > 1 { Neighbours(bs, 0); }
  }

  function FreeEach(bs: seq<Block>, ptrs: seq<nat>): seq<Block>
    decreases |ptrs|
  {
    if ptrs == [] then bs
    else FreeEach(if IsLive(bs, ptrs[0]) then Free(bs, ptrs[0]) else bs, ptrs[1..])
  }

  /** Freeing every live block, in any order, restores the initial block. */
  lemma {:induction false} FreeingAllRestores(bs: seq<Block>, ptrs: seq<nat>, lo: nat, hi: nat)
    requires Inv(bs, lo, hi) && forall b :: b in Live(bs) ==> Start(b) in ptrs
    ensures lo + HEADER <= hi && FreeEach(bs, ptrs) == Initial(lo, hi)
    decreases |ptrs|
  {
    if ptrs == [] {
      NothingLiveIsInitial(bs, lo, hi);
    } else {
      var next := FreeStep(bs, ptrs[0], lo, hi);
      hide Inv, Live, IsLive, Free;
      forall b | b in Live(next)
        ensures Start(b) in ptrs[1..]
      {
        assert b in Live(bs) && Start(b) in ptrs && Start(b) != ptrs[0];
      }
      FreeingAllRestores(next, ptrs[1..], lo, hi);
    }
  }

  lemma FreeStep(bs: seq<Block>, ptr: nat, lo: nat, hi: nat) returns (next: seq<Block>)
    requires Inv(bs, lo, hi)
    ensures next == if IsLive(bs, ptr) then Free(bs, ptr) else bs
    ensures Inv(next, lo, hi) && forall b :: b in Live(next) ==> b in Live(bs) && Start(b) != ptr
  {
    next := bs;
    assert Tiles(bs, lo, hi);
    hide Inv, Tiles, Release;
    forall b | b in Live(bs) && Start(b) == ptr
      ensures IsLive(bs, ptr) && b == bs[Find(bs, ptr, 0)]
    {
      var i :| 0 <= i < |bs| && bs[i] == b;
      StartsDiffer(bs, lo, hi, i);
    }
    if IsLive(bs, ptr) {
      next := Release(bs, Find(bs, ptr, 0));
      ReleaseKeepsInv(bs, Find(bs, ptr, 0), lo, hi);
      ReleaseForgets(bs, Find(bs, ptr, 0), lo, hi);
    }
  }

  // ----- accounting -----

  function Available(bs: seq<Block>): nat {
    if bs == [] then 0 else Available(bs[..|bs| - 1]) + if bs[|bs| - 1].used then 0 else bs[|bs| - 1].size
  }

  function InUse(bs: seq<Block>): nat {
    if bs == [] then 0 else InUse(bs[..|bs| - 1]) + if bs[|bs| - 1].used then bs[|bs| - 1].size else 0
  }

  /** Every byte of the region is available, in use, or in a header of 24 bytes; a heap with nothing free has
      nothing available, and one with nothing live has nothing in use. */
  lemma {:induction false} EveryByteAccounted(bs: seq<Block>, lo: nat, hi: nat)
    requires Tiles(bs, lo, hi)
    ensures Available(bs) + InUse(bs) + 24 * |bs| == hi - lo
    ensures (forall i :: 0 <= i < |bs| ==> bs[i].used) ==> Available(bs) == 0
    ensures (forall i :: 0 <= i < |bs| ==> !bs[i].used) ==> InUse(bs) == 0
    decreases |bs|
  {
    var last := bs[|bs| - 1];
    if |bs| > 1 {
      assert Tiles(bs[..|bs| - 1], lo, last.addr);
      EveryByteAccounted(bs[..|bs| - 1], lo, last.addr);
    } else {
      assert bs[..0] == [];
    }
  }
}
