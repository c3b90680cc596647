/** Sums of 64 bits in `aalloc`: exactly when the search still finds what it is to find. */
module HeapWrap {
  import opened Bytes
  import opened HeapBlocks
  import opened HeapLaws

  /** The sum of two words of 64 bits, in 64 bits. */
  function SumWrapped(a: nat, b: nat): nat { (a + b) % Pow256(8) }

  /** The test `current -> size < size + padding` as the code computes it. */
  predicate RejectsWrapped(b: Block, size: nat, align: nat)
    requires align > 0
  {
    b.size < SumWrapped(size, Padding(Start(b), align))
  }

  /** The search looks at the padding of this block. */
  predicate IsTested(b: Block, size: nat, align: nat)
    requires align > 0
  {
    !b.used && size <= b.size && Start(b) % align != 0
  }

  /** A block that is tested has room exactly when the test passes, if and only if the sum does not wrap. */
  lemma WrapDecidesTest(b: Block, size: nat, align: nat)
    requires align > 0 && IsTested(b, size, align) && b.size < Pow256(8) && Padding(Start(b), align) < Pow256(8)
    ensures (!RejectsWrapped(b, size, align) <==> HasRoom(b, size, align)) <==>
      size + Padding(Start(b), align) < Pow256(8)
    ensures size + Padding(Start(b), align) >= Pow256(8) ==> !RejectsWrapped(b, size, align)
  {
    FitsIsHasRoom(b, size, align);
    var sum, m := size + Padding(Start(b), align), Pow256(8);
    hide Pow256, Padding, HasRoom;
    if sum < m { DivMod(sum, m, 0, sum); } else { DivMod(sum, m, 1, sum - m); }
  }

  predicate Passes(b: Block, size: nat, align: nat)
    requires align > 0
  {
    !b.used && size <= b.size && (Start(b) % align == 0 || !RejectsWrapped(b, size, align))
  }

  /** The first block from `i` on that passes the tests of the search as the code computes them. */
  function FirstPassing(bs: seq<Block>, size: nat, align: nat, i: nat): (k: nat)
    requires align > 0 && i <= |bs|
    ensures i <= k <= |bs|
    decreases |bs| - i
  {
    if i == |bs| || Passes(bs[i], size, align) then i else FirstPassing(bs, size, align, i + 1)
  }

  /** No sum wraps in the blocks from `i` on that the search comes to before it finds room. */
  ghost predicate NoWrapFrom(bs: seq<Block>, size: nat, align: nat, i: nat)
    requires align > 0 && i <= |bs|
  {
    forall j :: i <= j < |bs| && j <= FirstFit(bs, size, align, i) && IsTested(bs[j], size, align) ==>
      size + Padding(Start(bs[j]), align) < Pow256(8)
  }

  ghost predicate NoWrap(bs: seq<Block>, size: nat, align: nat) {
    size > 0 && align >= 2 ==> NoWrapFrom(bs, size, align, 0)
  }

  ghost predicate SmallBlocks(bs: seq<Block>, align: nat)
    requires align > 0
  {
    forall j :: 0 <= j < |bs| ==> bs[j].size < Pow256(8) && Padding(Start(bs[j]), align) < Pow256(8)
  }

  /** The search finds the block it is to find if and only if no sum wraps on the way to it. */
  lemma {:induction false} WrapDecidesSearch(bs: seq<Block>, size: nat, align: nat, i: nat)
    requires align > 0 && i <= |bs| && SmallBlocks(bs, align)
    ensures FirstPassing(bs, size, align, i) == FirstFit(bs, size, align, i) <==> NoWrapFrom(bs, size, align, i)
    decreases |bs| - i
  {
    if i < |bs| {
      WrapDecidesSearch(bs, size, align, i + 1);
      if IsTested(bs[i], size, align) {
        WrapDecidesTest(bs[i], size, align);
        FitsIsHasRoom(bs[i], size, align);
      }
      WrapStep(bs, size, align, i);
    }
  }

  lemma WrapStep(bs: seq<Block>, size: nat, align: nat, i: nat)
    requires align > 0 && i < |bs|
    ensures !Fits(bs[i], size, align) ==>
      (NoWrapFrom(bs, size, align, i) <==>
        && (IsTested(bs[i], size, align) ==> size + Padding(Start(bs[i]), align) < Pow256(8))
        && NoWrapFrom(bs, size, align, i + 1))
    ensures Fits(bs[i], size, align) ==>
      (NoWrapFrom(bs, size, align, i) <==>
        (IsTested(bs[i], size, align) ==> size + Padding(Start(bs[i]), align) < Pow256(8)))
  {
    hide Fits, Padding, IsTested, Pow256;
  }

  lemma {:induction false} PadFromIsSmall(p: nat, align: nat)
    requires align > 0 && p <= align + HEADER
    ensures PadFrom(p, align) <= align + HEADER
    decreases HEADER + 1 - p
  {
    if p <= HEADER { PadFromIsSmall(p + align, align); }
  }

  /** The sums the loop and the test of the search compute for block `k`. */
  lemma NoWrapHere(bs: seq<Block>, size: nat, align: nat, k: nat)
    requires NoWrap(bs, size, align) && size > 0 && align >= 2 && k < |bs|
    requires FirstFit(bs, size, align, k) == FirstFit(bs, size, align, 0) && !bs[k].used && size <= bs[k].size
    ensures var p := Padding(Start(bs[k]), align);
      Start(bs[k]) % align != 0 ==> p < Pow256(8) && SumWrapped(size, p) == size + p
  {
    hide Padding, Fits, Pow256;
    var p := Padding(Start(bs[k]), align);
    if Start(bs[k]) % align != 0 {
      assert IsTested(bs[k], size, align);
      DivMod(size + p, Pow256(8), 0, size + p);
    }
  }

  lemma PadFromGrows(p: nat, align: nat)
    requires align > 0
    ensures PadFrom(p + align, align) >= p + align
    ensures PadFrom(p + align, align) < Pow256(8) ==> SumWrapped(p, align) == p + align
  {
    hide Pow256;
    PadFromIsMore(p + align, align);
    if p + align < Pow256(8) { DivMod(p + align, Pow256(8), 0, p + align); }
  }

  lemma {:induction false} PadFromIsMore(p: nat, align: nat)
    requires align > 0
    ensures PadFrom(p, align) >= p
    decreases HEADER + 1 - p
  {
    if p <= HEADER { PadFromIsMore(p + align, align); }
  }

  /** In a region that ends more than 48 bytes below 2^64 no padding itself wraps. */
  lemma TilesAreSmall(bs: seq<Block>, align: nat, lo: nat, hi: nat)
    requires Tiles(bs, lo, hi) && hi + 2 * HEADER < Pow256(8) && 0 < align < Pow256(8)
    ensures SmallBlocks(bs, align)
  {
    hide Pow256;
    forall j | 0 <= j < |bs|
      ensures bs[j].size < Pow256(8) && Padding(Start(bs[j]), align) < Pow256(8)
    {
      EndsInside(bs, lo, hi, j);
      StartsInside(bs, lo, hi, j);
      PaddingIsSmall(Start(bs[j]), align);
    }
  }

  lemma PaddingIsSmall(start: nat, align: nat)
    requires align > 0
    ensures Padding(start, align) <= align || (align <= start + HEADER && Padding(start, align) <= align + HEADER)
  {
    if align > start { DivMod(start, align, 0, start); }
    PadFromIsSmall(align - start % align, align);
  }

  /** Requests that are small together never wrap. */
  lemma SmallSumsDoNotWrap(bs: seq<Block>, size: nat, align: nat)
    requires size + align + HEADER < Pow256(8)
    ensures NoWrap(bs, size, align)
  {
    hide Pow256;
    if align >= 2 {
      forall j | 0 <= j < |bs|
        ensures Padding(Start(bs[j]), align) <= align + HEADER
      {
        PadFromIsSmall(align - Start(bs[j]) % align, align);
      }
    }
  }

  /** With an alignment that makes the sum wrap, a block without room passes the test. */
  lemma HugeAlignmentWraps()
    ensures var b := Block(0x40_0000, 0x80_0000, false); var align := 0xFFFF_FFFF_FFFF_FFFF;
      !HasRoom(b, 0x50_0000, align) && !RejectsWrapped(b, 0x50_0000, align)
  {
    Pow256Values();
    var b := Block(0x40_0000, 0x80_0000, false);
    var align := 0xFFFF_FFFF_FFFF_FFFF;
    assert Padding(Start(b), align) == align - 0x40_0018;
    FitsIsHasRoom(b, 0x50_0000, align);
  }
}
