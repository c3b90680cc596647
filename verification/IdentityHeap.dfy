/** The kernel heap: `malloc`, `aalloc`, `realloc` and `free` over headers kept in the memory
    they manage. */
module IdentityHeapModel {
  import opened Bytes
  import opened HeapBlocks
  import opened HeapLaws
  import opened HeapWrap
  import opened HeapMemory

  class IdentityHeap {
    const mem: array<byte>
    var firstBlock: nat
    ghost var blocks: seq<Block>
    ghost const lo: nat
    ghost const hi: nat

    ghost predicate Valid()
      reads this, mem
    {
      Holds(mem[..], blocks, lo, hi) && firstBlock == lo
    }

    /** One free block over the region; its header is written in place. */
    constructor (memory: array<byte>, base: nat, size: nat)
      requires 0 < base && base + HEADER + size <= memory.Length < Pow256(8)
      modifies memory
      ensures Valid() && mem == memory && lo == base && hi == base + HEADER + size && blocks == Initial(lo, hi)
    {
      mem := memory;
      firstBlock := base;
      lo, hi := base, base + HEADER + size;
      blocks := [Block(base, size, false)];
      new;
      SetSize(base, size);
      SetNext(base, 0);
      SetFlags(base, 0);
      assert HoldsAt(mem[..], blocks, 0);
    }

    // ----- header fields -----

    method GetSize(a: nat) returns (v: nat)
      requires a + HEADER <= mem.Length
      ensures v == HeaderAt(mem[..], a).size
    {
      assert mem[a..a + 8] == mem[..][a..a + 8];
      v := Dec(mem[a..a + 8]);
    }

    method GetNext(a: nat) returns (v: nat)
      requires a + HEADER <= mem.Length
      ensures v == HeaderAt(mem[..], a).next
    {
      assert mem[a + 8..a + 16] == mem[..][a + 8..a + 16];
      v := Dec(mem[a + 8..a + 16]);
    }

    method InUse(a: nat) returns (b: bool)
      requires a + HEADER <= mem.Length
      ensures b == (HeaderAt(mem[..], a).flags % 2 == 1)
    {
      b := mem[a + 16] % 2 == MEM_IN_USE;
    }

    method SetWord(at: nat, v: nat)
      requires at + 8 <= mem.Length && v < Pow256(8)
      modifies mem
      ensures mem[..] == old(mem[..at]) + Enc(v, 8) + old(mem[at + 8..])
    {
      var w := Enc(v, 8);
      forall i | 0 <= i < 8 { mem[at + i] := w[i]; }
    }

    method SetSize(a: nat, v: nat)
      requires a + HEADER <= mem.Length && v < Pow256(8)
      modifies mem
      ensures OnlyHeader(old(mem[..]), mem[..], a)
      ensures HeaderAt(mem[..], a) == old(HeaderAt(mem[..], a)).(size := v)
    {
      SetWord(a, v);
      DecEnc(v, 8);
      SizeWritten(old(mem[..]), mem[..], a, Enc(v, 8));
    }

    method SetNext(a: nat, v: nat)
      requires a + HEADER <= mem.Length && v < Pow256(8)
      modifies mem
      ensures OnlyHeader(old(mem[..]), mem[..], a)
      ensures HeaderAt(mem[..], a) == old(HeaderAt(mem[..], a)).(next := v)
    {
      SetWord(a + 8, v);
      DecEnc(v, 8);
      NextWritten(old(mem[..]), mem[..], a, Enc(v, 8));
    }

    method SetFlags(a: nat, v: byte)
      requires a + HEADER <= mem.Length
      modifies mem
      ensures OnlyHeader(old(mem[..]), mem[..], a)
      ensures HeaderAt(mem[..], a) == old(HeaderAt(mem[..], a)).(flags := v)
    {
      mem[a + 16] := v;
      FlagsWritten(old(mem[..]), mem[..], a, v);
    }

    // ----- edits of the list -----

    /** A new free header behind the first `size` payload bytes of block `k`. */
    method DivideBlock(a: nat, size: nat, ghost k: nat) returns (ghost mid: seq<byte>)
      requires Valid() && k < |blocks| && a == blocks[k].addr && size + HEADER <= blocks[k].size
      modifies this`blocks, mem
      ensures Valid() && blocks == Divide(old(blocks), k, size)
      ensures OnlyHeader(old(mem[..]), mid, a + HEADER + size) && OnlyHeader(mid, mem[..], a)
    {
      hide HeaderAt, Holds, Tiles, Divide;
      ghost var m := mem[..];
      BlockHeader(m, blocks, lo, hi, k);
      var newHeader := a + HEADER + size;
      var n := GetNext(a);
      var s := GetSize(a);
      SetNext(newHeader, n);
      SetSize(newHeader, s - size - HEADER);
      SetFlags(newHeader, 0);
      mid := mem[..];
      OtherHeader(m, mid, newHeader, a);
      SetNext(a, newHeader);
      SetSize(a, size);
      DivideHolds(m, mid, mem[..], blocks, k, size, lo, hi);
      blocks := Divide(blocks, k, size);
    }

    /** Block `k` takes over its successor. */
    method AbsorbNext(a: nat, ghost k: nat)
      requires Valid() && k + 1 < |blocks| && a == blocks[k].addr
      modifies this`blocks, mem
      ensures Valid() && blocks == Absorb(old(blocks), k)
      ensures OnlyHeader(old(mem[..]), mem[..], a)
    {
      ghost var m := mem[..];
      BlockHeader(m, blocks, lo, hi, k);
      BlockHeader(m, blocks, lo, hi, k + 1);
      Apart(blocks, lo, hi, k, k + 1);
      var next := GetNext(a);
      var s := GetSize(a);
      var ns := GetSize(next);
      SetSize(a, s + ns + HEADER);
      OtherHeader(m, mem[..], a, next);
      var nn := GetNext(next);
      SetNext(a, nn);
      AbsorbHolds(m, mem[..], blocks, k, lo, hi);
      blocks := Absorb(blocks, k);
    }

    method MarkBlock(a: nat, used: bool, ghost k: nat)
      requires Valid() && k < |blocks| && a == blocks[k].addr
      modifies this`blocks, mem
      ensures Valid() && blocks == Mark(old(blocks), k, used)
      ensures OnlyHeader(old(mem[..]), mem[..], a)
    {
      ghost var m := mem[..];
      BlockHeader(m, blocks, lo, hi, k);
      var flags := mem[a + 16];
      if used {
        SetFlags(a, if flags % 2 == MEM_IN_USE then flags else flags + MEM_IN_USE);
      } else {
        SetFlags(a, flags - flags % 2);
      }
      MarkHolds(m, mem[..], blocks, k, used, lo, hi);
      blocks := Mark(blocks, k, used);
    }

    /** Cut block `k` down to `size` and mark it in use. */
    method TakeBlock(a: nat, size: nat, ghost k: nat) returns (p: nat)
      requires Valid() && k < |blocks| && a == blocks[k].addr && !blocks[k].used && size <= blocks[k].size
      modifies this`blocks, mem
      ensures Valid() && Outcome(blocks, p) == Take(old(blocks), k, size)
      ensures Kept(old(mem[..]), mem[..], old(blocks))
    {
      hide Tiles, Kept, Divide, Mark, HeaderAt, Live, OnlyHeader, Safe;
      assert Tiles(blocks, lo, hi);
      ghost var m, bs := mem[..], blocks;
      BlockHeader(m, blocks, lo, hi, k);
      HeadersAreSafe(bs, k, lo, hi);
      var s := GetSize(a);
      if s > size + HEADER {
        FreeRoomIsSafe(bs, k, a + HEADER + size, lo, hi);
        ghost var mid := DivideBlock(a, size, k);
        DividedAt(bs, k, size, k);
        KeptBy(m, mid, bs, a + HEADER + size, lo, hi);
        KeptBy(mid, mem[..], bs, a, lo, hi);
        KeptTrans(m, mid, mem[..], bs);
      } else {
        KeptSame(m, bs, lo, hi);
      }
      ghost var m1 := mem[..];
      MarkBlock(a, true, k);
      KeptBy(m1, mem[..], bs, a, lo, hi);
      KeptTrans(m, m1, mem[..], bs);
      p := a + HEADER;
    }

    // ----- the calls -----

    method Malloc(size: nat) returns (p: nat)
      requires Valid()
      modifies this`blocks, mem
      ensures Valid() && Outcome(blocks, p) == HeapBlocks.Malloc(old(blocks), size)
      ensures Kept(old(mem[..]), mem[..], old(blocks))
    {
      KeptSame(mem[..], blocks, lo, hi);
      if size == 0 { return 0; }
      var current := firstBlock;
      ghost var k := 0;
      while current != 0
        invariant Valid() && k <= |blocks| && current == AddrOf(blocks, k)
        invariant blocks == old(blocks) && mem[..] == old(mem[..])
        invariant FirstFit(blocks, size, 1, k) == FirstFit(blocks, size, 1, 0)
        decreases |blocks| - k
      {
        BlockHeader(mem[..], blocks, lo, hi, k);
        var s := GetSize(current);
        var u := InUse(current);
        if s < size || u {
          current := GetNext(current);
          k := k + 1;
          continue;
        }
        p := TakeBlock(current, size, k);
        return;
      }
      AddrIsNull(mem[..], blocks, lo, hi, k);
      p := 0;
    }

    /** The loop adds in 64 bits, without wrapping when its result does not. */
    method LeastPadding(alignment: nat, align: nat, ghost start: nat) returns (padding: nat)
      requires align > 0 && alignment == start % align && Padding(start, align) < Pow256(8)
      ensures padding == Padding(start, align)
    {
      hide Pow256;
      padding := align - alignment;
      while padding <= HEADER
        invariant 0 <= padding && PadFrom(padding, align) == Padding(start, align)
        decreases HEADER + 1 - padding
      {
        PadFromGrows(padding, align);
        padding := SumWrapped(padding, align);
      }
    }

    /** The test on the sum of size and padding is computed modulo 2^64; `WrapDecidesSearch` says that the
        search finds its block exactly when no sum wraps on the way to it. */
    method AlignedAlloc(size: nat, align: nat) returns (p: nat)
      requires Valid() && NoWrap(blocks, size, align)
      modifies this`blocks, mem
      ensures Valid() && Outcome(blocks, p) == HeapBlocks.AlignedAlloc(old(blocks), size, align)
      ensures Kept(old(mem[..]), mem[..], old(blocks))
    {
      hide Holds, Tiles, Kept, Take, TakeAligned, Divide, Absorb, Padding, HeapBlocks.Malloc, HeapBlocks.AlignedAlloc,
        FirstFit, Fits, NoWrap, SumWrapped, HeaderAt, Live;
      HoldsTiles(mem[..], blocks, lo, hi);
      KeptSame(mem[..], blocks, lo, hi);
      AlignedAllocIs(blocks, size, align);
      if size == 0 { return 0; }
      if align < 2 {
        p := Malloc(size);
        return;
      }
      var current := firstBlock;
      var prev := 0;
      ghost var k := 0;
      while current != 0
        invariant Valid() && k <= |blocks| && current == AddrOf(blocks, k)
        invariant prev == if k == 0 then 0 else AddrOf(blocks, k - 1)
        invariant blocks == old(blocks) && mem[..] == old(mem[..])
        invariant FirstFit(blocks, size, align, k) == FirstFit(blocks, size, align, 0)
        decreases |blocks| - k
      {
        AddrIsNull(mem[..], blocks, lo, hi, k);
        FitStep(blocks, size, align, k);
        BlockHeader(mem[..], blocks, lo, hi, k);
        var s := GetSize(current);
        var u := InUse(current);
        if s < size || u {
          prev := current;
          current := GetNext(current);
          k := k + 1;
          continue;
        }
        var alignment := (current + HEADER) % align;
        if alignment == 0 {
          p := TakeBlock(current, size, k);
          return;
        }
        NoWrapHere(blocks, size, align, k);
        var padding := LeastPadding(alignment, align, current + HEADER);
        if s < SumWrapped(size, padding) {
          prev := current;
          current := GetNext(current);
          k := k + 1;
          continue;
        }
        p := TakeMoved(current, prev, size, padding, k);
        return;
      }
      AddrIsNull(mem[..], blocks, lo, hi, k);
      FitStep(blocks, size, align, k);
      p := 0;
    }

    method Free(ptr: nat)
      requires Valid() && (ptr == 0 || Find(blocks, ptr, 0) < |blocks|)
      modifies this`blocks, mem
      ensures Valid() && blocks == HeapBlocks.Free(old(blocks), ptr)
      ensures Kept(old(mem[..]), mem[..], old(blocks))
    {
      hide Holds, Tiles, Kept, Absorb, HeaderAt, Live, OnlyHeader, Safe;
      ghost var m, bs := mem[..], blocks;
      HoldsTiles(m, bs, lo, hi);
      KeptSame(m, bs, lo, hi);
      if ptr == 0 { return; }
      ghost var k := Find(blocks, ptr, 0);
      var header := ptr - HEADER;
      BlockHeader(m, bs, lo, hi, k);
      HeadersAreSafe(bs, k, lo, hi);

      MarkBlock(header, false, k);
      KeptBy(m, mem[..], bs, header, lo, hi);

      ghost var m1, freed := mem[..], blocks;
      MergeNext(header, k);
      KeptBy(m1, mem[..], bs, header, lo, hi);
      KeptTrans(m, m1, mem[..], bs);
      MergedAt(freed, k);
      ghost var m2 := mem[..];
      if k > 0 { AddrIsNull(m2, blocks, lo, hi, k - 1); }
      var current := FindPrevious(header, k);
      if current == 0 { return; }
      BlockHeader(m2, blocks, lo, hi, k - 1);
      BlockHeader(m, bs, lo, hi, k - 1);
      var used := InUse(current);
      if !used {
        HeadersAreSafe(bs, k - 1, lo, hi);
        AbsorbNext(current, k - 1);
        KeptBy(m2, mem[..], bs, current, lo, hi);
        KeptTrans(m, m2, mem[..], bs);
      }
    }

    method MergeNext(header: nat, ghost k: nat)
      requires Valid() && k < |blocks| && header == blocks[k].addr
      modifies this`blocks, mem
      ensures Valid() && OnlyHeader(old(mem[..]), mem[..], header)
      ensures var bs := old(blocks); blocks == if k + 1 < |bs| && !bs[k + 1].used then Absorb(bs, k) else bs
    {
      hide Holds, Tiles, Absorb, HeaderAt;
      ghost var m := mem[..];
      BlockHeader(m, blocks, lo, hi, k);
      BlockHeader(m, blocks, lo, hi, k + 1);
      AddrIsNull(m, blocks, lo, hi, k + 1);
      var next := GetNext(header);
      if next != 0 {
        var nextUsed := InUse(next);
        if !nextUsed { AbsorbNext(header, k); }
      }
    }

    /** Walk the list to the block in front of `header`; NULL when that is the first one. */
    method FindPrevious(header: nat, ghost k: nat) returns (current: nat)
      requires Valid() && k < |blocks| && blocks[k].addr == header
      ensures current == if k == 0 then 0 else AddrOf(blocks, k - 1)
    {
      hide Tiles, HeaderAt;
      current := firstBlock;
      ghost var j := 0;
      AddrIsNull(mem[..], blocks, lo, hi, 0);
      while current != 0
        invariant j <= |blocks| && current == AddrOf(blocks, j)
        invariant k > 0 ==> j < k
        decreases |blocks| - j
      {
        AddrIsNull(mem[..], blocks, lo, hi, j);
        AddrIsNull(mem[..], blocks, lo, hi, j + 1);
        BlockHeader(mem[..], blocks, lo, hi, j);
        var next := GetNext(current);
        if next == header {
          SameIndex(blocks, lo, hi, j + 1, k);
          return;
        }
        current := next;
        j := j + 1;
      }
      AddrIsNull(mem[..], blocks, lo, hi, j);
    }

    method Realloc(ptr: nat, size: nat) returns (p: nat)
      requires Valid() && Inv(blocks, lo, hi) && (ptr == 0 || IsLive(blocks, ptr))
      modifies this`blocks, mem
      ensures Valid() && Outcome(blocks, p) == HeapBlocks.Realloc(old(blocks), ptr, size)
      ensures ptr == 0 ==> Kept(old(mem[..]), mem[..], old(blocks))
      ensures ptr != 0 ==> Reallocated(old(mem[..]), mem[..], old(blocks), Find(old(blocks), ptr, 0), p)
    {
      hide Holds, Tiles, Kept, Inv, Absorb, Trim, HeapBlocks.Malloc, Release, HeaderAt, Live, OnlyHeader, Safe,
          Reallocated;
      ghost var m, bs := mem[..], blocks;
      HoldsTiles(m, bs, lo, hi);
      if ptr == 0 {
        p := Malloc(size);
        return;
      }
      if size == 0 {
        ghost var k := Find(blocks, ptr, 0);
        Free(ptr);
        FailedKeeps(m, mem[..], bs, k, lo, hi);
        return 0;
      }
      ghost var k := Find(blocks, ptr, 0);
      var header := ptr - HEADER;
      BlockHeader(m, bs, lo, hi, k);
      var oldSize := GetSize(header);
      if oldSize >= size {
        KeptSame(m, bs, lo, hi);
        SameKeeps(m, m, bs, k, lo, hi);
        return ptr;
      }
      var sizeDif := size - oldSize;
      var next := GetNext(header);
      AddrIsNull(m, bs, lo, hi, k + 1);
      BlockHeader(m, bs, lo, hi, k + 1);
      var nextSize, nextUsed := 0, true;
      if next != 0 {
        nextSize := GetSize(next);
        nextUsed := InUse(next);
      }
      if next != 0 && !nextUsed && nextSize + HEADER >= sizeDif {
        GrowInPlace(header, size, k);
        SameKeeps(m, mem[..], bs, k, lo, hi);
        return ptr;
      }
      p := Move(ptr, oldSize, size, k);
    }

    /** Allocate, copy, free. */
    method Move(ptr: nat, oldSize: nat, size: nat, ghost k: nat) returns (p: nat)
      requires Valid() && Inv(blocks, lo, hi) && k < |blocks| && Start(blocks[k]) == ptr && Find(blocks, ptr, 0) == k
      requires blocks[k].used && oldSize == blocks[k].size < size
      modifies this`blocks, mem
      ensures Valid() && Reallocated(old(mem[..]), mem[..], old(blocks), k, p)
      ensures var o := HeapBlocks.Malloc(old(blocks), size);
        && p == o.ptr && (p != 0 ==> Find(o.blocks, ptr, 0) < |o.blocks|)
        && blocks == if p == 0 then o.blocks else HeapBlocks.Free(o.blocks, ptr)
    {
      hide Holds, Tiles, Kept, Inv, HeapBlocks.Malloc, HeapBlocks.Free, HeaderAt, Live, Reallocated;
      ghost var m, bs := mem[..], blocks;
      HoldsTiles(m, bs, lo, hi);
      BlockHeader(m, bs, lo, hi, k);
      p := Malloc(size);
      ghost var m1 := mem[..];
      if p == 0 {
        FailedKeeps(m, m1, bs, k, lo, hi);
        return;
      }
      MovedFacts(m, m1, bs, blocks, k, size, p, lo, hi);
      StillThere(bs, k, size, lo, hi);
      HoldsTiles(m1, blocks, lo, hi);
      ghost var j := Find(blocks, p, 0);
      CopyBytes(p, ptr, oldSize, j);
      ghost var m2, held := mem[..], blocks;
      Free(ptr);
      MoveKeeps(m, m1, m2, mem[..], bs, held, k, j, p, lo, hi);
    }

    /** Take over the free successor and cut off what is not needed. */
    method GrowInPlace(header: nat, size: nat, ghost k: nat)
      requires Valid() && k < |blocks| && header == blocks[k].addr && blocks[k].used && blocks[k].size < size
      requires GrowsInPlace(blocks, k, size)
      modifies this`blocks, mem
      ensures Valid() && blocks == Trim(Absorb(old(blocks), k), k, size)
      ensures Kept(old(mem[..]), mem[..], old(blocks))
    {
      hide Holds, Tiles, Kept, Absorb, Divide, HeaderAt, Live, OnlyHeader, Safe;
      ghost var m, bs := mem[..], blocks;
      HoldsTiles(m, bs, lo, hi);
      BlockHeader(m, bs, lo, hi, k);
      HeadersAreSafe(bs, k, lo, hi);
      AbsorbNext(header, k);
      AbsorbedAt(bs, k, k);
      KeptBy(m, mem[..], bs, header, lo, hi);
      ghost var m1 := mem[..];
      BlockHeader(m1, blocks, lo, hi, k);
      var s := GetSize(header);
      if s > size + HEADER {
        FreeRoomIsSafe(bs, k + 1, header + HEADER + size, lo, hi);
        ghost var mid := DivideBlock(header, size, k);
        KeptBy(m1, mid, bs, header + HEADER + size, lo, hi);
        KeptBy(mid, mem[..], bs, header, lo, hi);
        KeptTrans(m, m1, mid, bs);
        KeptTrans(m, mid, mem[..], bs);
      }
    }

    /** `memcpy` into the payload of block `k`. */
    method CopyBytes(dst: nat, src: nat, n: nat, ghost k: nat)
      requires Valid() && k < |blocks| && dst == Start(blocks[k]) && n <= blocks[k].size
      requires src + n <= mem.Length && (src + n <= dst || dst + n <= src)
      modifies mem
      ensures Valid() && WroteInto(old(mem[..]), mem[..], dst, n)
      ensures mem[dst..dst + n] == old(mem[src..src + n])
    {
      ghost var m := mem[..];
      EndsInside(blocks, lo, hi, k);
      CopyBegins(m, dst, src);
      hide Copied;
      var i := 0;
      while i < n
        invariant i <= n && |m| == mem.Length && Copied(m, mem[..], dst, src, i)
      {
        CopyStep(m, mem[..], dst, src, n, i);
        mem[dst + i] := mem[src + i];
        i := i + 1;
      }
      CopyEnds(m, mem[..], dst, src, n);
      WriteHolds(m, mem[..], blocks, k, dst, n, lo, hi);
    }

    method GetAvailable() returns (used: nat)
      requires Valid()
      ensures used == Available(blocks)
    {
      hide Tiles, HeaderAt;
      AddrIsNull(mem[..], blocks, lo, hi, 0);
      var current := firstBlock;
      used := 0;
      ghost var k := 0;
      while current != 0
        invariant k <= |blocks| && current == AddrOf(blocks, k) && used == Available(blocks[..k])
        decreases |blocks| - k
      {
        AddrIsNull(mem[..], blocks, lo, hi, k);
        BlockHeader(mem[..], blocks, lo, hi, k);
        assert blocks[..k + 1][..k] == blocks[..k];
        var u := InUse(current);
        if !u {
          var s := GetSize(current);
          used := used + s;
        }
        current := GetNext(current);
        k := k + 1;
      }
      AddrIsNull(mem[..], blocks, lo, hi, k);
      assert blocks[..k] == blocks;
    }

    /** Carve out the block that starts `padding` bytes further on; what is in front of it goes to
        a free predecessor, if there is one. */
    method TakeMoved(current: nat, prev: nat, size: nat, padding: nat, ghost k: nat) returns (p: nat)
      requires Valid() && k < |blocks| && current == blocks[k].addr
      requires prev == (if k == 0 then 0 else blocks[k - 1].addr)
      requires !blocks[k].used && HEADER < padding && size + padding <= blocks[k].size
      modifies this`blocks, mem
      ensures Valid() && Kept(old(mem[..]), mem[..], old(blocks))
      ensures var cut := Divide(old(blocks), k, padding - HEADER);
        Outcome(blocks, p) == if k > 0 && !old(blocks)[k - 1].used then Take(Absorb(cut, k - 1), k, size)
                              else Take(cut, k + 1, size)
    {
      hide Holds, Tiles, Kept, Take, Divide, Absorb, HeaderAt, Live, OnlyHeader, Safe;
      ghost var m, bs := mem[..], blocks;
      HoldsTiles(m, bs, lo, hi);
      BlockHeader(m, bs, lo, hi, k);
      if k > 0 { BlockHeader(m, bs, lo, hi, k - 1); }
      var aligned := current + padding;
      ghost var mid := DivideBlock(current, padding - HEADER, k);
      DivideKeeps(m, mid, mem[..], bs, k, padding - HEADER, lo, hi);
      ghost var cut := MovedCut(bs, k, padding, lo, hi);
      ghost var l, at := Moved(bs, k, padding, lo, hi);
      ghost var m1 := mem[..];
      if prev != 0 {
        BlockHeader(mem[..], blocks, lo, hi, k - 1);
        var prevUsed := InUse(prev);
        if !prevUsed {
          HeadersAreSafe(blocks, k - 1, lo, hi);
          AbsorbNext(prev, k - 1);
          KeptBy(m1, mem[..], cut, prev, lo, hi);
          KeptFor(m1, mem[..], cut, bs);
          KeptTrans(m, m1, mem[..], bs);
        }
      }
      ghost var m2 := mem[..];
      p := TakeBlock(aligned, size, at);
      KeptFor(m2, mem[..], l, bs);
      KeptTrans(m, m2, mem[..], bs);
    }
  }

  lemma DivideKeeps(m: seq<byte>, mid: seq<byte>, m': seq<byte>, bs: seq<Block>, k: nat, size: nat, lo: nat, hi: nat)
    requires Tiles(bs, lo, hi) && hi <= |m| && k < |bs| && !bs[k].used && size + HEADER <= bs[k].size
    requires OnlyHeader(m, mid, bs[k].addr + HEADER + size) && OnlyHeader(mid, m', bs[k].addr)
    ensures Kept(m, m', bs)
  {
    HeadersAreSafe(bs, k, lo, hi);
    FreeRoomIsSafe(bs, k, bs[k].addr + HEADER + size, lo, hi);
    KeptBy(m, mid, bs, bs[k].addr + HEADER + size, lo, hi);
    KeptBy(mid, m', bs, bs[k].addr, lo, hi);
    KeptTrans(m, mid, m', bs);
  }

  lemma BlockHeader(m: seq<byte>, bs: seq<Block>, lo: nat, hi: nat, k: nat)
    requires Holds(m, bs, lo, hi)
    ensures k < |bs| ==> bs[k].addr + HEADER <= End(bs[k]) <= |m| && HeaderAt(m, bs[k].addr) == HeaderOf(bs, k)
    ensures k < |bs| ==> 0 < bs[k].addr && End(bs[k]) < Pow256(8) && AddrOf(bs, k + 1) < Pow256(8)
    ensures k + 1 < |bs| ==> bs[k].addr < bs[k + 1].addr && End(bs[k]) == bs[k + 1].addr && End(bs[k + 1]) <= hi
  {
    if k < |bs| {
      assert HoldsAt(m, bs, k);
      EndsInside(bs, lo, hi, k);
      StartsInside(bs, lo, hi, k);
      if k + 1 < |bs| { EndsInside(bs, lo, hi, k + 1); }
    }
  }

  lemma AlignedAllocIs(bs: seq<Block>, size: nat, align: nat)
    ensures size == 0 ==> HeapBlocks.AlignedAlloc(bs, size, align) == Outcome(bs, 0)
    ensures size > 0 && align < 2 ==> HeapBlocks.AlignedAlloc(bs, size, align) == HeapBlocks.Malloc(bs, size)
    ensures size > 0 && align >= 2 ==>
      var k := FirstFit(bs, size, align, 0);
      HeapBlocks.AlignedAlloc(bs, size, align) == if k == |bs| then Outcome(bs, 0) else TakeAligned(bs, k, size, align)
  {
  }

  /** Whether the search stops at block `k`, and with what. */
  lemma FitStep(bs: seq<Block>, size: nat, align: nat, k: nat)
    requires k <= |bs| && align >= 2
    ensures k == |bs| ==> FirstFit(bs, size, align, k) == |bs|
    ensures k < |bs| && (bs[k].used || bs[k].size < size) ==>
        FirstFit(bs, size, align, k) == FirstFit(bs, size, align, k + 1)
    ensures k < |bs| && !bs[k].used && bs[k].size >= size && Start(bs[k]) % align == 0 ==>
      && FirstFit(bs, size, align, k) == k && Fits(bs[k], size, align)
      && TakeAligned(bs, k, size, align) == Take(bs, k, size)
    ensures k < |bs| && !bs[k].used && bs[k].size >= size && Start(bs[k]) % align != 0 ==>
      var p := Padding(Start(bs[k]), align);
      if bs[k].size < size + p then FirstFit(bs, size, align, k) == FirstFit(bs, size, align, k + 1)
      else
        && FirstFit(bs, size, align, k) == k && Fits(bs[k], size, align)
        && TakeAligned(bs, k, size, align) ==
           var cut := Divide(bs, k, p - HEADER);
           if k > 0 && !bs[k - 1].used then Take(Absorb(cut, k - 1), k, size) else Take(cut, k + 1, size)
  {
    hide Padding, Take, Divide, Absorb;
  }

  lemma MergedAt(bs: seq<Block>, k: nat)
    requires k < |bs|
    ensures var r := if k + 1 < |bs| && !bs[k + 1].used then Absorb(bs, k) else bs;
      k < |r| && r[k].addr == bs[k].addr && (k > 0 ==> r[k - 1] == bs[k - 1])
  {
  }

  lemma SameIndex(bs: seq<Block>, lo: nat, hi: nat, i: nat, k: nat)
    requires Tiles(bs, lo, hi) && i < |bs| && k < |bs| && bs[i].addr == bs[k].addr
    ensures i == k
  {
    if i < k { BlocksApart(bs, lo, hi, i, k); } else if k < i { BlocksApart(bs, lo, hi, k, i); }
  }

  // ----- realloc -----

  /** Every live payload but block `k`'s is unchanged; the old bytes of block `k` are at the
      returned pointer, or still in place when there is none. */
  ghost predicate Reallocated(m: seq<byte>, m': seq<byte>, bs: seq<Block>, k: nat, p: nat)
    requires k < |bs|
  {
    && |m'| == |m| && End(bs[k]) <= |m|
    && (forall b :: b in Live(bs) && b != bs[k] ==> End(b) <= |m| && Payload(m', b) == Payload(m, b))
    && var at := if p == 0 then Start(bs[k]) else p;
       at + bs[k].size <= |m| && m'[at..at + bs[k].size] == Payload(m, bs[k])
  }

  /** Only `n` bytes from `at` on may differ. */
  ghost predicate WroteInto(m: seq<byte>, m': seq<byte>, at: nat, n: nat) {
    |m'| == |m| && at + n <= |m| && m'[..at] == m[..at] && m'[at + n..] == m[at + n..]
  }

  lemma WroteElsewhere(m: seq<byte>, m': seq<byte>, at: nat, n: nat, x: nat, y: nat)
    requires WroteInto(m, m', at, n) && x <= y <= |m| && (y <= at || at + n <= x)
    ensures m'[x..y] == m[x..y]
  {
    forall i | x <= i < y
      ensures m'[i] == m[i]
    {
      if i < at {
        assert m'[..at][i] == m[..at][i];
      } else {
        assert m'[at + n..][i - at - n] == m[at + n..][i - at - n];
      }
    }
  }

  /** The first `i` bytes have been copied, and nothing else has changed. */
  ghost predicate Copied(m: seq<byte>, now: seq<byte>, dst: nat, src: nat, i: nat) {
    && |now| == |m| && dst + i <= |m| && src + i <= |m|
    && now[..dst] == m[..dst] && now[dst + i..] == m[dst + i..] && now[dst..dst + i] == m[src..src + i]
  }

  lemma CopyBegins(m: seq<byte>, dst: nat, src: nat)
    requires dst <= |m| && src <= |m|
    ensures Copied(m, m, dst, src, 0)
  {
  }

  lemma CopyStep(m: seq<byte>, now: seq<byte>, dst: nat, src: nat, n: nat, i: nat)
    requires i < n && src + n <= |m| && dst + n <= |m| && (src + n <= dst || dst + n <= src)
    requires Copied(m, now, dst, src, i)
    ensures |now| == |m| && Copied(m, now[dst + i := now[src + i]], dst, src, i + 1)
  {
    assert now[src + i] == m[src + i] by {
      if src < dst { assert now[..dst][src + i] == m[..dst][src + i]; }
      else { assert now[dst + i..][src - dst] == m[dst + i..][src - dst]; }
    }
    assert m[src..src + i + 1] == m[src..src + i] + [m[src + i]];
    var next := now[dst + i := now[src + i]];
    assert next[dst..dst + i + 1] == now[dst..dst + i] + [m[src + i]];
    assert next[dst + i + 1..] == now[dst + i..][1..] && m[dst + i + 1..] == m[dst + i..][1..];
  }

  lemma CopyEnds(m: seq<byte>, now: seq<byte>, dst: nat, src: nat, n: nat)
    requires Copied(m, now, dst, src, n)
    ensures WroteInto(m, now, dst, n) && now[dst..dst + n] == m[src..src + n]
  {
  }

  /** Writing inside a payload disturbs no header. */
  lemma WriteHolds(m: seq<byte>, m': seq<byte>, bs: seq<Block>, k: nat, at: nat, n: nat, lo: nat, hi: nat)
    requires Holds(m, bs, lo, hi) && k < |bs| && Start(bs[k]) <= at && at + n <= End(bs[k])
    requires WroteInto(m, m', at, n)
    ensures Holds(m', bs, lo, hi)
  {
    EndsInside(bs, lo, hi, k);
    forall i | 0 <= i < |bs|
      ensures HoldsAt(m', bs, i)
    {
      assert HoldsAt(m, bs, i);
      if i != k { Apart(bs, lo, hi, k, i); }
      var a := bs[i].addr;
      WroteElsewhere(m, m', at, n, a, a + 8);
      WroteElsewhere(m, m', at, n, a + 8, a + 16);
      WroteElsewhere(m, m', at, n, a + 16, a + 17);
      assert m'[a + 16] == m'[a + 16..a + 17][0] && m[a + 16] == m[a + 16..a + 17][0];
    }
  }

  lemma FailedKeeps(m: seq<byte>, m': seq<byte>, bs: seq<Block>, k: nat, lo: nat, hi: nat)
    requires Tiles(bs, lo, hi) && hi <= |m| && k < |bs| && bs[k].used && Kept(m, m', bs)
    ensures Reallocated(m, m', bs, k, 0)
  {
    assert bs[k] in Live(bs);
  }

  lemma SameKeeps(m: seq<byte>, m': seq<byte>, bs: seq<Block>, k: nat, lo: nat, hi: nat)
    requires Tiles(bs, lo, hi) && hi <= |m| && k < |bs| && bs[k].used && Kept(m, m', bs)
    ensures Reallocated(m, m', bs, k, Start(bs[k]))
  {
    assert bs[k] in Live(bs);
  }

  /** The block `malloc` returns inside `realloc` lies apart from everything live before. */
  lemma MovedFacts(m: seq<byte>, m1: seq<byte>, bs: seq<Block>, held: seq<Block>, k: nat, size: nat, p: nat, lo: nat,
                   hi: nat)
    requires Inv(bs, lo, hi) && k < |bs| && bs[k].used && bs[k].size < size
    requires Outcome(held, p) == HeapBlocks.Malloc(bs, size) && p != 0 && Holds(m1, held, lo, hi)
    ensures var j := Find(held, p, 0); j < |held| && held[j].used && Start(held[j]) == p && size <= held[j].size
    ensures p > HEADER && p + size <= hi && (End(bs[k]) <= p - HEADER || p + size <= bs[k].addr)
    ensures forall b :: b in Live(bs) ==> End(b) <= p - HEADER || p + size <= b.addr
    ensures forall b :: b in Live(bs) ==> b in Live(held)
  {
    MallocHandsOut(bs, size, lo, hi);
    hide HeapBlocks.Malloc, HeaderAt;
    var c: Block :| Start(c) == p && c.used && size <= c.size && c !in Live(bs) && Live(held) == Live(bs) + {c};
    assert c in Live(held);
    var j :| 0 <= j < |held| && held[j] == c;
    StartsDiffer(held, lo, hi, j);
    EndsInside(held, lo, hi, j);
    StartsInside(held, lo, hi, j);
    assert bs[k] in Live(bs);
    forall b | b in Live(bs)
      ensures End(b) <= p - HEADER || p + size <= b.addr
    {
      assert b in Live(held);
      var i :| 0 <= i < |held| && held[i] == b;
      Apart(held, lo, hi, j, i);
    }
  }

  lemma MoveKeeps(m: seq<byte>, m1: seq<byte>, m2: seq<byte>, m': seq<byte>, bs: seq<Block>, held: seq<Block>, k: nat,
                  j: nat, p: nat, lo: nat, hi: nat)
    requires Tiles(bs, lo, hi) && hi <= |m| && k < |bs| && bs[k].used && p > HEADER && p + bs[k].size <= |m|
    requires End(bs[k]) <= |m1| && Kept(m, m1, bs) && WroteInto(m1, m2, p, bs[k].size)
    requires m2[p..p + bs[k].size] == m1[Start(bs[k])..End(bs[k])]
    requires Kept(m2, m', held) && (forall b :: b in Live(bs) ==> b in Live(held))
    requires forall b :: b in Live(bs) ==> End(b) <= p - HEADER || p + bs[k].size <= b.addr
    requires j < |held| && held[j].used && Start(held[j]) == p && held[j].size >= bs[k].size
    ensures Reallocated(m, m', bs, k, p)
  {
    assert bs[k] in Live(bs);
    forall b | b in Live(bs)
      ensures End(b) <= |m| && Payload(m', b) == Payload(m, b)
    {
      assert b in Live(held);
      WroteElsewhere(m1, m2, p, bs[k].size, Start(b), End(b));
    }
    var c := held[j];
    assert c in Live(held);
    var n := bs[k].size;
    assert m'[p..p + n] == Payload(m', c)[..n] == Payload(m2, c)[..n] == m2[p..p + n];
  }

  lemma HoldsTiles(m: seq<byte>, bs: seq<Block>, lo: nat, hi: nat)
    requires Holds(m, bs, lo, hi)
    ensures Tiles(bs, lo, hi) && hi <= |m|
  {
  }

  lemma AddrIsNull(m: seq<byte>, bs: seq<Block>, lo: nat, hi: nat, k: nat)
    requires Holds(m, bs, lo, hi) && k <= |bs|
    ensures |bs| > 0 && AddrOf(bs, 0) == lo && (AddrOf(bs, k) == 0 <==> k == |bs|)
  {
    if k < |bs| { StartsInside(bs, lo, hi, k); }
  }

  lemma SizeWritten(m: seq<byte>, m': seq<byte>, a: nat, w: seq<byte>)
    requires a + HEADER <= |m| && |w| == 8 && m' == m[..a] + w + m[a + 8..]
    ensures OnlyHeader(m, m', a) && HeaderAt(m', a) == HeaderAt(m, a).(size := Dec(w))
  {
    assert m'[a..a + 8] == w && m'[a + 8..a + 16] == m[a + 8..a + 16] && m'[a + 16] == m[a + 16];
  }

  lemma NextWritten(m: seq<byte>, m': seq<byte>, a: nat, w: seq<byte>)
    requires a + HEADER <= |m| && |w| == 8 && m' == m[..a + 8] + w + m[a + 16..]
    ensures OnlyHeader(m, m', a) && HeaderAt(m', a) == HeaderAt(m, a).(next := Dec(w))
  {
    assert m'[a..a + 8] == m[a..a + 8] && m'[a + 8..a + 16] == w && m'[a + 16] == m[a + 16];
  }

  lemma FlagsWritten(m: seq<byte>, m': seq<byte>, a: nat, v: byte)
    requires a + HEADER <= |m| && m' == m[a + 16 := v]
    ensures OnlyHeader(m, m', a) && HeaderAt(m', a) == HeaderAt(m, a).(flags := v)
  {
    assert m'[a..a + 8] == m[a..a + 8] && m'[a + 8..a + 16] == m[a + 8..a + 16];
  }
}
