/** Whole runs of the allocator, with its clients' stores in between, against an ideal heap in
    which every allocation is a byte string of its own. */
module HeapRuns {
  import opened Bytes
  import opened HeapBlocks
  import opened HeapLaws
  import opened HeapWrap
  import opened HeapMemory
  import opened IdentityHeapModel

  datatype Memory = Memory(bytes: seq<byte>, blocks: seq<Block>)

  datatype Op =
    | Alloc(size: nat)
    | AllocAligned(size: nat, align: nat)
    | Resize(ptr: nat, size: nat)
    | Drop(ptr: nat)
    | Store(ptr: nat, at: nat, data: seq<byte>)

  ghost predicate Good(s: Memory, lo: nat, hi: nat) {
    Holds(s.bytes, s.blocks, lo, hi) && Inv(s.blocks, lo, hi)
  }

  /** One call as the methods of `IdentityHeap` specify it, or a store into a live payload. */
  ghost predicate Step(s: Memory, op: Op, p: nat, s': Memory, lo: nat, hi: nat) {
    match op
    case Alloc(size) =>
      && Holds(s'.bytes, s'.blocks, lo, hi)
      && Outcome(s'.blocks, p) == Malloc(s.blocks, size) && Kept(s.bytes, s'.bytes, s.blocks)
    case AllocAligned(size, align) =>
      && Holds(s'.bytes, s'.blocks, lo, hi) && NoWrap(s.blocks, size, align)
      && Outcome(s'.blocks, p) == AlignedAlloc(s.blocks, size, align) && Kept(s.bytes, s'.bytes, s.blocks)
    case Resize(ptr, size) =>
      && Holds(s'.bytes, s'.blocks, lo, hi) && (ptr == 0 || IsLive(s.blocks, ptr))
      && Outcome(s'.blocks, p) == Realloc(s.blocks, ptr, size)
      && if ptr == 0 then Kept(s.bytes, s'.bytes, s.blocks)
         else Reallocated(s.bytes, s'.bytes, s.blocks, Find(s.blocks, ptr, 0), p)
    case Drop(ptr) =>
      && Holds(s'.bytes, s'.blocks, lo, hi) && (ptr == 0 || IsLive(s.blocks, ptr))
      && s'.blocks == Free(s.blocks, ptr) && Kept(s.bytes, s'.bytes, s.blocks)
    case Store(ptr, at, data) =>
      && IsLive(s.blocks, ptr) && at + |data| <= s.blocks[Find(s.blocks, ptr, 0)].size && ptr + at + |data| <= |s.bytes|
      && s'.blocks == s.blocks && s'.bytes == Splice(s.bytes, ptr + at, data)
  }

  // ----- the ideal heap -----

  function Pairs(m: seq<byte>, bs: set<Block>): set<(nat, seq<byte>)> {
    set b | b in bs :: (Start(b), if End(b) <= |m| then Payload(m, b) else [])
  }

  /** Pointers and what they point to. */
  ghost function Contents(s: Memory, lo: nat, hi: nat): set<(nat, seq<byte>)>
    requires Good(s, lo, hi)
  {
    Pairs(s.bytes, Live(s.blocks))
  }

  ghost predicate Fresh(before: set<(nat, seq<byte>)>, p: nat) {
    forall x :: x in before ==> x.0 != p
  }

  ghost predicate Allocated(before: set<(nat, seq<byte>)>, size: nat, p: nat, after: set<(nat, seq<byte>)>) {
    if p == 0 then after == before
    else Fresh(before, p) && exists c :: size <= |c| <= size + 24 && after == before + {(p, c)}
  }

  ghost predicate Dropped(before: set<(nat, seq<byte>)>, ptr: nat, after: set<(nat, seq<byte>)>) {
    if ptr == 0 then after == before
    else exists c :: (ptr, c) in before && after == before - {(ptr, c)} && Fresh(after, ptr)
  }

  ghost predicate Resized(before: set<(nat, seq<byte>)>, ptr: nat, size: nat, p: nat, after: set<(nat, seq<byte>)>) {
    exists c :: (ptr, c) in before &&
      if p == 0 then after == before
      else
        exists d ::
          && size <= |d| <= Max(|c|, size + 24) && c <= d && (|c| >= size ==> p == ptr && d == c)
          && (p == ptr || Fresh(before, p)) && after == before - {(ptr, c)} + {(p, d)}
  }

  ghost predicate Stored(before: set<(nat, seq<byte>)>, ptr: nat, at: nat, data: seq<byte>,
                         after: set<(nat, seq<byte>)>) {
    exists c :: (ptr, c) in before && at + |data| <= |c| && after == before - {(ptr, c)} + {(ptr, Splice(c, at, data))}
  }

  /** What each operation does to an ideal heap: allocations appear, disappear, are exchanged for
      longer ones with the same beginning, and are written to; nothing else ever changes. */
  ghost predicate Ideal(before: set<(nat, seq<byte>)>, op: Op, p: nat, after: set<(nat, seq<byte>)>) {
    match op
    case Alloc(size) => Allocated(before, size, p, after)
    case AllocAligned(size, align) => Allocated(before, size, p, after) && (align > 0 ==> p % align == 0)
    case Resize(ptr, size) =>
      if ptr == 0 then Allocated(before, size, p, after)
      else if size == 0 then p == 0 && Dropped(before, ptr, after)
      else Resized(before, ptr, size, p, after)
    case Drop(ptr) => Dropped(before, ptr, after)
    case Store(ptr, at, data) => Stored(before, ptr, at, data, after)
  }

  // ----- one step -----

  lemma ContentsAt(s: Memory, lo: nat, hi: nat, b: Block)
    requires Good(s, lo, hi) && b in Live(s.blocks)
    ensures HEADER < Start(b) && End(b) <= hi <= |s.bytes| && (Start(b), Payload(s.bytes, b)) in Contents(s, lo, hi)
    ensures Find(s.blocks, Start(b), 0) < |s.blocks| && s.blocks[Find(s.blocks, Start(b), 0)] == b
  {
    var i :| 0 <= i < |s.blocks| && s.blocks[i] == b;
    StartsInside(s.blocks, lo, hi, i);
    EndsInside(s.blocks, lo, hi, i);
    StartsDiffer(s.blocks, lo, hi, i);
  }

  lemma ContentsFrom(s: Memory, lo: nat, hi: nat, x: (nat, seq<byte>)) returns (b: Block)
    requires Good(s, lo, hi) && x in Contents(s, lo, hi)
    ensures b in Live(s.blocks) && End(b) <= |s.bytes| && x == (Start(b), Payload(s.bytes, b))
  {
    b :| b in Live(s.blocks) && x == (Start(b), if End(b) <= |s.bytes| then Payload(s.bytes, b) else []);
    ContentsAt(s, lo, hi, b);
  }

  /** The contents after live blocks changed by taking out `gone` and putting in `new`. */
  lemma ContentsChange(s: Memory, s': Memory, lo: nat, hi: nat, gone: set<Block>, come: set<Block>)
    requires Good(s, lo, hi) && Good(s', lo, hi) && gone <= Live(s.blocks)
    requires Live(s'.blocks) == Live(s.blocks) - gone + come
    requires forall b :: b in Live(s.blocks) - gone ==>
      End(b) <= |s.bytes| && End(b) <= |s'.bytes| && Payload(s'.bytes, b) == Payload(s.bytes, b)
    requires forall b :: b in gone + come ==> End(b) <= |s.bytes| && End(b) <= |s'.bytes|
    ensures Contents(s', lo, hi) == Contents(s, lo, hi) - Pairs(s.bytes, gone) + Pairs(s'.bytes, come)
  {
    var out, ins := Pairs(s.bytes, gone), Pairs(s'.bytes, come);
    hide Good, Live, Payload;
    forall x
      ensures x in Contents(s', lo, hi) <==> x in Contents(s, lo, hi) - out + ins
    {
      if x in Contents(s', lo, hi) {
        var b := ContentsFrom(s', lo, hi, x);
        if b !in come {
          ContentsAt(s, lo, hi, b);
          if x in out {
            var g :| g in gone && x == (Start(g), Payload(s.bytes, g));
            ContentsAt(s, lo, hi, g);
          }
        }
      }
      if x in Contents(s, lo, hi) - out {
        var b := ContentsFrom(s, lo, hi, x);
        assert b !in gone;
        ContentsAt(s', lo, hi, b);
      }
      if x in ins {
        var b :| b in come && x == (Start(b), Payload(s'.bytes, b));
        ContentsAt(s', lo, hi, b);
      }
    }
  }

  lemma OneBlock(m: seq<byte>, b: Block)
    requires End(b) <= |m|
    ensures Pairs(m, {b}) == {(Start(b), Payload(m, b))}
  {
  }

  lemma NoBlock(m: seq<byte>)
    ensures Pairs(m, {}) == {}
  {
  }

  lemma KeptFits(m: seq<byte>, m': seq<byte>, bs: seq<Block>)
    requires Kept(m, m', bs)
    ensures |m'| == |m|
    ensures forall b :: b in Live(bs) ==> End(b) <= |m| && End(b) <= |m'| && Payload(m', b) == Payload(m, b)
  {
  }

  lemma FreshStart(s: Memory, s': Memory, lo: nat, hi: nat, c: Block)
    requires Good(s, lo, hi) && Good(s', lo, hi) && c in Live(s'.blocks) && c !in Live(s.blocks)
    requires Live(s.blocks) <= Live(s'.blocks)
    ensures Fresh(Contents(s, lo, hi), Start(c))
  {
    hide Good, Live, Contents, Pairs, Payload;
    forall x | x in Contents(s, lo, hi)
      ensures x.0 != Start(c)
    {
      var b := ContentsFrom(s, lo, hi, x);
      ContentsAt(s', lo, hi, b);
      ContentsAt(s', lo, hi, c);
    }
  }

  lemma AllocStep(s: Memory, s': Memory, lo: nat, hi: nat, size: nat, p: nat)
    requires Good(s, lo, hi) && Good(s', lo, hi) && Kept(s.bytes, s'.bytes, s.blocks)
    requires if p == 0 then s'.blocks == s.blocks else HandsOut(s.blocks, s'.blocks, p, size)
    ensures Allocated(Contents(s, lo, hi), size, p, Contents(s', lo, hi))
  {
    KeptFits(s.bytes, s'.bytes, s.blocks);
    NoBlock(s.bytes);
    NoBlock(s'.bytes);
    if p == 0 {
      hide Good, Live, Contents, Pairs, Payload, Kept;
      ContentsChange(s, s', lo, hi, {}, {});
    } else {
      var c: Block :| Start(c) == p && c.used && size <= c.size <= size + 24 && c !in Live(s.blocks) &&
                      Live(s'.blocks) == Live(s.blocks) + {c};
      hide Good, Live, Contents, Pairs, Payload, Kept, HandsOut;
      ContentsAt(s', lo, hi, c);
      FreshStart(s, s', lo, hi, c);
      ContentsChange(s, s', lo, hi, {}, {c});
      OneBlock(s'.bytes, c);
      PayloadLength(s'.bytes, c);
    }
  }

  lemma PayloadLength(m: seq<byte>, b: Block)
    requires End(b) <= |m|
    ensures |Payload(m, b)| == b.size
  {
  }

  lemma DropStep(s: Memory, s': Memory, lo: nat, hi: nat, b: Block)
    requires Good(s, lo, hi) && Good(s', lo, hi) && b in Live(s.blocks) && Live(s'.blocks) == Live(s.blocks) - {b}
    requires |s'.bytes| == |s.bytes|
    requires forall x :: x in Live(s.blocks) && x != b ==>
      End(x) <= |s.bytes| && Payload(s'.bytes, x) == Payload(s.bytes, x)
    ensures Dropped(Contents(s, lo, hi), Start(b), Contents(s', lo, hi))
  {
    NoBlock(s'.bytes);
    hide Good, Live, Contents, Pairs, Payload;
    ContentsAt(s, lo, hi, b);
    ContentsChange(s, s', lo, hi, {b}, {});
    OneBlock(s.bytes, b);
    forall x | x in Contents(s', lo, hi)
      ensures x.0 != Start(b)
    {
      var c := ContentsFrom(s', lo, hi, x);
      ContentsAt(s, lo, hi, c);
    }
  }

  lemma SwapStep(s: Memory, s': Memory, lo: nat, hi: nat, b: Block, c: Block)
    requires Good(s, lo, hi) && Good(s', lo, hi) && b in Live(s.blocks) && c in Live(s'.blocks)
    requires Live(s'.blocks) == Live(s.blocks) - {b} + {c} && |s'.bytes| == |s.bytes|
    requires forall x :: x in Live(s.blocks) && x != b ==>
      End(x) <= |s.bytes| && Payload(s'.bytes, x) == Payload(s.bytes, x)
    ensures End(b) <= |s.bytes| && End(c) <= |s'.bytes|
    ensures Contents(s', lo, hi) ==
            Contents(s, lo, hi) - {(Start(b), Payload(s.bytes, b))} + {(Start(c), Payload(s'.bytes, c))}
  {
    hide Good, Live, Contents, Pairs, Payload;
    ContentsAt(s, lo, hi, b);
    ContentsAt(s', lo, hi, c);
    ContentsChange(s, s', lo, hi, {b}, {c});
    OneBlock(s.bytes, b);
    OneBlock(s'.bytes, c);
  }

  /** Every call of a run acts on the contents as on an ideal heap, and keeps the invariant. */
  lemma StepRefines(s: Memory, op: Op, p: nat, s': Memory, lo: nat, hi: nat)
    requires Good(s, lo, hi) && Step(s, op, p, s', lo, hi)
    ensures Good(s', lo, hi) && Ideal(Contents(s, lo, hi), op, p, Contents(s', lo, hi))
  {
    hide Contents, Kept, Reallocated, Malloc, AlignedAlloc, HandsOut, Allocated, Resized, Dropped, Stored;
    match op
    case Alloc(size) => StepAlloc(s, size, p, s', lo, hi);
    case AllocAligned(size, align) => StepAligned(s, size, align, p, s', lo, hi);
    case Resize(ptr, size) =>
      ReallocKeepsInv(s.blocks, ptr, size, lo, hi);
      if ptr == 0 {
        StepAlloc(s, size, p, s', lo, hi);
      } else if size == 0 {
        StepDrop(s, ptr, s', lo, hi);
      } else {
        StepResize(s, ptr, size, p, s', lo, hi);
      }
    case Drop(ptr) => StepDrop(s, ptr, s', lo, hi);
    case Store(ptr, at, data) => StepStore(s, ptr, at, data, s', lo, hi);
  }

  lemma StepAlloc(s: Memory, size: nat, p: nat, s': Memory, lo: nat, hi: nat)
    requires Good(s, lo, hi) && Holds(s'.bytes, s'.blocks, lo, hi)
    requires Outcome(s'.blocks, p) == Malloc(s.blocks, size) && Kept(s.bytes, s'.bytes, s.blocks)
    ensures Good(s', lo, hi) && Allocated(Contents(s, lo, hi), size, p, Contents(s', lo, hi))
  {
    MallocKeepsInv(s.blocks, size, lo, hi);
    if p != 0 { MallocHandsOut(s.blocks, size, lo, hi); }
    if size > 0 { MallocTakesLowest(s.blocks, size, lo, hi); }
    hide HandsOut, Kept, Contents, Holds, Inv, Lowest;
    AllocStep(s, s', lo, hi, size, p);
  }

  lemma StepAligned(s: Memory, size: nat, align: nat, p: nat, s': Memory, lo: nat, hi: nat)
    requires Good(s, lo, hi) && Holds(s'.bytes, s'.blocks, lo, hi)
    requires Outcome(s'.blocks, p) == AlignedAlloc(s.blocks, size, align) && Kept(s.bytes, s'.bytes, s.blocks)
    ensures Good(s', lo, hi) && Allocated(Contents(s, lo, hi), size, p, Contents(s', lo, hi))
    ensures align > 0 ==> p % align == 0
  {
    assert Tiles(s.blocks, lo, hi);
    hide Malloc, Tiles, Take, TakeAligned, HandsOut, Kept, Contents, Holds, Inv, Allocated;
    if size == 0 || align < 2 {
      StepAlloc(s, size, p, s', lo, hi);
    } else {
      AlignedAllocKeepsInv(s.blocks, size, align, lo, hi);
      AlignedAllocTakesLowest(s.blocks, size, align, lo, hi);
      if p != 0 { AlignedAllocHandsOut(s.blocks, size, align, lo, hi); }
      AllocStep(s, s', lo, hi, size, p);
    }
  }

  lemma LiveBlock(s: Memory, ptr: nat, lo: nat, hi: nat) returns (b: Block)
    requires Good(s, lo, hi) && IsLive(s.blocks, ptr)
    ensures b == s.blocks[Find(s.blocks, ptr, 0)] && b in Live(s.blocks) && Start(b) == ptr
    ensures End(b) <= hi <= |s.bytes| && (ptr, Payload(s.bytes, b)) in Contents(s, lo, hi)
  {
    b := s.blocks[Find(s.blocks, ptr, 0)];
    ContentsAt(s, lo, hi, b);
  }

  lemma StepDrop(s: Memory, ptr: nat, s': Memory, lo: nat, hi: nat)
    requires Good(s, lo, hi) && Holds(s'.bytes, s'.blocks, lo, hi) && (ptr == 0 || IsLive(s.blocks, ptr))
    requires s'.blocks == Free(s.blocks, ptr)
    requires Kept(s.bytes, s'.bytes, s.blocks) ||
             (ptr != 0 && Reallocated(s.bytes, s'.bytes, s.blocks, Find(s.blocks, ptr, 0), 0))
    ensures Good(s', lo, hi) && Dropped(Contents(s, lo, hi), ptr, Contents(s', lo, hi))
  {
    if ptr == 0 {
      NothingChanged(s, s', lo, hi);
    } else {
      var b := LiveBlock(s, ptr, lo, hi);
      ReleaseKeepsInv(s.blocks, Find(s.blocks, ptr, 0), lo, hi);
      ReleaseForgets(s.blocks, Find(s.blocks, ptr, 0), lo, hi);
      hide Holds, Inv, Release, Contents, Dropped, Payload, Live;
      DropStep(s, s', lo, hi, b);
    }
  }

  lemma NothingChanged(s: Memory, s': Memory, lo: nat, hi: nat)
    requires Good(s, lo, hi) && Good(s', lo, hi) && s'.blocks == s.blocks
    requires forall b :: b in Live(s.blocks) ==>
      End(b) <= |s.bytes| && End(b) <= |s'.bytes| && Payload(s'.bytes, b) == Payload(s.bytes, b)
    ensures Contents(s', lo, hi) == Contents(s, lo, hi)
  {
    NoBlock(s.bytes);
    NoBlock(s'.bytes);
    hide Good, Live, Contents, Pairs, Payload;
    ContentsChange(s, s', lo, hi, {}, {});
  }

  lemma StepResize(s: Memory, ptr: nat, size: nat, p: nat, s': Memory, lo: nat, hi: nat)
    requires Good(s, lo, hi) && Holds(s'.bytes, s'.blocks, lo, hi) && ptr != 0 && size > 0 && IsLive(s.blocks, ptr)
    requires Outcome(s'.blocks, p) == Realloc(s.blocks, ptr, size)
    requires Reallocated(s.bytes, s'.bytes, s.blocks, Find(s.blocks, ptr, 0), p)
    ensures Good(s', lo, hi) && Resized(Contents(s, lo, hi), ptr, size, p, Contents(s', lo, hi))
  {
    hide *;
    var k := Find(s.blocks, ptr, 0);
    var b := LiveBlock(s, ptr, lo, hi);
    GoodAfter(s, s', ptr, size, p, lo, hi);
    ReallocatedFacts(s.bytes, s'.bytes, s.blocks, k, p);
    if p == 0 {
      NothingChanged(s, s', lo, hi);
      Unresized(Contents(s, lo, hi), ptr, size, Payload(s.bytes, b));
    } else {
      var c := ExchangeWitness(s.blocks, s'.blocks, b, p, size);
      ContentsAt(s', lo, hi, c);
      PayloadGrown(s.bytes, s'.bytes, b, c);
      ResizeSwap(s, s', lo, hi, b, c, size);
    }
  }

  lemma GoodAfter(s: Memory, s': Memory, ptr: nat, size: nat, p: nat, lo: nat, hi: nat)
    requires Good(s, lo, hi) && Holds(s'.bytes, s'.blocks, lo, hi) && ptr != 0 && size > 0 && IsLive(s.blocks, ptr)
    requires Outcome(s'.blocks, p) == Realloc(s.blocks, ptr, size)
    ensures Good(s', lo, hi) && (p == 0 ==> s'.blocks == s.blocks)
    ensures var k := Find(s.blocks, ptr, 0); k < |s.blocks| && (p != 0 ==>
        Exchanges(s.blocks, s'.blocks, s.blocks[k], p, size))
  {
    ReallocKeepsInv(s.blocks, ptr, size, lo, hi);
    ReallocExchanges(s.blocks, ptr, size, lo, hi);
    hide Holds, Inv, Realloc, Live, Malloc, GrowsInPlace, Exchanges;
  }

  lemma ReallocatedFacts(m: seq<byte>, m': seq<byte>, bs: seq<Block>, k: nat, p: nat)
    requires k < |bs| && Reallocated(m, m', bs, k, p)
    ensures |m'| == |m| && End(bs[k]) <= |m|
    ensures forall x :: x in Live(bs) && x != bs[k] ==> End(x) <= |m| && Payload(m', x) == Payload(m, x)
    ensures p == 0 ==> forall x :: x in Live(bs) ==> End(x) <= |m| && End(x) <= |m'| && Payload(m', x) == Payload(m, x)
    ensures p != 0 ==> p + bs[k].size <= |m'| && m'[p..p + bs[k].size] == Payload(m, bs[k])
  {
  }

  lemma ExchangeWitness(before: seq<Block>, after: seq<Block>, b: Block, p: nat, size: nat) returns (c: Block)
    requires Exchanges(before, after, b, p, size)
    ensures Start(c) == p && c.size >= size && c.size >= b.size && (c !in Live(before) || c == b)
    ensures if b.size >= size then c == b else c.size <= size + 24
    ensures c in Live(after) && Live(after) == Live(before) - {b} + {c}
  {
    c :| Start(c) == p && c.used && c.size >= size && c.size >= b.size &&
         (if b.size >= size then c == b else Snug(before, c, size)) && (c !in Live(before) || c == b) &&
         Live(after) == Live(before) - {b} + {c};
  }

  lemma Unresized(before: set<(nat, seq<byte>)>, ptr: nat, size: nat, c: seq<byte>)
    requires (ptr, c) in before
    ensures Resized(before, ptr, size, 0, before)
  {
  }

  lemma PayloadGrown(m: seq<byte>, m': seq<byte>, b: Block, c: Block)
    requires End(b) <= |m| && End(c) <= |m'| && b.size <= c.size
    requires m'[Start(c)..Start(c) + b.size] == Payload(m, b)
    ensures Payload(m, b) <= Payload(m', c)
  {
    assert Payload(m', c)[..b.size] == m'[Start(c)..Start(c) + b.size];
  }

  lemma ResizeSwap(s: Memory, s': Memory, lo: nat, hi: nat, b: Block, c: Block, size: nat)
    requires Good(s, lo, hi) && Good(s', lo, hi) && b in Live(s.blocks) && c in Live(s'.blocks)
    requires Live(s'.blocks) == Live(s.blocks) - {b} + {c} && (c !in Live(s.blocks) || c == b) && size <= c.size
    requires if b.size >= size then c == b else c.size <= size + 24
    requires |s'.bytes| == |s.bytes| && End(b) <= |s.bytes| && End(c) <= |s'.bytes|
    requires forall x :: x in Live(s.blocks) && x != b ==>
      End(x) <= |s.bytes| && Payload(s'.bytes, x) == Payload(s.bytes, x)
    requires Payload(s.bytes, b) <= Payload(s'.bytes, c)
    ensures Resized(Contents(s, lo, hi), Start(b), size, Start(c), Contents(s', lo, hi))
  {
    hide Good, Live, Contents, Payload;
    SwapStep(s, s', lo, hi, b, c);
    ContentsAt(s, lo, hi, b);
    PayloadLength(s.bytes, b);
    PayloadLength(s'.bytes, c);
    if Start(c) != Start(b) { FreshSwap(s, s', lo, hi, b, c); }
  }

  lemma FreshSwap(s: Memory, s': Memory, lo: nat, hi: nat, b: Block, c: Block)
    requires Good(s, lo, hi) && Good(s', lo, hi) && b in Live(s.blocks) && c in Live(s'.blocks)
    requires Live(s'.blocks) == Live(s.blocks) - {b} + {c} && c !in Live(s.blocks) && Start(c) != Start(b)
    ensures Fresh(Contents(s, lo, hi), Start(c))
  {
    hide Good, Live, Contents, Pairs, Payload;
    forall x | x in Contents(s, lo, hi)
      ensures x.0 != Start(c)
    {
      var d := ContentsFrom(s, lo, hi, x);
      if d != b {
        ContentsAt(s', lo, hi, d);
        ContentsAt(s', lo, hi, c);
      }
    }
  }

  lemma StepStore(s: Memory, ptr: nat, at: nat, data: seq<byte>, s': Memory, lo: nat, hi: nat)
    requires Good(s, lo, hi) && IsLive(s.blocks, ptr) && at + |data| <= s.blocks[Find(s.blocks, ptr, 0)].size
    requires ptr + at + |data| <= |s.bytes| && s'.blocks == s.blocks && s'.bytes == Splice(s.bytes, ptr + at, data)
    ensures Good(s', lo, hi) && Stored(Contents(s, lo, hi), ptr, at, data, Contents(s', lo, hi))
  {
    var k := Find(s.blocks, ptr, 0);
    var b := LiveBlock(s, ptr, lo, hi);
    SpliceWrites(s.bytes, ptr + at, data);
    hide Splice, Contents, Payload, Inv, Live;
    WriteHolds(s.bytes, s'.bytes, s.blocks, k, ptr + at, |data|, lo, hi);
    OthersUnwritten(s.bytes, s'.bytes, s.blocks, k, ptr + at, |data|, lo, hi);
    SpliceInside(s.bytes, b, at, data);
    ContentsAt(s, lo, hi, b);
    StoreSwap(s, s', lo, hi, b, at, data);
  }

  lemma SpliceWrites(m: seq<byte>, at: nat, data: seq<byte>)
    requires at + |data| <= |m|
    ensures WroteInto(m, Splice(m, at, data), at, |data|)
  {
  }

  lemma OthersUnwritten(m: seq<byte>, m': seq<byte>, bs: seq<Block>, k: nat, at: nat, n: nat, lo: nat, hi: nat)
    requires Tiles(bs, lo, hi) && hi <= |m| && k < |bs| && Start(bs[k]) <= at && at + n <= End(bs[k])
    requires WroteInto(m, m', at, n)
    ensures forall x :: x in Live(bs) && x != bs[k] ==> End(x) <= |m| && Payload(m', x) == Payload(m, x)
  {
    forall x | x in Live(bs) && x != bs[k]
      ensures End(x) <= |m| && Payload(m', x) == Payload(m, x)
    {
      var i :| 0 <= i < |bs| && bs[i] == x;
      Apart(bs, lo, hi, k, i);
      WroteElsewhere(m, m', at, n, Start(x), End(x));
    }
  }

  lemma SpliceInside(m: seq<byte>, b: Block, at: nat, data: seq<byte>)
    requires End(b) <= |m| && at + |data| <= b.size
    ensures Payload(Splice(m, Start(b) + at, data), b) == Splice(Payload(m, b), at, data)
  {
    var l, r := Payload(Splice(m, Start(b) + at, data), b), Splice(Payload(m, b), at, data);
    forall i | 0 <= i < |r|
      ensures l[i] == r[i]
    {
      SpliceIndex(m, Start(b) + at, data, Start(b) + i);
      SpliceIndex(Payload(m, b), at, data, i);
    }
  }

  lemma SpliceIndex<T>(s: seq<T>, at: nat, d: seq<T>, i: nat)
    requires at + |d| <= |s| && i < |s|
    ensures Splice(s, at, d)[i] == if at <= i < at + |d| then d[i - at] else s[i]
  {
  }

  lemma StoreSwap(s: Memory, s': Memory, lo: nat, hi: nat, b: Block, at: nat, data: seq<byte>)
    requires Good(s, lo, hi) && Good(s', lo, hi) && b in Live(s.blocks) && s'.blocks == s.blocks
    requires |s'.bytes| == |s.bytes| && End(b) <= |s.bytes| && at + |data| <= b.size
    requires forall x :: x in Live(s.blocks) && x != b ==>
      End(x) <= |s.bytes| && Payload(s'.bytes, x) == Payload(s.bytes, x)
    requires at <= |Payload(s.bytes, b)| && Payload(s'.bytes, b) == Splice(Payload(s.bytes, b), at, data)
    ensures Stored(Contents(s, lo, hi), Start(b), at, data, Contents(s', lo, hi))
  {
    hide Good, Live, Contents, Payload, Splice;
    assert Live(s'.blocks) == Live(s.blocks) - {b} + {b};
    SwapStep(s, s', lo, hi, b, b);
    ContentsAt(s, lo, hi, b);
    PayloadLength(s.bytes, b);
  }

  // ----- whole runs -----

  ghost predicate Run(ss: seq<Memory>, ops: seq<Op>, ps: seq<nat>, lo: nat, hi: nat) {
    && |ss| == |ops| + 1 && |ps| == |ops|
    && forall i :: 0 <= i < |ops| ==> Step(ss[i], ops[i], ps[i], ss[i + 1], lo, hi)
  }

  /** A run of the ideal heap. */
  ghost predicate IdealRun(ss: seq<Memory>, ops: seq<Op>, ps: seq<nat>, lo: nat, hi: nat)
    requires |ss| == |ops| + 1 && |ps| == |ops| && forall i :: 0 <= i < |ss| ==> Good(ss[i], lo, hi)
  {
    forall i :: 0 <= i < |ops| ==> Ideal(Contents(ss[i], lo, hi), ops[i], ps[i], Contents(ss[i + 1], lo, hi))
  }

  /** In every run, every state is good, no byte of the region is lost, and the contents evolve
      as an ideal heap's. */
  lemma {:induction false} RunRefines(ss: seq<Memory>, ops: seq<Op>, ps: seq<nat>, lo: nat, hi: nat)
    requires Run(ss, ops, ps, lo, hi) && ss != [] && Good(ss[0], lo, hi)
    ensures forall i :: 0 <= i < |ss| ==> Good(ss[i], lo, hi)
    ensures |ss| == |ops| + 1 && |ps| == |ops| && IdealRun(ss, ops, ps, lo, hi)
    ensures forall i :: 0 <= i < |ss| ==>
      Available(ss[i].blocks) + InUse(ss[i].blocks) + HEADER * |ss[i].blocks| == hi - lo
    decreases |ops|
  {
    hide *;
    RunLengths(ss, ops, ps, lo, hi);
    GoodAccounts(ss[0], lo, hi);
    if ops != [] {
      FirstStep(ss, ops, ps, lo, hi);
      StepRefines(ss[0], ops[0], ps[0], ss[1], lo, hi);
      RunRefines(ss[1..], ops[1..], ps[1..], lo, hi);
      forall i | 0 <= i < |ss|
        ensures Good(ss[i], lo, hi)
        ensures Available(ss[i].blocks) + InUse(ss[i].blocks) + HEADER * |ss[i].blocks| == hi - lo
      {
        if i > 0 { assert ss[1..][i - 1] == ss[i]; }
      }
    } else {
      assert |ss| == 1;
    }
    IdealFrom(ss, ops, ps, lo, hi);
  }

  lemma RunLengths(ss: seq<Memory>, ops: seq<Op>, ps: seq<nat>, lo: nat, hi: nat)
    requires Run(ss, ops, ps, lo, hi)
    ensures |ss| == |ops| + 1 && |ps| == |ops|
  {
    hide Step;
  }

  lemma GoodAccounts(s: Memory, lo: nat, hi: nat)
    requires Good(s, lo, hi)
    ensures Available(s.blocks) + InUse(s.blocks) + HEADER * |s.blocks| == hi - lo
  {
    EveryByteAccounted(s.blocks, lo, hi);
  }

  lemma FirstStep(ss: seq<Memory>, ops: seq<Op>, ps: seq<nat>, lo: nat, hi: nat)
    requires Run(ss, ops, ps, lo, hi) && ops != []
    ensures |ss| > 1 && ps != [] && Step(ss[0], ops[0], ps[0], ss[1], lo, hi) && Run(ss[1..], ops[1..], ps[1..], lo, hi)
  {
    hide Step;
  }

  lemma IdealFrom(ss: seq<Memory>, ops: seq<Op>, ps: seq<nat>, lo: nat, hi: nat)
    requires Run(ss, ops, ps, lo, hi) && forall i :: 0 <= i < |ss| ==> Good(ss[i], lo, hi)
    ensures IdealRun(ss, ops, ps, lo, hi)
  {
    hide Step, Good, Ideal, Contents;
    forall i | 0 <= i < |ops|
      ensures Ideal(Contents(ss[i], lo, hi), ops[i], ps[i], Contents(ss[i + 1], lo, hi))
    {
      StepRefines(ss[i], ops[i], ps[i], ss[i + 1], lo, hi);
    }
  }
}
