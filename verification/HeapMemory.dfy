/** The block list as it lies in memory: 24-byte headers in front of the payloads. */
module HeapMemory {
  import opened Bytes
  import opened HeapBlocks
  import opened HeapLaws

  const MEM_IN_USE: byte := 1

  datatype Header = Header(size: nat, next: nat, flags: byte)

  function HeaderAt(m: seq<byte>, a: nat): Header
    requires a + HEADER <= |m|
  {
    Header(Dec(m[a..a + 8]), Dec(m[a + 8..a + 16]), m[a + 16])
  }

  /** The address of block `i`; behind the last block, NULL. */
  function AddrOf(bs: seq<Block>, i: nat): nat { if i < |bs| then bs[i].addr else 0 }

  function HeaderOf(bs: seq<Block>, i: nat): Header
    requires i < |bs|
  {
    Header(bs[i].size, AddrOf(bs, i + 1), if bs[i].used then MEM_IN_USE else 0)
  }

  /** The region `lo..hi` of memory `m` holds the list `bs`. */
  ghost predicate Holds(m: seq<byte>, bs: seq<Block>, lo: nat, hi: nat) {
    && Tiles(bs, lo, hi) && 0 < lo && hi <= |m| < Pow256(8)
    && forall i :: 0 <= i < |bs| ==> HoldsAt(m, bs, i)
  }

  ghost predicate HoldsAt(m: seq<byte>, bs: seq<Block>, i: nat)
    requires i < |bs|
  {
    bs[i].addr + HEADER <= |m| && HeaderAt(m, bs[i].addr) == HeaderOf(bs, i)
  }

  /** The header's bytes: the size in the first 8, the address of the next header or 0 in the next 8, the flag in
      bit 0 of the next one; the payload begins 24 bytes behind the header. */
  lemma HeaderBytes(m: seq<byte>, bs: seq<Block>, lo: nat, hi: nat, i: nat)
    requires Holds(m, bs, lo, hi) && i < |bs|
    ensures var b := bs[i]; var a := b.addr;
      && a + 24 + b.size <= |m| && Start(b) == a + 24
      && m[a..a + 8] == Enc(b.size, 8) && m[a + 16] == (if b.used then 1 else 0)
      && m[a + 8..a + 16] == Enc(if i + 1 < |bs| then a + 24 + b.size else 0, 8)
  {
    var b := bs[i];
    EndsInside(bs, lo, hi, i);
    assert HoldsAt(m, bs, i);
    EncDec(m[b.addr..b.addr + 8]);
    EncDec(m[b.addr + 8..b.addr + 16]);
    hide Dec, Enc;
  }

  // ----- what a write touches -----

  /** Only the 24 bytes from `a` on may differ. */
  ghost predicate OnlyHeader(m: seq<byte>, m': seq<byte>, a: nat) {
    && |m'| == |m| && a + HEADER <= |m|
    && m'[..a] == m[..a] && m'[a + HEADER..] == m[a + HEADER..]
  }

  lemma OtherHeader(m: seq<byte>, m': seq<byte>, a: nat, b: nat)
    requires OnlyHeader(m, m', a) && b + HEADER <= |m| && (b + HEADER <= a || a + HEADER <= b)
    ensures HeaderAt(m', b) == HeaderAt(m, b)
  {
    OtherBytes(m, m', a, b, b + 8);
    OtherBytes(m, m', a, b + 8, b + 16);
    OtherBytes(m, m', a, b + 16, b + 17);
    assert m[b + 16..b + 17][0] == m[b + 16] && m'[b + 16..b + 17][0] == m'[b + 16];
  }

  lemma OtherBytes(m: seq<byte>, m': seq<byte>, a: nat, x: nat, y: nat)
    requires OnlyHeader(m, m', a) && x <= y <= |m| && (y <= a || a + HEADER <= x)
    ensures m'[x..y] == m[x..y]
  {
    forall i | x <= i < y
      ensures m'[i] == m[i]
    {
      if i < a {
        assert m'[..a][i] == m[..a][i];
      } else {
        assert m'[a + HEADER..][i - a - HEADER] == m[a + HEADER..][i - a - HEADER];
      }
    }
  }

  /** A header written at `h` meets no live payload. */
  ghost predicate Safe(bs: seq<Block>, h: nat) {
    forall b :: b in Live(bs) ==> h + HEADER <= Start(b) || End(b) <= h
  }

  function Payload(m: seq<byte>, b: Block): seq<byte>
    requires End(b) <= |m|
  {
    m[Start(b)..End(b)]
  }

  /** No live payload has changed. */
  ghost predicate Kept(m: seq<byte>, m': seq<byte>, bs: seq<Block>) {
    && |m'| == |m|
    && forall b :: b in Live(bs) ==> End(b) <= |m| && Payload(m', b) == Payload(m, b)
  }

  lemma KeptBy(m: seq<byte>, m': seq<byte>, bs: seq<Block>, a: nat, lo: nat, hi: nat)
    requires Tiles(bs, lo, hi) && hi <= |m| && OnlyHeader(m, m', a) && Safe(bs, a)
    ensures Kept(m, m', bs)
  {
    forall b | b in Live(bs)
      ensures End(b) <= |m| && Payload(m', b) == Payload(m, b)
    {
      var i :| 0 <= i < |bs| && bs[i] == b;
      EndsInside(bs, lo, hi, i);
      OtherBytes(m, m', a, Start(b), End(b));
    }
  }

  lemma KeptSame(m: seq<byte>, bs: seq<Block>, lo: nat, hi: nat)
    requires Tiles(bs, lo, hi) && hi <= |m|
    ensures Kept(m, m, bs)
  {
    forall b | b in Live(bs)
      ensures End(b) <= |m|
    {
      var i :| 0 <= i < |bs| && bs[i] == b;
      EndsInside(bs, lo, hi, i);
    }
  }

  lemma KeptTrans(m: seq<byte>, m1: seq<byte>, m2: seq<byte>, bs: seq<Block>)
    requires Kept(m, m1, bs) && Kept(m1, m2, bs)
    ensures Kept(m, m2, bs)
  {
  }

  lemma KeptFor(m: seq<byte>, m': seq<byte>, bs: seq<Block>, fewer: seq<Block>)
    requires Kept(m, m', bs) && Live(fewer) <= Live(bs)
    ensures Kept(m, m', fewer)
  {
  }

  lemma HeadersAreSafe(bs: seq<Block>, k: nat, lo: nat, hi: nat)
    requires Tiles(bs, lo, hi) && k < |bs|
    ensures Safe(bs, bs[k].addr)
  {
    forall i | 0 <= i < |bs|
      ensures bs[k].addr + HEADER <= Start(bs[i]) || End(bs[i]) <= bs[k].addr
    {
      if i < k { BlocksApart(bs, lo, hi, i, k); } else if k < i { BlocksApart(bs, lo, hi, k, i); }
    }
  }

  lemma FreeRoomIsSafe(bs: seq<Block>, k: nat, h: nat, lo: nat, hi: nat)
    requires Tiles(bs, lo, hi) && k < |bs| && !bs[k].used && bs[k].addr <= h && h + HEADER <= End(bs[k])
    ensures Safe(bs, h)
  {
    forall i | 0 <= i < |bs| && i != k
      ensures h + HEADER <= Start(bs[i]) || End(bs[i]) <= h
    {
      if i < k { BlocksApart(bs, lo, hi, i, k); } else { BlocksApart(bs, lo, hi, k, i); }
    }
  }

  // ----- the header writes of the three edits -----

  lemma Apart(bs: seq<Block>, lo: nat, hi: nat, k: nat, i: nat)
    requires Tiles(bs, lo, hi) && k < |bs| && i < |bs| && i != k
    ensures End(bs[i]) <= bs[k].addr || End(bs[k]) <= bs[i].addr
    ensures bs[i].addr + HEADER <= End(bs[i]) <= hi && bs[k].addr + HEADER <= End(bs[k]) <= hi
  {
    if i < k { BlocksApart(bs, lo, hi, i, k); } else { BlocksApart(bs, lo, hi, k, i); }
  }

  lemma MarkHolds(m: seq<byte>, m': seq<byte>, bs: seq<Block>, k: nat, used: bool, lo: nat, hi: nat)
    requires Holds(m, bs, lo, hi) && k < |bs| && OnlyHeader(m, m', bs[k].addr)
    requires HeaderAt(m', bs[k].addr) == HeaderOf(bs, k).(flags := if used then MEM_IN_USE else 0)
    ensures Holds(m', Mark(bs, k, used), lo, hi)
  {
    var r := Mark(bs, k, used);
    MarkTiles(bs, k, used, lo, hi);
    forall i | 0 <= i < |r|
      ensures HoldsAt(m', r, i)
    {
      assert HoldsAt(m, bs, i);
      if i != k {
        Apart(bs, lo, hi, k, i);
        OtherHeader(m, m', bs[k].addr, bs[i].addr);
      }
    }
  }

  lemma AbsorbHolds(m: seq<byte>, m': seq<byte>, bs: seq<Block>, k: nat, lo: nat, hi: nat)
    requires Holds(m, bs, lo, hi) && k + 1 < |bs| && OnlyHeader(m, m', bs[k].addr)
    requires HeaderAt(m', bs[k].addr) ==
             HeaderOf(bs, k).(size := bs[k].size + bs[k + 1].size + HEADER, next := AddrOf(bs, k + 2))
    ensures Holds(m', Absorb(bs, k), lo, hi)
  {
    var r := Absorb(bs, k);
    AbsorbTiles(bs, k, lo, hi);
    forall i | 0 <= i < |r|
      ensures HoldsAt(m', r, i)
    {
      var j := if i <= k then i else i + 1;
      assert HoldsAt(m, bs, j);
      AbsorbedAt(bs, k, i);
      if i + 1 < |r| { AbsorbedAt(bs, k, i + 1); }
      if i != k {
        Apart(bs, lo, hi, k, j);
        OtherHeader(m, m', bs[k].addr, bs[j].addr);
      }
    }
  }

  lemma DivideHolds(m: seq<byte>, m1: seq<byte>, m2: seq<byte>, bs: seq<Block>, k: nat, size: nat, lo: nat, hi: nat)
    requires Holds(m, bs, lo, hi) && k < |bs| && size + HEADER <= bs[k].size
    requires OnlyHeader(m, m1, bs[k].addr + HEADER + size) && OnlyHeader(m1, m2, bs[k].addr)
    requires HeaderAt(m1, bs[k].addr + HEADER + size) == Header(bs[k].size - size - HEADER, AddrOf(bs, k + 1), 0)
    requires HeaderAt(m2, bs[k].addr) == HeaderOf(bs, k).(size := size, next := bs[k].addr + HEADER + size)
    ensures Holds(m2, Divide(bs, k, size), lo, hi)
  {
    hide Tiles, Divide, HeaderAt, OnlyHeader;
    var r := Divide(bs, k, size);
    DivideTiles(bs, k, size, lo, hi);
    assert Tiles(bs, lo, hi);
    EndsInside(bs, lo, hi, k);
    OnlyLength(m, m1, bs[k].addr + HEADER + size);
    OnlyLength(m1, m2, bs[k].addr);
    OtherHeader(m1, m2, bs[k].addr, bs[k].addr + HEADER + size);
    forall i | 0 <= i < |r|
      ensures HoldsAt(m2, r, i)
    {
      DividedAt(bs, k, size, i);
      if i + 1 < |r| { DividedAt(bs, k, size, i + 1); }
      if i < k || i > k + 1 {
        var j := if i < k then i else i - 1;
        assert HoldsAt(m, bs, j);
        Apart(bs, lo, hi, k, j);
        OtherHeader(m, m1, bs[k].addr + HEADER + size, bs[j].addr);
        OtherHeader(m1, m2, bs[k].addr, bs[j].addr);
      }
    }
  }

  lemma OnlyLength(m: seq<byte>, m': seq<byte>, a: nat)
    requires OnlyHeader(m, m', a)
    ensures |m'| == |m|
  {
  }
}
