/** File names in 32-byte directory slots: long-name slots, 8.3 aliases, and the
    parser that reads both back ("FAT Directory Structure" and "FAT Long Directory
    Entries" of the FAT specification, version 1.03). Characters are bytes; `char`
    is signed in the original, so its comparisons of a `char` with 0xE5 never hold. */
module Fat32Names {
  import opened Wrappers
  import opened Bytes

  type Slot = s: seq<byte> | |s| == 32 witness Zeros(32)

  const LONG_NAME: byte := 0x0F
  const DELETED: byte := 0xE5
  const SPACE: byte := 0x20
  const DOT: byte := 0x2E
  const PLUS: byte := 0x2B
  const TILDE: byte := 0x7E
  /** Size of the iterator's long-name buffer. */
  const LFN_BUFFER := 260

  predicate NulFree(s: seq<byte>)
  {
    forall i :: 0 <= i < |s| ==> s[i] != 0
  }

  /** The C string at the front of `s`. */
  function CStr(s: seq<byte>): (r: seq<byte>)
    ensures NulFree(r) && |r| <= |s| && r == s[..|r|]
    ensures |r| < |s| ==> s[|r|] == 0
  {
    if s == [] || s[0] == 0 then [] else [s[0]] + CStr(s[1..])
  }

  lemma {:induction false} CStrIs(s: seq<byte>, name: seq<byte>)
    requires NulFree(name) && name <= s
    requires |name| < |s| ==> s[|name|] == 0
    ensures CStr(s) == name
  {
    if name != [] {
      assert s[0] == name[0];
      CStrIs(s[1..], name[1..]);
    }
  }

  // ----- long-name slots -----

  /** Low byte of the UTF-16 unit stored for position `pos`: the name, its terminator, then 0xFFFF. */
  function UnitLow(name: seq<byte>, pos: nat): byte {
    if pos < |name| then name[pos] else if pos == |name| then 0 else 0xFF
  }

  /** High byte; a character above 0x7F is sign-extended. */
  function UnitHigh(name: seq<byte>, pos: nat): byte {
    if pos < |name| then (if name[pos] >= 0x80 then 0xFF else 0) else if pos == |name| then 0 else 0xFF
  }

  function Units(name: seq<byte>, pos: nat, n: nat): (s: seq<byte>)
    ensures |s| == 2 * n
    ensures forall i :: 0 <= i < n ==> s[2 * i] == UnitLow(name, pos + i) && s[2 * i + 1] == UnitHigh(name, pos + i)
  {
    if n == 0 then [] else Units(name, pos, n - 1) + [UnitLow(name, pos + n - 1), UnitHigh(name, pos + n - 1)]
  }

  /** Slot `eIdx` of the `n` that hold `name`; the last one carries the end flag. */
  function LongSlot(name: seq<byte>, eIdx: nat, n: nat, checksum: byte): (s: Slot)
    requires eIdx < n <= 20
  {
    [eIdx + 1 + if eIdx == n - 1 then 0x40 else 0]
    + Units(name, 13 * eIdx, 5)
    + [LONG_NAME, 0, checksum]
    + Units(name, 13 * eIdx + 5, 6)
    + [0, 0]
    + Units(name, 13 * eIdx + 11, 2)
  }

  function LongSlots(name: seq<byte>, n: nat, checksum: byte): (ss: seq<Slot>)
    requires n <= 20
    ensures |ss| == n
  {
    seq(n, e requires 0 <= e < n => LongSlot(name, e, n, checksum))
  }

  predicate IsLong(s: Slot) { s[11] == LONG_NAME }

  predicate IsFree(s: Slot) { s[0] == DELETED || s[0] == 0 }

  predicate IsLive(s: Slot) { !IsLong(s) && !IsFree(s) }

  function Sequence(s: Slot): nat { s[0] % 32 }

  predicate IsLast(s: Slot) { s[0] / 64 % 2 == 1 }

  /** Offset in a long-name slot of the low byte of its `i`-th character. */
  function CharOffset(i: nat): (o: nat)
    requires i < 13
    ensures o < 32
  {
    if i < 5 then 1 + 2 * i else if i < 11 then 14 + 2 * (i - 5) else 28 + 2 * (i - 11)
  }

  function Chunk(s: Slot): (c: seq<byte>)
    ensures |c| == 13
  {
    seq(13, i requires 0 <= i < 13 => s[CharOffset(i)])
  }

  lemma ChunkOfLongSlot(name: seq<byte>, eIdx: nat, n: nat, checksum: byte, i: nat)
    requires eIdx < n <= 20 && i < 13
    ensures Chunk(LongSlot(name, eIdx, n, checksum))[i] == UnitLow(name, 13 * eIdx + i)
    ensures IsLong(LongSlot(name, eIdx, n, checksum))
    ensures Sequence(LongSlot(name, eIdx, n, checksum)) == eIdx + 1
    ensures LongSlot(name, eIdx, n, checksum)[0] != DELETED
    ensures IsLast(LongSlot(name, eIdx, n, checksum)) <==> eIdx == n - 1
  {
    var s := LongSlot(name, eIdx, n, checksum);
    var a, b, c := Units(name, 13 * eIdx, 5), Units(name, 13 * eIdx + 5, 6), Units(name, 13 * eIdx + 11, 2);
    assert s[1..11] == a && s[14..26] == b && s[28..32] == c;
    if i < 5 {
      assert s[1..11][2 * i] == s[1 + 2 * i];
    } else if i < 11 {
      assert s[14..26][2 * (i - 5)] == s[14 + 2 * (i - 5)];
    } else {
      assert s[28..32][2 * (i - 11)] == s[28 + 2 * (i - 11)];
    }
  }

  // ----- the parser -----

  datatype Entry = Entry(name: seq<byte>, cluster: u32, attr: byte, size: u32)

  /** What an iterator carries from slot to slot. */
  datatype ScanState = ScanState(buf: seq<byte>, lfn: bool)

  /** The characters of one long-name slot are stored at its place, with a terminator behind them. */
  function StoreChunk(buf: seq<byte>, s: Slot): (r: seq<byte>)
    requires |buf| == LFN_BUFFER && 1 <= Sequence(s) <= 19
    ensures |r| == |buf|
  {
    Splice(buf, 13 * (Sequence(s) - 1), Chunk(s) + [0])
  }

  /** The sequence numbers whose characters and terminator fit the long-name buffer. */
  predicate FitsBuffer(s: Slot) { IsLong(s) ==> 1 <= Sequence(s) <= 19 }

  function Lower(c: byte): byte { if 0x41 <= c <= 0x5A then c + 0x20 else c }

  function Upper(c: byte): byte { if 0x61 <= c <= 0x7A then c - 0x20 else c }

  function MapLower(s: seq<byte>): (r: seq<byte>)
    ensures |r| == |s|
  {
    seq(|s|, i requires 0 <= i < |s| => Lower(s[i]))
  }

  function MapUpper(s: seq<byte>): (r: seq<byte>)
    ensures |r| == |s|
  {
    seq(|s|, i requires 0 <= i < |s| => Upper(s[i]))
  }

  /** `stricmp` finds no difference. */
  predicate SameName(a: seq<byte>, b: seq<byte>) { MapLower(a) == MapLower(b) }

  function TrimSpaces(s: seq<byte>): (r: seq<byte>)
    ensures r <= s
    ensures r != [] ==> r[|r| - 1] != SPACE
  {
    if s == [] || s[|s| - 1] != SPACE then s else TrimSpaces(s[..|s| - 1])
  }

  function Cased(s: seq<byte>, low: bool): (r: seq<byte>)
    ensures |r| == |s|
  {
    if low then MapLower(s) else s
  }

  predicate BaseLow(s: Slot) { s[12] / 8 % 2 == 1 }

  predicate ExtLow(s: Slot) { s[12] / 16 % 2 == 1 }

  /** The name an 8.3 slot spells by itself. */
  function ShortName(s: Slot): seq<byte> {
    var base := CStr(TrimSpaces(Cased(s[..8], BaseLow(s))));
    var ext := CStr(TrimSpaces(Cased(s[8..11], ExtLow(s))));
    if ext == [] then base else base + [DOT] + ext
  }

  function Word(b0: byte, b1: byte, b2: byte, b3: byte): u32 {
    var w: int := b3;
    w * 0x100_0000 + (b2 as int) * 0x1_0000 + (b1 as int) * 0x100 + b0
  }

  function SlotCluster(s: Slot): u32 {
    Word(s[26], s[27], s[20], s[21])
  }

  function SlotSize(s: Slot): u32 {
    Word(s[28], s[29], s[30], s[31])
  }

  function ParseSlot(s: Slot, st: ScanState): (r: (ScanState, Option<Entry>))
    requires |st.buf| == LFN_BUFFER && FitsBuffer(s)
    ensures |r.0.buf| == LFN_BUFFER
  {
    if IsLong(s) then (ScanState(StoreChunk(st.buf, s), st.lfn || IsLast(s)), None)
    else if IsFree(s) then (st, None)
    else (st.(lfn := false),
          Some(Entry(if st.lfn then CStr(st.buf) else ShortName(s), SlotCluster(s), s[11], SlotSize(s))))
  }

  /** `parseFAT32Entry`: the buffer is the iterator's, the flag is returned. */
  method ParseEntry(s: Slot, lfnBuf: array<byte>, lfn: bool) returns (entry: Option<Entry>, lfn': bool)
    requires lfnBuf.Length == LFN_BUFFER && FitsBuffer(s)
    modifies lfnBuf
    ensures (ScanState(lfnBuf[..], lfn'), entry) == ParseSlot(s, ScanState(old(lfnBuf[..]), lfn))
  {
    if IsLong(s) {
      StoreChars(s, lfnBuf);
      return None, lfn || IsLast(s);
    }
    if IsFree(s) { return None, lfn; }
    var name := if !lfn then ShortName(s) else CStr(lfnBuf[..]);
    return Some(Entry(name, SlotCluster(s), s[11], SlotSize(s))), false;
  }

  method StoreChars(s: Slot, lfnBuf: array<byte>)
    requires lfnBuf.Length == LFN_BUFFER && 1 <= Sequence(s) <= 19
    modifies lfnBuf
    ensures lfnBuf[..] == StoreChunk(old(lfnBuf[..]), s)
  {
    hide Chunk, LowBytes;
    var pos := 13 * (Sequence(s) - 1);
    ghost var was := lfnBuf[..];
    CopyChars(s, 1, 5, lfnBuf, pos);
    CopyChars(s, 14, 6, lfnBuf, pos + 5);
    CopyChars(s, 28, 2, lfnBuf, pos + 11);
    ghost var now := lfnBuf[..];
    lfnBuf[pos + 13] := 0;
    assert lfnBuf[..] == Splice(now, pos + 13, [0]);
    ChunkPieces(s);
    SpliceFour(was, pos, LowBytes(s, 1, 5), LowBytes(s, 14, 6), LowBytes(s, 28, 2));
  }

  lemma SpliceFour(s: seq<byte>, at: nat, a: seq<byte>, b: seq<byte>, c: seq<byte>)
    requires |a| == 5 && |b| == 6 && |c| == 2 && at + 14 <= |s|
    ensures Splice(Splice(Splice(Splice(s, at, a), at + 5, b), at + 11, c), at + 13, [0])
         == Splice(s, at, a + b + c + [0])
  {
    SpliceTwice(s, at, a, b);
    SpliceTwice(s, at, a + b, c);
    SpliceTwice(s, at, a + b + c, [0]);
  }

  lemma SpliceTwice(s: seq<byte>, at: nat, a: seq<byte>, b: seq<byte>)
    requires at + |a| + |b| <= |s|
    ensures Splice(Splice(s, at, a), at + |a|, b) == Splice(s, at, a + b)
  {
  }

  /** Every other byte of `s` from `from` on. */
  function LowBytes(s: Slot, from: nat, n: nat): (r: seq<byte>)
    requires from + 2 * n <= 32
    ensures |r| == n
  {
    seq(n, i requires 0 <= i < n => s[from + i * 2])
  }

  lemma ChunkPieces(s: Slot)
    ensures Chunk(s) == LowBytes(s, 1, 5) + LowBytes(s, 14, 6) + LowBytes(s, 28, 2)
  {
  }

  method CopyChars(s: Slot, from: nat, n: nat, lfnBuf: array<byte>, pos: nat)
    requires from + 2 * n <= 32 && pos + n <= lfnBuf.Length
    modifies lfnBuf
    ensures lfnBuf[..] == Splice(old(lfnBuf[..]), pos, LowBytes(s, from, n))
  {
    for i := 0 to n
      invariant forall k :: 0 <= k < i ==> lfnBuf[pos + k] == s[from + k * 2]
      invariant forall k :: 0 <= k < lfnBuf.Length && !(pos <= k < pos + i) ==> lfnBuf[k] == old(lfnBuf[k])
    {
      lfnBuf[pos + i] := s[from + i * 2];
    }
    assert forall k :: pos <= k < pos + n ==> lfnBuf[k] == LowBytes(s, from, n)[k - pos];
  }
}
