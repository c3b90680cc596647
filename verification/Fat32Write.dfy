/** Writing directory entries: choosing the alias, making room, storing the slots. */
module Fat32Write {
  import opened Wrappers
  import opened Bytes
  import opened Fat32Volume
  import opened Fat32Mount
  import opened Fat32Names
  import opened Fat32Entries
  import opened Fat32Dir

  class FAT32Entry {
    var parentCluster: nat
    var parentEntryIdx: nat
    var name: seq<byte>
    var cluster: u32
    var attr: byte
    var size: u32

    constructor (parentCluster: nat, name: seq<byte>, cluster: u32, attr: byte, size: u32)
      ensures this.parentCluster == parentCluster && this.name == name && this.cluster == cluster
      ensures this.attr == attr && this.size == size
    {
      this.parentCluster, this.parentEntryIdx, this.name := parentCluster, 0, name;
      this.cluster, this.attr, this.size := cluster, attr, size;
    }
  }

  // ----- the alias -----

  predicate HasAlias(buf: seq<byte>, alias: seq<byte>)
  {
    exists e :: 0 <= e < |buf| / 32 && SlotAt(buf, e)[..11] == alias
  }

  /** `memcmp` with every slot of one cluster. */
  method ClusterHasAlias(buf: seq<byte>, alias: seq<byte>) returns (r: bool)
    requires |buf| % 32 == 0
    ensures r == HasAlias(buf, alias)
  {
    var eIdx := 0;
    while eIdx < |buf|
      invariant 0 <= eIdx <= |buf| && eIdx % 32 == 0
      invariant forall e :: 0 <= e < eIdx / 32 ==> SlotAt(buf, e)[..11] != alias
    {
      assert SlotAt(buf, eIdx / 32) == buf[eIdx..eIdx + 32];
      if buf[eIdx..eIdx + 32][..11] == alias { return true; }
      eIdx := eIdx + 32;
    }
    r := false;
  }

  /** `check83NameExists` */
  method Check83NameExists(mount: FAT32Mount, parentCluster: nat, alias: seq<byte>, ghost dir: seq<nat>)
    returns (r: bool)
    requires mount.Valid() && IsChain(mount.Vol(), dir) && dir[0] == parentCluster
    ensures r == Taken(DirSlots(mount.Vol(), dir), alias)
  {
    ghost var v := mount.Vol();
    ghost var slots := DirSlots(v, dir);
    RowsAreUniform(v, dir);
    assert v.bpc % 32 == 0;
    hide mount.Vol, mount.Valid, DirSlots, WellFormed, HasAlias, HoldsSlots;
    var cluster := parentCluster;
    ghost var k: nat := 0;
    while cluster < ENDOFCHAIN
      invariant k <= |dir|
      invariant if k < |dir| then cluster == dir[k] else cluster >= ENDOFCHAIN
      invariant forall i :: 0 <= i < k * PerCluster(v) && i < |slots| ==> slots[i][..11] != alias
      decreases |dir| - k
    {
      assert IsCluster(v, dir[k]);
      var clusterBuf := mount.ReadCluster(cluster);
      ClusterIsPartOfDir(v, dir, k);
      var found := ClusterHasAlias(clusterBuf, alias);
      AliasInCluster(clusterBuf, k * PerCluster(v), slots, alias);
      if found { return true; }
      MulStep(k + 1, PerCluster(v));
      cluster := mount.GetNextCluster(cluster);
      k := k + 1;
    }
    r := false;
  }

  lemma AliasInCluster(buf: seq<byte>, base: nat, slots: seq<Slot>, alias: seq<byte>)
    requires HoldsSlots(buf, base, slots)
    ensures HasAlias(buf, alias) ==> Taken(slots, alias)
    ensures !HasAlias(buf, alias) ==>
      forall i :: base <= i < base + |buf| / 32 && i < |slots| ==> slots[i][..11] != alias
  {
    if HasAlias(buf, alias) {
      var e :| 0 <= e < |buf| / 32 && SlotAt(buf, e)[..11] == alias;
      assert slots[base + e][..11] == alias;
    } else {
      forall i | base <= i < base + |buf| / 32 && i < |slots|
        ensures slots[i][..11] != alias
      {
        assert SlotAt(buf, i - base) == slots[i];
      }
    }
  }

  /** `get83Name`: the result buffer is returned, `None` for failure. */
  method Get83Name(mount: FAT32Mount, parentCluster: nat, name: seq<byte>, ghost dir: seq<nat>)
    returns (buf: Option<seq<byte>>)
    requires mount.Valid() && IsChain(mount.Vol(), dir) && dir[0] == parentCluster && |Base(name)| <= 11
    ensures buf == AliasFor(DirSlots(mount.Vol(), dir), name)
  {
    hide mount.Vol, mount.Valid, DirSlots, PlainAlias, NumberedAlias, FitsAlias, Taken;
    ghost var slots := DirSlots(mount.Vol(), dir);
    if name == [] { return Some([0] + seq(10, i => SPACE)); }
    if FitsAlias(name) {
      assert |Base(name)| <= 8 by { FitsIsShort(name); }
      var taken := Check83NameExists(mount, parentCluster, PlainAlias(name), dir);
      if !taken { return Some(PlainAlias(name)); }
    }
    var n: nat := 1;
    while n < 1_000_000
      invariant 1 <= n <= 1_000_000
      invariant FirstNumbered(slots, name, n) == FirstNumbered(slots, name, 1)
    {
      var taken := Check83NameExists(mount, parentCluster, NumberedAlias(name, n), dir);
      if !taken { return Some(NumberedAlias(name, n)); }
      n := n + 1;
    }
    buf := None;
  }

  lemma FitsIsShort(name: seq<byte>)
    requires FitsAlias(name)
    ensures |Base(name)| <= 8
  {
  }

  /** Rotation to the right by one bit. */
  function Rotate(sum: byte): byte {
    var s: int := sum;
    s % 2 * 0x80 + s / 2
  }

  function AddChar(sum: byte, c: byte): byte {
    var s: int := Rotate(sum) as int + c;
    s % 0x100
  }

  function ChecksumFrom(name: seq<byte>, i: nat, sum: byte): byte
    requires i <= |name|
    decreases |name| - i
  {
    if i == |name| then sum else ChecksumFrom(name, i + 1, AddChar(sum, name[i]))
  }

  lemma RotateIsInjective(s: byte, t: byte)
    ensures s != t ==> Rotate(s) != Rotate(t)
  {
    var x, y: int := s, t;
    assert x == 2 * (x / 2) + x % 2 && y == 2 * (y / 2) + y % 2;
  }

  lemma AddCharIsInjective(s: byte, t: byte, c: byte, d: byte)
    ensures s != t ==> AddChar(s, c) != AddChar(t, c)
    ensures c != d ==> AddChar(s, c) != AddChar(s, d)
  {
    RotateIsInjective(s, t);
    hide Rotate;
    SumsDiffer(Rotate(s), Rotate(t), c, c);
    SumsDiffer(Rotate(s), Rotate(s), c, d);
  }

  lemma SumsDiffer(u: byte, w: byte, c: byte, d: byte)
    ensures (u != w && c == d) || (u == w && c != d) ==> (u as int + c) % 0x100 != (w as int + d) % 0x100
  {
    var p: int, q: int := u as int + c, w as int + d;
    assert p % 0x100 == if p < 0x100 then p else p - 0x100;
    assert q % 0x100 == if q < 0x100 then q else q - 0x100;
  }

  lemma {:induction false} SumsStayApart(a: seq<byte>, b: seq<byte>, i: nat, s: byte, t: byte)
    requires |a| == |b| && i <= |a| && s != t && forall j :: i <= j < |a| ==> a[j] == b[j]
    ensures ChecksumFrom(a, i, s) != ChecksumFrom(b, i, t)
    decreases |a| - i
  {
    hide AddChar;
    if i < |a| {
      AddCharIsInjective(s, t, a[i], a[i]);
      SumsStayApart(a, b, i + 1, AddChar(s, a[i]), AddChar(t, b[i]));
    }
  }

  /** The checksum tells two aliases that differ in one character apart, wherever that is. */
  lemma {:induction false} OneCharacterShows(a: seq<byte>, b: seq<byte>, k: nat, i: nat, sum: byte)
    requires |a| == |b| && i <= k < |a| && a[k] != b[k] && forall j :: i <= j < |a| && j != k ==> a[j] == b[j]
    ensures ChecksumFrom(a, i, sum) != ChecksumFrom(b, i, sum)
    decreases k - i
  {
    hide AddChar;
    if i == k {
      AddCharIsInjective(sum, sum, a[i], b[i]);
      SumsStayApart(a, b, i + 1, AddChar(sum, a[i]), AddChar(sum, b[i]));
    } else {
      OneCharacterShows(a, b, k, i + 1, AddChar(sum, a[i]));
    }
  }

  method RotateAndAdd(sum: byte, c: byte) returns (r: byte)
    ensures r == AddChar(sum, c)
  {
    var s: int := sum;
    r := (s % 2 * 0x80 + s / 2 + c) % 0x100;
  }

  method Checksum83Name(name: seq<byte>) returns (sum: byte)
    requires |name| == 11
    ensures sum == ChecksumFrom(name, 0, 0)
  {
    hide AddChar;
    sum := 0;
    for i := 0 to 11
      invariant ChecksumFrom(name, i, sum) == ChecksumFrom(name, 0, 0)
    {
      sum := RotateAndAdd(sum, name[i]);
    }
  }

  // ----- room for a new entry -----

  datatype Room = Room(vol: Volume, chain: seq<nat>, start: nat, ok: bool)

  /** The first free run of the directory, or the start of a cluster added to it. */
  ghost function MakeRoomIn(v: Volume, dir: seq<nat>, needed: nat): Room
    requires WellFormed(v) && IsChain(v, dir) && needed > 0
  {
    var slots := DirSlots(v, dir);
    var i := LeastFree(slots, needed, 0);
    if i < |slots| then Room(v, dir, i, true)
    else
      var g := Grow(v, Last(dir), 1);
      Room(g.vol, dir + g.added, |slots|, g.ok)
  }

  method MakeRoom(mount: FAT32Mount, parentCluster: nat, needed: nat, ghost dir: seq<nat>)
    returns (ok: bool, startEntry: nat)
    requires mount.Valid() && IsChain(mount.Vol(), dir) && dir[0] == parentCluster && needed > 0
    requires |DirSlots(mount.Vol(), dir)| < ENDOFCHAIN
    modifies mount.device
    ensures mount.Valid()
    ensures var room := MakeRoomIn(old(mount.Vol()), dir, needed);
      ok == room.ok && mount.Vol() == room.vol && (ok ==> startEntry == room.start)
  {
    ghost var v := mount.Vol();
    RowsAreUniform(v, dir);
    hide mount.Vol, mount.Valid, DirSlots, LeastFree, WellFormed, IsChain;
    startEntry := FindFreeEntries(mount, parentCluster, needed, dir);
    if startEntry < ENDOFCHAIN { return true, startEntry; }
    var entriesPerCluster := mount.bytesPerCluster / ENTRY_SIZE;
    var clusters := CountClusters(mount, parentCluster, dir);
    var start;
    ok, start := mount.ExtendFile(parentCluster, clusters, clusters + 1, dir);
    startEntry := clusters * entriesPerCluster;
  }

  /** The loop that counts the clusters of a directory. */
  method CountClusters(mount: FAT32Mount, start: nat, ghost chain: seq<nat>) returns (clusters: nat)
    requires mount.Valid() && IsChain(mount.Vol(), chain) && chain[0] == start
    ensures clusters == |chain|
  {
    hide mount.Vol, mount.Valid;
    ghost var v := mount.Vol();
    clusters := 1;
    var last := start;
    var more := true;
    while more
      invariant 1 <= clusters <= |chain| && last == chain[clusters - 1]
      invariant !more ==> clusters == |chain|
      decreases |chain| - clusters, more
    {
      assert IsCluster(v, chain[clusters - 1]);
      var next := mount.GetNextCluster(last);
      if clusters < |chain| { InnerLink(v, chain, clusters - 1); }
      if next >= ENDOFCHAIN {
        more := false;
      } else {
        last := next;
        clusters := clusters + 1;
      }
    }
  }

  lemma InnerLink(v: Volume, chain: seq<nat>, i: nat)
    requires WellFormed(v) && IsChain(v, chain) && i + 1 < |chain|
    ensures Next(v, chain[i]) == chain[i + 1] < ENDOFCHAIN
  {
    assert IsCluster(v, chain[i + 1]);
  }

  // ----- filling slots -----

  method FillUnits(raw: array<byte>, off: nat, name: seq<byte>, startPos: nat, count: nat)
    requires off + 2 * count <= raw.Length
    modifies raw
    ensures raw[..] == Splice(old(raw[..]), off, Units(name, startPos, count))
  {
    for i := 0 to count
      invariant forall k :: 0 <= k < i ==>
        raw[off + 2 * k] == UnitLow(name, startPos + k) && raw[off + 2 * k + 1] == UnitHigh(name, startPos + k)
      invariant forall k :: 0 <= k < raw.Length && !(off <= k < off + 2 * i) ==> raw[k] == old(raw[k])
    {
      var pos := startPos + i;
      raw[off + 2 * i] := UnitLow(name, pos);
      raw[off + 2 * i + 1] := UnitHigh(name, pos);
    }
    ghost var u := Units(name, startPos, count);
    forall k | off <= k < off + 2 * count
      ensures raw[k] == u[k - off]
    {
      var h := (k - off) / 2;
      assert raw[off + 2 * h] == u[2 * h] && raw[off + 2 * h + 1] == u[2 * h + 1];
    }
  }

  method FillLongSlot(raw: array<byte>, name: seq<byte>, eIdx: nat, n: nat, checksum: byte)
    requires raw.Length == 32 && eIdx < n <= 20
    modifies raw
    ensures raw[..] == LongSlot(name, eIdx, n, checksum)
  {
    hide *;
    var order: byte := eIdx + 1 + if eIdx == n - 1 then 0x40 else 0;
    ClearSlot(raw, order, checksum);
    FillUnits(raw, 1, name, 13 * eIdx, 5);
    FillUnits(raw, 14, name, 13 * eIdx + 5, 6);
    FillUnits(raw, 28, name, 13 * eIdx + 11, 2);
    LongSlotFields(name, eIdx, n, checksum, order);
  }

  lemma LongSlotFields(name: seq<byte>, eIdx: nat, n: nat, checksum: byte, order: byte)
    requires eIdx < n <= 20 && order == eIdx + 1 + if eIdx == n - 1 then 0x40 else 0
    ensures var a, b, c := Units(name, 13 * eIdx, 5), Units(name, 13 * eIdx + 5, 6), Units(name, 13 * eIdx + 11, 2);
      Splice(Splice(Splice(EmptyLongSlot(order, checksum), 1, a), 14, b), 28, c) == LongSlot(name, eIdx, n, checksum)
  {
    hide Units, Splice, EmptyLongSlot;
    var a, b, c := Units(name, 13 * eIdx, 5), Units(name, 13 * eIdx + 5, 6), Units(name, 13 * eIdx + 11, 2);
    ThreeFields(order, checksum, a, b, c);
  }

  function EmptyLongSlot(order: byte, checksum: byte): (s: seq<byte>)
    ensures |s| == 32
  {
    [order] + Zeros(10) + [0x0F, 0, checksum] + Zeros(18)
  }

  method ClearSlot(raw: array<byte>, order: byte, checksum: byte)
    requires raw.Length == 32
    modifies raw
    ensures raw[..] == EmptyLongSlot(order, checksum)
  {
    forall k | 0 <= k < 32 { raw[k] := 0; }
    raw[0] := order;
    raw[11] := 0x0F;
    raw[12] := 0x00;
    raw[13] := checksum;
    raw[26] := 0x00;
    raw[27] := 0x00;
  }

  lemma ThreeFields(order: byte, checksum: byte, a: seq<byte>, b: seq<byte>, c: seq<byte>)
    requires |a| == 10 && |b| == 12 && |c| == 4
    ensures Splice(Splice(Splice(EmptyLongSlot(order, checksum), 1, a), 14, b), 28, c)
         == [order] + a + [0x0F, 0, checksum] + b + [0, 0] + c
  {
    var s := EmptyLongSlot(order, checksum);
    assert Splice(s, 1, a) == [order] + a + [0x0F, 0, checksum] + Zeros(18);
    assert Splice(Splice(s, 1, a), 14, b) == [order] + a + [0x0F, 0, checksum] + b + Zeros(6);
    assert Zeros(6)[..2] == [0, 0];
  }

  /** Stores the long-name slots, last one first, at slots `r..` of a cluster buffer. */
  method PutLongSlots(clusterBuf: seq<byte>, startEntry: nat, entriesPerCluster: nat, ghost r: nat, name: seq<byte>,
                      lfnEntries: nat, checksum: byte) returns (buf: seq<byte>)
    requires lfnEntries <= 20 && entriesPerCluster > 0 && |clusterBuf| == 32 * entriesPerCluster
    requires r + lfnEntries < entriesPerCluster
    requires startEntry % entriesPerCluster == r
    ensures |buf| == |clusterBuf|
    ensures AsSlots(buf) == Splice(AsSlots(clusterBuf), r, LongSlots(name, lfnEntries, checksum))
  {
    hide LongSlot;
    ghost var was := AsSlots(clusterBuf);
    ghost var longs := LongSlots(name, lfnEntries, checksum);
    buf := clusterBuf;
    for i := 0 to lfnEntries
      invariant |buf| == |clusterBuf|
      invariant AsSlots(buf) == was[..r + lfnEntries - i] + longs[lfnEntries - i..] + was[r + lfnEntries..]
    {
      var eIdx := lfnEntries - 1 - i;
      var raw := new byte[32];
      FillLongSlot(raw, name, eIdx, lfnEntries, checksum);
      ModStep(startEntry, entriesPerCluster, eIdx);
      PutSlotEffect(buf, r + eIdx, raw[..]);
      buf := PutSlot(buf, (startEntry + eIdx) % entriesPerCluster, raw[..]);
      assert longs[eIdx..] == [longs[eIdx]] + longs[eIdx + 1..];
    }
  }

  // ----- writeFAT32Entry -----

  /** The fields of the entry as they go to disk. */
  datatype Image = Image(name: seq<byte>, attr: byte, cluster: u32, size: u32)

  /** The slots written for an entry, given the alias found for it and the slot its
      8.3 part replaces: in place, that slot's own name stays unless the entry is deleted. */
  function EntrySlots(im: Image, inPlace: bool, alias: seq<byte>, slot: Slot): (ss: seq<Slot>)
    requires |alias| == 11
    ensures |ss| == 1 + if inPlace then 0 else RequiredSlots(im.name)
  {
    var n := if inPlace then 0 else RequiredSlots(im.name);
    var first := if im.name == [] then 0 else im.name[0];
    var short := if !inPlace || first == 0x00 || first == 0xE5 then alias else slot[..11];
    NewSlots(im.name, n, ChecksumFrom(alias, 0, 0), EntrySlot(slot, short, im.attr, im.cluster, im.size))
  }

  /** The directory after an entry is written at slot `start`; `None` when no alias is left. */
  function Written(slots: seq<Slot>, im: Image, inPlace: bool, start: nat): (r: Option<seq<Slot>>)
    requires |Base(im.name)| <= 11 && start + (if inPlace then 0 else RequiredSlots(im.name)) < |slots|
    ensures r.Some? ==> |r.value| == |slots|
  {
    var n := if inPlace then 0 else RequiredSlots(im.name);
    match AliasFor(slots, im.name)
    case None => None
    case Some(a) => Some(Splice(slots, start, EntrySlots(im, inPlace, a, slots[start + n])))
  }

  /** From `v` to `v'` only the directory in chain `dir` changed, to `slots`. */
  ghost predicate DirBecame(v: Volume, v': Volume, dir: seq<nat>, slots: seq<Slot>)
  {
    && v'.bpc == v.bpc && v'.fat == v.fat && |v'.data| == |v.data|
    && (forall c :: 0 <= c < |v.data| ==> |v'.data[c]| == |v.data[c]| && (c !in dir ==> v'.data[c] == v.data[c]))
    && Within(dir, |v'.data|) && DirSlots(v', dir) == slots
  }

  /** Place of slot `idx` among the `w` slots of its cluster. */
  function RowOf(idx: nat, w: nat): nat { if w == 0 then 0 else idx % w }

  lemma ModStep(start: nat, w: nat, e: nat)
    requires w > 0 && start % w + e < w
    ensures (start + e) % w == start % w + e
  {
    var k, r := start / w, start % w;
    assert start == w * k + r;
    DivMod(start + e, w, k, r + e);
  }

  lemma Times32(k: nat, w: nat)
    ensures k * (32 * w) == 32 * (k * w)
  {
  }

  lemma LocateSlots(start: nat, n: nat, w: nat, len: nat) returns (k: nat, r: nat)
    requires w > 0 && start % w + n < w && start + n < len * w
    ensures k == (start + n) * 32 / (32 * w) && k < len && r == start % w
    ensures k * w + r == start
  {
    k, r := start / w, start % w;
    assert start == w * k + r;
    Times32(k, w);
    DivMod((start + n) * 32, 32 * w, k, 32 * (r + n));
    if k >= len { MulLe(len, k, w); }
  }

  /** Slots `start..start + n` are slots `r..r + n` of the directory's `k`-th cluster. */
  ghost predicate Places(v: Volume, dir: seq<nat>, start: nat, n: nat, k: nat, r: nat)
  {
    && WellFormed(v) && IsChain(v, dir) && k < |dir| && r + n < PerCluster(v)
    && k * PerCluster(v) + r == start
  }

  lemma PlacedSlot(v: Volume, dir: seq<nat>, start: nat, n: nat, k: nat, r: nat)
    requires Places(v, dir, start, n, k, r)
    ensures IsCluster(v, dir[k]) && start + n < |DirSlots(v, dir)| && 32 * (r + n) + 32 <= |v.data[dir[k]]|
    ensures DirSlots(v, dir)[start + n] == SlotAt(v.data[dir[k]], r + n)
  {
    assert IsCluster(v, dir[k]);
    DirSlotAt(v, dir, k, r + n);
  }

  /** Writing back a cluster of the directory with some slots patched. */
  lemma StoreEffect(v: Volume, dir: seq<nat>, start: nat, n: nat, k: nat, r: nat, patched: seq<byte>, news: seq<Slot>)
    requires Places(v, dir, start, n, k, r) && IsCluster(v, dir[k]) && |patched| == |v.data[dir[k]]|
    requires |news| == n + 1 && AsSlots(patched) == Splice(AsSlots(v.data[dir[k]]), r, news)
    ensures start + |news| <= |DirSlots(v, dir)|
    ensures DirBecame(v, SetData(v, dir[k], patched), dir, Splice(DirSlots(v, dir), start, news))
  {
    ChainIsDistinct(v, dir);
    assert dir[k] in dir;
    hide AsSlots, DirSlots;
    var a := DirRewrite(v, dir, k, patched, r, news);
  }

  /** Patches the entry's slots into a cluster buffer. */
  method PatchCluster(clusterBuf: seq<byte>, im: Image, inPlace: bool, alias: seq<byte>, startEntry: nat,
                      lfnEntries: nat, entriesPerCluster: nat) returns (patched: seq<byte>)
    requires lfnEntries == (if inPlace then 0 else RequiredSlots(im.name)) && |alias| == 11
    requires |clusterBuf| == 32 * entriesPerCluster
    requires RowOf(startEntry, entriesPerCluster) + lfnEntries < entriesPerCluster
    ensures |patched| == |clusterBuf|
    ensures var r := RowOf(startEntry, entriesPerCluster); var row := AsSlots(clusterBuf);
      AsSlots(patched) == Splice(row, r, EntrySlots(im, inPlace, alias, SlotAt(clusterBuf, r + lfnEntries)))
  {
    hide LongSlot, PutSlot, EntrySlot, RequiredSlots;
    ghost var r, row := startEntry % entriesPerCluster, AsSlots(clusterBuf);
    var checksum := Checksum83Name(alias);
    var buf := PutLongSlots(clusterBuf, startEntry, entriesPerCluster, r, im.name, lfnEntries, checksum);
    ModStep(startEntry, entriesPerCluster, lfnEntries);
    var at := (startEntry + lfnEntries) % entriesPerCluster;
    var raw := SlotAt(buf, at);
    assert raw == AsSlots(buf)[at] == row[at];
    var first := if im.name == [] then 0 else im.name[0];
    var short := if !inPlace || first == 0x00 || first == 0xE5 then alias else raw[..11];
    var put := EntrySlot(raw, short, im.attr, im.cluster, im.size);
    PutSlotEffect(buf, at, put);
    patched := PutSlot(buf, at, put);
    SpliceOneMore(row, r, LongSlots(im.name, lfnEntries, checksum), put);
  }

  lemma SpliceOneMore<T>(row: seq<T>, r: nat, longs: seq<T>, put: T)
    requires r + |longs| < |row|
    ensures Splice(row, r, longs)[r + |longs| := put] == Splice(row, r, longs + [put])
  {
  }

  /** Which cluster of the directory holds the entry. */
  method ClusterOffset(startEntry: nat, n: nat, bytesPerCluster: nat, ghost v: Volume, ghost dir: seq<nat>)
    returns (clusterOff: nat, ghost r: nat)
    requires WellFormed(v) && IsChain(v, dir) && bytesPerCluster == v.bpc
    requires RowOf(startEntry, PerCluster(v)) + n < PerCluster(v) && startEntry + n < |DirSlots(v, dir)|
    requires startEntry + n < MAX_SLOTS
    ensures Places(v, dir, startEntry, n, clusterOff, r) && clusterOff < |dir| && r == RowOf(startEntry, PerCluster(v))
  {
    RowsAreUniform(v, dir);
    ghost var q;
    q, r := LocateSlots(startEntry, n, PerCluster(v), |dir|);
    var offset: u32 := (startEntry + n) * ENTRY_SIZE;
    clusterOff := offset / bytesPerCluster;
  }

  /** Reads the cluster that holds the entry, patches its slots and writes it back. */
  method StoreSlots(mount: FAT32Mount, parentCluster: nat, im: Image, inPlace: bool, startEntry: nat, lfnEntries: nat,
                    ghost dir: seq<nat>) returns (ok: bool)
    requires mount.Valid() && IsChain(mount.Vol(), dir) && dir[0] == parentCluster && |Base(im.name)| <= 11
    requires lfnEntries == if inPlace then 0 else RequiredSlots(im.name)
    requires RowOf(startEntry, PerCluster(mount.Vol())) + lfnEntries < PerCluster(mount.Vol())
    requires startEntry + lfnEntries < |DirSlots(mount.Vol(), dir)| && startEntry + lfnEntries < MAX_SLOTS
    modifies mount.device
    ensures mount.Valid()
    ensures var slots' := Written(DirSlots(old(mount.Vol()), dir), im, inPlace, startEntry);
      && ok == slots'.Some?
      && (ok ==> DirBecame(old(mount.Vol()), mount.Vol(), dir, slots'.value))
      && (!ok ==> mount.Vol() == old(mount.Vol()))
  {
    hide *;
    ghost var v := mount.Vol();
    PerClusterIs(v);
    ChainFits(v, dir);
    ghost var slots := DirSlots(v, dir);
    var entriesPerCluster := mount.bytesPerCluster / ENTRY_SIZE;
    var k, r := ClusterOffset(startEntry, lfnEntries, mount.bytesPerCluster, v, dir);
    PlacedSlot(v, dir, startEntry, lfnEntries, k, r);
    var cluster := mount.Walk(parentCluster, k, dir);
    var clusterBuf := mount.ReadCluster(cluster);
    var alias := Get83Name(mount, parentCluster, im.name, dir);
    WrittenIs(slots, im, inPlace, startEntry);
    if alias.None? { return false; }
    var patched := PatchCluster(clusterBuf, im, inPlace, alias.value, startEntry, lfnEntries, entriesPerCluster);
    ghost var news := EntrySlots(im, inPlace, alias.value, slots[startEntry + lfnEntries]);
    StoreEffect(v, dir, startEntry, lfnEntries, k, r, patched, news);
    ok := mount.WriteCluster(patched, cluster);
  }

  lemma PerClusterIs(v: Volume)
    requires WellFormed(v)
    ensures ENTRY_SIZE == 32 && PerCluster(v) == v.bpc / ENTRY_SIZE && v.bpc == 32 * PerCluster(v)
  {
  }

  lemma ChainFits(v: Volume, dir: seq<nat>)
    requires WellFormed(v) && IsChain(v, dir)
    ensures Within(dir, |v.data|) && dir != []
  {
    assert forall i :: 0 <= i < |dir| ==> IsCluster(v, dir[i]);
  }

  lemma WrittenIs(slots: seq<Slot>, im: Image, inPlace: bool, start: nat)
    requires |Base(im.name)| <= 11 && start + (if inPlace then 0 else RequiredSlots(im.name)) < |slots|
    ensures var n := if inPlace then 0 else RequiredSlots(im.name); var a := AliasFor(slots, im.name);
      Written(slots, im, inPlace, start) ==
        if a.None? then None else Some(Splice(slots, start, EntrySlots(im, inPlace, a.value, slots[start + n])))
  {
    hide AliasFor, EntrySlots, RequiredSlots, Splice, Base;
  }
}
