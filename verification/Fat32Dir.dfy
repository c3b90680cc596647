/** Directories: the slots of a chain of clusters as one sequence, the search for
    room, and the iterator that reads the entries back. */
module Fat32Dir {
  import opened Bytes
  import opened Fat32Volume
  import opened Fat32Mount
  import opened Fat32Names

  const ENTRY_SIZE := 32

  /** The slots of a directory whose offsets in bytes fit 32 bits. */
  const MAX_SLOTS := 0x800_0000

  // ----- a cluster, and a chain of clusters, as slots -----

  function SlotAt(buf: seq<byte>, i: nat): Slot
    requires 32 * i + 32 <= |buf|
  {
    buf[32 * i..32 * i + 32]
  }

  function AsSlots(buf: seq<byte>): (ss: seq<Slot>)
    ensures |ss| == |buf| / 32
  {
    seq(|buf| / 32, i requires 0 <= i < |buf| / 32 => SlotAt(buf, i))
  }

  function PutSlot(buf: seq<byte>, i: nat, s: Slot): (r: seq<byte>)
    requires 32 * i + 32 <= |buf|
    ensures |r| == |buf|
  {
    buf[..32 * i] + s + buf[32 * i + 32..]
  }

  lemma PutSlotEffect(buf: seq<byte>, i: nat, s: Slot)
    requires 32 * i + 32 <= |buf|
    ensures AsSlots(PutSlot(buf, i, s)) == AsSlots(buf)[i := s]
  {
    var r := PutSlot(buf, i, s);
    forall k | 0 <= k < |buf| / 32
      ensures SlotAt(r, k) == if k == i then s else SlotAt(buf, k)
    {
    }
  }

  function SlotRows(v: Volume, cs: seq<nat>): (rows: seq<seq<Slot>>)
    requires Within(cs, |v.data|)
    ensures |rows| == |cs|
  {
    seq(|cs|, k requires 0 <= k < |cs| => AsSlots(v.data[cs[k]]))
  }

  /** The directory stored in chain `cs`, as one sequence of slots. */
  function DirSlots(v: Volume, cs: seq<nat>): seq<Slot>
    requires Within(cs, |v.data|)
  {
    Flatten(SlotRows(v, cs))
  }

  function PerCluster(v: Volume): nat { v.bpc / 32 }

  lemma RowsAreUniform(v: Volume, cs: seq<nat>)
    requires WellFormed(v) && Clusters(v, cs)
    ensures Uniform(SlotRows(v, cs), PerCluster(v)) && |DirSlots(v, cs)| == |cs| * PerCluster(v)
  {
    FlattenLength(SlotRows(v, cs), PerCluster(v));
  }

  lemma DirSlotAt(v: Volume, cs: seq<nat>, k: nat, e: nat)
    requires WellFormed(v) && Clusters(v, cs) && k < |cs| && e < PerCluster(v)
    ensures 0 <= k * PerCluster(v) + e < |DirSlots(v, cs)| && 32 * e + 32 <= |v.data[cs[k]]|
    ensures DirSlots(v, cs)[k * PerCluster(v) + e] == SlotAt(v.data[cs[k]], e)
  {
    RowsAreUniform(v, cs);
    assert IsCluster(v, cs[k]);
    FlattenIndex(SlotRows(v, cs), PerCluster(v), k, e);
  }

  /** Slot `i` of a directory is the 32 bytes at its place in its cluster. */
  lemma SlotBytes(v: Volume, cs: seq<nat>, i: nat)
    requires WellFormed(v) && Clusters(v, cs) && Within(cs, |v.data|) && i < |DirSlots(v, cs)|
    ensures v.bpc / 32 > 0 && i / (v.bpc / 32) < |cs|
    ensures var c, o := v.data[cs[i / (v.bpc / 32)]], 32 * (i % (v.bpc / 32));
      o + 32 <= |c| && DirSlots(v, cs)[i] == c[o..o + 32]
  {
    RowsAreUniform(v, cs);
    var w := v.bpc / 32;
    var k, e := i / w, i % w;
    assert i == k * w + e;
    if k >= |cs| { MulLe(|cs|, k, w); }
    DirSlotAt(v, cs, k, e);
  }

  lemma DirFrame(v: Volume, v': Volume, cs: seq<nat>)
    requires |v'.data| == |v.data| && Within(cs, |v.data|)
    requires forall i :: 0 <= i < |cs| ==> v'.data[cs[i]] == v.data[cs[i]]
    ensures DirSlots(v', cs) == DirSlots(v, cs)
  {
    assert SlotRows(v', cs) == SlotRows(v, cs);
  }

  lemma DirAppend(v: Volume, a: seq<nat>, b: seq<nat>)
    requires Within(a, |v.data|) && Within(b, |v.data|)
    ensures DirSlots(v, a + b) == DirSlots(v, a) + DirSlots(v, b)
  {
    FlattenAppend(SlotRows(v, a), SlotRows(v, b));
    assert SlotRows(v, a + b) == SlotRows(v, a) + SlotRows(v, b);
  }

  lemma RowRewrite(v: Volume, cs: seq<nat>, k: nat, p: seq<byte>)
    requires Within(cs, |v.data|) && Distinct(cs) && k < |cs|
    ensures SlotRows(SetData(v, cs[k], p), cs) == SlotRows(v, cs)[k := AsSlots(p)]
  {
    hide AsSlots;
  }

  /** Rewriting slots `r..r + |news|` of the directory's `k`-th cluster. */
  lemma DirRewrite(v: Volume, cs: seq<nat>, k: nat, p: seq<byte>, r: nat, news: seq<Slot>) returns (a: nat)
    requires WellFormed(v) && Clusters(v, cs) && Distinct(cs) && k < |cs| && |p| == v.bpc
    requires r + |news| <= PerCluster(v) && |v.data[cs[k]]| == v.bpc
    requires AsSlots(p) == Splice(AsSlots(v.data[cs[k]]), r, news)
    ensures a == k * PerCluster(v) && a + r + |news| <= |DirSlots(v, cs)|
    ensures DirSlots(SetData(v, cs[k], p), cs) == Splice(DirSlots(v, cs), a + r, news)
  {
    assert Within(cs, |v.data|);
    RowsAreUniform(v, cs);
    var w, rows := PerCluster(v), SlotRows(v, cs);
    assert rows[k] == AsSlots(v.data[cs[k]]) && |AsSlots(p)| == w;
    assert Flatten(rows) == DirSlots(v, cs);
    hide *;
    RowRewrite(v, cs, k, p);
    a := FlattenUpdate(rows, w, k, AsSlots(p));
    SpliceInside(Flatten(rows), a, w, r, news);
  }

  lemma SpliceInside<T>(s: seq<T>, a: nat, w: nat, r: nat, d: seq<T>)
    requires a + w <= |s| && r + |d| <= w
    ensures s[..a] + Splice(s[a..a + w], r, d) + s[a + w..] == Splice(s, a + r, d)
  {
  }

  // ----- room for new slots -----

  ghost predicate FreeRun(slots: seq<Slot>, i: nat, n: nat)
  {
    i + n <= |slots| && forall k :: i <= k < i + n ==> IsFree(slots[k])
  }

  /** The least index from `i` on at which `n` consecutive free slots start, or `|slots|`. */
  ghost function LeastFree(slots: seq<Slot>, n: nat, i: nat): (r: nat)
    requires n > 0 && i <= |slots|
    ensures i <= r <= |slots|
    ensures r < |slots| ==> FreeRun(slots, r, n)
    ensures forall j :: i <= j < r ==> !FreeRun(slots, j, n)
    decreases |slots| - i
  {
    if i == |slots| || FreeRun(slots, i, n) then i else LeastFree(slots, n, i + 1)
  }

  /** The room found is the first of `n` slots in a row that begin with 0 or 0xE5. */
  lemma RoomIsLeast(slots: seq<Slot>, n: nat, j: nat)
    requires n > 0 && j + n <= |slots|
    ensures var r := LeastFree(slots, n, 0);
      && (r < |slots| ==>
            r + n <= |slots| && forall k :: r <= k < r + n ==> slots[k][0] == 0 || slots[k][0] == 0xE5)
      && ((forall k :: j <= k < j + n ==> slots[k][0] == 0 || slots[k][0] == 0xE5) ==> r <= j)
  {
    var r := LeastFree(slots, n, 0);
    hide LeastFree;
    if forall k :: j <= k < j + n ==> slots[k][0] == 0 || slots[k][0] == 0xE5 {
      assert FreeRun(slots, j, n);
    }
  }

  /** Progress of the search after `p` slots: the last `found` of them are free, the
      one before is not, and no run of `n` ends at or before `p`. */
  ghost predicate Searched(slots: seq<Slot>, n: nat, p: nat, found: nat)
  {
    && found < n && found <= p <= |slots|
    && (forall k :: p - found <= k < p ==> IsFree(slots[k]))
    && (found < p ==> !IsFree(slots[p - found - 1]))
    && forall j :: 0 <= j && j + n <= p ==> !FreeRun(slots, j, n)
  }

  lemma SearchStep(slots: seq<Slot>, n: nat, p: nat, found: nat)
    requires Searched(slots, n, p, found) && p < |slots|
    ensures found < n && found <= p
    ensures !IsFree(slots[p]) ==> Searched(slots, n, p + 1, 0)
    ensures IsFree(slots[p]) && found + 1 < n ==> Searched(slots, n, p + 1, found + 1)
    ensures IsFree(slots[p]) && found + 1 == n ==> LeastFree(slots, n, 0) == p - found
  {
    if !IsFree(slots[p]) {
      forall j | 0 <= j && j + n <= p + 1
        ensures !FreeRun(slots, j, n)
      {
      }
    } else if found + 1 < n {
      forall j | 0 <= j && j + n <= p + 1
        ensures !FreeRun(slots, j, n)
      {
        if j + n == p + 1 { assert j <= p - found - 1 < j + n; }
      }
    } else {
      assert FreeRun(slots, p - found, n);
      var r := LeastFree(slots, n, 0);
      assert r <= p - found;
    }
  }

  lemma SearchFailed(slots: seq<Slot>, n: nat, found: nat)
    requires Searched(slots, n, |slots|, found)
    ensures LeastFree(slots, n, 0) == |slots|
  {
  }

  lemma DirBounds(v: Volume, chain: seq<nat>)
    requires WellFormed(v) && IsChain(v, chain)
    ensures chain != [] && Clusters(v, chain) && Within(chain, |v.data|)
    ensures ENTRY_SIZE == 32 && PerCluster(v) == v.bpc / 32 && |DirSlots(v, chain)| == |chain| * PerCluster(v)
  {
    RowsAreUniform(v, chain);
  }

  lemma ChainAt(v: Volume, chain: seq<nat>, k: nat)
    requires WellFormed(v) && IsChain(v, chain) && k < |chain|
    ensures IsCluster(v, chain[k]) && chain[k] < |v.fat| && |v.data[chain[k]]| == v.bpc && chain[k] < ENDOFCHAIN
    ensures if k + 1 < |chain| then Next(v, chain[k]) == chain[k + 1] else Next(v, chain[k]) >= ENDOFCHAIN
  {
    assert IsCluster(v, chain[k]);
  }

  /** `findFreeEntries`: the least index in the whole directory, end-of-chain when there is none. */
  method FindFreeEntries(mount: FAT32Mount, start: nat, needed: nat, ghost chain: seq<nat>) returns (index: nat)
    requires mount.Valid() && IsChain(mount.Vol(), chain) && chain[0] == start && needed > 0
    requires |DirSlots(mount.Vol(), chain)| < ENDOFCHAIN
    ensures var slots := DirSlots(mount.Vol(), chain);
      index == if LeastFree(slots, needed, 0) == |slots| then ENDOFCHAIN else LeastFree(slots, needed, 0)
  {
    hide *;
    ghost var v := mount.Vol();
    DirBounds(v, chain);
    ghost var slots := DirSlots(v, chain);
    SearchStart(slots, needed);
    var entriesPerCluster := mount.bytesPerCluster / ENTRY_SIZE;
    var cluster := start;
    index := ENDOFCHAIN;
    var clusters: nat := 0;
    var found: nat := 0;
    ghost var base: nat := 0;
    while cluster < ENDOFCHAIN
      invariant clusters <= |chain| && base == clusters * entriesPerCluster
      invariant if clusters < |chain| then cluster == chain[clusters] else cluster >= ENDOFCHAIN
      invariant Searched(slots, needed, base, found)
      invariant index == if found == 0 then ENDOFCHAIN else base - found
      decreases |chain| - clusters
    {
      ChainAt(v, chain, clusters);
      var buf := mount.ReadCluster(cluster);
      ClusterIsPartOfDir(v, chain, clusters);
      var done;
      done, index, found := SearchCluster(buf, clusters * entriesPerCluster, needed, found, index, slots);
      if done { return; }
      MulStep(clusters + 1, entriesPerCluster);
      cluster := mount.GetNextCluster(cluster);
      clusters := clusters + 1;
      base := base + entriesPerCluster;
    }
    if clusters < |chain| { ChainAt(v, chain, clusters); }
    SearchFailed(slots, needed, found);
    index := ENDOFCHAIN;
  }

  /** Buffer `buf` holds slots `base..` of the directory. */
  ghost predicate HoldsSlots(buf: seq<byte>, base: nat, slots: seq<Slot>)
  {
    && base + |buf| / 32 <= |slots|
    && forall e :: 0 <= e < |buf| / 32 ==> SlotAt(buf, e) == slots[base + e]
  }

  lemma ClusterIsPartOfDir(v: Volume, chain: seq<nat>, k: nat)
    requires WellFormed(v) && Clusters(v, chain) && k < |chain|
    ensures 0 <= k * PerCluster(v) && IsCluster(v, chain[k])
    ensures HoldsSlots(v.data[chain[k]], k * PerCluster(v), DirSlots(v, chain))
  {
    assert IsCluster(v, chain[k]);
    RowsAreUniform(v, chain);
    var a := FlattenPiece(SlotRows(v, chain), PerCluster(v), k);
    hide DirSlots;
    forall e | 0 <= e < PerCluster(v)
      ensures SlotAt(v.data[chain[k]], e) == DirSlots(v, chain)[a + e]
    {
      DirSlotAt(v, chain, k, e);
    }
  }

  /** The search through the slots of one cluster. */
  method SearchCluster(buf: seq<byte>, base: nat, needed: nat, found: nat, start: nat, ghost slots: seq<Slot>)
    returns (done: bool, start': nat, found': nat)
    requires HoldsSlots(buf, base, slots) && Searched(slots, needed, base, found)
    requires start == if found == 0 then ENDOFCHAIN else base - found
    ensures done ==> start' == LeastFree(slots, needed, 0) < |slots|
    ensures !done ==> Searched(slots, needed, base + |buf| / 32, found')
    ensures !done ==> start' == if found' == 0 then ENDOFCHAIN else base + |buf| / 32 - found'
  {
    hide Searched, LeastFree, FreeRun;
    start', found' := start, found;
    var eIdx: nat := 0;
    while eIdx < |buf| / ENTRY_SIZE
      invariant 0 <= eIdx <= |buf| / 32
      invariant Searched(slots, needed, base + eIdx, found')
      invariant start' == if found' == 0 then ENDOFCHAIN else base + eIdx - found'
    {
      SearchStep(slots, needed, base + eIdx, found');
      var raw := buf[eIdx * ENTRY_SIZE];
      assert raw == SlotAt(buf, eIdx)[0] == slots[base + eIdx][0];
      if raw == 0xE5 || raw == 0x00 {
        if found' == 0 { start' := base + eIdx; }
        found' := found' + 1;
        if found' == needed { return true, start', found'; }
      } else {
        start' := ENDOFCHAIN;
        found' := 0;
      }
      eIdx := eIdx + 1;
    }
    done := false;
  }

  lemma SearchStart(slots: seq<Slot>, n: nat)
    requires n > 0
    ensures Searched(slots, n, 0, 0)
  {
  }
}
